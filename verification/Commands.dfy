/** How the application's command handler reads a line, and its agreement with
    what the UART transport lets through. */
module Commands {
  import opened Text
  import opened UartLink
  import Storage

  const KEYS_LEN := 6

  datatype Action =
    | Nothing
    | RadioTest
    | Pair(slot: Option<nat>)
    | Connect
    | KeepAlive
    | Sleep
    | Status
    | Version
    | Delete(slot: Option<nat>)
    | Switch(target: nat)
    | Key(modifier: nat, keys: seq<nat>)
    | KeyDown(modifier: nat, keys: seq<nat>)
    | Type(text: string)
    | SlotError
    | ArgError
    | CommandList

  method ParseU8Hex(tok: string) returns (r: Option<nat>)
    ensures r == HexToken(tok, 2)
  {
    if tok == "" || |tok| > 2 { return None; }
    var value := 0;
    for i := 0 to |tok|
      invariant HexValue(tok[..i]) == Some(value) && value < Pow16(i)
    {
      assert tok[..i + 1][..i] == tok[..i];
      var c, nibble := tok[i], 0;
      if '0' <= c <= '9' { nibble := c as int - '0' as int; }
      else if 'a' <= c <= 'f' { nibble := c as int - 'a' as int + 10; }
      else if 'A' <= c <= 'F' { nibble := c as int - 'A' as int + 10; }
      else { NoValue(tok, i); return None; }
      // The shift of the eight-bit value loses nothing: at most one digit came before.
      assert value < 16 by { Pow16Grows(i, 1); }
      value := value * 16 % 256 + nibble;
    }
    assert tok[..|tok|] == tok;
    r := Some(value);
  }

  function SlotOf(token: string): (slot: Option<nat>)
    ensures slot.Some? ==> slot.value < Storage.MAX_PROFILES
  {
    var v := HexToken(token, 2);
    if v.Some? && v.value < Storage.MAX_PROFILES then v else None
  }

  /** Modifier first, then at most six key codes, zero padded. */
  function KeyReport(toks: seq<string>): Option<(nat, seq<nat>)> {
    if 1 <= |toks| <= 1 + KEYS_LEN && forall i :: 0 <= i < |toks| ==> HexToken(toks[i], 2).Some? then
      var codes := seq(|toks| - 1, i requires 0 <= i < |toks| - 1 => HexToken(toks[i + 1], 2).value);
      Some((HexToken(toks[0], 2).value, codes + seq(KEYS_LEN - |codes|, i => 0)))
    else None
  }

  method ParseKeys(rest: string) returns (r: Option<(nat, seq<nat>)>)
    ensures r == KeyReport(Tokens(rest))
  {
    hide HexToken, Tokens;
    var tokens := Tokens(rest);
    if tokens == [] { return None; }
    var modifier := ParseU8Hex(tokens[0]);
    if modifier == None { return None; }
    var keys := new nat[KEYS_LEN](_ => 0);
    var count := 0;
    for i := 1 to |tokens|
      invariant count == i - 1 <= KEYS_LEN
      invariant forall j :: 0 <= j < i ==> HexToken(tokens[j], 2).Some?
      invariant forall j :: 0 <= j < count ==> keys[j] == HexToken(tokens[j + 1], 2).value
      invariant forall j :: count <= j < KEYS_LEN ==> keys[j] == 0
    {
      if count >= KEYS_LEN { return None; }
      var key := ParseU8Hex(tokens[i]);
      if key == None { return None; }
      keys[count] := key.value;
      count := count + 1;
    }
    r := Some((modifier.value, keys[..]));
    ReportOf(tokens, keys[..]);
  }

  /** Seven tokens or fewer, all of them bytes, and the codes they make. */
  lemma ReportOf(toks: seq<string>, keys: seq<nat>)
    requires 1 <= |toks| <= 1 + KEYS_LEN && |keys| == KEYS_LEN
    requires forall i :: 0 <= i < |toks| ==> HexToken(toks[i], 2).Some?
    requires forall i :: 0 <= i < |toks| - 1 ==> keys[i] == HexToken(toks[i + 1], 2).value
    requires forall i :: |toks| - 1 <= i < KEYS_LEN ==> keys[i] == 0
    ensures KeyReport(toks) == Some((HexToken(toks[0], 2).value, keys))
  {
    hide HexToken;
    var codes := KeyReport(toks).value.1;
    assert |codes| == KEYS_LEN;
    assert forall i :: 0 <= i < KEYS_LEN ==> codes[i] == keys[i];
    assert codes == keys;
  }

  /** The branches of the handler, in its order, for a connected device. */
  function ParseCommand(line: string): Action {
    if line == "" then Nothing
    else if line == "URADIOTEST" then RadioTest
    else if line == "UPAIR" || "UPAIR " <= line then
      if |line| <= 6 then Pair(None)
      else if SlotOf(line[6..]).Some? then Pair(SlotOf(line[6..])) else SlotError
    else if line == "UCONNECT" then Connect
    else if line == "UKEEPALIVE" then KeepAlive
    else if line == "USLEEP" then Sleep
    else if line == "USTATUS" then Status
    else if line == "VER" then Version
    else if line == "UDELETE" || "UDELETE " <= line then
      if |line| <= 8 then Delete(None)
      else if SlotOf(line[8..]).Some? then Delete(SlotOf(line[8..])) else SlotError
    else if "USWITCH " <= line then
      if SlotOf(line[8..]).Some? then Switch(SlotOf(line[8..]).value) else SlotError
    else if "UKEY " <= line then
      match KeyReport(Tokens(line[5..])) { case Some((m, k)) => Key(m, k) case None => ArgError }
    else if "UKEYDOWN " <= line then
      match KeyReport(Tokens(line[9..])) { case Some((m, k)) => KeyDown(m, k) case None => ArgError }
    else if "UTYPE " <= line then Type(line[6..])
    else CommandList
  }

  /** What the five forwarded commands mean, read off their tokens. */
  function Meaning(toks: seq<string>): Option<Action> {
    if toks == ["VER"] then Some(Version)
    else if toks == ["USTATUS"] then Some(Status)
    else if |toks| == 2 && toks[0] == "USWITCH" && SlotOf(toks[1]).Some? then Some(Switch(SlotOf(toks[1]).value))
    else if |toks| == 2 && toks[0] == "UPAIR" && SlotOf(toks[1]).Some? then Some(Pair(SlotOf(toks[1])))
    else if |toks| > 0 && toks[0] == "UKEYDOWN" then
      match KeyReport(toks[1..]) { case Some((m, k)) => Some(KeyDown(m, k)) case None => None }
    else None
  }

  lemma JoinTwo(toks: seq<string>)
    requires |toks| == 2
    ensures Join(toks) == toks[0] + " " + toks[1]
  {
    assert toks[1..] == [toks[1]];
  }

  lemma KeyTokensAgree(toks: seq<string>)
    requires |toks| > 0
    ensures KeyReport(toks[1..]).Some?
       <==> 2 <= |toks| <= 8 && forall i :: 1 <= i < |toks| ==> HexByteOf(toks[i]).Some?
  {
    var rest := toks[1..];
    assert forall i :: 0 <= i < |rest| ==> rest[i] == toks[i + 1];
    if forall i :: 0 <= i < |rest| ==> HexToken(rest[i], 2).Some? {
      forall i | 1 <= i < |toks| ensures HexByteOf(toks[i]).Some? { assert rest[i - 1] == toks[i]; }
    }
  }

  lemma KeyDownLine(toks: seq<string>)
    requires AreTokens(toks) && |toks| >= 2 && toks[0] == "UKEYDOWN"
    ensures "UKEYDOWN " <= Join(toks) && Tokens(Join(toks)[9..]) == toks[1..]
  {
    assert Join(toks) == "UKEYDOWN" + " " + Join(toks[1..]);
    assert Join(toks)[9..] == Join(toks[1..]);
    TokensJoin(toks[1..]);
  }

  lemma VerdictIsMeaning(toks: seq<string>)
    ensures Verdict(toks) == None <==> toks != [] && (toks[0] == "OTA" || Meaning(toks).Some?)
  {
    if toks != [] {
      KeyTokensAgree(toks);
      if |toks| == 1 { assert toks == [toks[0]]; }
    }
  }

  lemma ReadPlain()
    ensures ParseCommand("VER") == Version && ParseCommand("USTATUS") == Status
  {
    assert "VER"[0] == 'V';
    var line := "USTATUS";
    assert line[1] == 'S' && line[2] == 'T' && |line| == 7;
    assert "UPAIR"[1] == 'P' && "UCONNECT"[1] == 'C' && "UKEEPALIVE"[1] == 'K' && "USLEEP"[2] == 'L';
  }

  lemma ReadSwitch(tok: string)
    requires SlotOf(tok).Some?
    ensures ParseCommand("USWITCH" + " " + tok) == Switch(SlotOf(tok).value)
  {
    var line := "USWITCH" + " " + tok;
    assert line[1] == 'S' && line[..8] == "USWITCH " && line[8..] == tok;
    assert line != "USLEEP" && line != "USTATUS" && |line| > 8;
  }

  lemma ReadPair(tok: string)
    requires SlotOf(tok).Some?
    ensures ParseCommand("UPAIR" + " " + tok) == Pair(SlotOf(tok))
  {
    var line := "UPAIR" + " " + tok;
    assert line[1] == 'P' && line[..6] == "UPAIR " && line[6..] == tok;
  }

  lemma ReadKeyDown(line: string)
    requires "UKEYDOWN " <= line
    ensures ParseCommand(line)
         == match KeyReport(Tokens(line[9..])) { case Some((m, k)) => KeyDown(m, k) case None => ArgError }
  {
    hide Tokens, KeyReport;
    assert line[1] == 'K' && line[3] == 'Y' && line[4] == 'D';
    assert "UKEYDOWN "[4] == 'D' && "UKEY "[4] == ' ';
  }

  lemma MeaningIsRead(toks: seq<string>)
    requires AreTokens(toks) && Meaning(toks).Some?
    ensures ParseCommand(Join(toks)) == Meaning(toks).value
  {
    if toks == ["VER"] || toks == ["USTATUS"] {
      ReadPlain();
    } else if |toks| == 2 && toks[0] == "USWITCH" {
      JoinTwo(toks);
      ReadSwitch(toks[1]);
    } else if |toks| == 2 && toks[0] == "UPAIR" {
      JoinTwo(toks);
      ReadPair(toks[1]);
    } else {
      KeyDownLine(toks);
      ReadKeyDown(Join(toks));
    }
  }

  /** The transport accepts a line exactly when it is an update line or one of the five
      commands with sound arguments; the handler then reads the canonical line as just
      that command, so it never answers with an argument error, a slot error or the list. */
  lemma AcceptedIsUnderstood(command: string)
    ensures var toks := Tokens(command);
      && (FrameError(command) == None
          <==> '\r' !in command && toks != [] && (toks[0] == "OTA" || Meaning(toks).Some?))
      && (Meaning(toks).Some? ==> ParseCommand(Canonical(command)) == Meaning(toks).value)
  {
    hide Meaning, ParseCommand, Verdict, Join;
    CanonicalForm(command);
    VerdictIsMeaning(Tokens(command));
    if Meaning(Tokens(command)).Some? { MeaningIsRead(Tokens(command)); }
  }

  /** The one accepted line that reaches the command list: a bare OTA carries no
      subcommand, so the update branch does not claim it. */
  lemma OnlyBareOtaIsUnclaimed(command: string)
    requires FrameError(command) == None
    ensures (ParseCommand(Canonical(command)) == CommandList && !("OTA " <= Canonical(command)))
       <==> Tokens(command) == ["OTA"]
  {
    hide Tokens, Meaning, ParseCommand, FrameError;
    AcceptedIsUnderstood(command);
    var toks := Tokens(command);
    if toks[0] == "OTA" {
      if |toks| > 1 {
        assert Join(toks) == "OTA" + " " + Join(toks[1..]);
        assert "OTA " <= Join(toks);
      } else {
        assert toks == ["OTA"];
        assert Join(toks) == "OTA";
        BareOta();
      }
    } else {
      MeaningIsAnswered(toks);
    }
  }

  lemma BareOta()
    ensures ParseCommand("OTA") == CommandList
  {
    assert "OTA"[0] == 'O';
  }

  lemma MeaningIsAnswered(toks: seq<string>)
    requires Meaning(toks).Some?
    ensures Meaning(toks).value != CommandList
  {}

  // ---- Every command of the handler ----

  /** Commands without arguments. */
  lemma PlainCommands()
    ensures ParseCommand("UCONNECT") == Connect && ParseCommand("UKEEPALIVE") == KeepAlive
    ensures ParseCommand("USLEEP") == Sleep && ParseCommand("USTATUS") == Status && ParseCommand("VER") == Version
    ensures ParseCommand("UPAIR") == Pair(None) && ParseCommand("UDELETE") == Delete(None)
    ensures ParseCommand("URADIOTEST") == RadioTest && ParseCommand("") == Nothing
  {
    var pair, delete, sleep, status := "UPAIR", "UDELETE", "USLEEP", "USTATUS";
    var connect, alive := "UCONNECT", "UKEEPALIVE";
    assert pair[1] == 'P' && delete[1] == 'D' && connect[1] == 'C' && alive[1] == 'K';
    assert sleep[2] == 'L' && status[2] == 'T' && "VER"[0] == 'V' && "URADIOTEST"[1] == 'R';
  }

  /** Commands with a slot: one of the four, or an error. */
  lemma SlotCommands(tok: string)
    requires tok != ""
    ensures ParseCommand("UPAIR " + tok) == if SlotOf(tok).Some? then Pair(SlotOf(tok)) else SlotError
    ensures ParseCommand("UDELETE " + tok) == if SlotOf(tok).Some? then Delete(SlotOf(tok)) else SlotError
    ensures ParseCommand("USWITCH " + tok) == if SlotOf(tok).Some? then Switch(SlotOf(tok).value) else SlotError
  {
    hide SlotOf;
    var pair, delete, switch := "UPAIR " + tok, "UDELETE " + tok, "USWITCH " + tok;
    assert pair[1] == 'P' && pair[..6] == "UPAIR " && pair[6..] == tok;
    assert delete[1] == 'D' && delete[..8] == "UDELETE " && delete[8..] == tok;
    assert switch[1] == 'S' && switch[2] == 'W' && switch[..8] == "USWITCH " && switch[8..] == tok;
    assert "USLEEP"[2] == 'L' && "USTATUS"[2] == 'T' && "UPAIR"[1] == 'P' && "UDELETE"[1] == 'D';
  }

  /** A slot is written as a byte in hexadecimal that is less than four. */
  lemma SlotExactly(tok: string, slot: nat)
    ensures SlotOf(tok) == Some(slot) <==> HexToken(tok, 2) == Some(slot) && slot < 4
  {}

  /** Commands with keys: the report that the tokens spell, or an argument error. */
  lemma KeyCommands(rest: string)
    ensures ParseCommand("UKEY " + rest)
         == match KeyReport(Tokens(rest)) { case Some((m, k)) => Key(m, k) case None => ArgError }
    ensures ParseCommand("UKEYDOWN " + rest)
         == match KeyReport(Tokens(rest)) { case Some((m, k)) => KeyDown(m, k) case None => ArgError }
  {
    hide Tokens, KeyReport;
    var key, down := "UKEY " + rest, "UKEYDOWN " + rest;
    assert key[1] == 'K' && key[4] == ' ' && key[..5] == "UKEY " && key[5..] == rest;
    assert down[..9] == "UKEYDOWN " && down[9..] == rest;
    ReadKeyDown(down);
    assert "UKEEPALIVE"[3] == 'E' && key[3] == 'Y';
  }

  /** Text to type is taken as it stands. */
  lemma TextCommand(text: string)
    ensures ParseCommand("UTYPE " + text) == Type(text)
  {
    hide Tokens, KeyReport, SlotOf;
    var line := "UTYPE " + text;
    assert line[1] == 'T' && line[..6] == "UTYPE " && line[6..] == text;
  }

  /** The first token is the modifier, the others are the keys in their order, and places left
      over are zero; there are at most six keys, and every token is a byte. */
  lemma ReportExactly(toks: seq<string>, modifier: nat, keys: seq<nat>)
    ensures KeyReport(toks) == Some((modifier, keys)) <==>
      && 1 <= |toks| <= 7 && |keys| == 6
      && HexToken(toks[0], 2) == Some(modifier)
      && (forall i :: 1 <= i < |toks| ==> HexToken(toks[i], 2) == Some(keys[i - 1]))
      && (forall i :: |toks| - 1 <= i < 6 ==> keys[i] == 0)
  {
    hide HexToken;
    if 1 <= |toks| <= 7 && |keys| == 6 && HexToken(toks[0], 2) == Some(modifier)
       && (forall i :: 1 <= i < |toks| ==> HexToken(toks[i], 2) == Some(keys[i - 1]))
       && (forall i :: |toks| - 1 <= i < 6 ==> keys[i] == 0) {
      forall i | 0 <= i < |toks| ensures HexToken(toks[i], 2).Some? {}
      forall i | 0 <= i < |toks| - 1 ensures keys[i] == HexToken(toks[i + 1], 2).value {}
      ReportOf(toks, keys);
    }
  }
}
