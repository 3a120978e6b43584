/** The numbered UART transport: a byte-at-a-time line parser with damage and
    session cancellation, checked against splitting the whole stream into lines.
    A wire byte is the character with that code. */
module UartLink {
  import opened Text

  const LINE_LIMIT := 256

  datatype CommandError = Command | Argument

  datatype Frame = Frame(number: nat, command: string, error: Option<CommandError>)

  // ---- One line ----

  predicate IsNumberDigit(c: char) { '0' <= c <= '9' || 'A' <= c <= 'F' }

  function HexByteOf(token: string): Option<nat> { HexToken(token, 2) }

  predicate IsSlotToken(token: string) {
    HexByteOf(token).Some? && HexByteOf(token).value < 4
  }

  /** What the transport accepts, as a property of the token list. */
  function Verdict(toks: seq<string>): Option<CommandError> {
    if toks == [] then Some(Command)
    else if toks[0] == "OTA" then None
    else if toks[0] == "VER" || toks[0] == "USTATUS" then
      if |toks| > 1 then Some(Argument) else None
    else if toks[0] == "USWITCH" || toks[0] == "UPAIR" then
      if |toks| == 2 && IsSlotToken(toks[1]) then None else Some(Argument)
    else if toks[0] == "UKEYDOWN" then
      if 2 <= |toks| <= 8 && forall i :: 1 <= i < |toks| ==> HexByteOf(toks[i]).Some? then None
      else Some(Argument)
    else Some(Command)
  }

  function StripCr(line: string): (r: string)
    ensures |r| <= |line| && r <= line
  {
    if |line| > 0 && line[|line| - 1] == '\r' then line[..|line| - 1] else line
  }

  function Canonical(command: string): string { Join(Tokens(command)) }

  function FrameError(command: string): Option<CommandError> {
    if '\r' in command then Some(Argument) else Verdict(Tokens(Canonical(command)))
  }

  predicate HasNumber(line: string) {
    && |line| >= 10 && line[0] == '@' && line[9] == ' '
    && forall i :: 1 <= i < 9 ==> IsNumberDigit(line[i])
  }

  lemma DigitsHaveValue(s: string)
    requires forall i :: 0 <= i < |s| ==> IsNumberDigit(s[i])
    ensures HexValue(s).Some?
  {
    if s != "" { DigitsHaveValue(s[..|s| - 1]); }
  }

  /** The meaning of one received line. */
  function LineFrame(received: string): (f: Option<Frame>)
    ensures f.Some? ==> f.value.number < 0x1_0000_0000
  {
    var line := StripCr(received);
    if !HasNumber(line) then None else
      DigitsHaveValue(line[1..9]);
      Pow16Values();
      Some(Frame(HexValue(line[1..9]).value, Canonical(line[10..]), FrameError(line[10..])))
  }

  // ---- The same, as the loops of the firmware ----

  method HexByte(token: string) returns (r: Option<nat>)
    ensures r == HexByteOf(token)
  {
    if token == "" || |token| > 2 { return None; }
    var value := 0;
    for i := 0 to |token|
      invariant HexValue(token[..i]) == Some(value)
    {
      assert token[..i + 1][..i] == token[..i];
      match HexDigit(token[i]) {
        case None =>
          NoValue(token, i);
          return None;
        case Some(d) => value := value * 16 + d;
      }
    }
    assert token[..|token|] == token;
    r := Some(value);
  }

  lemma {:induction false} NoValue(s: string, i: nat)
    requires i < |s| && HexDigit(s[i]) == None
    ensures HexValue(s) == None
    decreases |s|
  {
    if i < |s| - 1 { NoValue(s[..|s| - 1], i); }
  }

  method Validate(command: string) returns (r: Option<CommandError>)
    ensures r == Verdict(Tokens(command))
  {
    var tokens := Tokens(command);
    if tokens == [] { return Some(Command); }
    var head := tokens[0];
    if head == "OTA" { return None; }
    if head == "VER" || head == "USTATUS" {
      return if |tokens| > 1 then Some(Argument) else None;
    }
    if head == "USWITCH" || head == "UPAIR" {
      if |tokens| < 2 { return Some(Argument); }
      var slot := HexByte(tokens[1]);
      return if slot.Some? && slot.value < 4 && |tokens| == 2 then None else Some(Argument);
    }
    if head == "UKEYDOWN" {
      if |tokens| < 2 { return Some(Argument); }
      var modifier := HexByte(tokens[1]);
      if modifier == None { return Some(Argument); }
      var count := 0;
      for i := 2 to |tokens|
        invariant count == i - 2 <= 6
        invariant forall j :: 1 <= j < i ==> HexByteOf(tokens[j]).Some?
      {
        count := count + 1;
        var key := HexByte(tokens[i]);
        if count > 6 || key == None { return Some(Argument); }
      }
      return None;
    }
    r := Some(Command);
  }

  /** Puts text behind the first len places of the buffer. */
  method Append(buffer: array<char>, len: nat, text: string)
    requires len + |text| <= buffer.Length
    modifies buffer
    ensures buffer[..len + |text|] == old(buffer[..len]) + text
    ensures buffer[len + |text|..] == old(buffer[len + |text|..])
  {
    forall i | 0 <= i < |text| { buffer[len + i] := text[i]; }
  }

  /** Fills the frame's fixed buffer; it never runs past it. */
  method Canonicalize(command: string, buffer: array<char>) returns (len: nat)
    requires |command| <= buffer.Length
    modifies buffer
    ensures len <= |command| && buffer[..len] == Canonical(command)
  {
    hide Join, Tokens;
    len := 0;
    var first := true;
    var tokens := Tokens(command);
    JoinTokensShorter(command);
    JoinNothing(tokens);
    for k := 0 to |tokens|
      invariant first == (k == 0)
      invariant len <= buffer.Length && buffer[..len] == Join(tokens[..k])
    {
      JoinSnoc(tokens, k);
      JoinPrefix(tokens, k + 1);
      if !first {
        Append(buffer, len, " ");
        len := len + 1;
      }
      first := false;
      Append(buffer, len, tokens[k]);
      len := len + |tokens[k]|;
    }
    assert tokens[..|tokens|] == tokens;
  }

  lemma JoinNothing(toks: seq<string>)
    ensures Join(toks[..0]) == ""
  {}

  lemma {:induction false} JoinSnoc(toks: seq<string>, k: nat)
    requires k < |toks|
    ensures Join(toks[..k + 1]) == (if k == 0 then "" else Join(toks[..k]) + " ") + toks[k]
    decreases k
  {
    if k == 0 {
    } else if k == 1 {
      assert toks[..2][1..] == [toks[1]];
      assert toks[..1] == [toks[0]];
    } else {
      JoinSnoc(toks[1..], k - 1);
      assert toks[..k + 1][1..] == toks[1..][..k];
      assert toks[..k][1..] == toks[1..][..k - 1];
    }
  }

  lemma {:induction false} JoinPrefix(toks: seq<string>, k: nat)
    requires k <= |toks|
    ensures |Join(toks[..k])| <= |Join(toks)|
    decreases |toks| - k
  {
    if k == |toks| {
      assert toks[..k] == toks;
    } else {
      JoinSnoc(toks, k);
      JoinPrefix(toks, k + 1);
    }
  }

  /** The eight digits of a request number. */
  method ParseNumber(line: string) returns (number: Option<nat>)
    requires |line| >= 10 && line[0] == '@' && line[9] == ' '
    ensures number.Some? <==> HasNumber(line)
    ensures number.Some? ==> number == HexValue(line[1..9])
  {
    hide HexValue;
    NoDigits(line);
    var value := 0;
    for i := 1 to 9
      invariant forall j :: 1 <= j < i ==> IsNumberDigit(line[j])
      invariant HexValue(line[1..i]) == Some(value)
    {
      if !IsNumberDigit(line[i]) { return None; }
      OneMoreDigit(line, i);
      value := value * 16 + HexDigit(line[i]).value;
    }
    number := Some(value);
  }

  lemma NoDigits(line: string)
    requires |line| > 0
    ensures HexValue(line[1..1]) == Some(0)
  {}

  lemma OneMoreDigit(line: string, i: nat)
    requires 1 <= i < |line| && IsNumberDigit(line[i]) && HexValue(line[1..i]).Some?
    ensures HexDigit(line[i]).Some?
    ensures HexValue(line[1..i + 1]) == Some(HexValue(line[1..i]).value * 16 + HexDigit(line[i]).value)
  {
    assert line[1..i + 1][..i - 1] == line[1..i];
  }

  method ParseLine(received: string) returns (r: Option<Frame>)
    requires |received| <= LINE_LIMIT
    ensures r == LineFrame(received)
  {
    hide HexValue, Join, Tokens, Verdict;
    var line := received;
    if |line| > 0 && line[|line| - 1] == '\r' { line := line[..|line| - 1]; }
    if |line| < 10 || line[0] != '@' || line[9] != ' ' { return None; }
    var number := ParseNumber(line);
    if number == None { return None; }
    var buffer := new char[LINE_LIMIT](_ => '\0');
    var len := Canonicalize(line[10..], buffer);
    var error := None;
    if '\r' in line[10..] { error := Some(Argument); } else { error := Validate(buffer[..len]); }
    r := Some(Frame(number.value, buffer[..len], error));
  }

  // ---- The streaming parser ----

  /** Either an unfinished line, or a spoilt one being skipped up to its line feed. */
  datatype Pending = Partial(text: string) | Discarding

  const CLEAN := Partial("")

  predicate IsLegal(c: char) { c == '\r' || ' ' <= c <= '~' }

  function AfterByte(p: Pending, c: char): Pending {
    if c == '\n' then CLEAN
    else if p.Discarding? || |p.text| == LINE_LIMIT || !IsLegal(c) then Discarding
    else Partial(p.text + [c])
  }

  function FramesOfByte(p: Pending, c: char): (f: seq<Frame>)
    ensures |f| <= 1
  {
    if c == '\n' && p.Partial? then OptionSeq(LineFrame(p.text)) else []
  }

  function OptionSeq<T>(o: Option<T>): seq<T> {
    if o.Some? then [o.value] else []
  }

  function AfterSession(p: Pending, pending: string): Pending {
    if p == CLEAN && pending == "" then CLEAN
    else if p == Discarding && pending == "" then Discarding
    else if pending != "" && pending[|pending| - 1] == '\n' then CLEAN
    else Discarding
  }

  class Parser {
    var line: array<char>
    var len: nat
    var discard: bool

    ghost predicate Valid()
      reads this
    {
      line.Length == LINE_LIMIT && len <= LINE_LIMIT && (discard ==> len == 0)
    }

    ghost function State(): Pending
      reads this, line
      requires Valid()
    {
      if discard then Discarding else Partial(line[..len])
    }

    constructor ()
      ensures Valid() && fresh(line) && State() == CLEAN
    {
      line := new char[LINE_LIMIT](_ => '\0');
      len, discard := 0, false;
    }

    method Damaged()
      requires Valid()
      modifies this`len, this`discard
      ensures Valid() && State() == Discarding
    {
      len := 0;
      discard := true;
    }

    method SessionChanged(pending: string)
      requires Valid()
      modifies this`len, this`discard
      ensures Valid() && State() == AfterSession(old(State()), pending)
    {
      if len != 0 || pending != "" {
        len := 0;
        discard := pending == "" || pending[|pending| - 1] != '\n';
      }
    }

    method Push(byte: char) returns (frame: Option<Frame>)
      requires Valid()
      modifies this, line
      ensures Valid() && line == old(line)
      ensures State() == AfterByte(old(State()), byte)
      ensures OptionSeq(frame) == FramesOfByte(old(State()), byte)
    {
      if byte == '\n' {
        if discard { frame := None; } else { frame := ParseLine(line[..len]); }
        len := 0;
        discard := false;
        return;
      }
      if discard { return None; }
      if len == LINE_LIMIT || !IsLegal(byte) {
        Damaged();
      } else {
        line[len] := byte;
        len := len + 1;
        assert line[..len] == old(line[..len]) + [byte];
      }
      frame := None;
    }
  }

  // ---- Streaming refines batch ----

  function AfterBytes(p: Pending, s: string): Pending
    decreases |s|
  {
    if s == "" then p else AfterBytes(AfterByte(p, s[0]), s[1..])
  }

  function FramesOfBytes(p: Pending, s: string): seq<Frame>
    decreases |s|
  {
    if s == "" then [] else FramesOfByte(p, s[0]) + FramesOfBytes(AfterByte(p, s[0]), s[1..])
  }

  method PushAll(parser: Parser, bytes: string) returns (frames: seq<Frame>)
    requires parser.Valid()
    modifies parser, parser.line
    ensures parser.Valid() && parser.line == old(parser.line)
    ensures parser.State() == AfterBytes(old(parser.State()), bytes)
    ensures frames == FramesOfBytes(old(parser.State()), bytes)
  {
    frames := [];
    ghost var start := parser.State();
    for i := 0 to |bytes|
      invariant parser.Valid() && parser.line == old(parser.line)
      invariant parser.State() == AfterBytes(start, bytes[..i])
      invariant frames == FramesOfBytes(start, bytes[..i])
    {
      FeedSnoc(start, bytes, i);
      var frame := parser.Push(bytes[i]);
      if frame.Some? { frames := frames + [frame.value]; }
    }
    assert bytes[..|bytes|] == bytes;
  }

  lemma FeedSnoc(p: Pending, s: string, i: nat)
    requires i < |s|
    ensures var q := AfterBytes(p, s[..i]);
            && AfterBytes(p, s[..i + 1]) == AfterByte(q, s[i])
            && FramesOfBytes(p, s[..i + 1]) == FramesOfBytes(p, s[..i]) + FramesOfByte(q, s[i])
  {
    var q := AfterBytes(p, s[..i]);
    assert s[..i + 1] == s[..i] + [s[i]];
    FeedConcat(p, s[..i], [s[i]]);
    assert [s[i]][1..] == "";
    assert FramesOfBytes(q, [s[i]]) == FramesOfByte(q, s[i]) + FramesOfBytes(AfterByte(q, s[i]), "");
  }

  /** A line that can carry a frame: short enough, and made of legal bytes only. */
  predicate IsWholesome(line: string) {
    |line| <= LINE_LIMIT && forall i :: 0 <= i < |line| ==> IsLegal(line[i])
  }

  /** The batch reading of a stream: cut it at line feeds, parse each wholesome
      line by itself, forget everything after the last line feed. */
  function BatchFrames(stream: string): seq<Frame>
    decreases |stream|
  {
    if '\n' !in stream then [] else
      var k := IndexOf(stream, '\n');
      (if IsWholesome(stream[..k]) then OptionSeq(LineFrame(stream[..k])) else [])
      + BatchFrames(stream[k + 1..])
  }

  function AfterLineFeed(stream: string): string {
    if '\n' in stream then stream[IndexOf(stream, '\n') + 1..] else ""
  }

  lemma {:induction false} FeedConcat(p: Pending, a: string, b: string)
    ensures AfterBytes(p, a + b) == AfterBytes(AfterBytes(p, a), b)
    ensures FramesOfBytes(p, a + b) == FramesOfBytes(p, a) + FramesOfBytes(AfterBytes(p, a), b)
    decreases |a|
  {
    if a == "" {
      assert a + b == b;
    } else {
      assert (a + b)[1..] == a[1..] + b;
      FeedConcat(AfterByte(p, a[0]), a[1..], b);
    }
  }

  /** Inside a line nothing comes out, and the text grows exactly while it is wholesome. */
  lemma {:induction false} WithinLine(p: Pending, s: string)
    requires '\n' !in s && (p.Partial? ==> IsWholesome(p.text))
    ensures FramesOfBytes(p, s) == []
    ensures AfterBytes(p, s)
         == if p.Partial? && IsWholesome(p.text + s) then Partial(p.text + s) else Discarding
    decreases |s|
  {
    if s == "" {
      if p.Partial? { assert p.text + s == p.text; }
    } else {
      var q := AfterByte(p, s[0]);
      WithinLine(q, s[1..]);
      if p.Partial? {
        assert (p.text + [s[0]]) + s[1..] == p.text + s;
        if q.Discarding? { assert (p.text + s)[|p.text|] == s[0]; }
      }
    }
  }

  /** The frames of a byte-by-byte run are those of the batch reading, in order. */
  lemma {:induction false} StreamingIsBatch(stream: string)
    ensures FramesOfBytes(CLEAN, stream) == BatchFrames(stream)
    decreases |stream|
  {
    hide LineFrame, IsWholesome, FramesOfBytes, AfterBytes;
    CleanIsWholesome();
    if '\n' !in stream {
      WithinLine(CLEAN, stream);
    } else {
      FirstLine(CLEAN, stream);
      var k := IndexOf(stream, '\n');
      assert "" + stream[..k] == stream[..k];
      StreamingIsBatch(stream[k + 1..]);
    }
  }

  lemma CleanIsWholesome()
    ensures IsWholesome(CLEAN.text)
  {}

  /** Up to and including the first line feed. */
  lemma FirstLine(p: Pending, stream: string)
    requires '\n' in stream && (p.Partial? ==> IsWholesome(p.text))
    ensures var k := IndexOf(stream, '\n');
            FramesOfBytes(p, stream)
              == (if p.Partial? && IsWholesome(p.text + stream[..k])
                  then OptionSeq(LineFrame(p.text + stream[..k])) else [])
                 + FramesOfBytes(CLEAN, stream[k + 1..])
    ensures AfterBytes(p, stream) == AfterBytes(CLEAN, AfterLineFeed(stream))
  {
    var k := IndexOf(stream, '\n');
    assert stream == stream[..k] + stream[k..];
    FeedConcat(p, stream[..k], stream[k..]);
    WithinLine(p, stream[..k]);
    assert stream[k..][1..] == stream[k + 1..];
  }

  /** After damage no byte before the next line feed has any effect on any frame. */
  lemma DamageIsContained(stream: string)
    ensures FramesOfBytes(Discarding, stream) == BatchFrames(AfterLineFeed(stream))
  {
    if '\n' !in stream {
      WithinLine(Discarding, stream);
    } else {
      FirstLine(Discarding, stream);
      StreamingIsBatch(AfterLineFeed(stream));
    }
  }

  /** Damage in the middle of a stream reads like one illegal byte at that place, so
      it costs exactly the line it falls in. */
  lemma DamageCostsOneLine(before: string, bad: char, after: string)
    requires bad != '\n' && !IsLegal(bad)
    ensures FramesOfBytes(CLEAN, before) + FramesOfBytes(Discarding, after)
         == BatchFrames(before + [bad] + after)
  {
    var p := AfterBytes(CLEAN, before);
    assert before + [bad] + after == before + ([bad] + after);
    FeedConcat(CLEAN, before, [bad] + after);
    assert ([bad] + after)[1..] == after;
    assert FramesOfBytes(p, [bad] + after) == FramesOfBytes(Discarding, after);
    StreamingIsBatch(before + [bad] + after);
  }

  /** What one whole line yields, in the bytes of the wire: at most 256 of them, printable ASCII
      or carriage return, or the line is lost. */
  lemma LineYieldsExactly(line: string)
    requires '\n' !in line
    ensures FramesOfBytes(CLEAN, line + "\n") ==
      if |line| <= 256 && (forall i :: 0 <= i < |line| ==> line[i] == '\r' || 0x20 <= line[i] as int <= 0x7e)
      then OptionSeq(LineFrame(line)) else []
  {
    hide LineFrame, FramesOfBytes;
    var stream := line + "\n";
    StreamingIsBatch(stream);
    assert stream[|line|] == '\n' && stream[..|line|] == line && stream[|line| + 1..] == "";
    IndexOfUnique(stream, '\n', |line|);
    assert BatchFrames("") == [];
  }

  /** A carriage return before the line feed makes no difference. */
  lemma CrIsOptional(line: string)
    requires line != "" ==> line[|line| - 1] != '\r'
    ensures LineFrame(line + "\r") == LineFrame(line)
  {
    hide Canonical, FrameError, HasNumber, HexValue;
    assert (line + "\r")[..|line|] == line;
  }

  /** A line makes a frame exactly when it is an at sign, the eight upper-case digits of the
      frame's number, a space and the text whose canonical form and verdict the frame has. */
  lemma FrameExactly(line: string, f: Frame)
    requires line != "" ==> line[|line| - 1] != '\r'
    ensures LineFrame(line) == Some(f) <==>
      && f.number < Pow16(8) && |line| >= 10 && line == ReplyText(f.number, line[10..])
      && f.command == Canonical(line[10..]) && f.error == FrameError(line[10..])
  {
    hide Canonical, FrameError, HexValue, HexText;
    Pow16Values();
    hide Pow16;
    if HasNumber(line) {
      NumberSpelled(line);
    }
    if f.number < Pow16(8) && |line| >= 10 && line == ReplyText(f.number, line[10..]) {
      ReplyCarriesNumber(f.number, line[10..]);
    }
  }

  lemma NumberSpelled(line: string)
    requires HasNumber(line)
    ensures HexValue(line[1..9]).Some? && HexValue(line[1..9]).value < Pow16(8)
    ensures line == ReplyText(HexValue(line[1..9]).value, line[10..])
  {
    hide HexText, HexValue, Pow16;
    ValueHexText(line[1..9]);
    assert line == [line[0]] + line[1..9] + [line[9]] + line[10..];
  }

  /** The two refusals: an unknown command, or a known one with unsound arguments. */
  lemma RefusalExactly(command: string)
    ensures var toks := Tokens(command);
      var known := toks != [] && toks[0] in ["OTA", "VER", "USTATUS", "USWITCH", "UPAIR", "UKEYDOWN"];
      && (FrameError(command) == Some(Command) <==> '\r' !in command && !known)
      && (FrameError(command) == Some(Argument) ==> '\r' in command || known)
  {
    hide Tokens, Join;
    CanonicalForm(command);
  }

  // ---- Session cancellation ----

  /** Cancelling leaves the parser at a line start exactly when the cancelled bytes,
      had they been parsed, would have ended on one. */
  lemma {:induction false} CancellationIsExact(p: Pending, pending: string)
    ensures AfterSession(p, pending) == CLEAN <==> AfterBytes(p, pending) == CLEAN
    ensures AfterSession(p, pending) == if AfterBytes(p, pending) == CLEAN then CLEAN else Discarding
  {
    if pending != "" {
      var n := |pending| - 1;
      assert pending == pending[..n] + [pending[n]];
      FeedConcat(p, pending[..n], [pending[n]]);
      var q := AfterBytes(p, pending[..n]);
      assert AfterBytes(q, [pending[n]]) == AfterByte(q, pending[n]);
    }
  }

  /** Bytes of the new session: no line begun earlier is completed by them, and no
      line that begins with them is lost. */
  lemma NewSessionFrames(p: Pending, pending: string, later: string)
    ensures FramesOfBytes(AfterSession(p, pending), later)
         == BatchFrames(if AfterBytes(p, pending) == CLEAN then later else AfterLineFeed(later))
  {
    CancellationIsExact(p, pending);
    StreamingIsBatch(later);
    DamageIsContained(later);
  }

  // ---- Canonical form ----

  lemma CanonicalForm(command: string)
    ensures Tokens(Canonical(command)) == Tokens(command)
    ensures Canonical(Canonical(command)) == Canonical(command)
    ensures |Canonical(command)| <= |command|
  {
    TokensJoin(Tokens(command));
    JoinTokensShorter(command);
  }

  // ---- Replies ----

  /** A numbered reply: the request's number in front of the unchanged body. */
  function ReplyText(number: nat, body: string): string
    requires number < Pow16(8)
  {
    "@" + HexText(number, 8) + " " + body
  }

  /** number >> (4 * k): drops the k lowest hexadecimal digits. */
  function DropDigits(number: nat, k: nat): nat {
    if k == 0 then number else DropDigits(number / 16, k - 1)
  }

  lemma {:induction false} DigitOf(n: nat, digits: nat, i: nat)
    requires n < Pow16(digits) && i < digits
    ensures HexText(n, digits)[i] == HexChar(DropDigits(n, digits - 1 - i) % 16)
  {
    if i < digits - 1 { DigitOf(n / 16, digits - 1, i); }
  }

  method EncodeReply(number: nat, body: string, out: array<char>) returns (len: Option<nat>)
    requires number < Pow16(8)
    modifies out
    ensures len == if out.Length < |body| + 10 then None else Some(|body| + 10)
    ensures len.None? ==> out[..] == old(out[..])
    ensures len.Some? ==> out[..] == ReplyText(number, body) + old(out[|body| + 10..])
  {
    hide HexText, Pow16, DropDigits, HexChar;
    if out.Length < |body| + 10 { return None; }
    ghost var n := |body| + 10;
    ghost var rest := out[n..];
    out[0] := '@';
    assert out[..1] == "@" && out[n..] == rest;
    EncodeNumber(number, out);
    assert out[n..] == out[9..][n - 9..] == rest;
    Append(out, 9, " ");
    assert out[n..] == out[10..][n - 10..] == rest;
    Append(out, 10, body);
    assert out[..n] == ReplyText(number, body);
    assert out[..] == out[..n] + out[n..];
    len := Some(|body| + 10);
  }

  method EncodeNumber(number: nat, out: array<char>)
    requires number < Pow16(8) && out.Length >= 9
    modifies out
    ensures out[..9] == old(out[..1]) + HexText(number, 8) && out[9..] == old(out[9..])
  {
    hide HexText, Pow16, DropDigits, HexChar;
    for index := 0 to 8
      invariant out[..index + 1] == old(out[..1]) + HexText(number, 8)[..index]
      invariant out[9..] == old(out[9..])
    {
      DigitOf(number, 8, index);
      ghost var before := out[..index + 1];
      out[index + 1] := HexChar(DropDigits(number, 7 - index) % 16);
      assert out[..index + 2] == before + [HexText(number, 8)[index]];
    }
  }

  /** The peer reads back the number of the request it sent. */
  lemma ReplyCarriesNumber(number: nat, body: string)
    requires number < Pow16(8)
    ensures var reply := ReplyText(number, body);
            HasNumber(reply) && HexValue(reply[1..9]) == Some(number) && reply[10..] == body
  {
    var reply := ReplyText(number, body);
    assert reply[1..9] == HexText(number, 8);
    HexTextValue(number, 8);
    forall i | 1 <= i < 9 ensures IsNumberDigit(reply[i]) {
      assert reply[i] == HexText(number, 8)[i - 1];
    }
  }
}
