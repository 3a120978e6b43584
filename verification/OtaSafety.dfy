/** What no sequence of update lines can do, whatever the storage answers. */
module OtaSafety {
  import opened Text
  import opened Bytes
  import opened Crc32
  import opened Ota
  import CrcPolynomial

  /** One line received, with the storage as it stands while that line is handled. */
  datatype Step = Step(line: string, dfu: Dfu)

  ghost predicate ValidSteps(steps: seq<Step>) {
    forall i :: 0 <= i < |steps| ==> steps[i].dfu.Valid()
  }

  /** What an observer of lines, replies and storage operations knows of the update in
      progress: the latest accepted declaration, the payloads stored since it, in order,
      and how often the image was marked since it. */
  datatype History = History(declared: Option<(nat, bv32)>, payload: seq<bv8>, marks: nat)

  const NO_HISTORY := History(None, [], 0)

  function Observe(h: History, line: string, out: Outcome): History {
    if out.reply == "READY\r\n" && Parse(line).Begin? then
      History(Some((Parse(line).size, Parse(line).crc)), [], 0)
    else match out.effect
      case Write(_, bytes, true) => h.(payload := h.payload + bytes)
      case Mark(_) => h.(marks := h.marks + 1)
      case _ => h
  }

  /** The session agrees with what was observed. */
  predicate Tracks(s: State, h: History) {
    && Sound(s)
    && h.marks <= 1
    && (s.active ==>
          && h.declared == Some((s.size, s.expectedCrc))
          && |h.payload| == s.received
          && h.marks == 0
          && (s.received > 0 ==> s.received >= 8 && ValidVector(h.payload[..8], s.size)))
  }

  /** A storage operation is in order: writes are whole words, continue exactly where the
      last one ended and stay inside the declared image; marking happens once per
      declaration, on a complete image with a sound vector whose read-back has the declared CRC. */
  predicate InOrder(h: History, d: Dfu, e: Effect)
    requires |d.cells| >= LIMIT
  {
    match e
    case Quiet => true
    case Write(offset, bytes, _) =>
      && h.declared.Some? && h.marks == 0
      && offset == |h.payload| && offset % 4 == 0 && |bytes| % 4 == 0 && |bytes| > 0
      && offset + |bytes| <= h.declared.value.0 <= LIMIT
    case Mark(_) =>
      && h.declared.Some? && h.marks == 0
      && |h.payload| == h.declared.value.0 <= LIMIT && |h.payload| >= 8
      && ValidVector(h.payload[..8], |h.payload|)
      && d.Readable(|h.payload|)
      && ImageCrc(d.cells[..|h.payload|]) == h.declared.value.1
  }

  lemma StepIsSafe(s: State, h: History, line: string, d: Dfu)
    requires Tracks(s, h) && d.Valid()
    ensures var out := Respond(s, d, Parse(line));
      && Tracks(out.state, Observe(h, line, out))
      && InOrder(h, d, out.effect)
      && (out.reboot <==> out.effect == Mark(true))
      && (out.effect != Quiet ==> out.reply != "READY\r\n")
  {
    hide ImageCrc, Parse, ValidVector, OnCommit, OnData;
    match Parse(line)
    case Data(offset, bytes) =>
      DataBytes(line);
      if s.active { DataIsSafe(s, h, d, offset, bytes); }
    case Commit => CommitIsSafe(s, h, d);
    case Begin(_, _) => BeginSize(line);
    case _ =>
  }

  lemma BeginSize(line: string)
    requires Parse(line).Begin?
    ensures ValidSize(Parse(line).size)
  {
    hide Hex, HexValue;
  }

  lemma CommitIsSafe(s: State, h: History, d: Dfu)
    requires Tracks(s, h) && d.Valid()
    ensures var out := OnCommit(s, d);
      && !out.effect.Write? && out.reply != "READY\r\n" && InOrder(h, d, out.effect)
      && Tracks(out.state, if out.effect.Mark? then h.(marks := h.marks + 1) else h)
      && (out.reboot <==> out.effect == Mark(true))
  {
    hide ImageCrc, ValidVector;
  }

  lemma DataBytes(line: string)
    requires Parse(line).Data?
    ensures 4 <= |Parse(line).bytes| && |Parse(line).bytes| % 4 == 0
  {}

  lemma DataIsSafe(s: State, h: History, d: Dfu, offset: nat, bytes: seq<bv8>)
    requires Tracks(s, h) && d.Valid() && s.active && |bytes| >= 4 && |bytes| % 4 == 0
    ensures var out := OnData(s, d, offset, bytes);
      && !out.reboot && !out.effect.Mark? && InOrder(h, d, out.effect)
      && out.reply != "READY\r\n"
      && Tracks(out.state, if out.effect.Write? && out.effect.ok then h.(payload := h.payload + bytes) else h)
      && (out.effect.Write? ==> out.effect.bytes == bytes)
  {
    hide ValidVector;
    var more := h.payload + bytes;
    if offset == s.received && offset + |bytes| <= s.size {
      if offset == 0 {
        assert |bytes| >= 8 ==> more[..8] == bytes[..8];
      } else {
        assert more[..8] == h.payload[..8];
      }
    }
  }

  // ---- Runs ----

  function After(steps: seq<Step>, k: nat): (r: (State, History))
    requires k <= |steps| && forall i :: 0 <= i < |steps| ==> steps[i].dfu.Valid()
    ensures Sound(r.0) && Tracks(r.0, r.1)
  {
    if k == 0 then (IDLE, NO_HISTORY) else
      var (s, h) := After(steps, k - 1);
      StepIsSafe(s, h, steps[k - 1].line, steps[k - 1].dfu);
      var out := Respond(s, steps[k - 1].dfu, Parse(steps[k - 1].line));
      (out.state, Observe(h, steps[k - 1].line, out))
  }

  function OutcomeAt(steps: seq<Step>, k: nat): Outcome
    requires k < |steps| && forall i :: 0 <= i < |steps| ==> steps[i].dfu.Valid()
  {
    Respond(After(steps, k).0, steps[k].dfu, Parse(steps[k].line))
  }

  /** Over any sequence of lines and any storage behaviour, every storage operation is in
      order with respect to what was observed before it. */
  lemma RunIsSafe(steps: seq<Step>, k: nat)
    requires ValidSteps(steps) && k < |steps|
    ensures InOrder(After(steps, k).1, steps[k].dfu, OutcomeAt(steps, k).effect)
    ensures OutcomeAt(steps, k).reboot <==> OutcomeAt(steps, k).effect == Mark(true)
    ensures OutcomeAt(steps, k).effect != Quiet ==> OutcomeAt(steps, k).reply != "READY\r\n"
  {
    hide InOrder, Tracks, Respond, Parse;
    var (s, h) := After(steps, k);
    StepIsSafe(s, h, steps[k].line, steps[k].dfu);
  }

  predicate Declares(steps: seq<Step>, k: nat)
    requires k < |steps| && forall i :: 0 <= i < |steps| ==> steps[i].dfu.Valid()
  {
    Parse(steps[k].line).Begin? && OutcomeAt(steps, k).reply == "READY\r\n"
  }

  /** Between two markings of the image there is an accepted BEGIN. */
  lemma {:induction false} OneMarkPerBegin(steps: seq<Step>, i: nat, j: nat)
    requires ValidSteps(steps) && i < j < |steps|
    requires OutcomeAt(steps, i).effect.Mark? && OutcomeAt(steps, j).effect.Mark?
    ensures exists k :: i < k < j && Declares(steps, k)
  {
    hide Respond, Parse, ValidVector, ImageCrc, Tracks;
    RunIsSafe(steps, i);
    RunIsSafe(steps, j);
    assert After(steps, i + 1).1.marks == 1;
    MarksOnlyResetByBegin(steps, i + 1, j);
  }

  lemma {:induction false} MarksOnlyResetByBegin(steps: seq<Step>, i: nat, j: nat)
    requires ValidSteps(steps) && i <= j < |steps|
    requires After(steps, i).1.marks == 1 && After(steps, j).1.marks == 0
    ensures exists k :: i <= k < j && Declares(steps, k)
    decreases j - i
  {
    hide Respond, Parse, ValidVector, ImageCrc, Tracks;
    if !Declares(steps, i) {
      RunIsSafe(steps, i);
      MarksOnlyResetByBegin(steps, i + 1, j);
    }
  }

  // ---- Faithful storage ----

  /** The storage keeps what it is given: each line finds the cells the previous one left. */
  ghost predicate Faithful(steps: seq<Step>) {
    && ValidSteps(steps)
    && forall k :: 0 <= k < |steps| - 1 ==>
         steps[k + 1].dfu.cells == CellsAfter(steps[k].dfu.cells, OutcomeAt(steps, k).effect)
  }

  /** What a step does to the stored prefix, when the session goes on. */
  lemma StepKeepsPrefix(s: State, h: History, line: string, d: Dfu)
    requires Tracks(s, h) && d.Valid()
    requires s.active ==> d.cells[..s.received] == h.payload
    ensures var out := Respond(s, d, Parse(line));
      out.state.active ==> (out.state.received <= |d.cells|
        && CellsAfter(d.cells, out.effect)[..out.state.received] == Observe(h, line, out).payload)
  {
    hide ImageCrc, ValidVector, Parse;
    match Parse(line)
    case Data(offset, bytes) =>
      var out := Respond(s, d, Parse(line));
      if out.effect.Write? && out.effect.ok {
        var cells := Overwrite(d.cells, offset, bytes);
        assert cells[..offset + |bytes|] == cells[..offset] + cells[offset..offset + |bytes|];
      }
    case _ =>
  }

  lemma {:induction false} PrefixIsPayload(steps: seq<Step>, k: nat)
    requires Faithful(steps) && k < |steps|
    ensures var (s, h) := After(steps, k);
      s.active ==> s.received <= LIMIT && steps[k].dfu.cells[..s.received] == h.payload
  {
    hide Respond, Parse, ValidVector, ImageCrc, Observe, InOrder;
    if k > 0 {
      PrefixIsPayload(steps, k - 1);
      var (s0, h0) := After(steps, k - 1);
      StepKeepsPrefix(s0, h0, steps[k - 1].line, steps[k - 1].dfu);
    }
  }

  /** With faithful storage, what is marked for booting is exactly the payloads accepted
      since the last BEGIN, and their CRC is the declared one. */
  lemma MarkedImageIsWhatWasSent(steps: seq<Step>, k: nat)
    requires Faithful(steps) && k < |steps| && OutcomeAt(steps, k).effect.Mark?
    ensures var h := After(steps, k).1; var cells := steps[k].dfu.cells;
      && |h.payload| <= |cells| && cells[..|h.payload|] == h.payload
      && h.declared == Some((|h.payload|, ImageCrc(h.payload)))
  {
    hide After, Respond, Parse, ValidVector, ImageCrc, Tracks, InOrder;
    var (s, h) := After(steps, k);
    MarkNeedsSession(s, h, steps[k].line, steps[k].dfu);
    RunIsSafe(steps, k);
    PrefixIsPayload(steps, k);
    MarkedDeclaration(h, steps[k].dfu, OutcomeAt(steps, k).effect);
  }

  lemma MarkedDeclaration(h: History, d: Dfu, e: Effect)
    requires d.Valid() && e.Mark? && InOrder(h, d, e)
    ensures |h.payload| <= |d.cells|
    ensures d.cells[..|h.payload|] == h.payload ==> h.declared == Some((|h.payload|, ImageCrc(h.payload)))
  {
    hide ImageCrc, ValidVector;
  }

  lemma MarkNeedsSession(s: State, h: History, line: string, d: Dfu)
    requires Tracks(s, h) && d.Valid() && Respond(s, d, Parse(line)).effect.Mark?
    ensures s.active && s.received == |h.payload|
  {
    hide ImageCrc, ValidVector;
  }

  // ---- Corruption and damage ----

  /** COMMIT refuses an image whose stored copy differs from the declared one only
      inside four consecutive bytes. */
  lemma BurstNeverCommits(s: State, d: Dfu, prefix: seq<bv8>, sent: seq<bv8>, stored: seq<bv8>, suffix: seq<bv8>)
    requires Sound(s) && d.Valid() && s.active && s.received == s.size
    requires |sent| == |stored| <= 4 && sent != stored
    requires s.expectedCrc == ImageCrc(prefix + sent + suffix)
    requires d.cells[..s.size] == prefix + stored + suffix
    ensures var out := OnCommit(s, d);
      && out.effect == Quiet && !out.state.active && !out.reboot
      && out.reply == if d.Readable(s.size) then "ERR CRC\r\n" else "ERR READ\r\n"
  {
    hide Crc, Complement;
    BurstDetected(0xffffffff, prefix, sent, stored, suffix);
    ComplementInjective(Crc(0xffffffff, prefix + sent + suffix), Crc(0xffffffff, prefix + stored + suffix));
  }

  lemma ComplementInjective(a: bv32, b: bv32)
    ensures Complement(a) == Complement(b) ==> a == b
  {}

  /** A line with a carriage return inside changes nothing and touches no storage, although
      the update branch does not consult the transport's verdict on it. */
  lemma CarriageReturnIsInert(s: State, d: Dfu, line: string)
    requires Sound(s) && d.Valid() && '\r' in line
    ensures var out := Respond(s, d, Parse(line));
      out.state == s && out.effect == Quiet && !out.reboot
  {
    hide ParseTokens, ImageCrc, ValidVector, Split;
    SplitKeeps(line, ' ', '\r');
    TokenRefuses(Split(line, ' '));
  }

  lemma TokenRefuses(toks: seq<string>)
    requires |toks| > 0 && exists i :: 0 <= i < |toks| && '\r' in toks[i]
    ensures var l := ParseTokens(toks); !l.Begin? && !l.Data? && !l.Commit? && !l.Abort?
  {
    hide ParseBegin, ParseData;
    var i :| 0 <= i < |toks| && '\r' in toks[i];
    if toks[0] == "OTA" && |toks| > 1 && i >= 2 {
      var args := toks[2..];
      assert args[i - 2] == toks[i];
      BeginRefuses(args, i - 2);
      DataRefuses(args, i - 2);
    }
    PlainTokens();
    ParsedKinds(toks);
  }

  /** Which shape of tokens can give which kind of line. */
  lemma ParsedKinds(toks: seq<string>)
    requires |toks| > 0
    ensures var l := ParseTokens(toks);
      && (l.Begin? ==> |toks| > 1 && toks[0] == "OTA" && toks[1] == "BEGIN" && ParseBegin(toks[2..]) == l)
      && (l.Data? ==> |toks| > 1 && toks[0] == "OTA" && toks[1] == "DATA" && ParseData(toks[2..]) == l)
      && (l.Commit? ==> toks == ["OTA", "COMMIT"]) && (l.Abort? ==> toks == ["OTA", "ABORT"])
  {
    hide Hex, PairBytes;
  }

  lemma PlainTokens()
    ensures '\r' !in "OTA" && '\r' !in "COMMIT" && '\r' !in "ABORT" && '\r' !in "BEGIN" && '\r' !in "DATA"
  {}

  lemma BeginRefuses(args: seq<string>, i: nat)
    requires i < |args| && '\r' in args[i]
    ensures !ParseBegin(args).Begin?
  {
    NotHex(args[i]);
  }

  lemma DataRefuses(args: seq<string>, i: nat)
    requires i < |args| && '\r' in args[i]
    ensures !ParseData(args).Data?
  {
    NotHex(args[i]);
    if |args| == 2 && i == 1 && ValidPayload(args[1]) { NotPairs(args[1]); }
  }

  lemma SplitUnfold(s: string, sep: char)
    ensures sep !in s ==> Split(s, sep) == [s]
    ensures sep in s ==> var k := IndexOf(s, sep); Split(s, sep) == [s[..k]] + Split(s[k + 1..], sep)
  {}

  lemma {:induction false} SplitKeeps(s: string, sep: char, c: char)
    requires c in s && c != sep
    ensures exists i :: 0 <= i < |Split(s, sep)| && c in Split(s, sep)[i]
    decreases |s|
  {
    hide Split, IndexOf;
    SplitUnfold(s, sep);
    if sep !in s {
      assert c in Split(s, sep)[0];
    } else {
      var k := IndexOf(s, sep);
      var rest := Split(s[k + 1..], sep);
      if c in s[..k] {
        assert c in Split(s, sep)[0];
      } else {
        assert s == s[..k] + [s[k]] + s[k + 1..];
        SplitKeeps(s[k + 1..], sep, c);
        var i :| 0 <= i < |rest| && c in rest[i];
        assert Split(s, sep)[i + 1] == rest[i];
      }
    }
  }

  lemma {:induction false} NotHexValue(s: string)
    requires '\r' in s
    ensures HexValue(s) == None
    decreases |s|
  {
    if s[|s| - 1] != '\r' {
      assert s == s[..|s| - 1] + [s[|s| - 1]];
      NotHexValue(s[..|s| - 1]);
    }
  }

  lemma NotHex(s: string)
    requires '\r' in s
    ensures Hex(s) == None
  {
    NotHexValue(s);
  }

  lemma {:induction false} NotPairs(s: string)
    requires |s| % 2 == 0 && '\r' in s
    ensures PairBytes(s) == None
    decreases |s|
  {
    assert s == s[..2] + s[2..];
    if '\r' in s[..2] { NotHexValue(s[..2]); } else { NotPairs(s[2..]); }
  }

  // ---- What an answer says ----

  /** COMMIT marks an image exactly when it is complete and readable, the flash takes the mark,
      and the declared word, inverted, is the remainder of the stored image's polynomial. */
  lemma CommitMarksExactly(s: State, d: Dfu)
    requires Sound(s) && d.Valid()
    ensures OnCommit(s, d).effect == Mark(true) <==>
      && s.active && s.received == s.size && d.Readable(s.size) && d.commitOk
      && CrcPolynomial.IsRemainder(
           CrcPolynomial.Dividend(CrcPolynomial.Ones(32), CrcPolynomial.MessageBits(d.cells[..s.size])),
           CrcPolynomial.Inverted(CrcPolynomial.Bits(s.expectedCrc, 32)))
  {
    hide ImageCrc, CrcPolynomial.IsRemainder, CrcPolynomial.Dividend, CrcPolynomial.Bits;
    if s.active && s.received == s.size {
      CrcPolynomial.DeclaredCrcExactly(d.cells[..s.size], s.expectedCrc);
    }
  }

  /** A block is answered OK only if the flash then holds it; one that came before is answered
      OK exactly when it can be read back unchanged. */
  lemma AcknowledgedIsStored(s: State, d: Dfu, offset: nat, bytes: seq<bv8>)
    requires Sound(s) && s.active && d.Valid()
    ensures var out := OnData(s, d, offset, bytes); var cells := CellsAfter(d.cells, out.effect); var end := offset + |bytes|;
      && (out.reply == "OK\r\n" ==> end <= out.state.received <= s.size && cells[offset..end] == bytes)
      && (offset < s.received ==>
            (out.reply == "OK\r\n" <==> end <= s.received && d.Read(offset, |bytes|) == Some(bytes)))
  {
    hide ValidVector;
    Replies();
  }

  lemma Replies()
    ensures "OK\r\n" != "ERR OFFSET\r\n" && "OK\r\n" != "ERR VECTOR\r\n" && "OK\r\n" != "ERR WRITE\r\n"
  {
    assert "OK\r\n"[0] == 'O';
  }

  /** The two words at the head of an image, as numbers. */
  lemma VectorExactly(sp: nat, reset: nat, size: nat)
    requires sp < 0x1_0000_0000 && reset < 0x1_0000_0000
    ensures ValidVector(LeBytes(sp) + LeBytes(reset), size) <==>
      && 0x2000_0000 <= sp <= 0x2004_0000 && sp % 8 == 0
      && reset % 2 == 1 && 0x7100 <= reset - 1 < 0x7000 + size
  {
    LeRoundTrip(sp);
    LeRoundTrip(reset);
    hide Le32, LeBytes;
    var head := LeBytes(sp) + LeBytes(reset);
    assert head[..4] == LeBytes(sp) && head[4..] == LeBytes(reset);
  }

  // ---- When a session is open ----

  predicate ClosingReply(reply: string) {
    reply in ["REBOOT\r\n", "ERR READ\r\n", "ERR CRC\r\n", "ERR MARK\r\n", "ERR WRITE\r\n"]
  }

  /** The line or its answer closes the session. */
  predicate Closes(line: string, out: Outcome) { Parse(line).Abort? || ClosingReply(out.reply) }

  /** Closing replies are told by their length and seventh letter. */
  lemma ClosingTag(reply: string)
    requires ClosingReply(reply)
    ensures |reply| > 6 && (|reply|, reply[6]) in [(8, '\r'), (10, 'A'), (9, 'C'), (10, 'R'), (11, 'I')]
  {}

  predicate OpenReply(reply: string) {
    reply in ["READY\r\n", "OK\r\n", "ERR OFFSET\r\n", "ERR VECTOR\r\n", "ERR INCOMPLETE\r\n", "ERR NOIMAGE\r\n",
              "ERR ARG\r\n", "ERR SIZE\r\n", "ERR CMD\r\n", "OTA UART1 BLOCK64 CRC32\r\n"]
  }

  lemma OpenTag(reply: string)
    requires OpenReply(reply)
    ensures |reply| in [7, 4, 12, 16, 13, 25]
         || (|reply| > 6 && (|reply|, reply[6]) in [(9, 'G'), (10, 'Z'), (9, 'D')])
  {}

  lemma OpenIsNotClosing(reply: string)
    requires OpenReply(reply)
    ensures !ClosingReply(reply)
  {
    hide OpenReply, ClosingReply;
    OpenTag(reply);
    if ClosingReply(reply) { ClosingTag(reply); }
  }

  lemma StepActivity(s: State, d: Dfu, line: string)
    requires Sound(s) && d.Valid()
    ensures var out := Respond(s, d, Parse(line));
      out.state.active <==> Parse(line).Begin? || (s.active && !Closes(line, out))
  {
    hide Parse, OnData, OnCommit, ClosingReply, OpenReply;
    var out := Respond(s, d, Parse(line));
    match Parse(line)
    case Data(offset, bytes) => if s.active { DataActivity(s, d, offset, bytes); }
    case Commit => CommitActivity(s, d);
    case Abort =>
    case _ => PlainReplies(s, d, Parse(line)); OpenIsNotClosing(out.reply);
  }

  lemma PlainReplies(s: State, d: Dfu, line: Line)
    requires Sound(s) && d.Valid() && !line.Data? && !line.Commit? && !line.Abort?
    ensures OpenReply(Respond(s, d, line).reply)
  {}

  lemma DataActivity(s: State, d: Dfu, offset: nat, bytes: seq<bv8>)
    requires Sound(s) && d.Valid() && s.active
    ensures var out := OnData(s, d, offset, bytes); out.state.active <==> !ClosingReply(out.reply)
  {
    hide ValidVector, OpenReply;
    Named();
    var out := OnData(s, d, offset, bytes);
    if OpenReply(out.reply) { OpenIsNotClosing(out.reply); }
  }

  lemma Named()
    ensures OpenReply("OK\r\n") && OpenReply("ERR OFFSET\r\n") && OpenReply("ERR VECTOR\r\n")
    ensures OpenReply("ERR INCOMPLETE\r\n")
  {}

  lemma CommitActivity(s: State, d: Dfu)
    requires Sound(s) && d.Valid()
    ensures var out := OnCommit(s, d); out.state.active <==> s.active && !ClosingReply(out.reply)
  {
    hide ImageCrc, OpenReply;
    Named();
    OpenIsNotClosing("ERR INCOMPLETE\r\n");
  }

  /** Line j opened a session that no line since has closed. */
  ghost predicate OpenSince(steps: seq<Step>, j: nat, k: nat)
    requires ValidSteps(steps) && j < k <= |steps|
  {
    && Parse(steps[j].line).Begin?
    && forall m :: j < m < k ==> !Closes(steps[m].line, OutcomeAt(steps, m))
  }

  /** A session is open exactly when some BEGIN opened it and neither an ABORT nor a failure nor
      the COMMIT has closed it since. */
  lemma {:induction false} ActiveExactly(steps: seq<Step>, k: nat)
    requires ValidSteps(steps) && k <= |steps|
    ensures After(steps, k).0.active <==> exists j :: 0 <= j < k && OpenSince(steps, j, k)
    decreases k
  {
    hide Respond, Parse, Closes, Tracks, Observe;
    if k > 0 {
      var s := After(steps, k - 1).0;
      ActiveExactly(steps, k - 1);
      StepActivity(s, steps[k - 1].dfu, steps[k - 1].line);
      if Parse(steps[k - 1].line).Begin? {
        assert OpenSince(steps, k - 1, k);
      } else {
        if After(steps, k).0.active {
          var j :| 0 <= j < k - 1 && OpenSince(steps, j, k - 1);
          assert OpenSince(steps, j, k);
        }
        forall j | 0 <= j < k && OpenSince(steps, j, k) ensures After(steps, k).0.active {
          assert j < k - 1 && OpenSince(steps, j, k - 1);
        }
      }
    }
  }
}
