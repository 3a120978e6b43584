/** A USB session that ends in the middle of an upload: until its serial task notices, the
    upload goes on although its mark is down, and a UART update can open beside it. */
module StaleSession {
  import opened Text
  import opened UartLink
  import D = OtaDelivery
  import opened Tasks
  import opened TaskSafety
  import Ota

  /** A session that ends in the middle of an upload: for up to one polling interval the
      serial task still uploads while the shared mark is already down. */
  function StaleRun(): seq<Event> {
    [Configured, LineState(true), Control(true), SerialStart, WorkerTop(false, false), SerialReady,
     SerialCommands(Write(true)), Unavailable]
  }

  lemma PluggedRun()
    ensures After([Configured, LineState(true), Control(true)]).(past := START.past)
         == World(Usb(true, true, true, 1, None), START.flags.(sessionChanged := true), START.queues,
                  START.worker, START.serial, START.rx, START.past)
    ensures After([Configured, LineState(true), Control(true)]).past.entered == None
  {
    hide After;
    NoEvents();
    OneMore([], Configured);
    OneMore([Configured], LineState(true));
    OneMore([Configured, LineState(true)], Control(true));
    assert [] + [Configured] == [Configured];
    assert [Configured] + [LineState(true)] == [Configured, LineState(true)];
    assert [Configured, LineState(true)] + [Control(true)] == [Configured, LineState(true), Control(true)];
  }

  lemma OpeningRun()
    ensures After([Configured, LineState(true), Control(true), SerialStart, WorkerTop(false, false)]).(past := START.past)
         == World(Usb(true, true, true, 1, Some(1)), START.flags.(sessionChanged := true), START.queues,
                  Worker(Choosing, 1, false), Serial(WaitReady, 1, false, false), START.rx, START.past)
  {
    hide After;
    var e := [Configured, LineState(true), Control(true), SerialStart, WorkerTop(false, false)];
    PluggedRun();
    OneMore(e[..3], SerialStart);
    assert e[..3] == [Configured, LineState(true), Control(true)];
    assert e[..3] + [SerialStart] == e[..4];
    OneMore(e[..4], WorkerTop(false, false));
    assert e[..4] + [WorkerTop(false, false)] == e;
  }

  lemma StaleRunEnds()
    ensures After(StaleRun()).(past := START.past)
         == World(Usb(false, false, false, 2, None), START.flags.(sessionChanged := true), START.queues,
                  Worker(Choosing, 1, false), Serial(Reading, 1, true, false), START.rx, START.past)
  {
    hide After, Inv;
    var e := StaleRun();
    var opening := [Configured, LineState(true), Control(true), SerialStart, WorkerTop(false, false)];
    OpeningRun();
    OneMore(opening, SerialReady);
    assert opening + [SerialReady] == e[..6];
    OneMore(e[..6], SerialCommands(Write(true)));
    assert e[..6] + [SerialCommands(Write(true))] == e[..7];
    OneMore(e[..7], Unavailable);
    assert e[..7] + [Unavailable] == e;
  }

  lemma StaleUploadOutlivesMark()
    ensures var s := After(StaleRun()); IsOpen(s) && s.serial.upload && !s.flags.upload && !IsCurrent(s)
  {
    hide After;
    StaleRunEnds();
  }

  // ---- A line on the UART ----

  /** Within a line nothing leaves the parser. */
  lemma {:induction false} FeedWithin(s: World, line: string)
    requires s.rx.pending == CLEAN && D.Printable(line) && 0 < |line| <= LINE_LIMIT
    ensures Feed(s, line) == WithRx(s, s.rx.(pending := Partial(line), began := Now(s)))
    decreases |line|
  {
    var n := |line| - 1;
    assert line == line[..n] + [line[n]];
    if n == 0 {
      assert line[..0] == "" && "" + line == line;
    } else {
      FeedWithin(s, line[..n]);
    }
  }

  /** A whole line that makes a frame puts one request into a queue with room. */
  lemma FeedLine(s: World, line: string, f: Frame)
    requires s.rx.pending == CLEAN && D.Printable(line) && 0 < |line| <= LINE_LIMIT
    requires LineFrame(line) == Some(f) && |s.queues.requests| < QUEUE_LIMIT
    ensures Feed(s, line + "\n")
         == WithRequests(WithRx(s, s.rx.(pending := CLEAN, began := Now(s))),
                         s.queues.requests + [RequestOf(s, f, Now(s))])
  {
    hide LineFrame;
    assert (line + "\n")[..|line|] == line && |line + "\n"| == |line| + 1;
    FeedWithin(s, line);
  }

  lemma SendLine(s: World, number: nat, command: string)
    requires s.rx.pending == CLEAN && s.rx.readSession == s.rx.parserSession == s.usb.epoch
    requires number < 0x1_0000_0000 && D.Printable(command) && |command| <= 246
    requires |s.queues.requests| < QUEUE_LIMIT
    ensures var r := Act(s, RxBytes("@" + D.Word(number) + " " + command + "\n"));
      && r.usb == s.usb && r.worker == s.worker && r.serial == s.serial
      && r.flags == s.flags.(sessionChanged := false)
      && r.queues == s.queues.(requests := s.queues.requests + [
           Request(Uart(number, s.usb.epoch, s.flags.generation), Canonical(command), FrameError(command), Now(s), Now(s))])
      && r.rx == s.rx.(began := Now(s))
  {
    hide LineFrame, Canonical, FrameError, D.Word, D.HexOnly;
    var line := "@" + D.Word(number) + " " + command;
    D.AtFrame(number, command);
    D.WordRoundTrip(number);
    D.LinePrintable(D.Word(number), command);
    FeedLine(s, line, Frame(number, Canonical(command), FrameError(command)));
  }

  // ---- Two uploads at once ----

  /** A line that opens a UART update of 512 bytes. */
  function Begin(): string { Join(["OTA", "BEGIN", D.Word(512), D.CrcWord(0)]) }

  function LineOf(number: nat, command: string): string
    requires number < 0x1_0000_0000
  {
    "@" + D.Word(number) + " " + command + "\n"
  }

  /** After the session has ended: a clear VER lifts the barrier, and a UART update opens. */
  function OverlapTail(): seq<Event> {
    [RxCancelled, RxBytes(LineOf(1, "VER")), WorkerTake(false), WorkerDone, WorkerReply, WorkerTop(false, false),
     RxBytes(LineOf(2, Begin())), WorkerTake(true)]
  }

  lemma VersionLine()
    ensures Canonical("VER") == "VER" && FrameError("VER") == None && D.Printable("VER") && !IsOtaLine("VER")
  {
    assert AreTokens(["VER"]) && Join(["VER"]) == "VER";
    TokensJoin(["VER"]);
    assert "VER"[0] == 'V' && "OTA "[0] == 'O';
  }

  lemma OtaJoined(toks: seq<string>)
    requires AreTokens(toks) && |toks| > 1 && toks[0] == "OTA"
    requires forall i :: 0 <= i < |toks| ==> D.Printable(toks[i])
    ensures var line := Join(toks);
      Canonical(line) == line && FrameError(line) == None && D.Printable(line) && IsOtaLine(line)
  {
    hide Tokens;
    TokensJoin(toks);
    D.JoinPrintable(toks);
    assert Join(toks) == "OTA" + " " + Join(toks[1..]);
    assert '\r' !in Join(toks);
  }

  /** The transport passes the line on, and the update opens for it. */
  lemma BeginLine()
    ensures Canonical(Begin()) == Begin() && FrameError(Begin()) == None && D.Printable(Begin()) && IsOtaLine(Begin())
    ensures |Begin()| <= 246
    ensures Ota.Parse(Begin()) == Ota.Begin(512, 0)
  {
    hide Canonical, FrameError, D.Printable, IsToken, Join, D.Word, D.HexOnly, Ota.Hex, Ota.Parse, IsOtaLine;
    D.KeywordsPrintable();
    D.CrcWordRoundTrip(0);
    D.WordRoundTrip(512);
    D.WordRoundTrip(0);
    D.HexPrintable(D.Word(512));
    D.HexPrintable(D.CrcWord(0));
    D.FourJoined("OTA", "BEGIN", D.Word(512), D.CrcWord(0));
    OtaJoined(["OTA", "BEGIN", D.Word(512), D.CrcWord(0)]);
    D.BeginDecodes(512, 0);
  }

  /** The state after the session has ended, history apart. */
  predicate Ended(s: World, sync: bool, changed: bool, requests: seq<Request>, pc: WorkerPc, seen: nat, session: nat) {
    && s.usb == Usb(false, false, false, 2, None)
    && s.flags == Flags(sync, 0, false, changed, false, false)
    && s.queues.requests == requests && s.queues.cdcReplies == []
    && s.worker == Worker(pc, seen, false) && s.serial == Serial(Reading, 1, true, false)
    && s.rx.pending == CLEAN && s.rx.parserSession == session && s.rx.readSession == session
  }

  lemma StaleEnded()
    ensures Ended(After(StaleRun()), true, true, [], Choosing, 1, 0)
    ensures After(StaleRun()).queues.uartReplies == []
  {
    hide After;
    StaleRunEnds();
  }

  lemma Cancel(s: World)
    requires Ended(s, true, true, [], Choosing, 1, 0)
    ensures var r := Step(s, RxCancelled);
      Ended(r, true, false, [], Choosing, 1, 2) && r.queues.uartReplies == s.queues.uartReplies
  {}

  function VersionRequest(now: nat): Request { Request(Uart(1, 2, 0), "VER", None, now, now) }

  function BeginRequest(now: nat): Request { Request(Uart(2, 2, 0), Begin(), None, now, now) }

  lemma HearVersion(s: World)
    requires Ended(s, true, false, [], Choosing, 1, 2)
    ensures var r := Step(s, RxBytes(LineOf(1, "VER")));
      Ended(r, true, false, [VersionRequest(Now(s))], Choosing, 1, 2) && r.queues.uartReplies == s.queues.uartReplies
  {
    hide Act, Canonical, FrameError, D.Printable, D.Word, IsOtaLine;
    VersionLine();
    SendLine(s, 1, "VER");
    assert [] + [VersionRequest(Now(s))] == [VersionRequest(Now(s))];
  }

  /** The worker answers the VER, which lifts the barrier, and comes back to its queue. */
  lemma ServeVersion(s: World, now: nat)
    requires Ended(s, true, false, [VersionRequest(now)], Choosing, 1, 2) && s.queues.uartReplies == []
    ensures var r := Step(Step(Step(Step(s, WorkerTake(false)), WorkerDone), WorkerReply), WorkerTop(false, false));
      Ended(r, false, false, [], Choosing, 2, 2)
  {
    hide IsOtaLine;
    VersionLine();
    var a := Step(s, WorkerTake(false));
    assert Ended(a, false, false, [], Commanding(Uart(1, 2, 0)), 1, 2) && a.queues.uartReplies == [];
    var b := Step(a, WorkerDone);
    assert Ended(b, false, false, [], Replying(Uart(1, 2, 0)), 1, 2) && b.queues.uartReplies == [];
    var c := Step(b, WorkerReply);
    assert Ended(c, false, false, [], AtTop, 1, 2);
  }

  lemma HearBegin(s: World)
    requires Ended(s, false, false, [], Choosing, 2, 2)
    ensures Ended(Step(s, RxBytes(LineOf(2, Begin()))), false, false, [BeginRequest(Now(s))], Choosing, 2, 2)
  {
    hide Act, Canonical, FrameError, D.Printable, D.Word, IsOtaLine, Begin;
    BeginLine();
    SendLine(s, 2, Begin());
    assert [] + [BeginRequest(Now(s))] == [BeginRequest(Now(s))];
  }

  lemma ServeBegin(s: World, now: nat)
    requires Ended(s, false, false, [BeginRequest(now)], Choosing, 2, 2)
    ensures var r := Step(s, WorkerTake(true));
      Overlap(r) && r.serial.pc.Reading? && r.flags.ota && !IsCurrent(r)
  {
    hide IsOtaLine, Begin;
    BeginIsOta();
  }

  lemma BeginIsOta()
    ensures IsOtaLine(Begin())
  {
    hide IsOtaLine, Begin;
    BeginLine();
  }

  /** Two uploads at once: the serial task of the ended session goes on taking packets for the
      flash while the worker has opened a UART update. */
  lemma UploadsOverlap()
    ensures var s := After(StaleRun() + OverlapTail());
      Overlap(s) && s.serial.pc.Reading? && s.flags.ota && !IsCurrent(s)
  {
    hide After, Step, Ended, LineOf, BeginRequest, VersionRequest;
    var e, t := StaleRun(), OverlapTail();
    StaleEnded();
    Cancel(After(e));
    OneMore(e, t[0]);
    OneMore(e + t[..1], t[1]);
    OneMore(e + t[..2], t[2]);
    OneMore(e + t[..3], t[3]);
    OneMore(e + t[..4], t[4]);
    OneMore(e + t[..5], t[5]);
    OneMore(e + t[..6], t[6]);
    OneMore(e + t[..7], t[7]);
    Prefixes(e, t);
    HearVersion(After(e + t[..1]));
    ServeVersion(After(e + t[..2]), Now(After(e + t[..1])));
    HearBegin(After(e + t[..6]));
    ServeBegin(After(e + t[..7]), Now(After(e + t[..6])));
  }

  lemma Prefixes(e: seq<Event>, t: seq<Event>)
    requires |t| == 8
    ensures e + [t[0]] == e + t[..1] && e + t[..7] + [t[7]] == e + t
    ensures forall k :: 0 < k < 8 ==> e + t[..k] + [t[k]] == e + t[..k + 1]
  {}
}
