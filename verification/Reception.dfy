/** UART reception over whole runs: which received lines become requests, and what decides
    whether a request runs. */
module Reception {
  import opened Text
  import opened UartLink
  import opened Tasks
  import opened TaskSafety

  // ---- One packet ----

  /** Places left in the queue. */
  function Room(s: World): nat {
    if |s.queues.requests| < QUEUE_LIMIT then QUEUE_LIMIT - |s.queues.requests| else 0
  }

  predicate IsRequestOf(r: Request, frame: Frame, session: nat, generation: nat, born: nat) {
    r.source == Uart(frame.number, session, generation) && r.line == frame.command && r.error == frame.error
    && r.born == born
  }

  /** Every byte of a packet reaches the parser, and the frames join the queue in order while
      there is room. One frame too many is a fault; without one the parser is where the bytes
      lead it. */
  lemma {:induction false} PacketIsStream(s: World, bytes: string)
    requires |s.queues.requests| <= QUEUE_LIMIT
    ensures var frames := FramesOfBytes(s.rx.pending, bytes); var r := Feed(s, bytes);
      && (|frames| <= Room(s) ==> r.rx.pending == AfterBytes(s.rx.pending, bytes) && r.flags == s.flags)
      && (|frames| > Room(s) ==> r.flags.generation > s.flags.generation && r.flags.damaged)
      && |r.queues.requests| == |s.queues.requests| + (if |frames| <= Room(s) then |frames| else Room(s))
      && s.queues.requests <= r.queues.requests
      && r.rx.readSession == s.rx.readSession && Now(r) == Now(s)
    ensures var frames := FramesOfBytes(s.rx.pending, bytes); var was := |s.queues.requests|;
      forall i :: 0 <= i < |frames| && i < Room(s) ==>
        IsRequestOf(Feed(s, bytes).queues.requests[was + i], frames[i], s.rx.readSession, s.flags.generation, Now(s))
    decreases |bytes|
  {
    hide LineFrame, FramesOfByte, AfterByte;
    if bytes != "" {
      var n := |bytes| - 1;
      PacketIsStream(s, bytes[..n]);
      assert bytes[..n + 1] == bytes;
      FeedSnoc(s.rx.pending, bytes, n);
      OneByte(Feed(s, bytes[..n]), bytes[n]);
    }
  }

  /** One byte: the parser moves, and a frame joins the queue or is one too many. */
  lemma OneByte(s: World, c: char)
    requires |s.queues.requests| <= QUEUE_LIMIT
    ensures var frames := FramesOfByte(s.rx.pending, c); var r := FeedByte(s, c);
      && r.rx.readSession == s.rx.readSession && Now(r) == Now(s)
      && (frames == [] || |s.queues.requests| < QUEUE_LIMIT ==>
            r.rx.pending == AfterByte(s.rx.pending, c) && r.flags == s.flags)
      && (frames == [] ==> r.queues.requests == s.queues.requests)
      && (frames != [] && |s.queues.requests| < QUEUE_LIMIT ==>
            && |r.queues.requests| == |s.queues.requests| + 1 && s.queues.requests <= r.queues.requests
            && IsRequestOf(r.queues.requests[|s.queues.requests|], frames[0], s.rx.readSession,
                           s.flags.generation, Now(s)))
      && (frames != [] && |s.queues.requests| == QUEUE_LIMIT ==>
            && r.rx.pending == Discarding && r.queues == s.queues
            && r.flags.generation == s.flags.generation + 1 && r.flags.damaged)
      && r.flags.generation >= s.flags.generation && (s.flags.damaged ==> r.flags.damaged)
  {
    hide LineFrame;
  }

  // ---- Faults and sessions, event by event ----

  /** A read error, a failed transmission, or a packet of the session in force that completes
      more frames than the queue has room for. */
  predicate Faulty(s: World, e: Event) {
    || e.RxError? || e.TxFailed?
    || (e.RxBytes? && s.rx.readSession == s.usb.epoch && |FramesOfBytes(s.rx.pending, e.bytes)| > Room(s))
  }

  /** Just these events raise the fault generation, and they mark the damage. */
  lemma FaultExactly(s: World, e: Event)
    requires |s.queues.requests| <= QUEUE_LIMIT
    ensures Act(s, e).flags.generation >= s.flags.generation
    ensures Act(s, e).flags.generation > s.flags.generation <==> Faulty(s, e)
    ensures Faulty(s, e) ==> Act(s, e).flags.damaged
  {
    hide Feed, FramesOfBytes, AfterSession, Judge, Lifts, OnRxBytes;
    if e.RxBytes? { PacketFault(s, e.bytes); }
  }

  lemma PacketFault(s: World, bytes: string)
    requires |s.queues.requests| <= QUEUE_LIMIT
    ensures var r := OnRxBytes(s, bytes);
      && r.flags.generation >= s.flags.generation
      && (r.flags.generation > s.flags.generation <==> Faulty(s, RxBytes(bytes)))
      && (Faulty(s, RxBytes(bytes)) ==> r.flags.damaged)
  {
    hide Feed, FramesOfBytes, AfterSession;
    PacketIsStream(s, bytes);
  }

  /** USB is lost, or the host's ownership changes. */
  predicate MovesSession(s: World, e: Event) {
    || e.Unavailable?
    || (e.Control? && (s.usb.available && s.usb.dtrValid && e.dtr) != s.usb.active)
  }

  lemma SessionExactly(s: World, e: Event)
    ensures Act(s, e).usb.epoch == s.usb.epoch + if MovesSession(s, e) then 1 else 0
  {
    hide Feed, RxTop, OnRxBytes, Lifts, Judge, OnOverflow;
    if e.RxBytes? || e.RxCancelled? || e.RxError? { RxFlags(s, e); }
  }

  predicate NoFault(events: seq<Event>, from: nat) {
    forall m :: from <= m < |events| ==> !Faulty(StateAt(events, m), events[m])
  }

  predicate SameSession(events: seq<Event>, from: nat) {
    forall m :: from <= m < |events| ==> !MovesSession(StateAt(events, m), events[m])
  }

  lemma StepFacts(events: seq<Event>, m: nat)
    requires m < |events|
    ensures var a, b := StateAt(events, m), StateAt(events, m + 1);
      && a.flags.generation <= b.flags.generation
      && (a.flags.generation < b.flags.generation <==> Faulty(a, events[m]))
      && b.usb.epoch == a.usb.epoch + (if MovesSession(a, events[m]) then 1 else 0)
  {
    hide After, Act, Inv, Faulty, MovesSession;
    Next(events, m);
    ReachableOk(events[..m]);
    QueueNow(StateAt(events, m));
    FaultExactly(StateAt(events, m), events[m]);
    SessionExactly(StateAt(events, m), events[m]);
    RecordFlags(Act(StateAt(events, m), events[m]));
  }

  lemma QueueNow(s: World)
    requires Inv(s)
    ensures |s.queues.requests| <= QUEUE_LIMIT
  {}

  lemma RecordFlags(s: World)
    ensures Record(s).flags == s.flags && Record(s).usb == s.usb
  {}

  /** The generation stays exactly while there is no fault, the epoch while no session moves. */
  lemma {:induction false} SinceExactly(events: seq<Event>, from: nat)
    requires from <= |events|
    ensures StateAt(events, from).flags.generation <= After(events).flags.generation
    ensures StateAt(events, from).flags.generation == After(events).flags.generation <==> NoFault(events, from)
    ensures StateAt(events, from).usb.epoch <= After(events).usb.epoch
    ensures StateAt(events, from).usb.epoch == After(events).usb.epoch <==> SameSession(events, from)
    decreases |events| - from
  {
    hide After, Faulty, MovesSession, StateAt;
    Whole(events);
    if from < |events| {
      StepFacts(events, from);
      SinceExactly(events, from + 1);
    }
  }

  // ---- What becomes of a request ----

  /** The worker is about to take up a UART request. */
  predicate TakesUart(s: World) {
    s.worker.pc.Choosing? && s.queues.requests != [] && s.queues.requests[0].source.Uart?
  }

  /** A request is dropped exactly if some fault came with its packet or later; and it passes
      for the session exactly if, besides, no USB host was active when its first byte was read
      and none has come or gone since. */
  lemma UartFateExactly(events: seq<Event>)
    requires TakesUart(After(events))
    ensures var s, r := After(events), After(events).queues.requests[0];
      && 0 < r.born <= |events| && r.began <= r.born
      && (Judge(s, r) == Drop <==> !NoFault(events, r.born - 1))
      && (PassesUart(s, r) <==>
            NoFault(events, r.born - 1) && SameSession(events, r.began) && !StateAt(events, r.began).usb.active)
  {
    hide After, StateAt, NoFault, SameSession, IsOtaLine, IsClearVersion;
    var s, r := After(events), After(events).queues.requests[0];
    ReachableOk(events);
    LogIsHistory(events);
    assert RequestOk(s, r);
    assert r.born <= |events|;
    assert s.past.log[r.began] == MomentOf(StateAt(events, r.began));
    assert s.past.log[r.born - 1] == MomentOf(StateAt(events, r.born - 1));
    assert Before(s.past.log[r.began], MomentOf(s));
    SinceExactly(events, r.began);
    SinceExactly(events, r.born - 1);
  }

  /** When a UART request starts, judged by the events: nothing was damaged with or after its
      last byte, no USB host has been active since its first one, and the barrier, the uploads
      and the transport's verdict allow it. */
  lemma UartStartsExactly(events: seq<Event>)
    requires TakesUart(After(events))
    ensures var s, r := After(events), After(events).queues.requests[0];
      && 0 < r.born && r.began <= r.born <= |events|
      && (Starts(s, r) <==>
        && NoFault(events, r.born - 1)
        && SameSession(events, r.began) && !StateAt(events, r.began).usb.active
        && (s.flags.sync ==> r.line == "VER" && r.error == None)
        && (if "OTA " <= r.line then !s.flags.upload else !s.worker.otaActive && r.error == None))
  {
    hide After, StateAt, NoFault, SameSession;
    UartFateExactly(events);
    StartsExactly(After(events), After(events).queues.requests[0]);
  }

  /** When a request starts: a USB request only in its own session, once noticed, and a UART
      request only if it passes; never beside a UART update, but for an update line, and never
      against the transport's verdict, again but for an update line. */
  lemma StartsExactly(s: World, r: Request)
    ensures r.source.Uart? ==>
      (Starts(s, r) <==>
        && PassesUart(s, r)
        && (s.flags.sync ==> r.line == "VER" && r.error == None)
        && (if "OTA " <= r.line then !s.flags.upload else !s.worker.otaActive && r.error == None))
    ensures r.source.Cdc? ==>
      (Starts(s, r) <==>
        && s.usb.active && r.source.epoch == s.usb.epoch == s.worker.seen
        && !s.worker.otaActive && r.error == None)
    ensures Judge(s, r) == RunOta <==> Starts(s, r) && r.source.Uart? && "OTA " <= r.line
    ensures Judge(s, r) == Refuse ==> r.error.Some? && !s.worker.otaActive
    ensures Judge(s, r) == Busy && r.source.Cdc? ==> s.worker.otaActive
  {
    assert "VER"[0] != "OTA "[0];
  }

  /** A UART request that starts: from its last byte on no read error, no failed transmission
      and no overflow of the queue; from its first byte on no USB host, and none came or went. */
  lemma UartRunsUndisturbed(events: seq<Event>)
    requires TakesUart(After(events)) && Starts(After(events), After(events).queues.requests[0])
    ensures var s, r := After(events), After(events).queues.requests[0];
      && 0 < r.born && r.began <= r.born <= |events|
      && (forall m :: r.born - 1 <= m < |events| ==>
            && !events[m].RxError? && !events[m].TxFailed?
            && !Faulty(StateAt(events, m), events[m]))
      && (forall m :: r.began <= m < |events| ==>
            && !events[m].Unavailable? && !MovesSession(StateAt(events, m), events[m]))
      && (forall m :: r.began <= m <= |events| ==> !StateAt(events, m).usb.active)
      && (s.flags.sync ==> r.line == "VER" && r.error == None && !s.worker.otaActive)
      && FromWire(events, r)
  {
    hide After, StateAt, FramesOfBytes, FromWire;
    RequestsAreLines(events);
    var s, r := After(events), After(events).queues.requests[0];
    UartFateExactly(events);
    StartsExactly(s, r);
    if s.flags.sync { assert !("OTA " <= r.line); }
    forall m | r.began <= m <= |events| ensures !StateAt(events, m).usb.active {
      IdleSince(events, r.began, m);
    }
  }

  lemma IdleSince(events: seq<Event>, from: nat, m: nat)
    requires from <= m <= |events| && SameSession(events, from) && !StateAt(events, from).usb.active
    ensures !StateAt(events, m).usb.active
  {
    hide After, StateAt, MovesSession;
    SinceExactly(events, from);
    OwnerKeepsEpoch(events, from, m);
    OwnerKeepsEpoch(events, m, |events|);
    Whole(events);
  }

  // ---- The wire ----

  /** A mark of damage, unless the bytes so far end with a line. */
  function Seam(w: string): string { if AfterBytes(CLEAN, w) == CLEAN then "" else "\0" }

  /** A frame is complete and the queue has no room for it. */
  predicate Overflowing(s: World, c: char) {
    FramesOfByte(s.rx.pending, c) != [] && |s.queues.requests| >= QUEUE_LIMIT
  }

  /** The bytes of a packet, with a mark of damage where the queue overflowed. */
  function Marked(s: World, bytes: string): string
    decreases |bytes|
  {
    if bytes == "" then "" else
      var n := |bytes| - 1;
      Marked(s, bytes[..n]) + MarkedByte(Feed(s, bytes[..n]), bytes[n])
  }

  function MarkedByte(s: World, c: char): string { [c] + if Overflowing(s, c) then "\0" else "" }

  /** What an event adds to the bytes w received so far: a mark where a read failed, the bytes
      of a packet, and a mark where a session began in the middle of a line. */
  function Heard(s: World, w: string, e: Event): string {
    match e
    case RxError => "\0"
    case RxCancelled => if s.flags.sessionChanged && s.usb.epoch != s.rx.parserSession then Seam(w) else ""
    case RxBytes(bytes) =>
      if s.usb.epoch != s.rx.readSession then bytes + Seam(w + bytes) else Marked(s, bytes)
    case _ => ""
  }

  /** All bytes received so far, in order, with a mark, a byte no line may contain, wherever a
      line was spoilt. */
  function Wire(events: seq<Event>): string
    decreases |events|
  {
    if events == [] then "" else
      var n := |events| - 1;
      Wire(events[..n]) + Heard(After(events[..n]), Wire(events[..n]), events[n])
  }

  lemma AfterMark(p: Pending)
    ensures AfterBytes(p, "\0") == Discarding
  {
    assert "\0"[1..] == "";
    assert AfterBytes(AfterByte(p, '\0'), "") == AfterByte(p, '\0');
  }

  lemma AfterSeam(w: string)
    ensures AfterBytes(CLEAN, w + Seam(w)) == if AfterBytes(CLEAN, w) == CLEAN then CLEAN else Discarding
  {
    FeedConcat(CLEAN, w, Seam(w));
    AfterMark(AfterBytes(CLEAN, w));
  }

  lemma AfterMarkedByte(s: World, w: string, c: char)
    requires |s.queues.requests| <= QUEUE_LIMIT && s.rx.pending == AfterBytes(CLEAN, w)
    ensures FeedByte(s, c).rx.pending == AfterBytes(CLEAN, w + MarkedByte(s, c))
  {
    hide FramesOfByte, LineFrame, FeedByte;
    OneByte(s, c);
    FeedConcat(CLEAN, w, [c]);
    assert [c][1..] == "";
    assert AfterBytes(s.rx.pending, [c]) == AfterByte(s.rx.pending, c);
    if Overflowing(s, c) {
      assert w + MarkedByte(s, c) == (w + [c]) + "\0";
      FeedConcat(CLEAN, w + [c], "\0");
      AfterMark(AfterBytes(CLEAN, w + [c]));
    } else {
      assert w + MarkedByte(s, c) == w + [c];
    }
  }

  lemma {:induction false} AfterMarked(s: World, w: string, bytes: string)
    requires |s.queues.requests| <= QUEUE_LIMIT && s.rx.pending == AfterBytes(CLEAN, w)
    ensures Feed(s, bytes).rx.pending == AfterBytes(CLEAN, w + Marked(s, bytes))
    decreases |bytes|
  {
    hide FeedByte, MarkedByte, FramesOfBytes, AfterBytes;
    if bytes == "" {
      assert w + "" == w;
    } else {
      var n := |bytes| - 1;
      AfterMarked(s, w, bytes[..n]);
      PacketIsStream(s, bytes[..n]);
      AfterMarkedByte(Feed(s, bytes[..n]), w + Marked(s, bytes[..n]), bytes[n]);
      assert w + Marked(s, bytes) == (w + Marked(s, bytes[..n])) + MarkedByte(Feed(s, bytes[..n]), bytes[n]);
    }
  }

  lemma HeardMoves(s: World, w: string, e: Event)
    requires RxOk(s) && |s.queues.requests| <= QUEUE_LIMIT && s.rx.pending == AfterBytes(CLEAN, w)
    ensures Act(s, e).rx.pending == AfterBytes(CLEAN, w + Heard(s, w, e))
  {
    hide Feed, AfterSession, AfterBytes, Marked, Seam, Judge, Lifts;
    assert w + "" == w;
    match e
    case RxError => FeedConcat(CLEAN, w, "\0"); AfterMark(s.rx.pending); Spoilt();
    case RxCancelled => AfterSeam(w); CancellationIsExact(s.rx.pending, "");  Nothing(s.rx.pending);
    case RxBytes(bytes) => BytesMove(s, w, bytes);
    case _ =>
  }

  lemma Nothing(p: Pending)
    ensures AfterBytes(p, "") == p
  {}

  lemma Spoilt()
    ensures AfterSession(Discarding, "") == Discarding
  {}

  lemma BytesMove(s: World, w: string, bytes: string)
    requires RxOk(s) && |s.queues.requests| <= QUEUE_LIMIT && s.rx.pending == AfterBytes(CLEAN, w)
    ensures OnRxBytes(s, bytes).rx.pending == AfterBytes(CLEAN, w + Heard(s, w, RxBytes(bytes)))
  {
    hide Feed, AfterSession, AfterBytes, Marked, Seam, RxTop, Cancelled, RxOk, FramesOfBytes, CLEAN;
    TopPending(s, bytes);
    TopPending(Feed(s, bytes), "");
    if s.usb.epoch != s.rx.readSession {
      CancellationIsExact(s.rx.pending, bytes);
      FeedConcat(CLEAN, w, bytes);
      AfterSeam(w + bytes);
      assert w + (bytes + Seam(w + bytes)) == (w + bytes) + Seam(w + bytes);
    } else {
      AfterMarked(s, w, bytes);
      FeedSession(s, bytes);
      InStep(s);
    }
  }

  lemma InStep(s: World)
    requires RxOk(s)
    ensures s.rx.parserSession == s.rx.readSession
  {}

  lemma TopPending(s: World, bytes: string)
    ensures s.usb.epoch == s.rx.parserSession ==> RxTop(s).rx.pending == s.rx.pending
    ensures RxTop(Cancelled(s, bytes)).rx.pending == AfterSession(s.rx.pending, bytes)
  {}

  lemma {:induction false} FeedSession(s: World, bytes: string)
    ensures var r := Feed(s, bytes);
      r.rx.parserSession == s.rx.parserSession && r.rx.readSession == s.rx.readSession && r.usb == s.usb
    decreases |bytes|
  {
    hide FramesOfByte, AfterByte;
    if bytes != "" { FeedSession(s, bytes[..|bytes| - 1]); }
  }

  /** Over any run the parser is where the wire leads it. */
  lemma {:induction false} PendingIsWire(events: seq<Event>)
    ensures After(events).rx.pending == AfterBytes(CLEAN, Wire(events))
    decreases |events|
  {
    hide Act, Inv, Heard;
    if events == [] {
      Nothing(CLEAN);
      NoEvents();
    } else {
      var n := |events| - 1;
      PendingIsWire(events[..n]);
      ReachableOk(events[..n]);
      RxNow(After(events[..n]));
      HeardMoves(After(events[..n]), Wire(events[..n]), events[n]);
      RecordRx(Act(After(events[..n]), events[n]));
    }
  }

  lemma RxNow(s: World)
    requires Inv(s)
    ensures RxOk(s) && |s.queues.requests| <= QUEUE_LIMIT
  {}

  lemma RecordRx(s: World)
    ensures Record(s).rx == s.rx && Record(s).queues == s.queues
  {}

  // ---- Where a request comes from ----

  predicate IsLineStart(w: string, i: nat)
    requires i <= |w|
  {
    i == 0 || w[i - 1] == '\n'
  }

  /** The parser holds what stands behind the last line end. */
  predicate IsTail(w: string, p: Pending) {
    p.Partial? ==>
      && |p.text| <= |w| && w[|w| - |p.text|..] == p.text
      && IsLineStart(w, |w| - |p.text|) && '\n' !in p.text && IsWholesome(p.text)
  }

  lemma TailGrows(w: string, p: Pending, c: char)
    requires IsTail(w, p)
    ensures IsTail(w + [c], AfterByte(p, c))
  {
    var v, q := w + [c], AfterByte(p, c);
    if p.Partial? && q == Partial(p.text + [c]) {
      assert v[|v| - |q.text|..] == w[|w| - |p.text|..] + [c];
    }
  }

  lemma {:induction false} PendingIsTail(w: string)
    ensures IsTail(w, AfterBytes(CLEAN, w))
    decreases |w|
  {
    hide IsTail, AfterByte, AfterBytes;
    if w == "" {
      Nothing(CLEAN);
      EmptyTail();
    } else {
      var n := |w| - 1;
      PendingIsTail(w[..n]);
      assert w[..n + 1] == w && w[..n] + [w[n]] == w;
      FeedSnoc(CLEAN, w, n);
      TailGrows(w[..n], AfterBytes(CLEAN, w[..n]), w[n]);
    }
  }

  lemma EmptyTail()
    ensures IsTail("", CLEAN)
  {}

  /** A request is the frame of this line. */
  predicate IsOfLine(r: Request, line: string) {
    && r.source.Uart? && '\n' !in line && IsWholesome(line)
    && LineFrame(line) == Some(Frame(r.source.number, r.line, r.error))
  }

  /** Place i of the wire was received by event number k, counted from one, or later than all. */
  predicate ReceivedBy(events: seq<Event>, k: nat, i: nat) {
    && 0 < k <= |events| + 1 && |Wire(events[..k - 1])| <= i
    && (k <= |events| ==> i < |Wire(events[..k])|)
  }

  /** The request is the line w[i..j] of a wire that goes on behind the events given. */
  predicate StandsAt(events: seq<Event>, w: string, r: Request, i: nat, j: nat) {
    && i <= j < |w| && w[j] == '\n' && IsLineStart(w, i) && IsOfLine(r, w[i..j])
    && r.born == |events| + 1 && |Wire(events)| <= j && ReceivedBy(events, r.began, i)
  }

  ghost predicate Stands(events: seq<Event>, w: string, r: Request) {
    exists i: nat, j: nat :: StandsAt(events, w, r, i, j)
  }

  predicate PendingBegan(events: seq<Event>, w: string, rx: Rx) {
    rx.pending.Partial? && rx.pending.text != "" && |rx.pending.text| <= |w| ==>
      ReceivedBy(events, rx.began, |w| - |rx.pending.text|)
  }

  lemma StandsLonger(events: seq<Event>, w: string, more: string, r: Request)
    requires Stands(events, w, r)
    ensures Stands(events, w + more, r)
  {
    hide StandsAt;
    var i, j :| StandsAt(events, w, r, i, j);
    StandsAtLonger(events, w, more, r, i, j);
    assert StandsAt(events, w + more, r, i, j);
  }

  lemma StandsAtLonger(events: seq<Event>, w: string, more: string, r: Request, i: nat, j: nat)
    requires StandsAt(events, w, r, i, j)
    ensures StandsAt(events, w + more, r, i, j)
  {
    hide IsOfLine, ReceivedBy, Wire;
    assert (w + more)[i..j] == w[i..j];
  }

  /** In the middle of a packet: s before it, x now, w the wire up to now. */
  ghost predicate Sourced(events: seq<Event>, s: World, x: World, w: string) {
    && |s.queues.requests| <= |x.queues.requests| <= QUEUE_LIMIT
    && x.rx.pending == AfterBytes(CLEAN, w) && Now(x) == |events| + 1 && |Wire(events)| <= |w|
    && PendingBegan(events, w, x.rx)
    && forall k :: |s.queues.requests| <= k < |x.queues.requests| ==> Stands(events, w, x.queues.requests[k])
  }

  lemma ByteSourced(events: seq<Event>, s: World, x: World, w: string, c: char)
    requires Sourced(events, s, x, w)
    ensures Sourced(events, s, FeedByte(x, c), w + MarkedByte(x, c))
  {
    hide LineFrame, IsWholesome, ReceivedBy, AfterBytes, FeedByte, MarkedByte, Stands;
    var r, more := FeedByte(x, c), MarkedByte(x, c);
    AfterMarkedByte(x, w, c);
    OneByte(x, c);
    ByteBegan(events, x, w, c);
    forall k | |s.queues.requests| <= k < |r.queues.requests| ensures Stands(events, w + more, r.queues.requests[k]) {
      if k < |x.queues.requests| {
        assert r.queues.requests[k] == x.queues.requests[k];
        StandsLonger(events, w, more, x.queues.requests[k]);
      } else {
        ByteStands(events, x, w, c);
      }
    }
  }

  lemma ByteBegan(events: seq<Event>, x: World, w: string, c: char)
    requires x.rx.pending == AfterBytes(CLEAN, w) && Now(x) == |events| + 1 && |Wire(events)| <= |w|
    requires |x.queues.requests| <= QUEUE_LIMIT && PendingBegan(events, w, x.rx)
    ensures PendingBegan(events, w + MarkedByte(x, c), FeedByte(x, c).rx)
    ensures FramesOfByte(x.rx.pending, c) != [] && |x.queues.requests| < QUEUE_LIMIT ==>
      |FeedByte(x, c).queues.requests| == |x.queues.requests| + 1
      && FeedByte(x, c).queues.requests[|x.queues.requests|].began == x.rx.began && x.rx.pending != CLEAN
  {
    hide IsWholesome, AfterBytes, Wire;
    PendingIsTail(w);
    assert events[..|events|] == events;
  }

  /** The frame a byte completes is the line that ends with it. */
  lemma ByteStands(events: seq<Event>, x: World, w: string, c: char)
    requires x.rx.pending == AfterBytes(CLEAN, w) && Now(x) == |events| + 1 && |Wire(events)| <= |w|
    requires |x.queues.requests| < |FeedByte(x, c).queues.requests| <= QUEUE_LIMIT && PendingBegan(events, w, x.rx)
    ensures Stands(events, w + MarkedByte(x, c), FeedByte(x, c).queues.requests[|x.queues.requests|])
  {
    hide LineFrame, IsWholesome, ReceivedBy, AfterBytes, FeedByte;
    OneByte(x, c);
    ByteBegan(events, x, w, c);
    PendingIsTail(w);
    var text, r := x.rx.pending.text, FeedByte(x, c).queues.requests[|x.queues.requests|];
    var i, j, v := |w| - |text|, |w|, w + MarkedByte(x, c);
    assert v[i..j] == text;
    OfFrame(r, text, x, c);
    assert StandsAt(events, v, r, i, j) by { hide IsOfLine, Wire, FramesOfByte; }
  }

  lemma OfFrame(r: Request, text: string, x: World, c: char)
    requires x.rx.pending == Partial(text) && '\n' !in text && IsWholesome(text)
    requires FramesOfByte(x.rx.pending, c) != []
    requires IsRequestOf(r, FramesOfByte(x.rx.pending, c)[0], x.rx.readSession, x.flags.generation, r.born)
    ensures IsOfLine(r, text) && c == '\n'
  {
    hide LineFrame, IsWholesome;
  }

  // ---- The queue ----

  /** The requests that an event puts into the queue. */
  function Joins(s: World, e: Event): seq<Request> {
    if e.RxBytes? && s.usb.epoch == s.rx.readSession && |s.queues.requests| <= |Feed(s, e.bytes).queues.requests|
      then Feed(s, e.bytes).queues.requests[|s.queues.requests|..]
    else if e.SerialSend? && s.serial.pc.Sending? && |s.queues.requests| < QUEUE_LIMIT
      then [s.serial.pc.request]
    else []
  }

  /** The request that an event takes out of it. */
  function Leaves(s: World, e: Event): seq<Request> {
    if e.WorkerTake? && s.worker.pc.Choosing? && s.queues.requests != [] then [s.queues.requests[0]] else []
  }

  /** The queue is first in, first out, and nothing else touches it. */
  lemma QueueMoves(s: World, e: Event)
    requires |s.queues.requests| <= QUEUE_LIMIT
    ensures s.queues.requests + Joins(s, e) == Leaves(s, e) + Act(s, e).queues.requests
  {
    hide Feed, AfterSession, FramesOfBytes, Judge, Lifts, OnRxBytes;
    match e
    case RxBytes(bytes) => PacketIsStream(s, bytes); PacketQueue(s, bytes);
    case WorkerTake(otaAfter) => TakeQueue(s, otaAfter);
    case _ =>
  }

  lemma PacketQueue(s: World, bytes: string)
    ensures OnRxBytes(s, bytes).queues
         == if s.usb.epoch != s.rx.readSession then s.queues else Feed(s, bytes).queues
  {
    hide Feed, AfterSession;
  }

  lemma TakeQueue(s: World, otaAfter: bool)
    ensures s.queues.requests == Leaves(s, WorkerTake(otaAfter)) + Act(s, WorkerTake(otaAfter)).queues.requests
  {
    hide Judge, Lifts;
  }

  function AllJoined(events: seq<Event>): seq<Request>
    decreases |events|
  {
    if events == [] then [] else
      AllJoined(events[..|events| - 1]) + Joins(After(events[..|events| - 1]), events[|events| - 1])
  }

  function AllTaken(events: seq<Event>): seq<Request>
    decreases |events|
  {
    if events == [] then [] else
      AllTaken(events[..|events| - 1]) + Leaves(After(events[..|events| - 1]), events[|events| - 1])
  }

  /** The worker takes the requests up in the order in which they joined, leaving out none. */
  lemma {:induction false} TakenInOrder(events: seq<Event>)
    ensures AllJoined(events) == AllTaken(events) + After(events).queues.requests
    decreases |events|
  {
    hide Act, Inv, Joins, Leaves;
    if events == [] {
      NoEvents();
    } else {
      var n := |events| - 1;
      var was, e := After(events[..n]), events[n];
      TakenInOrder(events[..n]);
      ReachableOk(events[..n]);
      RxNow(was);
      QueueMoves(was, e);
      RecordRx(Act(was, e));
      Regroup(AllTaken(events[..n]), was.queues.requests, Joins(was, e), Leaves(was, e), Act(was, e).queues.requests);
    }
  }

  lemma Regroup(gone: seq<Request>, queue: seq<Request>, more: seq<Request>, out: seq<Request>, left: seq<Request>)
    requires queue + more == out + left
    ensures (gone + queue) + more == (gone + out) + left
  {
    assert (gone + queue) + more == gone + (queue + more);
    assert (gone + out) + left == gone + (out + left);
  }

  // ---- Every request is a received line ----

  lemma {:induction false} PacketSourced(events: seq<Event>, s: World, bytes: string)
    requires Sourced(events, s, s, Wire(events))
    ensures Sourced(events, s, Feed(s, bytes), Wire(events) + Marked(s, bytes))
    decreases |bytes|
  {
    hide Sourced, FeedByte, MarkedByte, Wire;
    var w := Wire(events);
    if bytes == "" {
      assert w + "" == w;
    } else {
      var n := |bytes| - 1;
      PacketSourced(events, s, bytes[..n]);
      ByteSourced(events, s, Feed(s, bytes[..n]), w + Marked(s, bytes[..n]), bytes[n]);
      assert w + Marked(s, bytes) == (w + Marked(s, bytes[..n])) + MarkedByte(Feed(s, bytes[..n]), bytes[n]);
    }
  }

  /** A UART request in the queue is a line of the wire: it starts behind a line end, was
      completed by event number born, and its first byte was received by event number began. */
  ghost predicate FromWire(events: seq<Event>, r: Request) {
    r.source.Uart? ==>
      && 0 < r.born <= |events|
      && Stands(events[..r.born - 1], Wire(events[..r.born]), r)
  }

  ghost predicate Traced(events: seq<Event>) {
    && PendingBegan(events, Wire(events), After(events).rx)
    && forall k :: 0 <= k < |After(events).queues.requests| ==> FromWire(events, After(events).queues.requests[k])
  }

  lemma FromWireLater(events: seq<Event>, e: Event, r: Request)
    requires FromWire(events, r)
    ensures FromWire(events + [e], r)
  {
    hide Stands, Wire;
    if r.source.Uart? {
      assert (events + [e])[..r.born - 1] == events[..r.born - 1];
      assert (events + [e])[..r.born] == events[..r.born];
    }
  }

  lemma ReceivedLater(events: seq<Event>, e: Event, k: nat, i: nat)
    requires ReceivedBy(events, k, i) && i < |Wire(events + [e])|
    ensures ReceivedBy(events + [e], k, i)
  {
    hide Wire;
    assert (events + [e])[..k - 1] == events[..k - 1];
    if k <= |events| { assert (events + [e])[..k] == events[..k]; }
    else { assert (events + [e])[..k] == events + [e]; }
  }

  /** Outside the packets of its session the parser takes in nothing. */
  lemma StillOrSpoilt(s: World, w: string, e: Event)
    requires RxOk(s) && !(e.RxBytes? && s.usb.epoch == s.rx.readSession)
    ensures var r := Act(s, e).rx;
      || r.pending == Discarding || r.pending == CLEAN
      || (r.pending == s.rx.pending && r.began == s.rx.began && Heard(s, w, e) == "")
  {
    hide Feed, Seam, Judge, Lifts;
  }

  lemma ReceivedSoFar(events: seq<Event>, e: Event)
    requires Traced(events)
    requires var p := Act(After(events), e).rx.pending;
      p.Partial? && p.text != "" && |p.text| <= |Wire(events + [e])|
    ensures var rx := Act(After(events), e).rx;
      ReceivedBy(events, rx.began, |Wire(events + [e])| - |rx.pending.text|)
  {
    hide Act, Inv, Wire, ReceivedBy, RxOk, Heard, Marked, After;
    var s, w := After(events), Wire(events);
    WireGrows(events, e);
    if e.RxBytes? && s.usb.epoch == s.rx.readSession {
      StartSourced(events);
      PacketSourced(events, s, e.bytes);
      PacketEnds(events, e);
    } else {
      ReachableOk(events);
      RxNow(s);
      StillOrSpoilt(s, w, e);
      assert w + "" == w;
    }
  }

  lemma PendingTraced(events: seq<Event>, e: Event)
    requires Traced(events)
    ensures PendingBegan(events + [e], Wire(events + [e]), Step(After(events), e).rx)
  {
    hide Act, Inv, Wire, ReceivedBy, RxOk, Heard, Marked, After;
    var s, w, all := After(events), Wire(events), events + [e];
    OneMore(events, e);
    RecordRx(Act(s, e));
    ReachableOk(events);
    RxNow(s);
    PendingIsWire(all);
    PendingIsTail(Wire(all));
    WireGrows(events, e);
    var rx := Act(s, e).rx;
    if rx.pending.Partial? && rx.pending.text != "" {
      ReceivedSoFar(events, e);
      ReceivedLater(events, e, rx.began, |Wire(all)| - |rx.pending.text|);
    }
  }

  lemma WireGrows(events: seq<Event>, e: Event)
    ensures Wire(events + [e]) == Wire(events) + Heard(After(events), Wire(events), e)
  {
    hide Heard, After;
    assert (events + [e])[..|events|] == events;
  }

  lemma StartSourced(events: seq<Event>)
    requires Traced(events)
    ensures Sourced(events, After(events), After(events), Wire(events))
  {
    hide After, Wire, Inv, RxOk, PendingBegan;
    PendingIsWire(events);
    LogIsHistory(events);
    ReachableOk(events);
    RxNow(After(events));
  }

  /** After a packet of its session the parser stays as the packet left it. */
  lemma PacketEnds(events: seq<Event>, e: Event)
    requires var s := After(events); e.RxBytes? && s.usb.epoch == s.rx.readSession
    ensures var s := After(events); var x := Feed(s, e.bytes);
      && Act(s, e).rx.pending == x.rx.pending && Act(s, e).rx.began == x.rx.began
      && Act(s, e).queues == x.queues && Heard(s, Wire(events), e) == Marked(s, e.bytes)
  {
    hide After, Wire, Inv, Feed, Marked;
    var s := After(events);
    ReachableOk(events);
    RxNow(s);
    FeedSession(s, e.bytes);
  }

  lemma JoinTraced(events: seq<Event>, e: Event)
    requires Traced(events)
    ensures forall r :: r in Joins(After(events), e) ==> FromWire(events + [e], r)
  {
    hide Wire, Marked, After, Stands, PendingBegan, Inv, Feed;
    var s, w, all := After(events), Wire(events), events + [e];
    if e.RxBytes? && s.usb.epoch == s.rx.readSession {
      StartSourced(events);
      PacketSourced(events, s, e.bytes);
      PacketEnds(events, e);
      WireGrows(events, e);
      assert all[..|events|] == events && all[..|events| + 1] == all;
      var x := Feed(s, e.bytes);
      forall r | r in Joins(s, e) ensures FromWire(all, r) {
        var k :| 0 <= k < |Joins(s, e)| && Joins(s, e)[k] == r;
        assert r == x.queues.requests[|s.queues.requests| + k];
        BornThen(events, Wire(all), r);
      }
    } else {
      ReachableOk(events);
      SendsUsb(s);
    }
  }

  lemma BornThen(events: seq<Event>, w: string, r: Request)
    requires Stands(events, w, r)
    ensures r.born == |events| + 1
  {}

  lemma SendsUsb(s: World)
    requires Inv(s)
    ensures s.serial.pc.Sending? ==> s.serial.pc.request.source.Cdc?
  {}

  /** Over any run: every UART request in the queue is one whole line of the wire, with number,
      text and verdict of that line, and began and born tell when its first and last byte came. */
  lemma {:induction false} RequestsAreLines(events: seq<Event>)
    ensures Traced(events)
    decreases |events|
  {
    hide After, FromWire, PendingBegan, Inv, Joins, Wire, Act;
    if events == [] {
      NoEvents();
      NothingPending();
    } else {
      var n := |events| - 1;
      var init, e := events[..n], events[n];
      assert events == init + [e];
      var s := After(init);
      RequestsAreLines(init);
      OneMore(init, e);
      RecordRx(Act(s, e));
      PendingTraced(init, e);
      JoinTraced(init, e);
      ReachableOk(init);
      RxNow(s);
      QueueMoves(s, e);
      forall k | 0 <= k < |Act(s, e).queues.requests| ensures FromWire(events, Act(s, e).queues.requests[k]) {
        var r := Act(s, e).queues.requests[k];
        assert r == (Leaves(s, e) + Act(s, e).queues.requests)[|Leaves(s, e)| + k];
        assert r in s.queues.requests || r in Joins(s, e);
        if r in s.queues.requests { FromWireLater(init, e, r); }
      }
    }
  }

  lemma NothingPending()
    ensures PendingBegan([], Wire([]), START.rx)
  {}

  /** Nothing comes of the rest of the line in which a read failed. */
  lemma ErrorSilences(events: seq<Event>, rest: string)
    requires '\n' !in rest
    ensures var s := After(events + [RxError]);
      && s.rx.readSession == s.usb.epoch
      && Feed(s, rest + "\n").queues.requests == s.queues.requests && Joins(s, RxBytes(rest + "\n")) == []
  {
    hide After, Inv, FramesOfBytes, Feed;
    var s, bytes := After(events + [RxError]), rest + "\n";
    OneMore(events, RxError);
    Spoilt();
    ReachableOk(events + [RxError]);
    RxNow(s);
    PacketIsStream(s, bytes);
    DamageIsContained(bytes);
    assert '\n' in bytes && bytes[..IndexOf(bytes, '\n')] == rest && AfterLineFeed(bytes) == "";
    assert Feed(s, bytes).queues.requests == s.queues.requests;
  }

  // ---- Damage is answered ----

  /** The worker comes round to the top of its loop. */
  predicate ComesRound(s: World, e: Event) { e.WorkerTop? && s.worker.pc.AtTop? }

  /** A fault marks damage, and the mark stays until the worker comes round. */
  lemma DamageMoves(s: World, e: Event)
    requires |s.queues.requests| <= QUEUE_LIMIT
    ensures Act(s, e).flags.damaged <==> Faulty(s, e) || (s.flags.damaged && !ComesRound(s, e))
  {
    hide Feed, AfterSession, FramesOfBytes, Judge, Lifts, OnRxBytes;
    if e.RxBytes? { PacketDamage(s, e.bytes); }
  }

  lemma PacketDamage(s: World, bytes: string)
    requires |s.queues.requests| <= QUEUE_LIMIT
    ensures OnRxBytes(s, bytes).flags.damaged <==> Faulty(s, RxBytes(bytes)) || s.flags.damaged
  {
    hide Feed, FramesOfBytes, AfterSession;
    PacketIsStream(s, bytes);
  }

  predicate Unanswered(events: seq<Event>, i: nat) {
    && i < |events| && Faulty(StateAt(events, i), events[i])
    && forall m :: i < m < |events| ==> !ComesRound(StateAt(events, m), events[m])
  }

  /** Damage is marked exactly while the worker has not come round since the last fault. */
  lemma {:induction false} DamagedExactly(events: seq<Event>)
    ensures After(events).flags.damaged <==> exists i: nat :: Unanswered(events, i)
    decreases |events|
  {
    hide Act, Inv, Faulty, ComesRound, After;
    if events == [] {
      NoEvents();
    } else {
      var n := |events| - 1;
      var init := events[..n];
      var s := After(init);
      DamagedExactly(init);
      ReachableOk(init);
      RxNow(s);
      SamePast(events, n);
      Whole(init);
      DamageMoves(s, events[n]);
      OneMore(init, events[n]);
      assert events == init + [events[n]];
      RecordFlags(Act(s, events[n]));
      if Faulty(s, events[n]) { assert Unanswered(events, n); }
      if s.flags.damaged && !ComesRound(s, events[n]) {
        var i: nat :| Unanswered(init, i);
        assert Unanswered(events, i);
      }
      if i: nat :| Unanswered(events, i) && i < n { assert Unanswered(init, i); }
    }
  }

  /** Which bursts to release all keys an event attempts: one before a new USB host takes over,
      one for damage, each only under a connected pairing. */
  lemma AllUpsExactly(s: World, e: Event)
    ensures Act(s, e).past.allUps == s.past.allUps
      + (if ComesRound(s, e) && e.connected && s.usb.active && s.usb.epoch != s.worker.seen
         then [ForHost(s.usb.epoch)] else [])
      + (if ComesRound(s, e) && e.connected && s.flags.damaged then [AfterDamage(s.flags.generation)] else [])
  {
    hide Feed, RxTop, OnRxBytes, OnOverflow, Judge, Lifts;
    if e.RxBytes? || e.RxCancelled? || e.RxError? { ActEntered(s, e); }
  }

  lemma {:induction false} AllUpsGrow(events: seq<Event>, k: nat)
    requires k <= |events|
    ensures StateAt(events, k).past.allUps <= After(events).past.allUps
    decreases |events| - k
  {
    hide Act, After;
    if k == |events| {
      Whole(events);
    } else {
      AllUpsGrow(events, k + 1);
      Next(events, k);
      AllUpsExactly(StateAt(events, k), events[k]);
      RecordUps(Act(StateAt(events, k), events[k]));
    }
  }

  lemma RecordUps(s: World)
    ensures Record(s).past.allUps == s.past.allUps
  {}

  /** The first time the worker comes round after a fault under a connected pairing, it tries to
      release all keys for a generation that counts the fault. */
  lemma DamageIsAnswered(events: seq<Event>, i: nat, j: nat)
    requires j < |events| && Unanswered(events[..j], i)
    requires ComesRound(StateAt(events, j), events[j]) && events[j].connected
    ensures StateAt(events, i).flags.generation < StateAt(events, j).flags.generation
    ensures AfterDamage(StateAt(events, j).flags.generation) in After(events).past.allUps
  {
    hide Act, After, Faulty, StateAt, Unanswered, ComesRound;
    var s := StateAt(events, j);
    SamePast(events, j);
    Whole(events[..j]);
    DamageIsMarked(events[..j], i);
    Next(events, j);
    Answered(s, events[j]);
    RecordUps(Act(s, events[j]));
    AllUpsGrow(events, j + 1);
  }

  lemma DamageIsMarked(events: seq<Event>, i: nat)
    requires Unanswered(events, i)
    ensures After(events).flags.damaged && i < |events|
    ensures StateAt(events, i).flags.generation < After(events).flags.generation
  {
    hide After, StateAt, Faulty, ComesRound;
    DamagedExactly(events);
    SinceExactly(events, i);
  }

  lemma Answered(s: World, e: Event)
    requires ComesRound(s, e) && e.connected && s.flags.damaged
    ensures AfterDamage(s.flags.generation) in Act(s, e).past.allUps
  {
    hide Act;
    AllUpsExactly(s, e);
    var ups := Act(s, e).past.allUps;
    assert ups[|ups| - 1] == AfterDamage(s.flags.generation);
  }
}
