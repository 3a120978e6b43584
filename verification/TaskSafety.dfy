/** What holds over every interleaving of the tasks, from power-on. */
module TaskSafety {
  import opened Text
  import opened UartLink
  import opened Tasks

  /** The state after the first k events. */
  function StateAt(events: seq<Event>, k: nat): World
    requires k <= |events|
  {
    After(events[..k])
  }

  lemma Next(events: seq<Event>, k: nat)
    requires k < |events|
    ensures StateAt(events, k + 1) == Step(StateAt(events, k), events[k])
    ensures StateAt(events, |events|) == After(events)
  {
    hide Step;
    assert events[..k + 1][..k] == events[..k];
    assert events[..|events|] == events;
  }

  lemma OneMore(events: seq<Event>, e: Event)
    ensures After(events + [e]) == Step(After(events), e)
  {
    hide Step;
    assert (events + [e])[..|events|] == events;
  }

  lemma Whole(events: seq<Event>)
    ensures StateAt(events, |events|) == After(events)
  {
    assert events[..|events|] == events;
  }

  lemma ActLog(s: World, e: Event)
    ensures Act(s, e).past.log == s.past.log
  {
    hide Feed, RxTop, Cancelled;
    match e
    case RxBytes(bytes) => RxLog(s, bytes);
    case RxCancelled => RxTopLog(s);
    case RxError => RxTopLog(OnOverflow(s));
    case _ =>
  }

  lemma RxTopLog(s: World)
    ensures RxTop(s).past == s.past && forall p :: Cancelled(s, p).past == s.past
  {}

  lemma {:induction false} FeedLog(s: World, bytes: string)
    ensures Feed(s, bytes).past == s.past
    decreases |bytes|
  {
    if bytes != "" { FeedLog(s, bytes[..|bytes| - 1]); }
  }

  lemma RxLog(s: World, bytes: string)
    ensures OnRxBytes(s, bytes).past == s.past
  {
    hide Feed, RxTop, Cancelled;
    FeedLog(s, bytes);
    RxTopLog(Feed(s, bytes));
    RxTopLog(s);
    RxTopLog(Cancelled(s, bytes));
  }

  /** The log is the history of the run. */
  lemma {:induction false} LogIsHistory(events: seq<Event>)
    ensures Now(After(events)) == |events| + 1
    ensures forall m :: 0 <= m <= |events| ==> After(events).past.log[m] == MomentOf(StateAt(events, m))
    decreases |events|
  {
    hide Act, MomentOf;
    if events == [] {
      assert MomentOf(START) == Moment(0, false, 0, true) by { MomentOfStart(); }
    } else {
      var n := |events| - 1;
      var init := events[..n];
      LogIsHistory(init);
      ActLog(After(init), events[n]);
      Whole(events);
      SamePast(events, n);
      var log := After(init).past.log;
      assert After(events).past.log == log + [MomentOf(Act(After(init), events[n]))];
      assert MomentOf(After(events)) == MomentOf(Act(After(init), events[n])) by { RecordMoment(Act(After(init), events[n])); }
    }
  }

  /** A run's first states are those of its prefix. */
  lemma SamePast(events: seq<Event>, n: nat)
    requires n <= |events|
    ensures forall m :: 0 <= m <= n ==> StateAt(events[..n], m) == StateAt(events, m)
  {
    hide After;
    forall m | 0 <= m <= n ensures StateAt(events[..n], m) == StateAt(events, m) {
      assert events[..n][..m] == events[..m];
    }
  }

  lemma RecordMoment(s: World)
    ensures MomentOf(Record(s)) == MomentOf(s)
  {}

  lemma MomentOfStart()
    ensures MomentOf(START) == Moment(0, false, 0, true)
  {}

  // ---- Ownership ----

  /** Who owns the radio is fixed within an epoch: two moments of one epoch agree on it, and
      epochs and fault generations never go back. */
  lemma OwnerKeepsEpoch(events: seq<Event>, i: nat, j: nat)
    requires i <= j <= |events|
    ensures var a, b := StateAt(events, i), StateAt(events, j);
      && a.usb.epoch <= b.usb.epoch && a.flags.generation <= b.flags.generation
      && (a.usb.epoch == b.usb.epoch ==> a.usb.active == b.usb.active)
  {
    hide After, Act;
    ReachableOk(events);
    LogIsHistory(events);
    assert LogOk(After(events));
    assert Before(After(events).past.log[i], After(events).past.log[j]);
  }

  // ---- The barrier ----

  lemma {:induction false} FeedFlags(s: World, bytes: string)
    ensures var r := Feed(s, bytes);
      && r.flags.sync == s.flags.sync && r.usb == s.usb && r.worker == s.worker && r.serial == s.serial
    decreases |bytes|
  {
    hide FramesOfByte, AfterByte;
    if bytes != "" { FeedFlags(s, bytes[..|bytes| - 1]); }
  }

  lemma RxFlags(s: World, e: Event)
    requires e.RxBytes? || e.RxCancelled? || e.RxError?
    ensures var r := Act(s, e);
      && r.flags.sync == s.flags.sync && r.usb == s.usb && r.worker == s.worker && r.serial == s.serial
  {
    hide Feed, AfterSession;
    if e.RxBytes? { FeedFlags(s, e.bytes); }
  }

  /** The step at which the worker lifts the barrier. */
  predicate LiftsAt(s: World, e: Event) {
    e.WorkerTake? && s.worker.pc.Choosing? && s.queues.requests != [] && Lifts(s, s.queues.requests[0])
  }

  lemma OnlyVersionLifts(s: World, e: Event)
    ensures s.flags.sync && !Act(s, e).flags.sync <==> LiftsAt(s, e)
    ensures LiftsAt(s, e) ==>
      && s.queues.requests[0].line == "VER" && s.queues.requests[0].error == None
      && s.queues.requests[0].source.Uart? && !s.usb.active
  {
    hide Feed, RxTop, OnRxBytes, Judge, OnOverflow;
    if e.RxBytes? || e.RxCancelled? || e.RxError? { RxFlags(s, e); }
  }

  /** The worker finds a UART update abandoned. */
  predicate TimesOut(s: World, e: Event) { e.WorkerTop? && s.worker.pc.AtTop? && s.worker.otaActive && e.timeout }

  /** A USB host takes over. */
  predicate HostComes(s: World, e: Event) {
    e.Control? && e.dtr && s.usb.available && s.usb.dtrValid && !s.usb.active
  }

  /** The barrier goes up exactly when an abandoned update is closed or a USB host takes over. */
  lemma BarrierRisesExactly(s: World, e: Event)
    requires !s.flags.sync
    ensures Act(s, e).flags.sync <==> TimesOut(s, e) || HostComes(s, e)
    ensures TimesOut(s, e) ==> !Act(s, e).worker.otaActive && !Act(s, e).flags.ota
    ensures HostComes(s, e) ==> Act(s, e).usb.active && Act(s, e).flags.sessionChanged
  {
    hide Feed, RxTop, OnRxBytes, Judge, OnOverflow;
    if e.RxBytes? || e.RxCancelled? || e.RxError? { RxFlags(s, e); }
  }

  // ---- The host ----

  predicate NotLostSince(events: seq<Event>, k: nat) {
    k < |events| && forall m :: k <= m < |events| ==> !events[m].Unavailable?
  }

  /** USB is available only if it was configured after it was last lost, and the DTR mark set
      only if the line state set it after that. */
  lemma {:induction false} UsbNeedsReason(events: seq<Event>)
    ensures var u := After(events).usb;
      && (u.available ==> exists k: nat :: NotLostSince(events, k) && events[k].Configured?)
      && (u.dtrValid ==> exists k: nat :: NotLostSince(events, k) && events[k] == LineState(true))
    decreases |events|
  {
    hide Act, After;
    if events == [] {
      NoEvents();
    } else {
      var n := |events| - 1;
      var init, e := events[..n], events[n];
      assert events == init + [e];
      UsbNeedsReason(init);
      OneMore(init, e);
      UsbMoves(After(init), e);
      RecordUsb(Act(After(init), e));
      var u := After(events).usb;
      if u.available {
        if e.Configured? { assert NotLostSince(events, n); } else {
          var k: nat :| NotLostSince(init, k) && init[k].Configured?;
          assert NotLostSince(events, k) && events[k].Configured?;
        }
      }
      if u.dtrValid {
        if e == LineState(true) { assert NotLostSince(events, n); } else {
          var k: nat :| NotLostSince(init, k) && init[k] == LineState(true);
          assert NotLostSince(events, k) && events[k] == LineState(true);
        }
      }
    }
  }

  lemma UsbMoves(s: World, e: Event)
    ensures var u := Act(s, e).usb;
      && (u.available ==> e.Configured? || (s.usb.available && !e.Unavailable?))
      && (u.dtrValid ==> e == LineState(true) || (s.usb.dtrValid && !e.Unavailable? && !e.LineState?))
      && (u.active ==> HostComes(s, e) || (s.usb.active && !e.Unavailable? && (e.Control? ==> e.dtr)))
  {
    hide Feed, RxTop, OnRxBytes, OnOverflow, OnWorkerTake;
    if e.RxBytes? || e.RxCancelled? || e.RxError? { RxFlags(s, e); }
    if e.WorkerTake? { TakeUsb(s, e); }
  }

  lemma TakeUsb(s: World, e: Event)
    requires e.WorkerTake?
    ensures Act(s, e).usb == s.usb
  {
    hide Judge, Lifts;
  }

  lemma RecordUsb(s: World)
    ensures Record(s).usb == s.usb
  {}

  /** A host took over at event k and has not been lost since. */
  predicate HostSince(events: seq<Event>, k: nat) {
    && NotLostSince(events, k) && HostComes(StateAt(events, k), events[k])
    && forall m :: k < m < |events| ==> events[m] != Control(false)
  }

  /** A USB host is active only after configuration and a fresh line state: at the moment it took
      over, both had come since USB was last lost, and it has not been lost or let go since. */
  lemma {:induction false} HostNeedsReason(events: seq<Event>)
    requires After(events).usb.active
    ensures exists k: nat :: HostSince(events, k)
    decreases |events|
  {
    hide Act, After;
    NoEvents();
    if events != [] {
      var n := |events| - 1;
      var init, e := events[..n], events[n];
      assert events == init + [e];
      OneMore(init, e);
      UsbMoves(After(init), e);
      RecordUsb(Act(After(init), e));
      SamePast(events, n);
      Whole(init);
      if HostComes(After(init), e) {
        assert HostSince(events, n);
      } else {
        HostNeedsReason(init);
        var k: nat :| HostSince(init, k);
        assert HostSince(events, k);
      }
    }
  }

  /** Event k lifted the barrier; since then it has been down and no USB host active. */
  ghost predicate LiftedBy(events: seq<Event>, k: nat) {
    && k < |events| && LiftsAt(StateAt(events, k), events[k])
    && forall m :: k < m <= |events| ==> !StateAt(events, m).flags.sync && !StateAt(events, m).usb.active
  }

  /** Whenever the barrier is down, some clear VER lifted it after power-on, at a moment with
      no USB host, and ever since it has been down and no USB host has been active. */
  lemma {:induction false} BarrierHolds(events: seq<Event>)
    requires !After(events).flags.sync
    ensures exists k :: LiftedBy(events, k)
    decreases |events|
  {
    hide Act, LiftsAt, Inv, Record;
    StartSync();
    var n := |events| - 1;
    var init := events[..n];
    BarrierNow(events);
    SamePast(events, n);
    StepSync(After(init), events[n]);
    Whole(init);
    if After(init).flags.sync {
      OnlyVersionLifts(After(init), events[n]);
      assert LiftedBy(events, n);
    } else {
      BarrierHolds(init);
      var k :| LiftedBy(init, k);
      assert LiftedBy(events, k);
    }
  }

  lemma StartSync()
    ensures START.flags.sync
  {}

  lemma StepSync(s: World, e: Event)
    ensures Step(s, e).flags == Act(s, e).flags
  {
    hide Act;
  }

  lemma BarrierNow(events: seq<Event>)
    requires !After(events).flags.sync
    ensures !StateAt(events, |events|).flags.sync && !StateAt(events, |events|).usb.active
  {
    hide After;
    Whole(events);
    ReachableOk(events);
  }

  // ---- USB requests ----

  /** The worker notices a session whose USB host is active and takes the branch that, under a
      connected pairing, tries to release all keys. */
  predicate ReleasesAt(s: World, e: Event) {
    && e.WorkerTop? && s.worker.pc.AtTop? && s.usb.active && s.usb.epoch != s.worker.seen
    && (e.connected ==> ForHost(s.usb.epoch) in Act(s, e).past.allUps)
  }

  lemma SeenChanges(s: World, e: Event)
    requires s.worker.seen <= s.usb.epoch
    ensures var r := Act(s, e);
      && (r.worker.seen != s.worker.seen ==> e.WorkerTop? && s.worker.pc.AtTop? && s.usb.epoch != s.worker.seen)
      && (r.usb.epoch != s.usb.epoch ==> r.worker.seen == s.worker.seen && r.usb.epoch == s.usb.epoch + 1)
      && (r.usb.epoch == s.usb.epoch ==> r.usb.active == s.usb.active)
  {
    hide Feed, RxTop, OnRxBytes, Lifts, Judge, OnOverflow;
    if e.RxBytes? || e.RxCancelled? || e.RxError? { RxFlags(s, e); }
  }

  /** Event k tried to release all keys for the given epoch, as far as a pairing was connected. */
  predicate ReleasedBy(events: seq<Event>, k: nat, epoch: nat) {
    k < |events| && ReleasesAt(StateAt(events, k), events[k]) && StateAt(events, k).usb.epoch == epoch
  }

  lemma {:induction false} SeenMeansReleased(events: seq<Event>)
    requires var s := After(events); s.usb.active && s.worker.seen == s.usb.epoch
    ensures exists k :: ReleasedBy(events, k, After(events).usb.epoch)
    decreases |events|
  {
    hide Act, ReleasesAt, Inv;
    var n := |events| - 1;
    var init := events[..n];
    var s := After(init);
    ReachableOk(init);
    assert s.worker.seen <= s.usb.epoch by { SeenBehind(s); }
    SeenChanges(s, events[n]);
    SamePast(events, n);
    Whole(init);
    if s.worker.seen == s.usb.epoch {
      SeenMeansReleased(init);
      var k :| ReleasedBy(init, k, s.usb.epoch);
      assert ReleasedBy(events, k, s.usb.epoch);
    } else {
      ReleasesThen(s, events[n]);
      assert ReleasedBy(events, n, s.usb.epoch);
    }
  }

  lemma SeenBehind(s: World)
    requires Inv(s)
    ensures s.worker.seen <= s.usb.epoch
  {}

  lemma ReleasesThen(s: World, e: Event)
    requires e.WorkerTop? && s.worker.pc.AtTop? && s.usb.epoch != s.worker.seen && s.usb.active
    ensures ReleasesAt(s, e)
  {
    if e.connected { Listed(s, e); }
  }

  lemma Listed(s: World, e: Event)
    requires e.WorkerTop? && s.worker.pc.AtTop? && s.usb.epoch != s.worker.seen && s.usb.active && e.connected
    ensures ForHost(s.usb.epoch) in Act(s, e).past.allUps
  {
    var n := |s.past.allUps|;
    assert Act(s, e).past.allUps[n] == ForHost(s.usb.epoch);
  }

  /** A USB request that starts belongs to the current, active epoch, and the worker has tried
      to release all keys for that very epoch before, if it was connected. */
  lemma UsbRunsAfterRelease(events: seq<Event>)
    requires var s := After(events);
      s.worker.pc.Choosing? && s.queues.requests != [] && s.queues.requests[0].source.Cdc?
      && Starts(s, s.queues.requests[0])
    ensures After(events).queues.requests[0].source == Cdc(After(events).usb.epoch) && After(events).usb.active
    ensures exists k :: ReleasedBy(events, k, After(events).usb.epoch)
  {
    hide After;
    SeenMeansReleased(events);
  }

  // ---- Uploads ----

  /** The two shared marks exclude each other. The UART mark is exact; the USB mark is exact
      while the session of the serial task is the current one. */
  lemma UploadsExclude(events: seq<Event>)
    ensures var s := After(events);
      && !(s.flags.ota && s.flags.upload)
      && s.flags.ota == s.worker.otaActive
      && (s.flags.upload ==> IsOpen(s) && s.serial.upload)
      && (IsOpen(s) && IsCurrent(s) ==> s.serial.upload == s.flags.upload)
  {
    hide After;
    ReachableOk(events);
  }

  /** The serial task takes packets of an upload while a UART update is open. */
  predicate Overlap(s: World) { IsOpen(s) && s.serial.upload && s.worker.otaActive }

  predicate RunsOta(s: World, e: Event) {
    e.WorkerTake? && s.worker.pc.Choosing? && s.queues.requests != [] && Judge(s, s.queues.requests[0]) == RunOta
  }

  /** Two uploads at once are possible, but only while the serial task still works for a
      session that has ended. */
  lemma OverlapOnlyWhenStale(events: seq<Event>)
    ensures var s := After(events); Overlap(s) ==> !IsCurrent(s) && !s.flags.upload
  {
    hide After;
    ReachableOk(events);
  }

  /** An overlap begins exactly when the worker runs an update line that opens the UART update
      while the serial task of an ended session is in the middle of an upload. */
  lemma OverlapBeginsExactly(events: seq<Event>, e: Event)
    requires !Overlap(After(events))
    ensures var s := After(events);
      Overlap(Step(s, e)) <==> RunsOta(s, e) && e.otaAfter && IsOpen(s) && s.serial.upload && !IsCurrent(s)
  {
    hide After, Act, Overlap, RunsOta, Inv, UploadsOk, SessionsOk;
    var s := After(events);
    ReachableOk(events);
    SafetyNow(s);
    RecordOverlap(Act(s, e));
    if e.WorkerTake? { TakeOverlap(s, e); } else { OtherOverlap(s, e); }
  }

  lemma RecordOverlap(s: World)
    ensures Overlap(Record(s)) == Overlap(s)
  {}

  lemma TakeOverlap(s: World, e: Event)
    requires UploadsOk(s) && !Overlap(s) && e.WorkerTake?
    ensures Overlap(Act(s, e)) <==> RunsOta(s, e) && e.otaAfter && IsOpen(s) && s.serial.upload && !IsCurrent(s)
  {
    hide IsClearVersion, IsOtaLine;
  }

  lemma OtherOverlap(s: World, e: Event)
    requires UploadsOk(s) && !Overlap(s) && !e.WorkerTake?
    ensures !Overlap(Act(s, e)) && !RunsOta(s, e)
  {
    hide Feed, RxTop, OnRxBytes, OnOverflow;
    if e.RxBytes? || e.RxCancelled? || e.RxError? { RxFlags(s, e); }
  }

  // ---- The image BOOT marks ----

  predicate HasImage(s: World) { IsOpen(s) && IsCurrent(s) && s.serial.image }

  lemma ImageAppears(s: World, e: Event)
    requires UploadsOk(s) && SessionsOk(s) && HasImage(Act(s, e))
    ensures Act(s, e).usb.epoch == s.usb.epoch
    ensures HasImage(s) || (e == SerialPacket(Complete) && s.serial.pc.Reading? && s.serial.upload && IsCurrent(s))
  {
    hide Feed, RxTop, OnRxBytes, OnOverflow, Lifts, Judge;
    if e.RxBytes? || e.RxCancelled? || e.RxError? { RxFlags(s, e); }
  }

  /** Event k completed the upload of the session in force, and since then no UART update has
      been open and none of its lines has run. */
  ghost predicate UntouchedSince(events: seq<Event>, k: nat) {
    && k < |events| && events[k] == SerialPacket(Complete)
    && StateAt(events, k).serial.upload && IsCurrent(StateAt(events, k))
    && StateAt(events, k).usb.epoch == After(events).usb.epoch
    && (forall m :: k <= m <= |events| ==> !StateAt(events, m).flags.ota)
    && (forall m :: k <= m < |events| ==> !RunsOta(StateAt(events, m), events[m]))
  }

  lemma ActiveRunsNoOta(s: World, e: Event)
    requires s.usb.active
    ensures !RunsOta(s, e)
  {
    hide IsOtaLine, IsClearVersion;
  }

  /** An image that BOOT would mark in the current session was completed in this very session,
      and no UART update has touched the partition since. */
  lemma {:induction false} BootedImageUntouched(events: seq<Event>)
    requires HasImage(After(events))
    ensures exists k :: UntouchedSince(events, k)
    decreases |events|
  {
    hide Act, RunsOta, Inv, HasImage, Record, UploadsOk, SessionsOk, After, IsCurrent;
    NoImageAtStart();
    if events == [] { NoEvents(); return; }
    var n := |events| - 1;
    Next(events, n);
    var init := events[..n];
    var s := After(init);
    ReachableOk(init);
    ReachableOk(events);
    SafetyNow(s);
    SafetyNow(After(events));
    RecordImage(Act(s, events[n]));
    ImageAppears(s, events[n]);
    ImageFacts(s);
    ImageFacts(After(events));
    SamePast(events, n);
    Whole(init);
    Whole(events);
    ActiveRunsNoOta(s, events[n]);
    if HasImage(s) {
      BootedImageUntouched(init);
      var k :| UntouchedSince(init, k);
      assert UntouchedSince(events, k);
    } else {
      assert UntouchedSince(events, n);
    }
  }

  lemma NoEvents()
    ensures After([]) == START
  {}

  lemma NoImageAtStart()
    ensures !HasImage(START)
  {}

  lemma SafetyNow(s: World)
    requires Inv(s)
    ensures UploadsOk(s) && SessionsOk(s)
  {}

  lemma RecordImage(s: World)
    ensures HasImage(Record(s)) == HasImage(s) && Record(s).usb == s.usb
  {}

  lemma ImageFacts(s: World)
    requires UploadsOk(s)
    ensures HasImage(s) ==> s.usb.active && !s.flags.ota
    ensures IsCurrent(s) && s.serial.pc.Reading? && s.serial.upload ==> s.usb.active && !s.flags.ota
  {}

  // ---- Replies ----

  /** While the serial task waits in the current session, exactly one of request and reply is
      on its way; the worker never drops that request, and finds room for its reply. */
  lemma ReplyNeverLost(events: seq<Event>)
    ensures var s := After(events);
      && (s.serial.pc.Awaiting? && IsCurrent(s) ==> InFlight(s) == 1)
      && (s.queues.requests != [] && s.queues.requests[0].source == Cdc(s.usb.epoch) ==>
            Judge(s, s.queues.requests[0]) != Drop)
      && (s.worker.pc == Replying(Cdc(s.usb.epoch)) ==>
            && s.serial.pc.Awaiting? && IsCurrent(s)
            && Act(s, WorkerReply).queues.cdcReplies == [Cdc(s.serial.session)])
  {
    hide After, CountFor;
    var s := After(events);
    ReachableOk(events);
    if s.queues.requests != [] && s.queues.requests[0].source == Cdc(s.usb.epoch) { CurrentNotDropped(s); }
  }

  // ---- Sessions ----

  /** The serial task gets its ready signal and begins to serve the session. */
  predicate Enters(s: World, e: Event) {
    e.SerialReady? && s.serial.pc.WaitReady? && s.usb.ready == Some(s.serial.session)
  }

  /** The last entered session is at least n. */
  predicate EnteredFrom(s: World, n: nat) { s.past.entered.Some? && s.past.entered.value >= n }

  lemma EnteredGrows(s: World, e: Event, n: nat)
    requires SessionsOk(s) && EnteredFrom(s, n)
    ensures EnteredFrom(Act(s, e), n)
    ensures Enters(s, e) ==> n < s.serial.session
  {
    hide Feed, RxTop, OnRxBytes, Lifts, Judge, OnOverflow;
    if e.RxBytes? || e.RxCancelled? || e.RxError? { ActEntered(s, e); }
  }

  lemma ActEntered(s: World, e: Event)
    requires e.RxBytes? || e.RxCancelled? || e.RxError?
    ensures Act(s, e).past == s.past
  {
    hide Feed, RxTop, Cancelled, OnOverflow;
    match e
    case RxBytes(bytes) => RxLog(s, bytes);
    case RxCancelled => RxTopLog(s);
    case RxError => OverflowPast(s); RxTopLog(OnOverflow(s));
  }

  lemma OverflowPast(s: World)
    ensures OnOverflow(s).past == s.past
  {}

  lemma {:induction false} EnteredLater(events: seq<Event>, i: nat, j: nat)
    requires i < j <= |events| && Enters(StateAt(events, i), events[i])
    ensures EnteredFrom(StateAt(events, j), StateAt(events, i).serial.session)
    decreases j
  {
    hide Act, Inv, Enters, EnteredFrom, After;
    var n := StateAt(events, i).serial.session;
    Next(events, j - 1);
    if i < j - 1 {
      EnteredLater(events, i, j - 1);
      ReachableOk(events[..j - 1]);
      SessionsNow(StateAt(events, j - 1));
      EnteredGrows(StateAt(events, j - 1), events[j - 1], n);
      RecordEntered(Act(StateAt(events, j - 1), events[j - 1]), n);
    } else {
      EntersThen(StateAt(events, i), events[i]);
    }
  }

  lemma SessionsNow(s: World)
    requires Inv(s)
    ensures SessionsOk(s)
  {}

  lemma RecordEntered(s: World, n: nat)
    ensures EnteredFrom(Record(s), n) == EnteredFrom(s, n)
  {}

  lemma EntersThen(s: World, e: Event)
    requires Enters(s, e)
    ensures EnteredFrom(Step(s, e), s.serial.session)
  {}

  /** A session is entered at most once: one that breaks off stays closed until the epoch
      has moved on, since its ready signal came only once. */
  lemma SessionsAscend(events: seq<Event>, i: nat, j: nat)
    requires i < j < |events| && Enters(StateAt(events, i), events[i]) && Enters(StateAt(events, j), events[j])
    ensures StateAt(events, i).serial.session < StateAt(events, j).serial.session
  {
    hide Act, Inv, Enters, EnteredFrom, After;
    EnteredLater(events, i, j);
    ReachableOk(events[..j]);
    SessionsNow(StateAt(events, j));
    EnteredGrows(StateAt(events, j), events[j], StateAt(events, i).serial.session);
  }

  // ---- UART answers ----

  /** The UART request this event takes up, if it is not dropped. */
  function TakenUp(s: World, e: Event): seq<Source> {
    if e.WorkerTake? && s.worker.pc.Choosing? && s.queues.requests != [] && s.queues.requests[0].source.Uart?
       && Judge(s, s.queues.requests[0]) != Drop
    then [s.queues.requests[0].source] else []
  }

  /** The UART answer this event hands to the transmission task. */
  function HandedOver(s: World, e: Event): seq<Source> {
    if e.TxTake? && s.queues.uartReplies != [] then [s.queues.uartReplies[0]] else []
  }

  function AllTakenUp(events: seq<Event>): seq<Source>
    decreases |events|
  {
    if events == [] then [] else
      AllTakenUp(events[..|events| - 1]) + TakenUp(After(events[..|events| - 1]), events[|events| - 1])
  }

  function AllHandedOver(events: seq<Event>): seq<Source>
    decreases |events|
  {
    if events == [] then [] else
      AllHandedOver(events[..|events| - 1]) + HandedOver(After(events[..|events| - 1]), events[|events| - 1])
  }

  /** Answers on their way: first the queued ones, then the one the worker is busy with. */
  function OnTheWay(s: World): seq<Source> {
    s.queues.uartReplies
    + (if s.worker.pc.Commanding? && s.worker.pc.source.Uart? then [s.worker.pc.source]
       else if s.worker.pc.Replying? && s.worker.pc.to.Uart? then [s.worker.pc.to] else [])
  }

  lemma {:induction false} FeedAnswers(s: World, bytes: string)
    ensures Feed(s, bytes).queues.uartReplies == s.queues.uartReplies && Feed(s, bytes).worker == s.worker
    decreases |bytes|
  {
    hide FramesOfByte, AfterByte;
    if bytes != "" { FeedAnswers(s, bytes[..|bytes| - 1]); }
  }

  lemma StepAnswers(s: World, e: Event)
    ensures OnTheWay(s) + TakenUp(s, e) == HandedOver(s, e) + OnTheWay(Act(s, e))
  {
    hide OnTheWay, Act, IsClearVersion, IsOtaLine, Judge;
    match e
    case RxBytes(bytes) => RxAnswers(s, bytes);
    case WorkerTake(otaAfter) => TakeAnswers(s, otaAfter);
    case WorkerDone => WorkerAnswers(s, e);
    case WorkerReply => WorkerAnswers(s, e);
    case TxTake => WorkerAnswers(s, e);
    case _ => OtherAnswers(s, e);
  }

  lemma RxAnswers(s: World, bytes: string)
    ensures OnTheWay(Act(s, RxBytes(bytes))) == OnTheWay(s)
  {
    hide Feed, AfterSession;
    FeedAnswers(s, bytes);
  }

  lemma WorkerAnswers(s: World, e: Event)
    requires e.WorkerDone? || e.WorkerReply? || e.TxTake?
    ensures OnTheWay(s) == HandedOver(s, e) + OnTheWay(Act(s, e))
  {}

  lemma OtherAnswers(s: World, e: Event)
    requires !e.RxBytes? && !e.WorkerTake? && !e.WorkerDone? && !e.WorkerReply? && !e.TxTake?
    ensures OnTheWay(Act(s, e)) == OnTheWay(s)
  {
    hide Feed, AfterSession;
  }

  lemma TakeAnswers(s: World, otaAfter: bool)
    ensures OnTheWay(s) + TakenUp(s, WorkerTake(otaAfter)) == OnTheWay(Act(s, WorkerTake(otaAfter)))
  {
    hide IsClearVersion, IsOtaLine;
  }

  /** Every UART request taken up is answered exactly once, and the answers leave in the order
      in which the requests were taken up. */
  lemma {:induction false} AnsweredOnceInOrder(events: seq<Event>)
    ensures AllTakenUp(events) == AllHandedOver(events) + OnTheWay(After(events))
    decreases |events|
  {
    hide Act, TakenUp, HandedOver, OnTheWay, Record;
    if events == [] {
      StartAnswers();
    } else {
      var init, e := events[..|events| - 1], events[|events| - 1];
      AnsweredOnceInOrder(init);
      StepAnswers(After(init), e);
      RecordAnswers(Act(After(init), e));
      var was := After(init);
      Shift(AllHandedOver(init), OnTheWay(was), TakenUp(was, e), HandedOver(was, e), OnTheWay(Act(was, e)));
    }
  }

  lemma Shift(gone: seq<Source>, way: seq<Source>, more: seq<Source>, out: seq<Source>, left: seq<Source>)
    requires way + more == out + left
    ensures (gone + way) + more == (gone + out) + left
  {
    assert (gone + way) + more == gone + (way + more);
    assert (gone + out) + left == gone + (out + left);
  }

  lemma StartAnswers()
    ensures OnTheWay(START) == []
  {}

  lemma RecordAnswers(s: World)
    ensures OnTheWay(Record(s)) == OnTheWay(s)
  {}

  // ---- A USB host is served ----

  function Steps(s: World, events: seq<Event>): World
    decreases |events|
  {
    if events == [] then s else Step(Steps(s, events[..|events| - 1]), events[|events| - 1])
  }

  lemma ThreeSteps(s: World, a: Event, b: Event, c: Event)
    ensures Steps(s, [a, b, c]) == Step(Step(Step(s, a), b), c)
  {
    hide Step;
    assert [a, b, c][..2] == [a, b] && [a, b][..1] == [a] && [a][..0] == [];
    assert Steps(s, [a]) == Step(s, a);
    assert Steps(s, [a, b]) == Step(Step(s, a), b);
  }

  /** A new host is let in as soon as the serial task and the worker have come round: the
      worker has noticed its epoch, and the serial task reads for it. */
  lemma HostIsServed(s: World, timeout: bool, connected: bool)
    requires s.usb.active && s.worker.seen != s.usb.epoch && s.worker.pc.AtTop? && s.serial.pc.WaitActive?
    ensures var r := Steps(s, [SerialStart, WorkerTop(timeout, connected), SerialReady]);
      && r.serial == Serial(Reading, s.usb.epoch, false, false) && IsCurrent(r)
      && r.worker.seen == s.usb.epoch && r.worker.pc == Choosing && r.flags.sync == (s.flags.sync || (timeout && s.worker.otaActive))
  {
    ThreeSteps(s, SerialStart, WorkerTop(timeout, connected), SerialReady);
    hide Steps;
    var a := Step(s, SerialStart);
    assert a.serial == Serial(WaitReady, s.usb.epoch, false, false) && a.usb == s.usb && a.worker == s.worker
      && a.flags == s.flags;
    var b := Step(a, WorkerTop(timeout, connected));
    assert b.usb == s.usb.(ready := Some(s.usb.epoch)) && b.serial == a.serial && b.worker.pc == Choosing
      && b.worker.seen == s.usb.epoch;
  }

  /** A line of the current host is run and its answer comes back to the serial task, which
      then reads on. */
  lemma LineIsServed(s: World, line: string, otaAfter: bool)
    requires s.serial.pc.Reading? && IsCurrent(s) && s.worker.seen == s.usb.epoch && s.worker.pc.Choosing?
    requires !s.worker.otaActive && s.queues.requests == [] && s.queues.cdcReplies == [] && line != ""
    ensures var q := Steps(s, [SerialCommands(Forward(line)), SerialSend, WorkerTake(otaAfter)]);
      var r := Steps(q, [WorkerDone, WorkerReply, SerialReply]);
      && q.worker.pc == Commanding(Cdc(s.usb.epoch)) && q.serial.pc == Awaiting
      && r.worker.pc == AtTop && r.serial == s.serial && r.queues == s.queues && r.usb == s.usb
  {
    ThreeSteps(s, SerialCommands(Forward(line)), SerialSend, WorkerTake(otaAfter));
    var q := Steps(s, [SerialCommands(Forward(line)), SerialSend, WorkerTake(otaAfter)]);
    ThreeSteps(q, WorkerDone, WorkerReply, SerialReply);
    hide Steps;
    LineTaken(s, line, otaAfter);
    LineAnswered(q, s);
  }

  lemma LineTaken(s: World, line: string, otaAfter: bool)
    requires s.serial.pc.Reading? && IsCurrent(s) && s.worker.seen == s.usb.epoch && s.worker.pc.Choosing?
    requires !s.worker.otaActive && s.queues.requests == [] && line != ""
    ensures var q := Step(Step(Step(s, SerialCommands(Forward(line))), SerialSend), WorkerTake(otaAfter));
      && q.worker == s.worker.(pc := Commanding(Cdc(s.usb.epoch))) && q.serial == s.serial.(pc := Awaiting)
      && q.queues == s.queues && q.usb == s.usb
  {
    var a := Step(s, SerialCommands(Forward(line)));
    var request := Request(Cdc(s.serial.session), line, None, 0, 0);
    assert a.serial == s.serial.(pc := Sending(request)) && a.usb == s.usb && a.worker == s.worker && a.queues == s.queues;
    var b := Step(a, SerialSend);
    assert b.serial == s.serial.(pc := Awaiting) && b.usb == s.usb && b.worker == s.worker
      && b.queues == s.queues.(requests := [request]);
    hide IsClearVersion;
    assert Judge(b, request) == Run;
  }

  lemma LineAnswered(q: World, s: World)
    requires s.serial.pc.Reading? && IsCurrent(s) && s.queues.requests == [] && s.queues.cdcReplies == []
    requires q.worker == s.worker.(pc := Commanding(Cdc(s.usb.epoch))) && q.serial == s.serial.(pc := Awaiting)
    requires q.queues == s.queues && q.usb == s.usb
    ensures var r := Step(Step(Step(q, WorkerDone), WorkerReply), SerialReply);
      r.worker.pc == AtTop && r.serial == s.serial && r.queues == s.queues && r.usb == s.usb
  {
    var a := Step(q, WorkerDone);
    assert a.worker == s.worker.(pc := Replying(Cdc(s.usb.epoch))) && a.serial == q.serial && a.queues == s.queues
      && a.usb == s.usb;
    var b := Step(a, WorkerReply);
    assert b.worker == s.worker.(pc := AtTop) && b.serial == q.serial && b.usb == s.usb
      && b.queues == s.queues.(cdcReplies := [Cdc(s.usb.epoch)]);
  }
}
