/** The cooperative tasks of the application and what they share: the USB session, the UART
    barrier, the upload flags and the queues. Every stretch of a task between two suspension
    points is one event; an event that is not enabled changes nothing. */
module Tasks {
  import opened Text
  import opened UartLink

  const QUEUE_LIMIT := 8

  datatype Source = Cdc(epoch: nat) | Uart(number: nat, session: nat, generation: nat)

  /** began and born are history: when the first byte of the line was taken from the
      receive ring, and when the frame was complete. */
  datatype Request = Request(source: Source, line: string, error: Option<CommandError>, began: nat, born: nat)

  datatype WorkerPc = AtTop | Choosing | Commanding(source: Source) | Replying(to: Source)
  datatype Worker = Worker(pc: WorkerPc, seen: nat, otaActive: bool)

  datatype SerialPc = WaitActive | WaitReady | Reading | Sending(request: Request) | Awaiting
  datatype Serial = Serial(pc: SerialPc, session: nat, upload: bool, image: bool)

  datatype Rx = Rx(pending: Pending, parserSession: nat, readSession: nat, began: nat)

  datatype Moment = Moment(epoch: nat, active: bool, generation: nat, sync: bool)

  /** A burst that tries to release all keys, and what it is for. */
  datatype AllUp = ForHost(epoch: nat) | AfterDamage(generation: nat)

  /** History only: the shared state at the start and after every event so far, the last USB
      session that the serial task entered, and the worker's attempts to release all keys. */
  datatype Past = Past(log: seq<Moment>, entered: Option<nat>, allUps: seq<AllUp>)

  datatype Usb = Usb(available: bool, dtrValid: bool, active: bool, epoch: nat, ready: Option<nat>)

  datatype Flags = Flags(sync: bool, generation: nat, damaged: bool, sessionChanged: bool, ota: bool, upload: bool)

  datatype Queues = Queues(requests: seq<Request>, cdcReplies: seq<Source>, uartReplies: seq<Source>)

  datatype World = World(usb: Usb, flags: Flags, queues: Queues, worker: Worker, serial: Serial, rx: Rx, past: Past)

  datatype SerialCommand = Write(sizeOk: bool) | Boot(marked: bool) | Abort | Report | Forward(line: string)
  datatype Progress = More | Failed | Complete

  datatype Event =
    | Configured
    | Unavailable
    | LineState(dtr: bool)
    | Control(dtr: bool)
    | WorkerTop(timeout: bool, connected: bool)
    | WorkerWake
    | WorkerTake(otaAfter: bool)
    | WorkerDone
    | WorkerReply
    | RxCancelled
    | RxError
    | RxBytes(bytes: string)
    | TxTake
    | TxFailed
    | SerialStart
    | SerialReady
    | SerialCommands(command: SerialCommand)
    | SerialPacket(progress: Progress)
    | SerialSend
    | SerialReply
    | SerialBroken
    | SerialCancel

  const START := World(
    Usb(false, false, false, 0, None),
    Flags(true, 0, false, false, false, false),
    Queues([], [], []),
    Worker(AtTop, 0, false), Serial(WaitActive, 0, false, false), Rx(CLEAN, 0, 0, 0),
    Past([Moment(0, false, 0, true)], None, []))

  function Now(s: World): nat { |s.past.log| }

  // ---- Single settings ----

  function WorkerAt(s: World, pc: WorkerPc): World { s.(worker := s.worker.(pc := pc)) }
  function WithOta(s: World, on: bool): World {
    s.(worker := s.worker.(otaActive := on), flags := s.flags.(ota := on))
  }
  function WithSync(s: World, on: bool): World { s.(flags := s.flags.(sync := on)) }
  function WithUpload(s: World, on: bool): World { s.(flags := s.flags.(upload := on)) }
  function WithSessionChanged(s: World, on: bool): World { s.(flags := s.flags.(sessionChanged := on)) }
  function WithRequests(s: World, q: seq<Request>): World { s.(queues := s.queues.(requests := q)) }
  function WithCdcReplies(s: World, q: seq<Source>): World { s.(queues := s.queues.(cdcReplies := q)) }
  function WithUartReplies(s: World, q: seq<Source>): World { s.(queues := s.queues.(uartReplies := q)) }
  function WithSerial(s: World, serial: Serial): World { s.(serial := serial) }
  function WithRx(s: World, rx: Rx): World { s.(rx := rx) }
  function WithUsb(s: World, usb: Usb): World { s.(usb := usb) }

  // ---- USB ----

  /** The session changes hands: the reception task is told. */
  function NewSession(s: World, usb: Usb): World { WithSessionChanged(WithUsb(s, usb), true) }

  function DropReplies(s: World): World { WithCdcReplies(WithUpload(s, false), []) }

  function OnUnavailable(s: World): World {
    DropReplies(NewSession(s, Usb(false, false, false, s.usb.epoch + 1, s.usb.ready)))
  }

  function OnControl(s: World, dtr: bool): World {
    var next := s.usb.available && s.usb.dtrValid && dtr;
    var usb := Usb(s.usb.available, s.usb.dtrValid, next, s.usb.epoch + 1, s.usb.ready);
    if next == s.usb.active then s
    else if next then WithSync(NewSession(s, usb), true)
    else DropReplies(NewSession(s, usb))
  }

  // ---- The worker ----

  datatype Judgement = Drop | Busy | Refuse | RunOta | Run

  /** The one request that lifts the barrier. */
  predicate IsClearVersion(r: Request) { r.source.Uart? && r.error == None && r.line == "VER" }

  predicate PassesUart(s: World, r: Request) {
    r.source.Uart? && r.source.generation == s.flags.generation && !s.usb.active && r.source.session == s.usb.epoch
  }

  predicate Lifts(s: World, r: Request) { PassesUart(s, r) && s.flags.sync && IsClearVersion(r) }

  predicate IsOtaLine(line: string) { "OTA " <= line }

  /** What becomes of the request taken from the queue. */
  function Judge(s: World, r: Request): Judgement {
    match r.source
    case Cdc(epoch) =>
      if !s.usb.active || s.usb.epoch != epoch || s.worker.seen != epoch then Drop
      else if s.worker.otaActive then Busy
      else if r.error.Some? then Refuse
      else Run
    case Uart(_, session, generation) =>
      if generation != s.flags.generation then Drop
      else if s.usb.active || session != s.usb.epoch then Busy
      else if s.flags.sync && !IsClearVersion(r) then Busy
      else if IsOtaLine(r.line) then (if s.flags.upload then Busy else RunOta)
      else if s.worker.otaActive then Busy
      else if r.error.Some? then Refuse
      else Run
  }

  predicate Starts(s: World, r: Request) { Judge(s, r).Run? || Judge(s, r).RunOta? }

  function OnTimeout(s: World): World { WithSync(WithOta(s, false), true) }

  /** A burst goes out only under a connected pairing; whether it is heard is ignored. */
  function TryAllUp(past: Past, connected: bool, allUp: AllUp): Past {
    if connected then past.(allUps := past.allUps + [allUp]) else past
  }

  /** The worker notices the session: before a USB host takes over it tries to release all keys. */
  function Notice(s: World, connected: bool): World {
    World(if s.usb.active then s.usb.(ready := Some(s.usb.epoch)) else s.usb,
          s.flags, s.queues, s.worker.(seen := s.usb.epoch), s.serial, s.rx,
          if s.usb.active then TryAllUp(s.past, connected, ForHost(s.usb.epoch)) else s.past)
  }

  function OnWorkerTop(s: World, timeout: bool, connected: bool): World {
    var a := if s.worker.otaActive && timeout then OnTimeout(s) else s;
    var b := if a.usb.epoch == a.worker.seen then a else Notice(a, connected);
    ClearDamage(WorkerAt(b, Choosing), connected)
  }

  function ClearDamage(s: World, connected: bool): World {
    s.(flags := s.flags.(damaged := false),
       past := if s.flags.damaged then TryAllUp(s.past, connected, AfterDamage(s.flags.generation)) else s.past)
  }

  /** The request is out of the queue, and the barrier lifted if that is what it does. */
  function Taken(s: World): World
    requires s.queues.requests != []
  {
    var rest := WithRequests(s, s.queues.requests[1..]);
    if Lifts(s, s.queues.requests[0]) then WithSync(rest, false) else rest
  }

  function Outcome(t: World, judged: Judgement, source: Source, otaAfter: bool): World {
    match judged
    case Drop => WorkerAt(t, AtTop)
    case Busy => WorkerAt(t, Replying(source))
    case Refuse => WorkerAt(t, Replying(source))
    case RunOta => WithOta(WorkerAt(t, Replying(source)), otaAfter)
    case Run => WorkerAt(t, Commanding(source))
  }

  function OnWorkerTake(s: World, otaAfter: bool): World
    requires s.queues.requests != []
  {
    Outcome(Taken(s), Judge(s, s.queues.requests[0]), s.queues.requests[0].source, otaAfter)
  }

  function OnWorkerReply(s: World, source: Source): World {
    match source
    case Cdc(epoch) =>
      if s.usb.active && s.usb.epoch == epoch && s.queues.cdcReplies == []
      then WorkerAt(WithCdcReplies(s, [source]), AtTop) else WorkerAt(s, AtTop)
    case Uart(_, _, _) =>
      if s.queues.uartReplies == [] then WorkerAt(WithUartReplies(s, [source]), AtTop) else s
  }

  // ---- UART reception ----

  function Fault(s: World): World {
    s.(flags := s.flags.(generation := s.flags.generation + 1, damaged := true))
  }

  function OnOverflow(s: World): World { Fault(WithRx(s, s.rx.(pending := Discarding))) }

  function Enqueue(s: World, r: Request): World {
    if |s.queues.requests| < QUEUE_LIMIT then WithRequests(s, s.queues.requests + [r]) else OnOverflow(s)
  }

  function FeedByte(s: World, c: char): World {
    var began := if s.rx.pending == CLEAN then Now(s) else s.rx.began;
    var frames := FramesOfByte(s.rx.pending, c);
    var pushed := WithRx(s, s.rx.(pending := AfterByte(s.rx.pending, c), began := began));
    if frames == [] then pushed else Enqueue(pushed, RequestOf(s, frames[0], began))
  }

  function RequestOf(s: World, frame: Frame, began: nat): Request {
    Request(Uart(frame.number, s.rx.readSession, s.flags.generation), frame.command, frame.error, began, Now(s))
  }

  function Feed(s: World, bytes: string): World
    decreases |bytes|
  {
    if bytes == "" then s else FeedByte(Feed(s, bytes[..|bytes| - 1]), bytes[|bytes| - 1])
  }

  /** The session is new to the parser; these bytes of the old one are still at hand. */
  function Cancelled(s: World, pending: string): World {
    WithRx(s, s.rx.(pending := AfterSession(s.rx.pending, pending), parserSession := s.usb.epoch))
  }

  /** The top of the reception loop, up to the next read. */
  function RxTop(s: World): World {
    var noted := if s.usb.epoch == s.rx.parserSession then s else Cancelled(s, "");
    WithSessionChanged(WithRx(noted, noted.rx.(readSession := s.usb.epoch)), false)
  }

  function OnRxBytes(s: World, bytes: string): World {
    if s.usb.epoch != s.rx.readSession then RxTop(Cancelled(s, bytes)) else RxTop(Feed(s, bytes))
  }

  // ---- USB serial ----

  predicate IsOpen(s: World) { s.serial.pc.Reading? || s.serial.pc.Sending? || s.serial.pc.Awaiting? }

  /** The session the serial task works for is the current one. */
  predicate IsCurrent(s: World) { s.usb.active && s.usb.epoch == s.serial.session }

  function OnSerialReady(s: World): World {
    if s.usb.ready != Some(s.serial.session) then WithUsb(s, s.usb.(ready := None)) else
      World(s.usb.(ready := None), s.flags, s.queues, s.worker,
            Serial(Reading, s.serial.session, false, false), s.rx, s.past.(entered := Some(s.serial.session)))
  }

  function OnSerialCommand(s: World, command: SerialCommand): World {
    match command
    case Write(sizeOk) =>
      if s.flags.ota || !sizeOk then s
      else WithUpload(WithSerial(s, s.serial.(upload := true, image := false)), true)
    case Abort => WithUpload(WithSerial(s, s.serial.(upload := false, image := false)), false)
    case Forward(line) =>
      if line == "" then s
      else WithSerial(s, s.serial.(pc := Sending(Request(Cdc(s.serial.session), line, None, 0, 0))))
    case _ => s
  }

  function OnSerialPacket(s: World, progress: Progress): World {
    if progress.More? then s
    else WithUpload(WithSerial(s, s.serial.(upload := false, image := progress.Complete?)), false)
  }

  function OnSerialReply(s: World): World
    requires s.queues.cdcReplies != []
  {
    var taken := WithCdcReplies(s, s.queues.cdcReplies[1..]);
    if s.queues.cdcReplies[0] == Cdc(s.serial.session) then WithSerial(taken, s.serial.(pc := Reading)) else taken
  }

  function OnSerialEnd(s: World): World {
    DropReplies(WithSerial(s, Serial(WaitActive, s.serial.session, false, false)))
  }

  // ---- Steps ----

  function Act(s: World, e: Event): World {
    match e
    case Configured => WithUsb(s, s.usb.(available := true))
    case Unavailable => OnUnavailable(s)
    case LineState(dtr) => WithUsb(s, s.usb.(dtrValid := dtr))
    case Control(dtr) => OnControl(s, dtr)
    case WorkerTop(timeout, connected) => if s.worker.pc.AtTop? then OnWorkerTop(s, timeout, connected) else s
    case WorkerWake => if s.worker.pc.Choosing? then WorkerAt(s, AtTop) else s
    case WorkerTake(otaAfter) =>
      if s.worker.pc.Choosing? && s.queues.requests != [] then OnWorkerTake(s, otaAfter) else s
    case WorkerDone => if s.worker.pc.Commanding? then WorkerAt(s, Replying(s.worker.pc.source)) else s
    case WorkerReply => if s.worker.pc.Replying? then OnWorkerReply(s, s.worker.pc.to) else s
    case RxCancelled => if s.flags.sessionChanged then RxTop(s) else s
    case RxError => RxTop(OnOverflow(s))
    case RxBytes(bytes) => OnRxBytes(s, bytes)
    case TxTake => if s.queues.uartReplies != [] then WithUartReplies(s, s.queues.uartReplies[1..]) else s
    case TxFailed => Fault(s)
    case SerialStart =>
      if s.serial.pc.WaitActive? && s.usb.active
      then WithSerial(s, Serial(WaitReady, s.usb.epoch, false, false)) else s
    case SerialReady => if s.serial.pc.WaitReady? && s.usb.ready.Some? then OnSerialReady(s) else s
    case SerialCommands(command) => if s.serial.pc.Reading? then OnSerialCommand(s, command) else s
    case SerialPacket(progress) =>
      if s.serial.pc.Reading? && s.serial.upload then OnSerialPacket(s, progress) else s
    case SerialSend => if s.serial.pc.Sending? && |s.queues.requests| < QUEUE_LIMIT then OnSerialSend(s) else s
    case SerialReply => if s.serial.pc.Awaiting? && s.queues.cdcReplies != [] then OnSerialReply(s) else s
    case SerialBroken => if s.serial.pc.Reading? then OnSerialEnd(s) else s
    case SerialCancel => if !s.serial.pc.WaitActive? && !IsCurrent(s) then OnSerialEnd(s) else s
  }

  function OnSerialSend(s: World): World
    requires s.serial.pc.Sending?
  {
    WithSerial(WithRequests(s, s.queues.requests + [s.serial.pc.request]), s.serial.(pc := Awaiting))
  }

  function MomentOf(s: World): Moment { Moment(s.usb.epoch, s.usb.active, s.flags.generation, s.flags.sync) }

  function Record(s: World): World { s.(past := s.past.(log := s.past.log + [MomentOf(s)])) }

  function Step(s: World, e: Event): World { Record(Act(s, e)) }

  function After(events: seq<Event>): World
    decreases |events|
  {
    if events == [] then START else Step(After(events[..|events| - 1]), events[|events| - 1])
  }

  // ---- The invariant ----

  /** The state at a moment of the log, or the present one. */
  function At(s: World, t: nat): Moment { if t < |s.past.log| then s.past.log[t] else MomentOf(s) }

  predicate Before(a: Moment, b: Moment) {
    && a.epoch <= b.epoch && a.generation <= b.generation
    && (a.epoch == b.epoch ==> a.active == b.active)
  }

  ghost predicate LogOk(s: World) {
    && (forall i, j :: 0 <= i <= j < |s.past.log| ==> Before(s.past.log[i], s.past.log[j]))
    && (forall i :: 0 <= i < |s.past.log| ==> Before(s.past.log[i], MomentOf(s)))
  }

  predicate RxOk(s: World) {
    && s.rx.parserSession == s.rx.readSession <= s.usb.epoch
    && (s.rx.pending.Partial? && s.rx.pending != CLEAN ==>
          s.rx.began <= Now(s) && At(s, s.rx.began).epoch == s.rx.readSession)
  }

  predicate RequestOk(s: World, r: Request) {
    match r.source
    case Cdc(epoch) => epoch <= s.usb.epoch
    case Uart(_, session, generation) =>
      && r.began <= r.born && At(s, r.began).epoch == session <= s.usb.epoch
      && 0 < r.born && At(s, r.born - 1).generation == generation <= s.flags.generation
  }

  predicate QueueOk(s: World) {
    && |s.queues.requests| <= QUEUE_LIMIT
    && (forall i :: 0 <= i < |s.queues.requests| ==> s.queues.requests[i].born <= Now(s) && RequestOk(s, s.queues.requests[i]))
  }

  /** The barrier is up whenever a USB host is active. */
  predicate BarrierOk(s: World) { s.usb.active ==> s.flags.sync }

  predicate UploadsOk(s: World) {
    && s.flags.ota == s.worker.otaActive
    && !(s.flags.ota && s.flags.upload)
    && (s.flags.upload ==> IsOpen(s) && s.serial.upload)
    && (IsOpen(s) && IsCurrent(s) ==> s.serial.upload == s.flags.upload)
    && (IsOpen(s) && IsCurrent(s) && s.serial.image ==> !s.flags.ota)
  }

  function NoneBelow(o: Option<nat>, n: nat): bool { o.Some? ==> o.value < n }

  predicate SessionsOk(s: World) {
    && s.worker.seen <= s.usb.epoch
    && (s.usb.ready.Some? ==> s.usb.ready.value <= s.worker.seen && NoneBelow(s.past.entered, s.usb.ready.value))
    && (s.past.entered.Some? ==> s.past.entered.value <= s.worker.seen)
    && (!s.serial.pc.WaitActive? ==> s.serial.session <= s.usb.epoch)
    && (!s.serial.pc.WaitActive? && s.serial.session == s.usb.epoch ==> s.usb.active)
    && (IsOpen(s) ==> s.past.entered == Some(s.serial.session))
    && (s.serial.pc.Sending? ==> s.serial.pc.request.source == Cdc(s.serial.session) && s.serial.pc.request.born == 0)
  }

  // ---- One request at a time ----

  function CountFor(requests: seq<Request>, epoch: nat): nat {
    if requests == [] then 0
    else (if requests[0].source == Cdc(epoch) then 1 else 0) + CountFor(requests[1..], epoch)
  }

  function AtWorker(pc: WorkerPc, epoch: nat): nat {
    if (pc.Commanding? && pc.source == Cdc(epoch)) || (pc.Replying? && pc.to == Cdc(epoch)) then 1 else 0
  }

  /** Requests and replies of the current USB session between the serial task and the worker. */
  function InFlight(s: World): nat {
    CountFor(s.queues.requests, s.usb.epoch) + AtWorker(s.worker.pc, s.usb.epoch) + |s.queues.cdcReplies|
  }

  predicate FlightOk(s: World) {
    && InFlight(s) == (if s.serial.pc.Awaiting? && s.serial.session == s.usb.epoch then 1 else 0)
    && |s.queues.uartReplies| <= 1
    && (s.queues.cdcReplies != [] ==> s.usb.active && s.queues.cdcReplies == [Cdc(s.usb.epoch)])
    && (s.worker.pc.Commanding? && s.worker.pc.source.Cdc? ==> s.worker.pc.source.epoch <= s.usb.epoch)
    && (s.worker.pc.Replying? && s.worker.pc.to.Cdc? ==> s.worker.pc.to.epoch <= s.usb.epoch)
  }

  ghost predicate Inv(s: World) {
    LogOk(s) && RxOk(s) && QueueOk(s) && BarrierOk(s) && UploadsOk(s) && SessionsOk(s) && FlightOk(s)
  }

  /** Between two events every moment referred to lies in the log. */
  predicate Settled(s: World) {
    && |s.past.log| > 0 && s.past.log[|s.past.log| - 1] == MomentOf(s)
    && (s.rx.pending.Partial? && s.rx.pending != CLEAN ==> s.rx.began < Now(s))
    && (forall i :: 0 <= i < |s.queues.requests| ==> s.queues.requests[i].born < Now(s))
  }

  // ---- Every step keeps it ----

  /** A step of a task that leaves session, requests and reception alone. */
  predicate Aside(s: World, r: World) {
    && r.usb.epoch == s.usb.epoch && r.usb.active == s.usb.active && r.flags.generation >= s.flags.generation
    && r.queues.requests == s.queues.requests && r.rx == s.rx && (s.flags.sync ==> r.flags.sync)
    && r.past.log == s.past.log
  }

  lemma AsideKeeps(s: World, r: World)
    requires LogOk(s) && RxOk(s) && QueueOk(s) && BarrierOk(s) && Settled(s) && Aside(s, r)
    ensures LogOk(r) && RxOk(r) && QueueOk(r) && BarrierOk(r)
  {
    RequestsLater(s, r);
  }

  lemma RecordKeeps(s: World)
    requires Inv(s)
    ensures Inv(Record(s)) && Settled(Record(s))
  {
    RecordLog(s);
    RecordRequests(s);
    var r := Record(s);
    if s.rx.pending.Partial? && s.rx.pending != CLEAN { assert At(r, s.rx.began) == At(s, s.rx.began); }
    assert InFlight(r) == InFlight(s);
  }

  lemma RecordLog(s: World)
    requires LogOk(s)
    ensures LogOk(Record(s))
  {}

  lemma RecordRequests(s: World)
    requires QueueOk(s)
    ensures QueueOk(Record(s))
  {
    var r := Record(s);
    forall i | 0 <= i < |s.queues.requests| ensures RequestOk(r, r.queues.requests[i]) {
      var q := s.queues.requests[i];
      assert RequestOk(s, q);
      if q.source.Uart? { assert At(r, q.began) == At(s, q.began) && At(r, q.born - 1) == At(s, q.born - 1); }
    }
  }

  /** Requests stay sound while the session grows and the log stays. */
  lemma RequestsLater(s: World, r: World)
    requires LogOk(s) && QueueOk(s) && s.usb.epoch <= r.usb.epoch && s.flags.generation <= r.flags.generation
    requires r.past.log == s.past.log && r.queues.requests == s.queues.requests
    requires r.usb.epoch == s.usb.epoch || Settled(s)
    ensures forall i :: 0 <= i < |r.queues.requests| ==> RequestOk(r, r.queues.requests[i])
  {
    forall i | 0 <= i < |s.queues.requests| ensures RequestOk(r, r.queues.requests[i]) {
      var q := s.queues.requests[i];
      assert RequestOk(s, q);
      assert q in s.queues.requests;
    }
  }

  lemma CountNone(requests: seq<Request>, epoch: nat)
    requires forall i :: 0 <= i < |requests| ==> requests[i].source != Cdc(epoch)
    ensures CountFor(requests, epoch) == 0
  {}

  lemma {:induction false} CountSnoc(requests: seq<Request>, r: Request, epoch: nat)
    ensures CountFor(requests + [r], epoch) == CountFor(requests, epoch) + if r.source == Cdc(epoch) then 1 else 0
  {
    if requests == [] {
      assert [] + [r] == [r];
    } else {
      assert (requests + [r])[1..] == requests[1..] + [r];
      CountSnoc(requests[1..], r, epoch);
    }
  }

  // ---- Event by event ----

  lemma QuietKeeps(s: World, e: Event)
    requires Inv(s) && Settled(s)
    requires e.Configured? || e.LineState? || e.WorkerWake? || e.WorkerDone? || e.TxTake? || e.TxFailed? || e.SerialStart?
    ensures Inv(Act(s, e))
  {
    hide LogOk, RxOk, QueueOk, BarrierOk, Settled, CountFor;
    AsideKeeps(s, Act(s, e));
  }

  /** A new session starts with nothing of its own in flight. */
  lemma NewSessionFlight(s: World)
    requires QueueOk(s) && FlightOk(s)
    ensures CountFor(s.queues.requests, s.usb.epoch + 1) == 0 && AtWorker(s.worker.pc, s.usb.epoch + 1) == 0
  {
    forall i | 0 <= i < |s.queues.requests| ensures s.queues.requests[i].source != Cdc(s.usb.epoch + 1) {
      assert RequestOk(s, s.queues.requests[i]);
    }
    CountNone(s.queues.requests, s.usb.epoch + 1);
  }

  lemma UnavailableKeeps(s: World)
    requires Inv(s) && Settled(s)
    ensures Inv(OnUnavailable(s))
  {
    var r := OnUnavailable(s);
    RequestsLater(s, r);
    NewSessionFlight(s);
  }

  lemma ControlKeeps(s: World, dtr: bool)
    requires Inv(s) && Settled(s)
    ensures Inv(OnControl(s, dtr))
  {
    var r := OnControl(s, dtr);
    RequestsLater(s, r);
    NewSessionFlight(s);
  }

  lemma WorkerTopKeeps(s: World, timeout: bool, connected: bool)
    requires Inv(s) && Settled(s) && s.worker.pc.AtTop?
    ensures Inv(OnWorkerTop(s, timeout, connected))
  {
    hide LogOk, RxOk, QueueOk, BarrierOk, Settled, CountFor;
    AsideKeeps(s, OnWorkerTop(s, timeout, connected));
  }

  lemma WorkerReplyKeeps(s: World)
    requires Inv(s) && Settled(s) && s.worker.pc.Replying?
    ensures Inv(OnWorkerReply(s, s.worker.pc.to))
  {
    hide LogOk, RxOk, QueueOk, BarrierOk, Settled, CountFor;
    AsideKeeps(s, OnWorkerReply(s, s.worker.pc.to));
  }

  lemma SerialReadyKeeps(s: World)
    requires Inv(s) && Settled(s) && s.serial.pc.WaitReady? && s.usb.ready.Some?
    ensures Inv(OnSerialReady(s))
  {
    hide LogOk, RxOk, QueueOk, BarrierOk, Settled, CountFor;
    AsideKeeps(s, OnSerialReady(s));
  }

  lemma SerialCommandKeeps(s: World, command: SerialCommand)
    requires Inv(s) && Settled(s) && s.serial.pc.Reading?
    ensures Inv(OnSerialCommand(s, command))
  {
    hide LogOk, RxOk, QueueOk, BarrierOk, Settled, CountFor;
    AsideKeeps(s, OnSerialCommand(s, command));
  }

  lemma SerialPacketKeeps(s: World, progress: Progress)
    requires Inv(s) && Settled(s) && s.serial.pc.Reading? && s.serial.upload
    ensures Inv(OnSerialPacket(s, progress))
  {
    hide LogOk, RxOk, QueueOk, BarrierOk, Settled, CountFor;
    AsideKeeps(s, OnSerialPacket(s, progress));
  }

  lemma SerialEndKeeps(s: World, e: Event)
    requires Inv(s) && Settled(s)
    requires e.SerialReply? || e.SerialBroken? || e.SerialCancel?
    ensures Inv(Act(s, e))
  {
    hide LogOk, RxOk, QueueOk, BarrierOk, Settled, CountFor;
    AsideKeeps(s, Act(s, e));
  }

  lemma SerialSendKeeps(s: World)
    requires Inv(s) && Settled(s) && s.serial.pc.Sending? && |s.queues.requests| < QUEUE_LIMIT
    ensures Inv(OnSerialSend(s))
  {
    hide LogOk, RxOk, QueueOk, BarrierOk, Settled, CountFor;
    AppendKeeps(s, OnSerialSend(s), s.serial.pc.request);
    CountSnoc(s.queues.requests, s.serial.pc.request, s.usb.epoch);
  }

  /** A sound request joins the queue. */
  lemma AppendKeeps(s: World, r: World, q: Request)
    requires LogOk(s) && RxOk(s) && QueueOk(s) && BarrierOk(s) && Settled(s)
    requires Aside(s, WithRequests(r, s.queues.requests)) && |s.queues.requests| < QUEUE_LIMIT
    requires r.queues.requests == s.queues.requests + [q] && q.born <= Now(s) && RequestOk(s, q)
    ensures LogOk(r) && RxOk(r) && QueueOk(r) && BarrierOk(r)
  {
    AsideKeeps(s, WithRequests(r, s.queues.requests));
  }

  /** Everything since the first byte of a request that passes lies in one idle session, and
      no fault came with or after its last byte. */
  lemma PassesHistory(s: World, r: Request)
    requires LogOk(s) && RequestOk(s, r) && r.born < Now(s) && PassesUart(s, r)
    ensures forall m :: r.began <= m < Now(s) ==> s.past.log[m].epoch == s.usb.epoch && !s.past.log[m].active
    ensures forall m :: r.born - 1 <= m < Now(s) ==> s.past.log[m].generation == s.flags.generation
  {
    assert At(s, r.began) == s.past.log[r.began] && At(s, r.born - 1) == s.past.log[r.born - 1];
    forall m | r.began <= m < Now(s)
      ensures s.past.log[m].epoch == s.usb.epoch && !s.past.log[m].active
    {
      assert Before(s.past.log[r.began], s.past.log[m]) && Before(s.past.log[m], MomentOf(s));
    }
    forall m | r.born - 1 <= m < Now(s) ensures s.past.log[m].generation == s.flags.generation {
      assert Before(s.past.log[r.born - 1], s.past.log[m]) && Before(s.past.log[m], MomentOf(s));
    }
  }

  lemma TakenKeeps(s: World)
    requires Inv(s) && Settled(s) && s.queues.requests != []
    ensures LogOk(Taken(s)) && RxOk(Taken(s)) && QueueOk(Taken(s)) && BarrierOk(Taken(s))
  {
    hide IsClearVersion, UploadsOk, SessionsOk, FlightOk;
    var r := s.queues.requests[0];
    var t := Taken(s);
    assert RequestOk(s, r);
    forall i | 0 <= i < |t.queues.requests| ensures RequestOk(t, t.queues.requests[i]) {
      assert RequestOk(s, s.queues.requests[i + 1]);
    }
  }

  /** A request of the session in force is never dropped. */
  lemma CurrentNotDropped(s: World)
    requires Inv(s) && s.queues.requests != [] && s.queues.requests[0].source == Cdc(s.usb.epoch)
    ensures Judge(s, s.queues.requests[0]) != Drop
  {
    assert InFlight(s) > 0;
  }

  lemma WorkerTakeKeeps(s: World, otaAfter: bool)
    requires Inv(s) && Settled(s) && s.worker.pc.Choosing? && s.queues.requests != []
    ensures Inv(OnWorkerTake(s, otaAfter))
  {
    hide LogOk, RxOk, QueueOk, BarrierOk, UploadsOk, SessionsOk, FlightOk, Settled, Taken, Outcome, Judge;
    var r := s.queues.requests[0];
    TakenKeeps(s);
    TakenRest(s);
    OutcomeRest(s, Taken(s), otaAfter);
    SameCore(Taken(s), OnWorkerTake(s, otaAfter));
    TakeFlight(s, Taken(s), otaAfter);
  }

  /** What taking a request from the queue leaves alone. */
  predicate TakenFrom(s: World, t: World) {
    && t.usb == s.usb && t.worker == s.worker && t.serial == s.serial
    && t.flags.ota == s.flags.ota && t.flags.upload == s.flags.upload
    && t.queues.cdcReplies == s.queues.cdcReplies && t.queues.uartReplies == s.queues.uartReplies
    && t.past.entered == s.past.entered
  }

  lemma OutcomeRest(s: World, t: World, otaAfter: bool)
    requires UploadsOk(s) && SessionsOk(s) && s.queues.requests != [] && TakenFrom(s, t)
    ensures var q := s.queues.requests[0]; var r := Outcome(t, Judge(s, q), q.source, otaAfter);
      && UploadsOk(r) && SessionsOk(r)
      && r.usb == t.usb && r.flags.sync == t.flags.sync && r.flags.generation == t.flags.generation
      && r.queues == t.queues && r.rx == t.rx && r.past == t.past && r.serial == t.serial
  {
    hide IsClearVersion, IsOtaLine;
  }

  lemma TakeFlight(s: World, t: World, otaAfter: bool)
    requires Inv(s) && s.queues.requests != [] && TakenFrom(s, t) && s.worker.pc.Choosing?
    requires t.queues.requests == s.queues.requests[1..]
    ensures var q := s.queues.requests[0]; FlightOk(Outcome(t, Judge(s, q), q.source, otaAfter))
  {
    hide LogOk, RxOk, BarrierOk, UploadsOk, SessionsOk, Judge;
    var q := s.queues.requests[0];
    assert RequestOk(s, q);
    if q.source == Cdc(s.usb.epoch) { CurrentNotDropped(s); }
    match Judge(s, q)
    case Drop =>
    case Busy =>
    case Refuse =>
    case RunOta =>
    case Run =>
  }

  lemma TakenRest(s: World)
    requires s.queues.requests != []
    ensures TakenFrom(s, Taken(s)) && Taken(s).queues.requests == s.queues.requests[1..]
  {}

  lemma SameCore(s: World, r: World)
    requires LogOk(s) && RxOk(s) && QueueOk(s) && BarrierOk(s)
    requires r.usb == s.usb && r.flags.sync == s.flags.sync && r.flags.generation == s.flags.generation
    requires r.queues.requests == s.queues.requests && r.rx == s.rx
    requires r.past.log == s.past.log
    ensures LogOk(r) && RxOk(r) && QueueOk(r) && BarrierOk(r)
  {
    forall i | 0 <= i < |r.queues.requests| ensures RequestOk(r, r.queues.requests[i]) {
      assert RequestOk(s, s.queues.requests[i]);
    }
  }

  // ---- Reception ----

  /** The reception task runs: the session and everything beyond queue, parser and fault
      marks stay. */
  predicate RxAside(s: World, r: World) {
    && r.usb == s.usb && r.worker == s.worker && r.serial == s.serial && r.past == s.past
    && r.flags.ota == s.flags.ota && r.flags.upload == s.flags.upload && r.flags.sync == s.flags.sync
    && r.flags.generation >= s.flags.generation
    && r.queues.cdcReplies == s.queues.cdcReplies && r.queues.uartReplies == s.queues.uartReplies
    && CountFor(r.queues.requests, r.usb.epoch) == CountFor(s.queues.requests, s.usb.epoch)
  }

  lemma RxAsideKeeps(s: World, r: World)
    requires Inv(s) && Settled(s) && RxAside(s, r) && RxOk(r) && QueueOk(r)
    ensures Inv(r)
  {
    hide CountFor;
  }

  /** Mid-packet: what RxOk says, and the read belongs to the session in force. */
  predicate MidPacket(s: World) {
    && RxOk(s) && QueueOk(s) && s.rx.readSession == s.usb.epoch
    && s.past.log != []
    && (|s.queues.requests| < QUEUE_LIMIT ==> s.flags.generation == s.past.log[|s.past.log| - 1].generation)
  }

  lemma OverflowKeeps(s: World)
    requires RxOk(s) && QueueOk(s)
    ensures RxOk(OnOverflow(s)) && QueueOk(OnOverflow(s)) && RxAside(s, OnOverflow(s))
  {
    var r := OnOverflow(s);
    forall i | 0 <= i < |r.queues.requests| ensures RequestOk(r, r.queues.requests[i]) {
      assert RequestOk(s, s.queues.requests[i]);
    }
  }

  lemma EnqueueKeeps(s: World, r: Request)
    requires MidPacket(s) && r.source.Uart? && r.born <= Now(s)
    requires |s.queues.requests| < QUEUE_LIMIT ==> RequestOk(s, r)
    ensures MidPacket(Enqueue(s, r)) && RxAside(s, Enqueue(s, r))
  {
    if |s.queues.requests| < QUEUE_LIMIT {
      CountSnoc(s.queues.requests, r, s.usb.epoch);
      var t := WithRequests(s, s.queues.requests + [r]);
      forall i | 0 <= i < |t.queues.requests| ensures RequestOk(t, t.queues.requests[i]) {
        if i < |s.queues.requests| { assert RequestOk(s, s.queues.requests[i]); }
      }
    } else {
      OverflowKeeps(s);
    }
  }

  lemma FeedByteKeeps(s: World, c: char)
    requires MidPacket(s)
    ensures MidPacket(FeedByte(s, c)) && RxAside(s, FeedByte(s, c))
  {
    hide LineFrame, CountFor;
    var began := if s.rx.pending == CLEAN then Now(s) else s.rx.began;
    var pushed := WithRx(s, s.rx.(pending := AfterByte(s.rx.pending, c), began := began));
    forall i | 0 <= i < |s.queues.requests| ensures RequestOk(pushed, pushed.queues.requests[i]) {
      assert RequestOk(s, s.queues.requests[i]);
    }
    var frames := FramesOfByte(s.rx.pending, c);
    if frames != [] {
      EnqueueKeeps(pushed, RequestOf(s, frames[0], began));
    }
  }

  lemma {:induction false} FeedKeeps(s: World, bytes: string)
    requires MidPacket(s)
    ensures MidPacket(Feed(s, bytes)) && RxAside(s, Feed(s, bytes))
    decreases |bytes|
  {
    hide RxOk, QueueOk, CountFor, FeedByte;
    if bytes != "" {
      var n := |bytes| - 1;
      FeedKeeps(s, bytes[..n]);
      FeedByteKeeps(Feed(s, bytes[..n]), bytes[n]);
    }
  }

  lemma CancelledKeeps(s: World, pending: string)
    requires QueueOk(s) && s.rx.readSession <= s.usb.epoch
    requires s.rx.parserSession == s.rx.readSession
    ensures var r := RxTop(Cancelled(s, pending)); RxOk(r) && QueueOk(r) && RxAside(s, r)
  {
    hide CountFor;
    var r := RxTop(Cancelled(s, pending));
    forall i | 0 <= i < |r.queues.requests| ensures RequestOk(r, r.queues.requests[i]) {
      assert RequestOk(s, s.queues.requests[i]);
    }
  }

  lemma RxTopKeeps(s: World)
    requires RxOk(s) && QueueOk(s)
    ensures RxOk(RxTop(s)) && QueueOk(RxTop(s)) && RxAside(s, RxTop(s))
  {
    hide CountFor;
    var r := RxTop(s);
    forall i | 0 <= i < |r.queues.requests| ensures RequestOk(r, r.queues.requests[i]) {
      assert RequestOk(s, s.queues.requests[i]);
    }
  }

  lemma RxKeeps(s: World, e: Event)
    requires Inv(s) && Settled(s) && (e.RxCancelled? || e.RxError? || e.RxBytes?)
    ensures Inv(Act(s, e))
  {
    hide CountFor, RxOk, QueueOk, RxTop, Feed, Cancelled, OnOverflow, AfterSession, BarrierOk, LogOk;
    match e
    case RxCancelled => if s.flags.sessionChanged { RxTopKeeps(s); RxAsideKeeps(s, RxTop(s)); }
    case RxError =>
      OverflowKeeps(s);
      RxTopKeeps(OnOverflow(s));
      RxAsideKeeps(s, RxTop(OnOverflow(s)));
    case RxBytes(bytes) => RxBytesKeeps(s, bytes);
  }

  lemma RxBytesKeeps(s: World, bytes: string)
    requires Inv(s) && Settled(s)
    ensures Inv(OnRxBytes(s, bytes))
  {
    hide CountFor, QueueOk, RxTop, Feed, Cancelled, AfterSession, BarrierOk, LogOk;
    if s.usb.epoch != s.rx.readSession {
      CancelledKeeps(s, bytes);
    } else {
      FeedKeeps(s, bytes);
      RxTopKeeps(Feed(s, bytes));
    }
    RxAsideKeeps(s, OnRxBytes(s, bytes));
  }

  // ---- Over whole runs ----

  lemma ActKeeps(s: World, e: Event)
    requires Inv(s) && Settled(s)
    ensures Inv(Act(s, e))
  {
    hide Inv, Settled, OnUnavailable, OnControl, OnWorkerTop, OnWorkerTake, OnWorkerReply, OnRxBytes, RxTop,
         OnOverflow, OnSerialReady, OnSerialCommand, OnSerialPacket, OnSerialSend, OnSerialReply, OnSerialEnd;
    match e
    case Unavailable => UnavailableKeeps(s);
    case Control(dtr) => ControlKeeps(s, dtr);
    case WorkerTop(timeout, connected) => if s.worker.pc.AtTop? { WorkerTopKeeps(s, timeout, connected); }
    case WorkerTake(otaAfter) =>
      if s.worker.pc.Choosing? && s.queues.requests != [] { WorkerTakeKeeps(s, otaAfter); }
    case WorkerReply => if s.worker.pc.Replying? { WorkerReplyKeeps(s); }
    case RxCancelled => RxKeeps(s, e);
    case RxError => RxKeeps(s, e);
    case RxBytes(bytes) => RxKeeps(s, e);
    case SerialReady => if s.serial.pc.WaitReady? && s.usb.ready.Some? { SerialReadyKeeps(s); }
    case SerialCommands(command) => if s.serial.pc.Reading? { SerialCommandKeeps(s, command); }
    case SerialPacket(progress) => if s.serial.pc.Reading? && s.serial.upload { SerialPacketKeeps(s, progress); }
    case SerialSend =>
      if s.serial.pc.Sending? && |s.queues.requests| < QUEUE_LIMIT { SerialSendKeeps(s); }
    case SerialReply => SerialEndKeeps(s, e);
    case SerialBroken => SerialEndKeeps(s, e);
    case SerialCancel => SerialEndKeeps(s, e);
    case _ => QuietKeeps(s, e);
  }

  lemma StartOk()
    ensures Inv(START) && Settled(START)
  {}

  lemma {:induction false} ReachableOk(events: seq<Event>)
    ensures Inv(After(events)) && Settled(After(events))
    decreases |events|
  {
    hide Inv, Settled, Act, Record;
    StartOk();
    if events != [] {
      var n := |events| - 1;
      ReachableOk(events[..n]);
      ActKeeps(After(events[..n]), events[n]);
      RecordKeeps(Act(After(events[..n]), events[n]));
    }
  }
}
