/** The tasks together with the two updates they run: the worker's update session and the
    serial task's upload act on one and the same flash partition, and what the tasks know of
    them is computed from their lines and packets instead of being given. */
module Device {
  import opened Text
  import opened Tasks
  import opened TaskSafety
  import Ota
  import Crc32
  import Cdc = CdcUpload

  /** events is what has happened to the tasks; stream is what the serial upload got since its
      last READY. */
  datatype Device = Device(events: seq<Event>, ota: Ota.State, upload: Cdc.Upload, dfu: Cdc.Dfu, stream: Cdc.Data)

  datatype Input =
    | Other(event: Event)
    | Top(timeout: bool, connected: bool)
    | Take(writeOk: bool, unreadable: set<nat>, commitOk: bool)
    | HostWrite(size: nat)
    | HostAbort
    | HostPacket(packet: Cdc.Data, broken: set<nat>)

  /** Events whose outcome the updates decide come as inputs of their own. */
  predicate InputOk(i: Input) {
    match i
    case Other(e) => !e.WorkerTop? && !e.WorkerTake? && !e.SerialPacket?
                     && !(e.SerialCommands? && (e.command.Write? || e.command.Abort?))
    case HostPacket(packet, _) => |packet| <= Cdc.PACKET_LIMIT
    case _ => true
  }

  predicate Usable(d: Device) { Ota.Sound(d.ota) && |d.dfu.cells| == Cdc.PARTITION }

  function TasksOf(d: Device): World { After(d.events) }

  // ---- What the updates make of an input ----

  /** The update session's answer, if the worker takes up one of its lines; OTA INFO only asks. */
  function Answer(d: Device, i: Input): (out: Ota.Outcome)
    requires Usable(d) && i.Take?
    ensures Ota.Sound(out.state)
  {
    var s := TasksOf(d);
    if !RunsOta(s, WorkerTake(true)) || s.queues.requests[0].line == "OTA INFO" then Ota.Say(d.ota, "") else
      var view := Ota.Dfu(d.dfu.cells, i.writeOk, i.unreadable, i.commitOk);
      AnswerSound(d.ota, view, Ota.Parse(s.queues.requests[0].line), s.queues.requests[0].line);
      Ota.Respond(d.ota, view, Ota.Parse(s.queues.requests[0].line))
  }

  lemma AnswerSound(ota: Ota.State, view: Ota.Dfu, line: Ota.Line, text: string)
    requires Ota.Sound(ota) && view.Valid() && line == Ota.Parse(text)
    ensures Ota.Sound(Ota.Respond(ota, view, line).state)
  {
    hide Ota.Hex, Ota.PairBytes, Crc32.ImageCrc, Ota.ValidVector;
  }

  function Uploads(d: Device): bool { TasksOf(d).serial.pc.Reading? && TasksOf(d).serial.upload }

  function ProgressOf(u: Cdc.Upload): Progress {
    if u.active then More else if u.image then Complete else Failed
  }

  function EventOf(d: Device, i: Input): Event
    requires Usable(d)
  {
    match i
    case Other(e) => e
    case Top(timeout, connected) => WorkerTop(timeout, connected)
    case Take(_, _, _) => WorkerTake(Answer(d, i).state.active)
    case HostWrite(size) => SerialCommands(Write(0 < size <= Cdc.IMAGE_LIMIT))
    case HostAbort => SerialCommands(Abort)
    case HostPacket(packet, broken) => SerialPacket(ProgressOf(Cdc.OnPacket(d.upload, d.dfu, packet, broken).0))
  }

  function OtaAfter(d: Device, i: Input): (ota: Ota.State)
    requires Usable(d)
    ensures Ota.Sound(ota)
  {
    match i
    case Take(_, _, _) => Answer(d, i).state
    case Top(timeout, _) =>
      if TasksOf(d).worker.pc.AtTop? && TasksOf(d).worker.otaActive && timeout then Ota.Aborted(d.ota) else d.ota
    case _ => d.ota
  }

  /** The serial task's upload, the partition and the stream. */
  function SessionAfter(d: Device, i: Input): Cdc.Session
    requires Usable(d)
  {
    var s := TasksOf(d);
    var session := Cdc.Session(d.upload, d.dfu, d.stream);
    match i
    case Take(_, _, _) => session.(dfu := d.dfu.(cells := Ota.CellsAfter(d.dfu.cells, Answer(d, i).effect)))
    case HostWrite(size) =>
      if s.serial.pc.Reading? && !s.flags.ota then Cdc.OnInput(session, Cdc.StartLine(size)) else session
    case HostAbort => if s.serial.pc.Reading? then Cdc.OnInput(session, Cdc.AbortLine) else session
    case HostPacket(packet, broken) =>
      if Uploads(d) then Cdc.OnInput(session, Cdc.Chunk(Cdc.Arrival(packet, broken))) else session
    case Other(e) => if Enters(s, e) then session.(upload := Cdc.Failure()) else session
    case Top(_, _) => session
  }

  function Next(d: Device, i: Input): (r: Device)
    requires Usable(d)
  {
    var session := SessionAfter(d, i);
    Device(d.events + [EventOf(d, i)], OtaAfter(d, i), session.upload, session.dfu, session.stream)
  }

  // ---- The link ----

  /** The tasks' marks are those of the updates, and in the session in force the partition is
      in step with the stream. */
  ghost predicate Linked(d: Device) {
    var s := TasksOf(d);
    && Usable(d)
    && d.ota.active == s.worker.otaActive
    && (d.upload.active ==> !d.upload.image)
    && (IsOpen(s) ==> d.upload.active == s.serial.upload && d.upload.image == s.serial.image)
    && (IsOpen(s) && IsCurrent(s) ==> Cdc.Kept(Cdc.Session(d.upload, d.dfu, d.stream)))
  }

  lemma NextEvents(d: Device, i: Input)
    requires Usable(d)
    ensures TasksOf(Next(d, i)) == Step(TasksOf(d), EventOf(d, i))
  {
    hide Step, After;
    OneMore(d.events, EventOf(d, i));
  }

  lemma RecordLocals(s: World)
    ensures var r := Record(s);
      && r.worker == s.worker && r.serial == s.serial && r.usb == s.usb
      && IsOpen(r) == IsOpen(s) && IsCurrent(r) == IsCurrent(s)
  {}

  /** An event that is none of the updates' leaves their marks alone, and a session in force
      was in force before or has just been entered. */
  lemma OtherLocals(s: World, e: Event)
    requires SessionsOk(s) && InputOk(Other(e))
    ensures var r := Act(s, e);
      && r.worker.otaActive == s.worker.otaActive
      && (Enters(s, e) ==> !r.serial.upload && !r.serial.image)
      && (!Enters(s, e) && IsOpen(r) ==>
            IsOpen(s) && r.serial.upload == s.serial.upload && r.serial.image == s.serial.image
            && (IsCurrent(r) ==> IsCurrent(s)))
  {
    hide Feed, RxTop, OnRxBytes, OnOverflow;
    if e.RxBytes? || e.RxCancelled? || e.RxError? { RxFlags(s, e); }
  }

  lemma OtherLinked(d: Device, i: Input)
    requires Linked(d) && InputOk(i) && i.Other? && SessionsOk(TasksOf(d))
    ensures Linked(Next(d, i))
  {
    hide After, Act, Record, SessionsOk, IsOpen, IsCurrent, Enters, Cdc.InStep, Cdc.Complete;
    NextEvents(d, i);
    RecordLocals(Act(TasksOf(d), i.event));
    OtherLocals(TasksOf(d), i.event);
  }

  lemma TopLocals(s: World, timeout: bool, connected: bool)
    ensures var r := Act(s, WorkerTop(timeout, connected));
      && r.worker.otaActive == (s.worker.otaActive && !(s.worker.pc.AtTop? && timeout))
      && r.serial == s.serial && IsOpen(r) == IsOpen(s) && IsCurrent(r) == IsCurrent(s)
  {}

  lemma TopLinked(d: Device, i: Input)
    requires Linked(d) && i.Top?
    ensures Linked(Next(d, i))
  {
    hide After, Act, Record, IsOpen, IsCurrent, Cdc.Kept;
    NextEvents(d, i);
    RecordLocals(Act(TasksOf(d), EventOf(d, i)));
    TopLocals(TasksOf(d), i.timeout, i.connected);
  }

  lemma TakeLocals(s: World, otaAfter: bool)
    ensures var r := Act(s, WorkerTake(otaAfter));
      && r.worker.otaActive == (if RunsOta(s, WorkerTake(true)) then otaAfter else s.worker.otaActive)
      && r.serial == s.serial && IsOpen(r) == IsOpen(s) && IsCurrent(r) == IsCurrent(s)
      && (RunsOta(s, WorkerTake(true)) ==> !IsCurrent(s))
  {
    hide IsClearVersion, IsOtaLine;
  }

  lemma TakeLinked(d: Device, i: Input)
    requires Linked(d) && i.Take?
    ensures Linked(Next(d, i))
  {
    hide After, Act, Record, IsOpen, IsCurrent, Cdc.Kept, RunsOta, Ota.Respond, Ota.Parse;
    NextEvents(d, i);
    RecordLocals(Act(TasksOf(d), EventOf(d, i)));
    TakeLocals(TasksOf(d), Answer(d, i).state.active);
  }

  lemma CommandLocals(s: World, command: SerialCommand)
    requires UploadsOk(s) && (command.Write? || command.Abort?)
    ensures var r := Act(s, SerialCommands(command));
      && r.worker == s.worker && IsOpen(r) == IsOpen(s) && IsCurrent(r) == IsCurrent(s)
      && (s.serial.pc.Reading? && command == Write(true) && !s.flags.ota ==> r.serial.upload && !r.serial.image)
      && (s.serial.pc.Reading? && command == Abort ==> !r.serial.upload && !r.serial.image)
      && (!s.serial.pc.Reading? || command == Write(false) || (command.Write? && s.flags.ota) ==> r.serial == s.serial)
  {}

  lemma CommandLinked(d: Device, i: Input)
    requires Linked(d) && (i.HostWrite? || i.HostAbort?) && UploadsOk(TasksOf(d))
    ensures Linked(Next(d, i))
  {
    hide After, Act, Record, IsOpen, IsCurrent, Cdc.Kept, UploadsOk;
    var s, session := TasksOf(d), Cdc.Session(d.upload, d.dfu, d.stream);
    NextEvents(d, i);
    RecordLocals(Act(s, EventOf(d, i)));
    CommandLocals(s, EventOf(d, i).command);
    if IsOpen(s) && IsCurrent(s) {
      if i.HostWrite? { Cdc.InputKept(session, Cdc.StartLine(i.size)); } else { Cdc.InputKept(session, Cdc.AbortLine); }
    }
  }

  lemma PacketLocals(s: World, progress: Progress)
    ensures var r := Act(s, SerialPacket(progress)); var now := s.serial.pc.Reading? && s.serial.upload;
      && r.worker == s.worker && IsOpen(r) == IsOpen(s) && IsCurrent(r) == IsCurrent(s)
      && (now && !progress.More? ==> !r.serial.upload && r.serial.image == progress.Complete?)
      && (!now || progress.More? ==> r.serial == s.serial)
  {}

  lemma PacketOutcome(u: Cdc.Upload, d: Cdc.Dfu, packet: Cdc.Data, broken: set<nat>)
    requires u.active && !u.image
    ensures var (v, e, _) := Cdc.OnPacket(u, d, packet, broken);
      && |e.cells| == |d.cells| && (v.active ==> !v.image)
  {
    hide Cdc.Accepts;
  }

  lemma PacketLinked(d: Device, i: Input)
    requires Linked(d) && i.HostPacket? && InputOk(i) && IsOpenIfReading(TasksOf(d))
    ensures Linked(Next(d, i))
  {
    hide After, Act, Record, IsOpen, IsCurrent, Cdc.Kept, Cdc.OnPacket;
    var s, session := TasksOf(d), Cdc.Session(d.upload, d.dfu, d.stream);
    NextEvents(d, i);
    RecordLocals(Act(s, EventOf(d, i)));
    PacketLocals(s, EventOf(d, i).progress);
    if Uploads(d) {
      PacketOutcome(d.upload, d.dfu, i.packet, i.broken);
      if IsOpen(s) && IsCurrent(s) { Cdc.InputKept(session, Cdc.Chunk(Cdc.Arrival(i.packet, i.broken))); }
    }
  }

  predicate IsOpenIfReading(s: World) { s.serial.pc.Reading? ==> IsOpen(s) }

  lemma LinkedNext(d: Device, i: Input)
    requires Linked(d) && InputOk(i)
    ensures Linked(Next(d, i))
  {
    hide Linked, Next, After;
    ReachableOk(d.events);
    SafetyNow(TasksOf(d));
    match i
    case Other(_) => OtherLinked(d, i);
    case Top(_, _) => TopLinked(d, i);
    case Take(_, _, _) => TakeLinked(d, i);
    case HostWrite(_) => CommandLinked(d, i);
    case HostAbort => CommandLinked(d, i);
    case HostPacket(_, _) => PacketLinked(d, i);
  }

  // ---- Whole runs ----

  predicate InputsOk(inputs: seq<Input>) { forall k :: 0 <= k < |inputs| ==> InputOk(inputs[k]) }

  function PowerOn(cells: Cdc.Data): Device {
    Device([], Ota.IDLE, Cdc.Failure(), Cdc.Dfu(cells, []), [])
  }

  lemma PowerOnLinked(cells: Cdc.Data)
    requires |cells| == Cdc.PARTITION
    ensures Linked(PowerOn(cells))
  {}

  /** The device after any inputs, from any contents of the partition. */
  ghost function AfterAll(cells: Cdc.Data, inputs: seq<Input>): (d: Device)
    requires |cells| == Cdc.PARTITION && InputsOk(inputs)
    ensures Linked(d)
    decreases |inputs|
  {
    if inputs == [] then PowerOnLinked(cells); PowerOn(cells)
    else
      var d := AfterAll(cells, inputs[..|inputs| - 1]);
      LinkedNext(d, inputs[|inputs| - 1]);
      Next(d, inputs[|inputs| - 1])
  }

  /** Whatever the hosts, the flash and the order of the tasks do: an image that BOOT would mark
      in the session in force is in the partition, byte for byte as it came since the last
      READY, although UART updates write to the same partition. */
  lemma BootsTheStream(cells: Cdc.Data, inputs: seq<Input>)
    requires |cells| == Cdc.PARTITION && InputsOk(inputs)
    ensures var d := AfterAll(cells, inputs);
      HasImage(TasksOf(d)) ==>
        && d.upload.image && d.upload.size <= |d.stream| && d.upload.size <= |d.dfu.cells|
        && d.dfu.cells[..d.upload.size] == d.stream[..d.upload.size]
  {
    hide After, AfterAll, IsOpen, IsCurrent, Cdc.InStep;
  }

  /** Whatever a stale upload has written in between: what a UART update marks for booting is in
      the partition with the size and the CRC that its BEGIN declared. */
  lemma UartMarksDeclaredImage(d: Device, i: Input)
    requires Linked(d) && i.Take? && Answer(d, i).effect == Ota.Mark(true)
    ensures d.ota.active && d.ota.size <= Ota.LIMIT
    ensures Crc32.ImageCrc(d.dfu.cells[..d.ota.size]) == d.ota.expectedCrc
  {
    hide After, RunsOta, Ota.Parse, Crc32.ImageCrc, Ota.ValidVector;
  }
}
