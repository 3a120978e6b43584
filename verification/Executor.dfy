/** The tasks in the form the application runs them: fields for the shared flags and queues
    and for each task's own variables, and one method for each stretch between two
    suspension points. Every method does exactly what its event does to the state. */
module Executor {
  import opened Text
  import opened UartLink
  import opened Tasks

  class Application {
    var usb: Usb
    var flags: Flags
    var queues: Queues
    var worker: Worker
    var serial: Serial

    /** History: how many moments there have been, and what happened at them. */
    var clock: nat
    ghost var past: Past

    ghost predicate Valid()
      reads this
    {
      clock == |past.log|
    }

    /** The whole state, given what the reception task holds. */
    ghost function Value(rx: Rx): World
      reads this
    {
      World(usb, flags, queues, worker, serial, rx, past)
    }

    constructor ()
      ensures Valid() && Value(START.rx) == START
    {
      usb := Usb(false, false, false, 0, None);
      flags := Flags(true, 0, false, false, false, false);
      queues := Queues([], [], []);
      worker := Worker(AtTop, 0, false);
      serial := Serial(WaitActive, 0, false, false);
      clock, past := 1, START.past;
    }

    /** The passing of one event. */
    method Tick(ghost rx: Rx)
      requires Valid()
      modifies this`clock, this`past
      ensures Valid() && Value(rx) == Record(old(Value(rx)))
    {
      past := past.(log := past.log + [MomentOf(Value(rx))]);
      clock := clock + 1;
    }

    // ---- USB ----

    method OnConfigured(ghost rx: Rx)
      requires Valid()
      modifies this
      ensures Valid() && Value(rx) == Act(old(Value(rx)), Configured)
    {
      usb := usb.(available := true);
    }

    method OnLineState(ghost rx: Rx, dtr: bool)
      requires Valid()
      modifies this
      ensures Valid() && Value(rx) == Act(old(Value(rx)), LineState(dtr))
    {
      usb := usb.(dtrValid := dtr);
    }

    /** USB is gone: the session is cancelled on the spot. */
    method OnLost(ghost rx: Rx)
      requires Valid()
      modifies this
      ensures Valid() && Value(rx) == OnUnavailable(old(Value(rx)))
    {
      usb := usb.(available := false, dtrValid := false, active := false, epoch := usb.epoch + 1);
      flags := flags.(upload := false, sessionChanged := true);
      queues := queues.(cdcReplies := []);
    }

    method ControlTask(ghost rx: Rx, dtr: bool)
      requires Valid()
      modifies this
      ensures Valid() && Value(rx) == OnControl(old(Value(rx)), dtr)
    {
      var next := usb.available && usb.dtrValid && dtr;
      if next != usb.active {
        usb := usb.(epoch := usb.epoch + 1, active := next);
        if next {
          flags := flags.(sync := true);
        } else {
          flags := flags.(upload := false);
          queues := queues.(cdcReplies := []);
        }
        flags := flags.(sessionChanged := true);
      }
    }

    // ---- The worker ----

    /** The burst itself leaves no trace but history: its outcome is ignored. */
    method ReleaseKeys(connected: bool, allUp: AllUp)
      modifies this`past
      ensures past == TryAllUp(old(past), connected, allUp) && past.log == old(past.log)
    {
      if connected { past := past.(allUps := past.allUps + [allUp]); }
    }

    /** connected says whether the worker's pairing is connected when it is asked. */
    method TopOfLoop(ghost rx: Rx, timeout: bool, connected: bool)
      requires Valid() && worker.pc.AtTop?
      modifies this
      ensures Valid() && Value(rx) == OnWorkerTop(old(Value(rx)), timeout, connected)
    {
      hide TryAllUp;
      if worker.otaActive && timeout {
        worker := worker.(otaActive := false);
        flags := flags.(ota := false, sync := true);
      }
      if usb.epoch != worker.seen {
        worker := worker.(seen := usb.epoch);
        if usb.active {
          ReleaseKeys(connected, ForHost(usb.epoch));
          usb := usb.(ready := Some(usb.epoch));
        }
      }
      if flags.damaged { ReleaseKeys(connected, AfterDamage(flags.generation)); }
      flags := flags.(damaged := false);
      worker := worker.(pc := Choosing);
    }

    method TakeRequest(ghost rx: Rx, otaAfter: bool)
      requires Valid() && worker.pc.Choosing? && queues.requests != []
      modifies this
      ensures Valid() && Value(rx) == OnWorkerTake(old(Value(rx)), otaAfter)
    {
      var request := queues.requests[0];
      queues := queues.(requests := queues.requests[1..]);
      var answered := false;
      if request.source.Cdc? {
        if !usb.active || usb.epoch != request.source.epoch || worker.seen != request.source.epoch {
          worker := worker.(pc := AtTop);
          return;
        }
      } else {
        if request.source.generation != flags.generation {
          worker := worker.(pc := AtTop);
          return;
        }
        if usb.active || request.source.session != usb.epoch {
          answered := true;
        } else if flags.sync {
          if request.error == None && request.line == "VER" {
            flags := flags.(sync := false);
          } else {
            answered := true;
          }
        }
      }
      if !answered && request.source.Uart? && "OTA " <= request.line {
        if !flags.upload {
          worker := worker.(otaActive := otaAfter);
          flags := flags.(ota := otaAfter);
        }
        answered := true;
      }
      if !answered && worker.otaActive { answered := true; }
      if !answered && request.error.Some? { answered := true; }
      worker := worker.(pc := if answered then Replying(request.source) else Commanding(request.source));
    }

    method SendReply(ghost rx: Rx)
      requires Valid() && worker.pc.Replying?
      modifies this
      ensures Valid() && Value(rx) == OnWorkerReply(old(Value(rx)), old(worker.pc.to))
    {
      var source := worker.pc.to;
      if source.Cdc? {
        if usb.active && usb.epoch == source.epoch && |queues.cdcReplies| < 1 {
          queues := queues.(cdcReplies := queues.cdcReplies + [source]);
        }
        worker := worker.(pc := AtTop);
      } else if |queues.uartReplies| < 1 {
        queues := queues.(uartReplies := queues.uartReplies + [source]);
        worker := worker.(pc := AtTop);
      }
    }

    // ---- Passing between suspension points ----

    method WakeUp(ghost rx: Rx)
      requires Valid() && worker.pc.Choosing?
      modifies this
      ensures Valid() && Value(rx) == WorkerAt(old(Value(rx)), AtTop)
    {
      worker := worker.(pc := AtTop);
    }

    method FinishCommand(ghost rx: Rx)
      requires Valid() && worker.pc.Commanding?
      modifies this
      ensures Valid() && Value(rx) == WorkerAt(old(Value(rx)), Replying(old(worker.pc.source)))
    {
      worker := worker.(pc := Replying(worker.pc.source));
    }

    method TakeUartReply(ghost rx: Rx)
      requires Valid() && queues.uartReplies != []
      modifies this
      ensures Valid() && Value(rx) == WithUartReplies(old(Value(rx)), old(queues.uartReplies)[1..])
    {
      queues := queues.(uartReplies := queues.uartReplies[1..]);
    }

    // ---- What the reception task shares ----

    method RecordFault(ghost rx: Rx)
      modifies this`flags
      ensures Value(rx) == Fault(old(Value(rx))) && clock == old(clock)
    {
      flags := flags.(generation := flags.generation + 1, damaged := true);
    }

    method Submit(ghost rx: Rx, request: Request)
      modifies this`queues
      ensures Value(rx) == WithRequests(old(Value(rx)), old(queues.requests) + [request])
    {
      queues := queues.(requests := queues.requests + [request]);
    }

    method NoteSession(ghost rx: Rx)
      modifies this`flags
      ensures Value(rx) == WithSessionChanged(old(Value(rx)), false) && clock == old(clock)
    {
      flags := flags.(sessionChanged := false);
    }

    // ---- USB serial ----

    method BeginSession(ghost rx: Rx)
      requires Valid() && serial.pc.WaitActive? && usb.active
      modifies this
      ensures Valid() && Value(rx) == WithSerial(old(Value(rx)), Serial(WaitReady, usb.epoch, false, false))
    {
      serial := Serial(WaitReady, usb.epoch, false, false);
    }

    method TakeReady(ghost rx: Rx)
      requires Valid() && serial.pc.WaitReady? && usb.ready.Some?
      modifies this
      ensures Valid() && Value(rx) == OnSerialReady(old(Value(rx)))
    {
      if usb.ready.value == serial.session {
        serial := serial.(pc := Reading, upload := false, image := false);
        past := past.(entered := Some(serial.session));
      }
      usb := usb.(ready := None);
    }

    method Command(ghost rx: Rx, command: SerialCommand)
      requires Valid() && serial.pc.Reading?
      modifies this
      ensures Valid() && Value(rx) == OnSerialCommand(old(Value(rx)), command)
    {
      match command
      case Write(sizeOk) =>
        if flags.ota { return; }
        if sizeOk {
          serial := serial.(upload := true, image := false);
          flags := flags.(upload := true);
        }
      case Abort =>
        serial := serial.(upload := false, image := false);
        flags := flags.(upload := false);
      case Forward(line) =>
        if line == "" { return; }
        serial := serial.(pc := Sending(Request(Cdc(serial.session), line, None, 0, 0)));
      case _ =>
    }

    method UploadPacket(ghost rx: Rx, progress: Progress)
      requires Valid() && serial.pc.Reading? && serial.upload
      modifies this
      ensures Valid() && Value(rx) == OnSerialPacket(old(Value(rx)), progress)
    {
      if progress == Failed {
        serial := serial.(upload := false, image := false);
        flags := flags.(upload := false);
      } else if progress == Complete {
        serial := serial.(upload := false, image := true);
        flags := flags.(upload := false);
      }
    }

    method SendRequest(ghost rx: Rx)
      requires Valid() && serial.pc.Sending? && |queues.requests| < QUEUE_LIMIT
      modifies this
      ensures Valid() && Value(rx) == OnSerialSend(old(Value(rx)))
    {
      queues := queues.(requests := queues.requests + [serial.pc.request]);
      serial := serial.(pc := Awaiting);
    }

    method TakeReply(ghost rx: Rx)
      requires Valid() && serial.pc.Awaiting? && queues.cdcReplies != []
      modifies this
      ensures Valid() && Value(rx) == OnSerialReply(old(Value(rx)))
    {
      var reply := queues.cdcReplies[0];
      queues := queues.(cdcReplies := queues.cdcReplies[1..]);
      if reply == Cdc(serial.session) { serial := serial.(pc := Reading); }
    }

    method EndSession(ghost rx: Rx)
      requires Valid()
      modifies this
      ensures Valid() && Value(rx) == OnSerialEnd(old(Value(rx)))
    {
      flags := flags.(upload := false);
      queues := queues.(cdcReplies := []);
      serial := Serial(WaitActive, serial.session, false, false);
    }
  }

  /** The UART reception task: the parser it owns and the sessions it has noted. */
  class Receiver {
    const parser: Parser
    var parserSession: nat
    var readSession: nat
    /** History: when the pending line began. */
    var began: nat

    ghost predicate Valid()
      reads this, parser
    {
      parser.Valid()
    }

    ghost function Value(): Rx
      requires Valid()
      reads this, parser, parser.line
    {
      Rx(parser.State(), parserSession, readSession, began)
    }

    constructor ()
      ensures Valid() && fresh(parser) && fresh(parser.line) && Value() == START.rx
    {
      parser := new Parser();
      parserSession, readSession, began := 0, 0, 0;
    }

    method Overflow(app: Application)
      requires Valid() && app.Valid()
      modifies app, parser
      ensures Valid() && parser.line == old(parser.line) && app.Valid()
      ensures app.Value(Value()) == OnOverflow(old(app.Value(Value())))
    {
      parser.Damaged();
      app.RecordFault(Value());
    }

    method PushByte(app: Application, byte: char)
      requires Valid() && app.Valid()
      modifies this, app, parser, parser.line
      ensures Valid() && parser.line == old(parser.line) && app.Valid()
      ensures app.Value(Value()) == FeedByte(old(app.Value(Value())), byte)
    {
      hide LineFrame, AfterByte;
      NotClean(parser.line[..parser.len]);
      if parser.len == 0 && !parser.discard { began := app.clock; }
      var frame := parser.Push(byte);
      if frame.Some? {
        var request := Request(Uart(frame.value.number, readSession, app.flags.generation),
                               frame.value.command, frame.value.error, began, app.clock);
        if |app.queues.requests| < QUEUE_LIMIT { app.Submit(Value(), request); } else { Overflow(app); }
      }
    }

    /** The top of the reception loop, up to the next read. */
    method NextRead(app: Application)
      requires Valid() && app.Valid()
      modifies this, app, parser
      ensures Valid() && parser.line == old(parser.line) && app.Valid()
      ensures app.Value(Value()) == RxTop(old(app.Value(Value())))
    {
      hide AfterSession;
      app.NoteSession(Value());
      readSession := app.usb.epoch;
      if readSession != parserSession {
        parser.SessionChanged("");
        parserSession := readSession;
      }
    }

    method ReceiveError(app: Application)
      requires Valid() && app.Valid()
      modifies this, app, parser
      ensures Valid() && app.Valid() && parser.line == old(parser.line)
      ensures app.Value(Value()) == Act(old(app.Value(Value())), RxError)
    {
      hide RxTop, OnOverflow;
      Overflow(app);
      NextRead(app);
    }

    method Receive(app: Application, bytes: string)
      requires Valid() && app.Valid()
      modifies this, app, parser, parser.line
      ensures Valid() && app.Valid() && parser.line == old(parser.line)
      ensures app.Value(Value()) == Act(old(app.Value(Value())), RxBytes(bytes))
    {
      hide RxTop, FeedByte, AfterSession;
      var currentSession := app.usb.epoch;
      if currentSession != readSession {
        parser.SessionChanged(bytes);
        parserSession := currentSession;
        NextRead(app);
        return;
      }
      ghost var start := app.Value(Value());
      for i := 0 to |bytes|
        invariant Valid() && parser.line == old(parser.line) && app.Valid()
        invariant app.Value(Value()) == Feed(start, bytes[..i])
      {
        assert bytes[..i + 1][..i] == bytes[..i];
        PushByte(app, bytes[i]);
      }
      assert bytes[..|bytes|] == bytes;
      NextRead(app);
    }
  }

  // ---- All tasks together ----

  method PerformUsb(app: Application, ghost rx: Rx, e: Event)
    requires app.Valid() && (e.Configured? || e.Unavailable? || e.LineState? || e.Control?)
    modifies app
    ensures app.Valid() && app.Value(rx) == Act(old(app.Value(rx)), e)
  {
    match e
    case Configured => app.OnConfigured(rx);
    case Unavailable => app.OnLost(rx);
    case LineState(dtr) => app.OnLineState(rx, dtr);
    case Control(dtr) => app.ControlTask(rx, dtr);
  }

  method PerformWorker(app: Application, ghost rx: Rx, e: Event)
    requires app.Valid()
    requires e.WorkerTop? || e.WorkerWake? || e.WorkerTake? || e.WorkerDone? || e.WorkerReply? || e.TxTake? || e.TxFailed?
    modifies app
    ensures app.Valid() && app.Value(rx) == Act(old(app.Value(rx)), e)
  {
    hide OnWorkerTop, OnWorkerTake, OnWorkerReply, Fault;
    match e
    case WorkerTop(timeout, connected) => if app.worker.pc.AtTop? { app.TopOfLoop(rx, timeout, connected); }
    case WorkerWake => if app.worker.pc.Choosing? { app.WakeUp(rx); }
    case WorkerTake(otaAfter) =>
      if app.worker.pc.Choosing? && app.queues.requests != [] { app.TakeRequest(rx, otaAfter); }
    case WorkerDone => if app.worker.pc.Commanding? { app.FinishCommand(rx); }
    case WorkerReply => if app.worker.pc.Replying? { app.SendReply(rx); }
    case TxTake => if app.queues.uartReplies != [] { app.TakeUartReply(rx); }
    case TxFailed => app.RecordFault(rx);
  }

  method PerformSerial(app: Application, ghost rx: Rx, e: Event)
    requires app.Valid()
    requires e.SerialStart? || e.SerialReady? || e.SerialCommands? || e.SerialPacket? || e.SerialSend?
          || e.SerialReply? || e.SerialBroken? || e.SerialCancel?
    modifies app
    ensures app.Valid() && app.Value(rx) == Act(old(app.Value(rx)), e)
  {
    hide OnSerialReady, OnSerialCommand, OnSerialPacket, OnSerialSend, OnSerialReply, OnSerialEnd;
    match e
    case SerialStart => if app.serial.pc.WaitActive? && app.usb.active { app.BeginSession(rx); }
    case SerialReady => if app.serial.pc.WaitReady? && app.usb.ready.Some? { app.TakeReady(rx); }
    case SerialCommands(command) => if app.serial.pc.Reading? { app.Command(rx, command); }
    case SerialPacket(progress) => if app.serial.pc.Reading? && app.serial.upload { app.UploadPacket(rx, progress); }
    case SerialSend => if app.serial.pc.Sending? && |app.queues.requests| < QUEUE_LIMIT { app.SendRequest(rx); }
    case SerialReply => if app.serial.pc.Awaiting? && app.queues.cdcReplies != [] { app.TakeReply(rx); }
    case SerialBroken => if app.serial.pc.Reading? { app.EndSession(rx); }
    case SerialCancel =>
      if !app.serial.pc.WaitActive? && !(app.usb.active && app.usb.epoch == app.serial.session) { app.EndSession(rx); }
  }

  method PerformRx(app: Application, rx: Receiver, e: Event)
    requires app.Valid() && rx.Valid() && (e.RxCancelled? || e.RxError? || e.RxBytes?)
    modifies app, rx, rx.parser, rx.parser.line
    ensures app.Valid() && rx.Valid() && rx.parser.line == old(rx.parser.line)
    ensures app.Value(rx.Value()) == Act(old(app.Value(rx.Value())), e)
  {
    hide RxTop, OnRxBytes, OnOverflow;
    match e
    case RxCancelled => if app.flags.sessionChanged { rx.NextRead(app); }
    case RxError => rx.ReceiveError(app);
    case RxBytes(bytes) => rx.Receive(app, bytes);
  }

  method Perform(app: Application, rx: Receiver, e: Event)
    requires app.Valid() && rx.Valid()
    modifies app, rx, rx.parser, rx.parser.line
    ensures app.Valid() && rx.Valid() && rx.parser.line == old(rx.parser.line)
    ensures app.Value(rx.Value()) == Step(old(app.Value(rx.Value())), e)
  {
    hide Act, Record;
    if e.RxCancelled? || e.RxError? || e.RxBytes? {
      PerformRx(app, rx, e);
    } else if e.Configured? || e.Unavailable? || e.LineState? || e.Control? {
      PerformUsb(app, rx.Value(), e);
    } else if e.WorkerTop? || e.WorkerWake? || e.WorkerTake? || e.WorkerDone? || e.WorkerReply? || e.TxTake? || e.TxFailed? {
      PerformWorker(app, rx.Value(), e);
    } else {
      PerformSerial(app, rx.Value(), e);
    }
    app.Tick(rx.Value());
  }

  /** From power-on, in whatever order the tasks run and whatever comes in: the code is always in
      the state that the events lead to, and that state satisfies the invariant of all tasks. */
  method PerformAll(events: seq<Event>) returns (app: Application, rx: Receiver)
    ensures app.Valid() && rx.Valid() && app.Value(rx.Value()) == After(events)
    ensures Inv(app.Value(rx.Value()))
    ensures !(app.flags.ota && app.flags.upload)
    ensures app.usb.active ==> app.flags.sync
  {
    hide Step, Inv;
    app := new Application();
    rx := new Receiver();
    assert events[..0] == [];
    for i := 0 to |events|
      invariant app.Valid() && rx.Valid() && fresh(app) && fresh(rx) && fresh(rx.parser) && fresh(rx.parser.line)
      invariant app.Value(rx.Value()) == After(events[..i])
    {
      assert events[..i + 1][..i] == events[..i];
      Perform(app, rx, events[i]);
    }
    assert events[..|events|] == events;
    ReachableOk(events);
    Marks(app.Value(rx.Value()));
  }

  lemma Marks(s: World)
    requires Inv(s)
    ensures !(s.flags.ota && s.flags.upload) && (s.usb.active ==> s.flags.sync)
  {}

  lemma NotClean(text: string)
    ensures Partial(text) == CLEAN <==> |text| == 0
  {}
}
