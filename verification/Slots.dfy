/** The slot machine above the pairing store: which pairing is live, and which
    reports, with which counters, have gone out under it. Radio results come with each event. */
module Slots {
  import opened Text
  import opened Storage
  import opened ProfileMap

  const COUNTER_WRAP := 0x1_0000_0000
  const BOOT_MARGIN := 512

  /** The modifiers and the keys held down. */
  datatype Report = Report(modifier: bv8, keys: seq<bv8>)

  const ALL_UP := Report(0, [0, 0, 0, 0, 0, 0])

  /** One encrypted report on the air, and the counter it used. */
  datatype Sent = Sent(counter: nat, report: Report)

  /** A press and its release, with what the receiver acknowledged of either. */
  datatype Stroke = Stroke(report: Report, press: seq<bool>, release: seq<bool>)

  /** A character to type: its key and whether that key is shifted, if it has one. */
  datatype Char = Char(key: Option<(bv8, bool)>, press: seq<bool>, release: seq<bool>)

  /** The worker's state. sent holds, per slot, what was sent since that slot was paired. */
  datatype Keyboard = Keyboard(
    live: Profile,
    paired: bool,
    connected: bool,
    activeSlot: nat,
    linkUp: bool,
    store: Store,
    sent: map<nat, seq<Sent>>)

  datatype Event =
    | Boot
    | PairInto(slot: Option<nat>, radioReady: bool, outcome: Option<Profile>, scratch: Profile, readyAgain: bool)
    | Connect(radioReady: bool, answered: bool, channel: bv8)
    | Sleep
    | Delete(slot: Option<nat>)
    | Switch(target: nat, radioReady: bool)
    | KeyDown(report: Report, acks: seq<bool>, channel: bv8)
    | KeyStroke(stroke: Stroke, channel: bv8)
    | TypeText(text: seq<Char>, channel: bv8)
    | AllUp(acks: seq<bool>, channel: bv8)
    | Poll(heard: Option<bool>, channel: bv8, powerWarning: bool)

  predicate EventOk(e: Event) {
    && (e.PairInto? ==> (e.slot.Some? ==> e.slot.value < MAX_PROFILES) && e.scratch.Valid()
                        && (e.outcome.Some? ==> e.outcome.value.Valid()))
    && (e.Delete? && e.slot.Some? ==> e.slot.value < MAX_PROFILES)
    && (e.Switch? ==> e.target < MAX_PROFILES)
  }

  // ---- Sending ----

  function NextCounter(c: nat): nat { (c + 1) % COUNTER_WRAP }

  /** The same report k times, from counter c on. */
  function SendsFrom(c: nat, k: nat, report: Report): (r: seq<Sent>)
    ensures |r| == k
    decreases k
  {
    if k == 0 then [] else [Sent(c, report)] + SendsFrom(NextCounter(c), k - 1, report)
  }

  function CounterAfter(c: nat, k: nat): nat
    decreases k
  {
    if k == 0 then c else CounterAfter(NextCounter(c), k - 1)
  }

  /** Sending until the first acknowledgement, at most limit times: how often, and whether
      it came. Results beyond the given ones count as unheard. */
  function Burst(acks: seq<bool>, limit: nat): (r: (nat, bool))
    ensures r.0 <= limit && (limit > 0 ==> r.0 > 0)
    decreases limit
  {
    if limit == 0 then (0, false)
    else if |acks| > 0 && acks[0] then (1, true)
    else var (n, ok) := Burst(if |acks| > 0 then acks[1..] else [], limit - 1); (n + 1, ok)
  }

  function History(k: Keyboard, slot: nat): seq<Sent> {
    if slot in k.sent then k.sent[slot] else []
  }

  /** The record of sends with more added under one slot. */
  function Grow(sent: map<nat, seq<Sent>>, slot: nat, more: seq<Sent>): map<nat, seq<Sent>> {
    if more == [] then sent else sent[slot := (if slot in sent then sent[slot] else []) + more]
  }

  lemma GrowTwice(sent: map<nat, seq<Sent>>, slot: nat, a: seq<Sent>, b: seq<Sent>)
    ensures Grow(Grow(sent, slot, a), slot, b) == Grow(sent, slot, a + b)
  {
    var base := if slot in sent then sent[slot] else [];
    assert (base + a) + b == base + (a + b);
    assert a == [] ==> a + b == b;
    assert b == [] ==> a + b == a;
  }

  /** A report n times under the live pairing. */
  function Send(k: Keyboard, n: nat, report: Report): Keyboard {
    k.(live := k.live.(counter := CounterAfter(k.live.counter, n)),
       sent := Grow(k.sent, k.activeSlot, SendsFrom(k.live.counter, n, report)))
  }

  function OnChannel(k: Keyboard, channel: bv8): Keyboard { k.(live := k.live.(channel := channel)) }

  function StoreLive(k: Keyboard): Keyboard {
    if k.paired then k.(store := Apply(k.store, SaveProfile(k.activeSlot, k.live))) else k
  }

  const RETRY_LIMIT := 20

  function StrokeCount(s: Stroke): nat { Burst(s.press, RETRY_LIMIT).0 + Burst(s.release, RETRY_LIMIT).0 }

  function TextCount(strokes: seq<Stroke>): nat
    decreases |strokes|
  {
    if strokes == [] then 0 else TextCount(strokes[..|strokes| - 1]) + StrokeCount(strokes[|strokes| - 1])
  }

  /** A key goes down, then all keys go up. */
  function Struck(k: Keyboard, s: Stroke): Keyboard {
    Send(Send(k, Burst(s.press, RETRY_LIMIT).0, s.report), Burst(s.release, RETRY_LIMIT).0, ALL_UP)
  }

  function Typed(k: Keyboard, strokes: seq<Stroke>): Keyboard
    decreases |strokes|
  {
    if strokes == [] then k else Struck(Typed(k, strokes[..|strokes| - 1]), strokes[|strokes| - 1])
  }

  function CharReport(scancode: bv8, shift: bool): Report {
    Report(if shift then 2 else 0, [scancode, 0, 0, 0, 0, 0])
  }

  /** The strokes of a text; a character without a key is passed over. */
  function Strokes(text: seq<Char>): seq<Stroke>
    decreases |text|
  {
    if text == [] then [] else
      var c := text[|text| - 1];
      Strokes(text[..|text| - 1])
      + if c.key.Some? then [Stroke(CharReport(c.key.value.0, c.key.value.1), c.press, c.release)] else []
  }

  function Attempts(k: Keyboard): nat { if k.linkUp then 3 else 1 }

  // ---- Pairings ----

  function ApplyProfile(k: Keyboard, p: Profile): Keyboard {
    k.(live := p, paired := true, connected := false, linkUp := false)
  }

  function Margin(p: Profile): Profile { p.(counter := (p.counter + BOOT_MARGIN) % COUNTER_WRAP) }

  const FACTORY := Profile([0, 0, 0, 0, 0], [0, 0, 0, 0, 0, 0, 0, 0, 0, 0, 0, 0, 0, 0, 0, 0], 0, 0)

  /** A keyboard with an erased store that has sent nothing yet, before its first boot. */
  const NEW_KEYBOARD := Keyboard(FACTORY, false, false, 0, false, Store(map[], None), map[])

  function Restart(k: Keyboard): Keyboard {
    Keyboard(FACTORY, false, false, 0, false, k.store, k.sent)
  }

  function Restore(k: Keyboard, slot: nat): Keyboard {
    match Lookup(k.store, slot)
    case None => k
    case Some(p) => var r := ApplyProfile(k, Margin(p));
      r.(store := Apply(k.store, SaveProfile(slot, Margin(p))))
  }

  function OnBoot(k: Keyboard): Keyboard {
    var r := Restart(k);
    match k.store.active
    case Some(slot) => Restore(r.(activeSlot := slot), slot)
    case None => Restore(r, 0)
  }

  function SwitchTo(k: Keyboard, slot: nat): Keyboard {
    if slot == k.activeSlot then k else
      var saved := StoreLive(k);
      var moved := saved.(connected := false, linkUp := false, activeSlot := slot,
                          store := Apply(saved.store, SaveActive(slot)));
      match Lookup(moved.store, slot)
      case Some(p) => ApplyProfile(moved, p)
      case None => moved.(paired := false)
  }

  function OnPair(k: Keyboard, slot: nat, radioReady: bool, outcome: Option<Profile>, scratch: Profile, readyAgain: bool): Keyboard {
    if !radioReady then k else
    match outcome
    case Some(p) =>
      var joined := k.(live := p, paired := true, connected := true, linkUp := true, activeSlot := slot,
                       sent := k.sent[slot := []]);
      joined.(store := Apply(Apply(joined.store, SaveProfile(slot, p)), SaveActive(slot)))
    case None =>
      if k.paired then ApplyProfile(k, k.live).(connected := k.connected && readyAgain)
      else k.(live := scratch)
  }

  function OnKeyDown(k: Keyboard, report: Report, acks: seq<bool>, channel: bv8): Keyboard {
    if !k.connected then k else
      var (n, ok) := Burst(acks, Attempts(k));
      var after := OnChannel(Send(k, n, report), channel).(linkUp := ok);
      if after.live.counter % 128 == 0 then StoreLive(after) else after
  }

  /** A keep-alive that was due tells whether the receiver still hears the keyboard. */
  function Polled(k: Keyboard, heard: Option<bool>, channel: bv8): Keyboard {
    if !k.connected then k
    else OnChannel(if heard.Some? then k.(linkUp := heard.value) else k, channel)
  }

  function Step(k: Keyboard, e: Event): Keyboard {
    match e
    case Boot => OnBoot(k)
    case PairInto(slot, radioReady, outcome, scratch, readyAgain) =>
      OnPair(k, if slot.Some? then slot.value else k.activeSlot, radioReady, outcome, scratch, readyAgain)
    case Connect(radioReady, answered, channel) =>
      if !k.paired || !radioReady then k
      else OnChannel(if answered then k.(connected := true, linkUp := true) else k, channel)
    case Sleep => if k.connected then StoreLive(k.(connected := false)) else k
    case Delete(Some(slot)) =>
      var cleared := k.(store := Apply(k.store, Clear(slot)));
      if k.activeSlot == slot then cleared.(paired := false, connected := false) else cleared
    case Delete(None) => k.(store := Apply(k.store, ClearEverything), paired := false, connected := false)
    case Switch(slot, radioReady) =>
      var moved := SwitchTo(k, slot);
      if moved.paired && radioReady then moved.(connected := true) else moved
    case KeyDown(report, acks, channel) => OnKeyDown(k, report, acks, channel)
    case KeyStroke(stroke, channel) => if k.connected then StoreLive(OnChannel(Struck(k, stroke), channel)) else k
    case TypeText(text, channel) =>
      if k.connected then StoreLive(OnChannel(Typed(k, Strokes(text)), channel)) else k
    case AllUp(acks, channel) =>
      if k.connected then OnChannel(Send(k, Burst(acks, RETRY_LIMIT).0, ALL_UP), channel) else k
    case Poll(heard, channel, powerWarning) =>
      if powerWarning then StoreLive(Polled(k, heard, channel)) else Polled(k, heard, channel)
  }

  // ---- Slot safety ----

  /** What holds between any two commands. */
  predicate Consistent(k: Keyboard) {
    && k.live.Valid() && k.activeSlot < MAX_PROFILES
    && (forall s :: s in k.store.profiles ==> s < MAX_PROFILES && k.store.profiles[s].Valid())
    && (k.store.active.Some? ==> k.store.active.value < MAX_PROFILES)
    && (k.connected ==> k.paired)
    && (k.paired ==>
          && k.activeSlot in k.store.profiles
          && k.store.profiles[k.activeSlot].key == k.live.key
          && k.store.profiles[k.activeSlot].address == k.live.address
          && (if k.store.active.Some? then k.store.active.value else 0) == k.activeSlot)
  }

  lemma CounterInRange(c: nat, n: nat)
    requires c < COUNTER_WRAP
    ensures CounterAfter(c, n) < COUNTER_WRAP
    decreases n
  {}

  lemma SendConsistent(k: Keyboard, n: nat, report: Report)
    requires Consistent(k)
    ensures Consistent(Send(k, n, report))
  {
    CounterInRange(k.live.counter, n);
  }

  lemma StruckConsistent(k: Keyboard, stroke: Stroke)
    requires Consistent(k)
    ensures Consistent(Struck(k, stroke))
  {
    hide Send, Consistent;
    SendConsistent(k, Burst(stroke.press, RETRY_LIMIT).0, stroke.report);
    SendConsistent(Send(k, Burst(stroke.press, RETRY_LIMIT).0, stroke.report), Burst(stroke.release, RETRY_LIMIT).0, ALL_UP);
  }

  lemma {:induction false} TypedConsistent(k: Keyboard, strokes: seq<Stroke>)
    requires Consistent(k)
    ensures Consistent(Typed(k, strokes))
    decreases |strokes|
  {
    hide Struck, Consistent;
    if strokes != [] {
      TypedConsistent(k, strokes[..|strokes| - 1]);
      StruckConsistent(Typed(k, strokes[..|strokes| - 1]), strokes[|strokes| - 1]);
    }
  }

  lemma StoreLiveConsistent(k: Keyboard)
    requires Consistent(k)
    ensures Consistent(StoreLive(k))
  {}

  lemma SwitchConsistent(k: Keyboard, slot: nat)
    requires Consistent(k) && slot < MAX_PROFILES
    ensures Consistent(SwitchTo(k, slot))
  {}

  lemma BootConsistent(k: Keyboard)
    requires Consistent(k)
    ensures Consistent(OnBoot(k))
  {}

  lemma PairConsistent(k: Keyboard, e: Event)
    requires Consistent(k) && EventOk(e) && e.PairInto?
    ensures Consistent(Step(k, e))
  {}

  lemma DeleteConsistent(k: Keyboard, e: Event)
    requires Consistent(k) && EventOk(e) && e.Delete?
    ensures Consistent(Step(k, e))
  {}

  lemma StepConsistent(k: Keyboard, e: Event)
    requires Consistent(k) && EventOk(e)
    ensures Consistent(Step(k, e))
  {
    hide Apply, Send, OnBoot, SwitchTo, OnPair, ApplyProfile, Struck, Typed, Strokes, OnKeyDown;
    match e
    case Boot => BootConsistent(k);
    case PairInto(_, _, _, _, _) => PairConsistent(k, e);
    case Delete(_) => DeleteConsistent(k, e);
    case Switch(slot, _) => SwitchConsistent(k, slot);
    case KeyDown(report, acks, channel) => KeyDownConsistent(k, report, acks, channel);
    case KeyStroke(stroke, channel) => StruckConsistent(k, stroke); TunedConsistent(Struck(k, stroke), channel);
    case TypeText(text, channel) =>
      TypedConsistent(k, Strokes(text));
      TunedConsistent(Typed(k, Strokes(text)), channel);
    case AllUp(acks, channel) =>
      SendConsistent(k, Burst(acks, RETRY_LIMIT).0, ALL_UP);
      TunedConsistent(Send(k, Burst(acks, RETRY_LIMIT).0, ALL_UP), channel);
    case Sleep => StoreLiveConsistent(k.(connected := false));
    case Poll(heard, channel, _) => PollConsistent(k, heard, channel);
    case Connect(_, _, _) =>
  }

  lemma KeyDownConsistent(k: Keyboard, report: Report, acks: seq<bool>, channel: bv8)
    requires Consistent(k)
    ensures Consistent(OnKeyDown(k, report, acks, channel))
  {
    hide Apply, Send;
    var (n, ok) := Burst(acks, Attempts(k));
    SendConsistent(k, n, report);
    StoreLiveConsistent(OnChannel(Send(k, n, report), channel).(linkUp := ok));
  }

  lemma TunedConsistent(k: Keyboard, channel: bv8)
    requires Consistent(k)
    ensures Consistent(OnChannel(k, channel)) && Consistent(StoreLive(OnChannel(k, channel)))
  {
    hide Apply;
    StoreLiveConsistent(OnChannel(k, channel));
  }

  lemma PollConsistent(k: Keyboard, heard: Option<bool>, channel: bv8)
    requires Consistent(k)
    ensures Consistent(Polled(k, heard, channel)) && Consistent(StoreLive(Polled(k, heard, channel)))
  {}

  lemma NewKeyboardConsistent()
    ensures Consistent(NEW_KEYBOARD)
  {}

  function Run(k: Keyboard, events: seq<Event>): Keyboard
    decreases |events|
  {
    if events == [] then k else Step(Run(k, events[..|events| - 1]), events[|events| - 1])
  }

  predicate EventsOk(events: seq<Event>) { forall i :: 0 <= i < |events| ==> EventOk(events[i]) }

  /** Over all command and reboot sequences: connected implies paired, and paired implies
      that the active slot is the persisted one and holds the very pairing in use. */
  lemma {:induction false} RunConsistent(k: Keyboard, events: seq<Event>)
    requires Consistent(k) && EventsOk(events)
    ensures Consistent(Run(k, events))
    decreases |events|
  {
    if events != [] {
      RunConsistent(k, events[..|events| - 1]);
      StepConsistent(Run(k, events[..|events| - 1]), events[|events| - 1]);
    }
  }

  /** A failed pairing attempt leaves the previous target exactly as it was. */
  lemma FailedPairRestores(k: Keyboard, e: Event)
    requires Consistent(k) && EventOk(e) && e.PairInto? && !(e.radioReady && e.outcome.Some?)
    ensures var r := Step(k, e);
      && r.paired == k.paired && r.activeSlot == k.activeSlot && r.store == k.store && r.sent == k.sent
      && (k.paired ==> r.live == k.live)
      && r.connected == (k.connected && (e.radioReady ==> e.readyAgain))
      && (!e.radioReady ==> r == k)
  {}

  predicate PairsInto(k: Keyboard, e: Event, slot: nat) {
    && e.PairInto? && e.radioReady && e.outcome.Some?
    && slot == if e.slot.Some? then e.slot.value else k.activeSlot
  }

  lemma EmptySlotBoot(k: Keyboard, slot: nat)
    requires slot !in k.store.profiles
    ensures slot !in OnBoot(k).store.profiles
  {}

  lemma EmptySlotSwitch(k: Keyboard, target: nat, slot: nat)
    requires Consistent(k) && slot !in k.store.profiles
    ensures slot !in SwitchTo(k, target).store.profiles
  {}

  /** What sending leaves alone. */
  predicate SentAside(k: Keyboard, r: Keyboard) {
    r == k.(live := k.live.(counter := r.live.counter), sent := r.sent)
  }

  lemma StruckAside(k: Keyboard, stroke: Stroke)
    ensures SentAside(k, Struck(k, stroke))
  {}

  lemma {:induction false} TypedAside(k: Keyboard, strokes: seq<Stroke>)
    ensures SentAside(k, Typed(k, strokes))
    decreases |strokes|
  {
    hide Struck;
    if strokes != [] {
      TypedAside(k, strokes[..|strokes| - 1]);
      StruckAside(Typed(k, strokes[..|strokes| - 1]), strokes[|strokes| - 1]);
    }
  }

  lemma EmptySlotStaysEmpty(k: Keyboard, e: Event, slot: nat)
    requires Consistent(k) && EventOk(e) && slot !in k.store.profiles && !PairsInto(k, e, slot)
    ensures slot !in Step(k, e).store.profiles
  {
    hide Burst, SendsFrom, CounterAfter, OnBoot, SwitchTo, Strokes, Struck, Typed;
    if e.KeyStroke? { StruckAside(k, e.stroke); }
    if e.TypeText? { TypedAside(k, Strokes(e.text)); }
    if e.Boot? { EmptySlotBoot(k, slot); }
    if e.Switch? { EmptySlotSwitch(k, e.target, slot); }
  }

  /** A slot once empty stays empty over any run without a successful pairing into it. */
  lemma {:induction false} DeletedStaysEmpty(k: Keyboard, events: seq<Event>, slot: nat)
    requires Consistent(k) && EventsOk(events) && slot !in k.store.profiles
    requires forall i :: 0 <= i < |events| ==> !PairsInto(Run(k, events[..i]), events[i], slot)
    ensures slot !in Run(k, events).store.profiles
    decreases |events|
  {
    hide Step, Consistent, EventOk, PairsInto;
    if events != [] {
      var n := |events| - 1;
      var init := events[..n];
      forall i | 0 <= i < n ensures !PairsInto(Run(k, init[..i]), init[i], slot) {
        assert init[..i] == events[..i];
      }
      DeletedStaysEmpty(k, init, slot);
      RunConsistent(k, init);
      EmptySlotStaysEmpty(Run(k, init), events[n], slot);
    }
  }

  lemma DeleteEmpties(k: Keyboard, slot: Option<nat>)
    requires Consistent(k) && EventOk(Delete(slot))
    ensures var r := Step(k, Delete(slot));
      && (slot.Some? ==> slot.value !in r.store.profiles)
      && (slot.None? ==> r.store == Store(map[], None))
      && ((slot.None? || slot.value == k.activeSlot) ==> !r.paired && !r.connected)
      && (slot.Some? ==> r.store.active == k.store.active
                         && forall s :: s != slot.value ==> Lookup(r.store, s) == Lookup(k.store, s))
      && (slot.Some? && slot.value != k.activeSlot ==> r == k.(store := r.store))
  {}
}
