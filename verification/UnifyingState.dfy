/** The worker's connection state as the firmware keeps it, over the real flash: every
    method moves state and flash together exactly as the slot machine says. */
module UnifyingState {
  import opened Text
  import Storage
  import opened ProfileMap
  import opened Slots
  import Counters

  type Profile = Storage.Profile

  class Worker {
    var live: Profile
    var paired: bool
    var connected: bool
    var activeSlot: nat
    var linkUp: bool
    ghost var sent: map<nat, seq<Sent>>

    ghost function Value(flash: Storage.Nvmc): Keyboard
      reads this, flash
      requires flash.Valid()
    {
      Keyboard(live, paired, connected, activeSlot, linkUp, Contents(flash.cells), sent)
    }

    ghost predicate Valid(flash: Storage.Nvmc)
      reads this, flash
    {
      flash.Valid() && TidyFlash(flash.cells) && Consistent(Value(flash))
    }

    /** Power-on: everything starts anew except the flash and what has gone on air. */
    constructor (flash: Storage.Nvmc, ghost before: Keyboard)
      requires flash.Valid() && TidyFlash(flash.cells) && Consistent(before)
      requires before.store == Contents(flash.cells)
      modifies flash
      ensures Valid(flash) && Value(flash) == Step(before, Boot)
    {
      live, paired, connected, activeSlot, linkUp := FACTORY, false, false, 0, false;
      sent := before.sent;
      new;
      hide Consistent, TidyFlash, Contents, Apply, Lookup, Restore;
      StepConsistent(before, Boot);
      var stored := FetchSlot(flash);
      if stored.Some? {
        activeSlot := stored.value;
        RestoreFrom(flash, stored.value);
      } else {
        RestoreFrom(flash, 0);
      }
    }

    method RestoreFrom(flash: Storage.Nvmc, slot: nat)
      requires flash.Valid() && TidyFlash(flash.cells) && slot < Storage.MAX_PROFILES
      modifies this, flash
      ensures flash.Valid() && TidyFlash(flash.cells)
      ensures Value(flash) == Restore(old(Value(flash)), slot)
    {
      hide Consistent, TidyFlash, Contents, Apply, Lookup;
      var profile := FetchProfile(flash, slot);
      if profile.Some? {
        var p := profile.value.(counter := (profile.value.counter + BOOT_MARGIN) % COUNTER_WRAP);
        ApplyStored(p);
        SaveTo(flash, slot, p);
      }
    }

    method ApplyStored(p: Profile)
      modifies this`live, this`paired, this`connected, this`linkUp
      ensures live == p && paired && !connected && !linkUp
    {
      live := p;
      paired := true;
      connected := false;
      linkUp := false;
    }

    method SaveTo(flash: Storage.Nvmc, slot: nat, p: Profile)
      requires flash.Valid() && TidyFlash(flash.cells) && p.Valid()
      modifies flash
      ensures flash.Valid() && TidyFlash(flash.cells)
      ensures Contents(flash.cells) == Apply(Contents(old(flash.cells)), Storage.SaveProfile(slot, p))
    {
      Storage.Save(flash, slot, p);
      ContentsStep(old(flash.cells), flash.cells, Storage.SaveProfile(slot, p));
    }

    method SaveSlot(flash: Storage.Nvmc, slot: nat)
      requires flash.Valid() && TidyFlash(flash.cells)
      modifies flash
      ensures flash.Valid() && TidyFlash(flash.cells)
      ensures Contents(flash.cells) == Apply(Contents(old(flash.cells)), Storage.SaveActive(slot))
    {
      Storage.SaveActiveSlot(flash, slot);
      ContentsStep(old(flash.cells), flash.cells, Storage.SaveActive(slot));
    }

    /** Empties one slot, or with no slot the whole store. */
    method Forget(flash: Storage.Nvmc, slot: Option<nat>)
      requires flash.Valid() && TidyFlash(flash.cells)
      modifies flash
      ensures flash.Valid() && TidyFlash(flash.cells)
      ensures Contents(flash.cells) == Apply(Contents(old(flash.cells)),
        if slot.Some? then Storage.Clear(slot.value) else Storage.ClearEverything)
    {
      hide TidyFlash, Contents, Apply;
      if slot.Some? {
        Storage.ClearSlot(flash, slot.value);
        ContentsStep(old(flash.cells), flash.cells, Storage.Clear(slot.value));
      } else {
        Storage.ClearAll(flash);
        ContentsStep(old(flash.cells), flash.cells, Storage.ClearEverything);
      }
    }

    method FetchSlot(flash: Storage.Nvmc) returns (slot: Option<nat>)
      requires flash.Valid()
      ensures slot == Contents(flash.cells).active && (slot.Some? ==> slot.value < Storage.MAX_PROFILES)
    {
      LoadsContents(flash.cells);
      slot := Storage.LoadActiveSlot(flash);
    }

    method FetchProfile(flash: Storage.Nvmc, slot: nat) returns (p: Option<Profile>)
      requires flash.Valid() && slot < Storage.MAX_PROFILES
      ensures p == Lookup(Contents(flash.cells), slot)
      ensures p.Some? ==> p.value.Valid()
    {
      LoadsContents(flash.cells);
      p := Storage.Load(flash, slot);
    }

    method SaveLive(flash: Storage.Nvmc)
      requires flash.Valid() && TidyFlash(flash.cells) && live.Valid()
      modifies flash
      ensures flash.Valid() && TidyFlash(flash.cells)
      ensures Value(flash) == StoreLive(old(Value(flash)))
    {
      if paired { SaveTo(flash, activeSlot, live); }
    }

    /** True if the slot now active holds a pairing. */
    method SwitchSlot(flash: Storage.Nvmc, slot: nat) returns (has: bool)
      requires Valid(flash) && slot < Storage.MAX_PROFILES
      modifies this, flash
      ensures Valid(flash) && Value(flash) == SwitchTo(old(Value(flash)), slot) && has == paired
    {
      hide Consistent, TidyFlash, Contents, Apply, Lookup, Burst, Send, Struck, Typed, Strokes;
      Sound(flash);
      if slot == activeSlot { return paired; }
      SwitchConsistent(Value(flash), slot);
      SaveLive(flash);
      connected := false;
      linkUp := false;
      activeSlot := slot;
      SaveSlot(flash, slot);
      var profile := FetchProfile(flash, slot);
      if profile.Some? {
        ApplyStored(profile.value);
        return true;
      }
      paired := false;
      return false;
    }

    method OnSwitch(flash: Storage.Nvmc, slot: nat, radioReady: bool)
      requires Valid(flash) && slot < Storage.MAX_PROFILES
      modifies this, flash
      ensures Valid(flash) && Value(flash) == Step(old(Value(flash)), Switch(slot, radioReady))
    {
      hide Consistent, TidyFlash, Contents, Apply, Lookup, Burst, Send, Struck, Typed, Strokes;
      Sound(flash);
      StepConsistent(Value(flash), Switch(slot, radioReady));
      var has := SwitchSlot(flash, slot);
      if has && radioReady { connected := true; }
    }

    method OnPairInto(flash: Storage.Nvmc, slot: Option<nat>, radioReady: bool,
                      outcome: Option<Profile>, scratch: Profile, readyAgain: bool)
      requires Valid(flash) && EventOk(PairInto(slot, radioReady, outcome, scratch, readyAgain))
      modifies this, flash
      ensures Valid(flash)
      ensures Value(flash) == Step(old(Value(flash)), PairInto(slot, radioReady, outcome, scratch, readyAgain))
    {
      hide Consistent, TidyFlash, Contents, Apply, Lookup, Burst, Send, Struck, Typed, Strokes;
      Sound(flash);
      StepConsistent(Value(flash), PairInto(slot, radioReady, outcome, scratch, readyAgain));
      var target := if slot.Some? then slot.value else activeSlot;
      var previous := if paired then Some((live, connected)) else None;
      if !radioReady { return; }
      if outcome.Some? {
        live := outcome.value;
        paired := true;
        connected := true;
        linkUp := true;
        activeSlot := target;
        sent := sent[target := []];
        SaveTo(flash, target, live);
        SaveSlot(flash, target);
      } else {
        live := scratch;
        if previous.Some? {
          ApplyStored(previous.value.0);
          connected := previous.value.1 && readyAgain;
        }
      }
    }

    method OnDelete(flash: Storage.Nvmc, slot: Option<nat>)
      requires Valid(flash) && EventOk(Delete(slot))
      modifies this, flash
      ensures Valid(flash) && Value(flash) == Step(old(Value(flash)), Delete(slot))
    {
      hide Consistent, TidyFlash, Contents, Apply, Send;
      Sound(flash);
      StepConsistent(Value(flash), Delete(slot));
      Forget(flash, slot);
      if slot.None? || activeSlot == slot.value {
        paired := false;
        connected := false;
      }
    }

    method OnSleep(flash: Storage.Nvmc)
      requires Valid(flash)
      modifies this, flash
      ensures Valid(flash) && Value(flash) == Step(old(Value(flash)), Sleep)
    {
      hide Consistent, TidyFlash, Contents, Apply, Lookup, Burst, Send, Struck, Typed, Strokes;
      Sound(flash);
      StepConsistent(Value(flash), Sleep);
      if connected {
        connected := false;
        SaveLive(flash);
      }
    }

    method OnConnect(flash: Storage.Nvmc, radioReady: bool, answered: bool, channel: bv8)
      requires Valid(flash)
      modifies this
      ensures Valid(flash) && Value(flash) == Step(old(Value(flash)), Connect(radioReady, answered, channel))
    {
      hide Consistent, TidyFlash, Contents, Apply, Lookup, Burst, Send, Struck, Typed, Strokes;
      StepConsistent(Value(flash), Connect(radioReady, answered, channel));
      if !paired || !radioReady { return; }
      if answered {
        connected := true;
        linkUp := true;
      }
      live := live.(channel := channel);
    }

    /** The background poll; a power warning stores the live counter at once. */
    method OnPoll(flash: Storage.Nvmc, heard: Option<bool>, channel: bv8, powerWarning: bool)
      requires Valid(flash)
      modifies this, flash
      ensures Valid(flash) && Value(flash) == Step(old(Value(flash)), Poll(heard, channel, powerWarning))
    {
      hide Consistent, TidyFlash, Contents, Apply, Lookup, Burst, Send, Struck, Typed, Strokes;
      Sound(flash);
      StepConsistent(Value(flash), Poll(heard, channel, powerWarning));
      if connected {
        if heard.Some? { linkUp := heard.value; }
        live := live.(channel := channel);
      }
      if powerWarning { SaveLive(flash); }
    }

    /** One encrypted frame: it uses the counter and leaves the next one. */
    method SendEncrypted(report: Report)
      modifies this`live, this`sent
      ensures live == old(live).(counter := NextCounter(old(live.counter)))
      ensures sent == Grow(old(sent), activeSlot, [Sent(old(live.counter), report)])
    {
      sent := Grow(sent, activeSlot, [Sent(live.counter, report)]);
      live := live.(counter := NextCounter(live.counter));
    }

    /** What every consistent state offers. */
    lemma Sound(flash: Storage.Nvmc)
      requires Valid(flash)
      ensures live.Valid() && activeSlot < Storage.MAX_PROFILES && (connected ==> paired)
    {}

    /** Sends until acknowledged, at most limit times. */
    method SendBurst(ghost flash: Storage.Nvmc, report: Report, acks: seq<bool>, limit: nat) returns (ok: bool)
      requires flash.Valid()
      modifies this`live, this`sent
      ensures ok == Burst(acks, limit).1
      ensures Value(flash) == Send(old(Value(flash)), Burst(acks, limit).0, report)
    {
      hide Burst, SendsFrom, CounterAfter, NextCounter, Drop;
      ghost var c := live.counter;
      hide Grow;
      GrowNothing(sent, activeSlot);
      NothingSent(c, report);
      DropNothing(acks);
      var i := 0;
      ok := false;
      while i < limit && !ok
        invariant i <= limit
        invariant !ok ==> Burst(acks, limit) == Later(i, Burst(Drop(acks, i), limit - i))
        invariant ok ==> Burst(acks, limit) == (i, true)
        invariant live == old(live).(counter := CounterAfter(c, i))
        invariant sent == Grow(old(sent), activeSlot, SendsFrom(c, i, report))
        decreases limit - i
      {
        SendEncrypted(report);
        GrowTwice(old(sent), activeSlot, SendsFrom(c, i, report), [Sent(CounterAfter(c, i), report)]);
        OneMoreSend(c, i, report);
        BurstUnfold(acks, i, limit - i);
        ok := i < |acks| && acks[i];
        i := i + 1;
      }
      BurstEnds(acks, i, limit);
    }

    /** The channel the radio was left on. */
    method Retuned(ghost flash: Storage.Nvmc, channel: bv8)
      requires flash.Valid()
      modifies this`live
      ensures Value(flash) == OnChannel(old(Value(flash)), channel)
    {
      live := live.(channel := channel);
    }

    method OnKeyDownReport(flash: Storage.Nvmc, report: Report, acks: seq<bool>, channel: bv8) returns (ok: bool)
      requires Valid(flash)
      modifies this, flash
      ensures Valid(flash) && Value(flash) == Step(old(Value(flash)), KeyDown(report, acks, channel))
    {
      hide Consistent, TidyFlash, Contents, Burst, Send, StoreLive;
      Sound(flash);
      ghost var k := Value(flash);
      StepConsistent(k, KeyDown(report, acks, channel));
      if !connected { return false; }
      SendSound(k, Burst(acks, Attempts(k)).0, report);
      ok := SendBurst(flash, report, acks, if linkUp then 3 else 1);
      linkUp := ok;
      Retuned(flash, channel);
      if live.counter % 128 == 0 { SaveLive(flash); }
    }

    /** A press, then the release of all keys, whether the press was heard or not. */
    method Strike(ghost flash: Storage.Nvmc, report: Report, press: seq<bool>, release: seq<bool>) returns (ok: bool)
      requires flash.Valid()
      modifies this`live, this`sent
      ensures Value(flash) == Struck(old(Value(flash)), Stroke(report, press, release))
      ensures ok == Burst(press, RETRY_LIMIT).1
    {
      hide Burst, Send;
      ok := SendBurst(flash, report, press, RETRY_LIMIT);
      var _ := SendBurst(flash, Report(0, [0, 0, 0, 0, 0, 0]), release, RETRY_LIMIT);
    }

    method OnKeyStroke(flash: Storage.Nvmc, stroke: Stroke, channel: bv8) returns (ok: bool)
      requires Valid(flash)
      modifies this, flash
      ensures Valid(flash) && Value(flash) == Step(old(Value(flash)), KeyStroke(stroke, channel))
      ensures ok == (old(connected) && Burst(stroke.press, RETRY_LIMIT).1)
    {
      hide Consistent, TidyFlash, Contents, Burst, Send, StoreLive, Struck;
      Sound(flash);
      ghost var k := Value(flash);
      StepConsistent(k, KeyStroke(stroke, channel));
      if !connected { return false; }
      StruckSound(k, stroke);
      ok := Strike(flash, stroke.report, stroke.press, stroke.release);
      Retuned(flash, channel);
      SaveLive(flash);
    }

    method OnAllUp(flash: Storage.Nvmc, acks: seq<bool>, channel: bv8)
      requires Valid(flash)
      modifies this
      ensures Valid(flash) && Value(flash) == Step(old(Value(flash)), AllUp(acks, channel))
    {
      hide Consistent, TidyFlash, Contents, Burst, Send, Struck, Typed, Strokes;
      Sound(flash);
      StepConsistent(Value(flash), AllUp(acks, channel));
      if connected {
        var _ := SendBurst(flash, Report(0, [0, 0, 0, 0, 0, 0]), acks, RETRY_LIMIT);
        Retuned(flash, channel);
      }
    }

    method TypeChar(ghost flash: Storage.Nvmc, c: Char) returns (ok: bool)
      requires flash.Valid() && c.key.Some?
      modifies this`live, this`sent
      ensures Value(flash)
           == Struck(old(Value(flash)), Stroke(CharReport(c.key.value.0, c.key.value.1), c.press, c.release))
      ensures ok == Burst(c.press, RETRY_LIMIT).1
    {
      hide Burst, Struck;
      var (scancode, shift) := c.key.value;
      ok := Strike(flash, Report(if shift then 0x02 else 0x00, [scancode, 0, 0, 0, 0, 0]), c.press, c.release);
    }

    /** How many characters were sent, and how many of their presses were heard. */
    method OnTypeText(flash: Storage.Nvmc, text: seq<Char>, channel: bv8) returns (okCount: nat, total: nat)
      requires Valid(flash)
      modifies this, flash
      ensures Valid(flash) && Value(flash) == Step(old(Value(flash)), TypeText(text, channel))
      ensures old(connected) ==> total == |Strokes(text)| && okCount == |Pressed(Strokes(text))|
    {
      hide Consistent, TidyFlash, Contents, Burst, Struck, StoreLive, Typed, Strokes, Pressed;
      Sound(flash);
      ghost var k := Value(flash);
      StepConsistent(k, TypeText(text, channel));
      okCount, total := 0, 0;
      if !connected { return; }
      TypedSound(k, Strokes(text));
      NothingTyped(k, text);
      for i := 0 to |text|
        invariant flash.Valid() && flash.cells == old(flash.cells)
        invariant Value(flash) == Typed(k, Strokes(text[..i]))
        invariant total == |Strokes(text[..i])| && okCount == |Pressed(Strokes(text[..i]))|
      {
        CharTyped(k, text, i);
        if text[i].key.Some? {
          total := total + 1;
          var ok := TypeChar(flash, text[i]);
          if ok { okCount := okCount + 1; }
        }
      }
      assert text[..|text|] == text;
      Retuned(flash, channel);
      SaveLive(flash);
    }
  }

  // ---- Whole lives ----

  /** One event; a boot leaves nothing of the old worker but the flash and what went on air. */
  method Perform(worker: Worker, flash: Storage.Nvmc, e: Slots.Event) returns (after: Worker)
    requires worker.Valid(flash) && EventOk(e)
    modifies worker, flash
    ensures after.Valid(flash) && after.Value(flash) == Step(old(worker.Value(flash)), e)
    ensures after == worker || fresh(after)
  {
    hide Consistent, TidyFlash, Contents, Step;
    after := worker;
    match e
    case Boot => after := new Worker(flash, worker.Value(flash));
    case PairInto(slot, radioReady, outcome, scratch, readyAgain) =>
      worker.OnPairInto(flash, slot, radioReady, outcome, scratch, readyAgain);
    case Connect(radioReady, answered, channel) => worker.OnConnect(flash, radioReady, answered, channel);
    case Sleep => worker.OnSleep(flash);
    case Delete(slot) => worker.OnDelete(flash, slot);
    case Switch(target, radioReady) => worker.OnSwitch(flash, target, radioReady);
    case KeyDown(report, acks, channel) => var _ := worker.OnKeyDownReport(flash, report, acks, channel);
    case KeyStroke(stroke, channel) => var _ := worker.OnKeyStroke(flash, stroke, channel);
    case TypeText(text, channel) => var _, _ := worker.OnTypeText(flash, text, channel);
    case AllUp(acks, channel) => worker.OnAllUp(flash, acks, channel);
    case Poll(heard, channel, powerWarning) => worker.OnPoll(flash, heard, channel, powerWarning);
  }

  /** From an erased flash through any events: the code on the flash is where the slot machine
      is, its state is consistent, and after a safe life the counters of every slot ascend. */
  method Live(flash: Storage.Nvmc, events: seq<Slots.Event>) returns (worker: Worker)
    requires flash.Valid() && Erased(flash.cells) && EventsOk(events)
    modifies flash
    ensures worker.Valid(flash) && worker.Value(flash) == Run(NEW_KEYBOARD, [Boot] + events)
    ensures Counters.OrdinaryRun(NEW_KEYBOARD, [Boot] + events) && Counters.SafeRun(NEW_KEYBOARD, [Boot] + events) ==>
      forall slot :: Counters.Ascending(History(worker.Value(flash), slot))
  {
    hide Consistent, TidyFlash, Contents, Step, Erased, EventOk, Counters.OrdinaryRun, Counters.SafeRun;
    ErasedHoldsNothing(flash.cells);
    NewKeyboardConsistent();
    worker := new Worker(flash, NEW_KEYBOARD);
    FirstBoot();
    assert [Boot] + events[..0] == [Boot];
    for i := 0 to |events|
      invariant worker.Valid(flash) && fresh(worker)
      invariant worker.Value(flash) == Run(NEW_KEYBOARD, [Boot] + events[..i])
    {
      OneMoreEvent(events, i);
      worker := Perform(worker, flash, events[i]);
    }
    assert events[..|events|] == events;
    if Counters.OrdinaryRun(NEW_KEYBOARD, [Boot] + events) && Counters.SafeRun(NEW_KEYBOARD, [Boot] + events) {
      Counters.NewKeyboardOk();
      forall slot ensures Counters.Ascending(History(worker.Value(flash), slot)) {
        Counters.CountersAscend(NEW_KEYBOARD, [Boot] + events, slot);
      }
    }
  }

  lemma FirstBoot()
    ensures Run(NEW_KEYBOARD, [Boot]) == Step(NEW_KEYBOARD, Boot)
  {
    hide Step;
    assert [Boot][..0] == [];
    assert Run(NEW_KEYBOARD, []) == NEW_KEYBOARD;
  }

  lemma OneMoreEvent(events: seq<Slots.Event>, i: nat)
    requires i < |events|
    ensures Run(NEW_KEYBOARD, [Boot] + events[..i + 1]) == Step(Run(NEW_KEYBOARD, [Boot] + events[..i]), events[i])
  {
    hide Step;
    var now := [Boot] + events[..i + 1];
    assert now[..|now| - 1] == [Boot] + events[..i];
  }

  lemma LoadsContents(cells: Storage.Cells)
    requires |cells| == Storage.FLASH_SIZE
    ensures forall slot :: 0 <= slot < Storage.MAX_PROFILES ==> Storage.Loaded(cells, slot) == Lookup(Contents(cells), slot)
    ensures Storage.LoadedSlot(cells) == Contents(cells).active
  {}

  function Later(i: nat, burst: (nat, bool)): (nat, bool) { (i + burst.0, burst.1) }

  lemma GrowNothing(sent: map<nat, seq<Sent>>, slot: nat)
    ensures Grow(sent, slot, []) == sent
  {}

  function Drop(acks: seq<bool>, i: nat): seq<bool> {
    if i <= |acks| then acks[i..] else []
  }

  lemma DropNothing(acks: seq<bool>)
    ensures Drop(acks, 0) == acks
  {}

  lemma BurstUnfold(acks: seq<bool>, i: nat, n: nat)
    requires n > 0
    ensures var rest := Burst(Drop(acks, i + 1), n - 1);
      Burst(Drop(acks, i), n) == if i < |acks| && acks[i] then (1, true) else (rest.0 + 1, rest.1)
  {
    var rest := Drop(acks, i);
    assert Drop(acks, i + 1) == if |rest| > 0 then rest[1..] else [];
  }

  lemma BurstEnds(acks: seq<bool>, i: nat, limit: nat)
    requires i <= limit
    ensures i == limit ==> Burst(Drop(acks, i), limit - i) == (0, false)
  {}

  lemma NothingSent(c: nat, report: Report)
    ensures CounterAfter(c, 0) == c && SendsFrom(c, 0, report) == []
  {}

  lemma {:induction false} OneMoreSend(c: nat, n: nat, report: Report)
    ensures CounterAfter(c, n + 1) == NextCounter(CounterAfter(c, n))
    ensures SendsFrom(c, n + 1, report) == SendsFrom(c, n, report) + [Sent(CounterAfter(c, n), report)]
    decreases n
  {
    if n > 0 { OneMoreSend(NextCounter(c), n - 1, report); }
  }

  /** What any sending leaves: state and store stay, and the live profile is one that fits. */
  predicate StillSound(k: Keyboard, r: Keyboard) {
    r.live.Valid() && r.paired == k.paired && r.activeSlot == k.activeSlot && r.store == k.store
  }

  lemma SendSound(k: Keyboard, n: nat, report: Report)
    requires Consistent(k)
    ensures StillSound(k, Send(k, n, report))
  {
    SendConsistent(k, n, report);
  }

  lemma StruckSound(k: Keyboard, stroke: Stroke)
    requires Consistent(k)
    ensures StillSound(k, Struck(k, stroke))
  {
    hide Struck;
    StruckConsistent(k, stroke);
    StruckAside(k, stroke);
  }

  lemma TypedSound(k: Keyboard, strokes: seq<Stroke>)
    requires Consistent(k)
    ensures StillSound(k, Typed(k, strokes))
  {
    hide Typed;
    TypedConsistent(k, strokes);
    TypedAside(k, strokes);
  }

  /** The strokes whose press was heard. */
  function Pressed(strokes: seq<Stroke>): seq<Stroke>
    decreases |strokes|
  {
    if strokes == [] then [] else
      var s := strokes[|strokes| - 1];
      Pressed(strokes[..|strokes| - 1]) + if Burst(s.press, RETRY_LIMIT).1 then [s] else []
  }

  lemma NothingTyped(k: Keyboard, text: seq<Char>)
    ensures Strokes(text[..0]) == [] && Typed(k, Strokes(text[..0])) == k && Pressed(Strokes(text[..0])) == []
  {}

  lemma CharTyped(k: Keyboard, text: seq<Char>, i: nat)
    requires i < |text|
    ensures var was, now, c := Strokes(text[..i]), Strokes(text[..i + 1]), text[i];
      if c.key == None then now == was else
        var stroke := Stroke(CharReport(c.key.value.0, c.key.value.1), c.press, c.release);
        && |now| == |was| + 1
        && Typed(k, now) == Struck(Typed(k, was), stroke)
        && |Pressed(now)| == |Pressed(was)| + if Burst(c.press, RETRY_LIMIT).1 then 1 else 0
  {
    hide Struck, Burst;
    assert text[..i + 1][..i] == text[..i];
    var was, now := Strokes(text[..i]), Strokes(text[..i + 1]);
    if text[i].key.Some? { assert now[..|was|] == was; }
  }
}
