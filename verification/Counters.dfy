/** Keystroke counters never repeat or go backward under one pairing, across commands,
    switches and power losses, and the exact places where they could. */
module Counters {
  import opened Text
  import opened Storage
  import opened ProfileMap
  import opened Slots

  predicate Ascending(s: seq<Sent>) { forall i, j :: 0 <= i < j < |s| ==> s[i].counter < s[j].counter }

  predicate AllBelow(s: seq<Sent>, bound: nat) { forall i :: 0 <= i < |s| ==> s[i].counter < bound }

  /** The counter the next send in a slot will use, as far as the slot can send again. */
  function NextIn(k: Keyboard, slot: nat): Option<nat> {
    if k.paired && slot == k.activeSlot then Some(k.live.counter)
    else match Lookup(k.store, slot) case Some(p) => Some(p.counter) case None => None
  }

  /** Every slot's counters went up, and its next one is above them all. */
  predicate Fresh(k: Keyboard) {
    forall s :: s in k.sent ==>
      Ascending(k.sent[s]) && (NextIn(k, s).Some? ==> AllBelow(k.sent[s], NextIn(k, s).value))
  }

  function Sends(k: Keyboard, e: Event): nat {
    if !k.connected then 0 else
    match e
    case KeyDown(_, acks, _) => Burst(acks, Attempts(k)).0
    case KeyStroke(stroke, _) => StrokeCount(stroke)
    case TypeText(text, _) => TextCount(Strokes(text))
    case AllUp(acks, _) => Burst(acks, RETRY_LIMIT).0
    case _ => 0
  }

  /** The slot that booting would restore. */
  function BootSlot(k: Keyboard): nat {
    if k.store.active.Some? then k.store.active.value else 0
  }

  /** No counter passes 2^32 in this step. */
  predicate NoWrap(k: Keyboard, e: Event) {
    && k.live.counter + Sends(k, e) < COUNTER_WRAP
    && (e.Boot? && BootSlot(k) in k.store.profiles ==>
          k.store.profiles[BootSlot(k)].counter + BOOT_MARGIN < COUNTER_WRAP)
  }

  /** How many multiples of 128 lie above a and not above b. */
  function MultiplesPassed(a: nat, b: nat): int { b / 128 - a / 128 }

  /** What is stored for the active slot never runs ahead of the live counter. */
  predicate StoredBehind(k: Keyboard) {
    k.paired && k.activeSlot in k.store.profiles ==>
      k.store.profiles[k.activeSlot].counter <= k.live.counter
  }

  /** The live counter has left the stored one only by sending. */
  predicate Tight(k: Keyboard) {
    k.paired && k.activeSlot in k.store.profiles && k.store.profiles[k.activeSlot].counter < k.live.counter ==>
      var h := History(k, k.activeSlot); h != [] && h[|h| - 1].counter == k.live.counter - 1
  }

  predicate Tracked(k: Keyboard) { Consistent(k) && StoredBehind(k) && Tight(k) }

  /** An event that could happen to any keyboard, short of a counter passing 2^32. */
  predicate Ordinary(k: Keyboard, e: Event) { EventOk(e) && NoWrap(k, e) }

  /** Power is lost with the live counter at most the margin ahead of the stored one. */
  predicate SafeToLosePower(k: Keyboard) {
    k.paired && k.activeSlot in k.store.profiles ==>
      k.live.counter <= k.store.profiles[k.activeSlot].counter + BOOT_MARGIN
  }

  /** The live pairing is left behind by pairing into another slot. */
  predicate Departs(k: Keyboard, e: Event) {
    e.PairInto? && e.slot.Some? && PairsInto(k, e, e.slot.value) && k.paired && e.slot.value != k.activeSlot
  }

  /** What a caller can look up before the event, in the live and the stored counter. */
  predicate Safe(k: Keyboard, e: Event) {
    && (e.Boot? ==> SafeToLosePower(k))
    && (Departs(k, e) && k.activeSlot in k.store.profiles ==>
          k.store.profiles[k.activeSlot].counter == k.live.counter)
  }

  // ---- One burst of sends ----

  lemma {:induction false} SendsFromPlain(c: nat, n: nat, report: Report)
    requires c + n < COUNTER_WRAP
    ensures CounterAfter(c, n) == c + n
    ensures forall i :: 0 <= i < n ==> SendsFrom(c, n, report)[i] == Sent(c + i, report)
    decreases n
  {
    if n > 0 { SendsFromPlain(c + 1, n - 1, report); }
  }

  lemma SendFresh(k: Keyboard, n: nat, report: Report)
    requires Consistent(k) && Fresh(k) && k.paired && k.live.counter + n < COUNTER_WRAP
    ensures var r := Send(k, n, report); Fresh(r) && r.live.counter == k.live.counter + n
  {
    var r, c := Send(k, n, report), k.live.counter;
    SendsFromPlain(c, n, report);
    var a := k.activeSlot;
    var before, more := History(k, a), SendsFrom(c, n, report);
    assert Ascending(before) && AllBelow(before, c) by { assert NextIn(k, a) == Some(c); }
    assert Ascending(before + more) && AllBelow(before + more, c + n);
    forall s | s in r.sent && s != a
      ensures Ascending(r.sent[s]) && (NextIn(r, s).Some? ==> AllBelow(r.sent[s], NextIn(r, s).value))
    {
      assert NextIn(r, s) == NextIn(k, s);
    }
  }

  /** Changes that leave the counters alone keep them fresh. */
  lemma SameNextFresh(k: Keyboard, r: Keyboard)
    requires Fresh(k) && r.sent == k.sent
    requires forall s :: s in k.sent && NextIn(r, s).Some? ==>
      NextIn(k, s).Some? && NextIn(k, s).value <= NextIn(r, s).value
    ensures Fresh(r)
  {}

  lemma StoreLiveFresh(k: Keyboard)
    requires Consistent(k) && Fresh(k)
    ensures Fresh(StoreLive(k))
  {
    SameNextFresh(k, StoreLive(k));
  }

  lemma SwitchFresh(k: Keyboard, slot: nat)
    requires Consistent(k) && Fresh(k) && slot < MAX_PROFILES
    ensures Fresh(SwitchTo(k, slot))
  {
    hide SwitchTo, NextIn, Fresh;
    SwitchKeepsNext(k, slot);
    SameNextFresh(k, SwitchTo(k, slot));
  }

  /** Switching stores the live counter, so every slot goes on where it was. */
  lemma SwitchKeepsNext(k: Keyboard, slot: nat)
    requires Consistent(k) && slot < MAX_PROFILES
    ensures SwitchTo(k, slot).sent == k.sent
    ensures forall s :: NextIn(SwitchTo(k, slot), s) == NextIn(k, s)
  {}

  /** Three unsaved multiples of 128 hide at most 511 counters, so the margin covers them; a
      fourth need not be covered. */
  lemma MarginCovers(stored: nat, live: nat)
    requires stored <= live
    ensures MultiplesPassed(stored, live) <= 3 ==> live <= stored + 511 < stored + BOOT_MARGIN
    ensures MultiplesPassed(stored, stored + BOOT_MARGIN + 1) >= 4
  {}

  /** A counter not stored has been used, so it bounds what was sent from below. */
  lemma TightHistory(k: Keyboard, bound: nat)
    requires Tracked(k) && Fresh(k) && k.paired && k.store.profiles[k.activeSlot].counter <= bound
    ensures AllBelow(History(k, k.activeSlot), bound) <==> k.live.counter <= bound
  {
    var h := History(k, k.activeSlot);
    if k.activeSlot in k.sent {
      assert NextIn(k, k.activeSlot) == Some(k.live.counter);
      assert AllBelow(h, k.live.counter);
    }
    if k.live.counter > bound { assert h[|h| - 1].counter == k.live.counter - 1; }
  }

  /** Fresh after booting is a matter of the restored slot alone. */
  lemma BootMeans(k: Keyboard)
    requires Consistent(k) && Fresh(k) && k.paired
    requires k.store.profiles[k.activeSlot].counter + BOOT_MARGIN < COUNTER_WRAP
    ensures Fresh(OnBoot(k)) <==>
      AllBelow(History(k, k.activeSlot), k.store.profiles[k.activeSlot].counter + BOOT_MARGIN)
  {
    var r, a := OnBoot(k), k.activeSlot;
    assert NextIn(r, a) == Some(k.store.profiles[a].counter + BOOT_MARGIN);
    forall s | s != a ensures NextIn(r, s) == NextIn(k, s) {}
    if AllBelow(History(k, a), k.store.profiles[a].counter + BOOT_MARGIN) {
      forall s | s in r.sent
        ensures Ascending(r.sent[s]) && (NextIn(r, s).Some? ==> AllBelow(r.sent[s], NextIn(r, s).value))
      {}
    }
  }

  /** Booting resumes above every counter used, exactly when the live counter was at most
      the margin of 512 ahead of the stored one. */
  lemma BootFreshExactly(k: Keyboard)
    requires Tracked(k) && Fresh(k) && k.paired
    requires k.store.profiles[k.activeSlot].counter + BOOT_MARGIN < COUNTER_WRAP
    ensures Fresh(OnBoot(k)) <==> k.live.counter <= k.store.profiles[k.activeSlot].counter + BOOT_MARGIN
  {
    hide Fresh, OnBoot, History, Tight, StoredBehind;
    BootMeans(k);
    TightHistory(k, k.store.profiles[k.activeSlot].counter + BOOT_MARGIN);
  }

  lemma BootStep(k: Keyboard)
    requires Tracked(k) && Fresh(k) && NoWrap(k, Boot)
    ensures Fresh(OnBoot(k)) <==> SafeToLosePower(k)
  {
    hide Fresh, OnBoot;
    if k.paired { BootFreshExactly(k); } else { UnpairedBootNext(k); SameNextFresh(k, OnBoot(k)); }
  }

  lemma UnpairedBootNext(k: Keyboard)
    requires Consistent(k) && !k.paired && NoWrap(k, Boot)
    ensures var r := OnBoot(k);
      && r.sent == k.sent
      && forall s :: NextIn(r, s).Some? ==> NextIn(k, s).Some? && NextIn(k, s).value <= NextIn(r, s).value
  {}

  /** Pairing keeps every other slot where it was, save that the one left behind goes back to
      what is stored for it. */
  lemma PairedMeans(k: Keyboard, e: Event)
    requires Consistent(k) && Fresh(k) && EventOk(e) && e.PairInto? && e.radioReady && e.outcome.Some?
    ensures Fresh(Step(k, e)) <==>
      (Departs(k, e) ==> AllBelow(History(k, k.activeSlot), k.store.profiles[k.activeSlot].counter))
  {
    var r := Step(k, e);
    var slot := if e.slot.Some? then e.slot.value else k.activeSlot;
    forall s | s != slot && !(k.paired && s == k.activeSlot) ensures NextIn(r, s) == NextIn(k, s) {}
    if Departs(k, e) { assert NextIn(r, k.activeSlot) == Some(k.store.profiles[k.activeSlot].counter); }
    if Departs(k, e) ==> AllBelow(History(k, k.activeSlot), k.store.profiles[k.activeSlot].counter) {
      forall s | s in r.sent
        ensures Ascending(r.sent[s]) && (NextIn(r, s).Some? ==> AllBelow(r.sent[s], NextIn(r, s).value))
      {
        if s != slot { assert r.sent[s] == k.sent[s]; }
      }
    }
  }

  lemma FailedPairNext(k: Keyboard, e: Event)
    requires Consistent(k) && EventOk(e) && e.PairInto? && !(e.radioReady && e.outcome.Some?)
    ensures Step(k, e).sent == k.sent && forall s :: NextIn(Step(k, e), s) == NextIn(k, s)
  {}

  lemma PairStep(k: Keyboard, e: Event)
    requires Tracked(k) && Fresh(k) && EventOk(e) && e.PairInto?
    ensures Fresh(Step(k, e)) <==> Safe(k, e)
  {
    hide Fresh, Step, History, Tight, StoredBehind, NextIn;
    if e.radioReady && e.outcome.Some? {
      PairedMeans(k, e);
      if Departs(k, e) { TightHistory(k, k.store.profiles[k.activeSlot].counter); StoredNow(k); }
    } else {
      FailedPairNext(k, e);
      SameNextFresh(k, Step(k, e));
    }
  }

  lemma StoredNow(k: Keyboard)
    requires Tracked(k) && k.paired
    ensures k.activeSlot in k.store.profiles && k.store.profiles[k.activeSlot].counter <= k.live.counter
  {}

  lemma TunedFresh(k: Keyboard, channel: bv8)
    requires Consistent(k) && Fresh(k)
    ensures var r := OnChannel(k, channel);
      Fresh(r) && Fresh(StoreLive(r)) && Fresh(r.(linkUp := true)) && Fresh(r.(linkUp := false))
  {
    var r := OnChannel(k, channel);
    SameNextFresh(k, r);
    StoreLiveFresh(r);
    SameNextFresh(r, r.(linkUp := true));
    SameNextFresh(r, r.(linkUp := false));
  }

  lemma StruckFresh(k: Keyboard, stroke: Stroke)
    requires Consistent(k) && Fresh(k) && k.paired && k.live.counter + StrokeCount(stroke) < COUNTER_WRAP
    ensures var r := Struck(k, stroke); Fresh(r) && r.live.counter == k.live.counter + StrokeCount(stroke)
  {
    hide Send, Consistent, Fresh;
    var n := Burst(stroke.press, RETRY_LIMIT).0;
    SendConsistent(k, n, stroke.report);
    SendFresh(k, n, stroke.report);
    SendKeeps(k, n, stroke.report);
    SendFresh(Send(k, n, stroke.report), Burst(stroke.release, RETRY_LIMIT).0, ALL_UP);
  }

  lemma SendKeeps(k: Keyboard, n: nat, report: Report)
    ensures SentAside(k, Send(k, n, report))
  {}

  lemma {:induction false} TypedFresh(k: Keyboard, strokes: seq<Stroke>)
    requires Consistent(k) && Fresh(k) && k.paired && k.live.counter + TextCount(strokes) < COUNTER_WRAP
    ensures var r := Typed(k, strokes); Fresh(r) && r.live.counter == k.live.counter + TextCount(strokes)
    decreases |strokes|
  {
    hide Struck, Consistent, Fresh, StrokeCount;
    if strokes != [] {
      var init := strokes[..|strokes| - 1];
      TypedFresh(k, init);
      TypedConsistent(k, init);
      TypedAside(k, init);
      StruckFresh(Typed(k, init), strokes[|strokes| - 1]);
    }
  }

  /** From a keyboard whose counters are fresh, one event keeps them fresh exactly when it is
      safe: only losing power and leaving a slot by pairing elsewhere can be unsafe. */
  lemma StepFreshExactly(k: Keyboard, e: Event)
    requires Tracked(k) && Fresh(k) && Ordinary(k, e)
    ensures Fresh(Step(k, e)) <==> Safe(k, e)
  {
    hide Send, SwitchTo, OnBoot, OnPair, OnKeyDown, StoreLive, Fresh;
    match e
    case Boot => BootStep(k);
    case PairInto(_, _, _, _, _) => PairStep(k, e);
    case Switch(slot, radioReady) => SwitchStepFresh(k, slot, radioReady);
    case KeyDown(report, acks, channel) => KeyDownFresh(k, report, acks, channel);
    case KeyStroke(_, _) => SendStepFresh(k, e);
    case TypeText(_, _) => SendStepFresh(k, e);
    case AllUp(_, _) => SendStepFresh(k, e);
    case Poll(heard, channel, _) => PollFresh(k, heard, channel);
    case _ => QuietFresh(k, e);
  }

  lemma SwitchStepFresh(k: Keyboard, slot: nat, radioReady: bool)
    requires Consistent(k) && Fresh(k) && slot < MAX_PROFILES
    ensures Fresh(Step(k, Switch(slot, radioReady)))
  {
    hide SwitchTo;
    SwitchFresh(k, slot);
    SameNextFresh(SwitchTo(k, slot), Step(k, Switch(slot, radioReady)));
  }

  lemma QuietFresh(k: Keyboard, e: Event)
    requires Consistent(k) && Fresh(k) && EventOk(e) && (e.Connect? || e.Sleep? || e.Delete?)
    ensures Fresh(Step(k, e))
  {
    hide Fresh, NextIn, Step;
    if e.Delete? { DeleteNext(k, e.slot); } else { QuietNext(k, e); }
    SameNextFresh(k, Step(k, e));
  }

  lemma QuietNext(k: Keyboard, e: Event)
    requires Consistent(k) && (e.Connect? || e.Sleep?)
    ensures Step(k, e).sent == k.sent && forall s :: NextIn(Step(k, e), s) == NextIn(k, s)
  {}

  lemma DeleteNext(k: Keyboard, slot: Option<nat>)
    requires Consistent(k) && EventOk(Delete(slot))
    ensures var r := Step(k, Delete(slot));
      r.sent == k.sent && forall s :: NextIn(r, s).Some? ==> NextIn(r, s) == NextIn(k, s)
  {}

  lemma SendStepFresh(k: Keyboard, e: Event)
    requires Consistent(k) && Fresh(k) && NoWrap(k, e) && (e.KeyStroke? || e.TypeText? || e.AllUp?)
    ensures Fresh(Step(k, e))
  {
    hide Send, Burst, Struck, Typed, Strokes, Fresh, StoreLive, OnChannel;
    if k.connected {
      match e
      case KeyStroke(stroke, channel) =>
        StruckFresh(k, stroke);
        StruckConsistent(k, stroke);
        TunedFresh(Struck(k, stroke), channel);
      case TypeText(text, channel) =>
        TypedFresh(k, Strokes(text));
        TypedConsistent(k, Strokes(text));
        TunedFresh(Typed(k, Strokes(text)), channel);
      case AllUp(acks, channel) =>
        SendFresh(k, Burst(acks, RETRY_LIMIT).0, ALL_UP);
        SendConsistent(k, Burst(acks, RETRY_LIMIT).0, ALL_UP);
        TunedFresh(Send(k, Burst(acks, RETRY_LIMIT).0, ALL_UP), channel);
    }
  }

  lemma KeyDownFresh(k: Keyboard, report: Report, acks: seq<bool>, channel: bv8)
    requires Consistent(k) && Fresh(k) && NoWrap(k, KeyDown(report, acks, channel))
    ensures Fresh(OnKeyDown(k, report, acks, channel))
  {
    hide Send, Burst;
    if !k.connected { return; }
    var (n, ok) := Burst(acks, Attempts(k));
    SendFresh(k, n, report);
    SendConsistent(k, n, report);
    TunedFresh(Send(k, n, report), channel);
    StoreLiveFresh(OnChannel(Send(k, n, report), channel).(linkUp := ok));
  }

  lemma PollFresh(k: Keyboard, heard: Option<bool>, channel: bv8)
    requires Consistent(k) && Fresh(k)
    ensures Fresh(Polled(k, heard, channel)) && Fresh(StoreLive(Polled(k, heard, channel)))
  {
    var polled := Polled(k, heard, channel);
    SameNextFresh(k, polled);
    StoreLiveFresh(polled);
  }

  // ---- Live and stored counter ----

  lemma TunedTracked(k: Keyboard, channel: bv8)
    requires Tracked(k)
    ensures var r := OnChannel(k, channel); Tracked(r) && Tracked(StoreLive(r))
    ensures var r := OnChannel(k, channel);
      forall up :: Tracked(r.(linkUp := up)) && Tracked(StoreLive(r.(linkUp := up)))
  {
    hide StoreLive, Consistent;
    TunedConsistent(k, channel);
    var r := OnChannel(k, channel);
    StoreTracked(r);
    forall up ensures Tracked(r.(linkUp := up)) && Tracked(StoreLive(r.(linkUp := up))) {
      LinkTracked(r, up);
      StoreTracked(r.(linkUp := up));
    }
  }

  lemma SendTracked(k: Keyboard, n: nat, report: Report)
    requires Tracked(k) && k.paired && k.live.counter + n < COUNTER_WRAP
    ensures var r := Send(k, n, report); Tracked(r) && r.paired && r.live.counter == k.live.counter + n
  {
    hide Send, Consistent;
    SendConsistent(k, n, report);
    SendTight(k, n, report);
  }

  lemma StruckTracked(k: Keyboard, stroke: Stroke)
    requires Tracked(k) && k.paired && k.live.counter + StrokeCount(stroke) < COUNTER_WRAP
    ensures var r := Struck(k, stroke);
      Tracked(r) && r.paired && r.live.counter == k.live.counter + StrokeCount(stroke)
  {
    hide Send, Tracked;
    SendTracked(k, Burst(stroke.press, RETRY_LIMIT).0, stroke.report);
    SendTracked(Send(k, Burst(stroke.press, RETRY_LIMIT).0, stroke.report), Burst(stroke.release, RETRY_LIMIT).0, ALL_UP);
  }

  lemma {:induction false} TypedTracked(k: Keyboard, strokes: seq<Stroke>)
    requires Tracked(k) && k.paired && k.live.counter + TextCount(strokes) < COUNTER_WRAP
    ensures var r := Typed(k, strokes);
      Tracked(r) && r.paired && r.live.counter == k.live.counter + TextCount(strokes)
    decreases |strokes|
  {
    hide Struck, Tracked, StrokeCount;
    if strokes != [] {
      TypedTracked(k, strokes[..|strokes| - 1]);
      StruckTracked(Typed(k, strokes[..|strokes| - 1]), strokes[|strokes| - 1]);
    }
  }

  lemma LinkTracked(k: Keyboard, up: bool)
    requires Tracked(k)
    ensures Tracked(k.(linkUp := up))
  {}

  lemma StoreTracked(k: Keyboard)
    requires Tracked(k)
    ensures Tracked(StoreLive(k))
  {
    StoreLiveConsistent(k);
  }

  lemma SendTight(k: Keyboard, n: nat, report: Report)
    requires StoredBehind(k) && Tight(k) && k.paired && k.live.counter + n < COUNTER_WRAP
    ensures var r := Send(k, n, report);
      StoredBehind(r) && Tight(r) && r.paired && r.live.counter == k.live.counter + n
  {
    SendsFromPlain(k.live.counter, n, report);
    var h := History(Send(k, n, report), k.activeSlot);
    if n > 0 {
      assert h == History(k, k.activeSlot) + SendsFrom(k.live.counter, n, report);
      assert h[|h| - 1] == SendsFrom(k.live.counter, n, report)[n - 1];
    }
  }

  lemma QuietTracked(k: Keyboard, e: Event)
    requires Tracked(k) && Ordinary(k, e) && (e.Boot? || e.PairInto? || e.Delete? || e.Switch?)
    ensures StoredBehind(Step(k, e)) && Tight(Step(k, e))
  {
    hide CounterAfter, SendsFrom, Burst, Struck, Typed, Strokes;
  }

  lemma PollTracked(k: Keyboard, heard: Option<bool>, channel: bv8)
    requires Tracked(k)
    ensures Tracked(Polled(k, heard, channel)) && Tracked(StoreLive(Polled(k, heard, channel)))
  {
    PollConsistent(k, heard, channel);
  }

  lemma RestTracked(k: Keyboard, e: Event)
    requires Tracked(k) && (e.Connect? || e.Sleep?)
    ensures StoredBehind(Step(k, e)) && Tight(Step(k, e))
  {}

  /** Every ordinary event keeps live and stored counter in step, safe or not. */
  lemma StepTracked(k: Keyboard, e: Event)
    requires Tracked(k) && Ordinary(k, e)
    ensures Tracked(Step(k, e))
  {
    hide Send, SwitchTo, OnBoot, OnPair, StoreLive, Burst, Struck, Typed, Strokes, Consistent, StoredBehind, Tight, Polled;
    StepConsistent(k, e);
    match e
    case KeyDown(report, acks, channel) =>
      if k.connected {
        ConnectedPaired(k);
        SendTracked(k, Burst(acks, Attempts(k)).0, report);
        TunedTracked(Send(k, Burst(acks, Attempts(k)).0, report), channel);
      }
    case KeyStroke(stroke, channel) =>
      if k.connected { ConnectedPaired(k); StruckTracked(k, stroke); TunedTracked(Struck(k, stroke), channel); }
    case TypeText(text, channel) =>
      if k.connected {
        ConnectedPaired(k);
        TypedTracked(k, Strokes(text));
        TunedTracked(Typed(k, Strokes(text)), channel);
      }
    case AllUp(acks, channel) =>
      if k.connected {
        ConnectedPaired(k);
        SendTracked(k, Burst(acks, RETRY_LIMIT).0, ALL_UP);
        TunedTracked(Send(k, Burst(acks, RETRY_LIMIT).0, ALL_UP), channel);
      }
    case Poll(heard, channel, _) => PollTracked(k, heard, channel);
    case Connect(_, _, _) => RestTracked(k, e);
    case Sleep => RestTracked(k, e);
    case _ => QuietTracked(k, e);
  }

  lemma ConnectedPaired(k: Keyboard)
    requires Consistent(k) && k.connected
    ensures k.paired
  {}

  // ---- Runs ----

  predicate OrdinaryRun(k: Keyboard, events: seq<Event>) {
    forall i :: 0 <= i < |events| ==> Ordinary(Run(k, events[..i]), events[i])
  }

  predicate SafeRun(k: Keyboard, events: seq<Event>) {
    forall i :: 0 <= i < |events| ==> Safe(Run(k, events[..i]), events[i])
  }

  predicate FreshRun(k: Keyboard, events: seq<Event>) {
    forall i :: 0 <= i <= |events| ==> Fresh(Run(k, events[..i]))
  }

  /** The same conditions on a run without its last event. */
  lemma OneLess(k: Keyboard, events: seq<Event>)
    requires events != []
    ensures var n := |events| - 1; var init := events[..n]; var m := Run(k, init);
      && (OrdinaryRun(k, events) <==> OrdinaryRun(k, init) && Ordinary(m, events[n]))
      && (SafeRun(k, events) <==> SafeRun(k, init) && Safe(m, events[n]))
      && (FreshRun(k, events) <==> FreshRun(k, init) && Fresh(Step(m, events[n])))
  {
    hide Ordinary, Safe, Fresh, Step;
    var n := |events| - 1;
    var init := events[..n];
    forall i | 0 <= i <= n ensures init[..i] == events[..i] {}
    assert events[..|events|] == events;
    assert init[..n] == init;
    if FreshRun(k, events) {
      forall i | 0 <= i <= n ensures Fresh(Run(k, init[..i])) { assert init[..i] == events[..i]; }
      assert Fresh(Run(k, events[..|events|]));
    }
    if FreshRun(k, init) && Fresh(Step(Run(k, init), events[n])) {
      forall i | 0 <= i <= |events| ensures Fresh(Run(k, events[..i])) {
        if i <= n { assert Fresh(Run(k, init[..i])); }
      }
    }
    if OrdinaryRun(k, events) {
      forall i | 0 <= i < n ensures Ordinary(Run(k, init[..i]), init[i]) { assert init[..i] == events[..i]; }
    }
    if SafeRun(k, events) {
      forall i | 0 <= i < n ensures Safe(Run(k, init[..i]), init[i]) { assert init[..i] == events[..i]; }
    }
  }

  lemma {:induction false} RunTracked(k: Keyboard, events: seq<Event>)
    requires Tracked(k) && OrdinaryRun(k, events)
    ensures Tracked(Run(k, events))
    decreases |events|
  {
    hide Tracked, Ordinary, Step;
    if events != [] {
      OneLess(k, events);
      RunTracked(k, events[..|events| - 1]);
      StepTracked(Run(k, events[..|events| - 1]), events[|events| - 1]);
    }
  }

  /** Over any run whatever, counters stay fresh all along exactly when power is only ever lost
      within the margin and no slot is left by pairing elsewhere before its counter is stored. */
  lemma {:induction false} RunFreshExactly(k: Keyboard, events: seq<Event>)
    requires Tracked(k) && Fresh(k) && OrdinaryRun(k, events)
    ensures FreshRun(k, events) <==> SafeRun(k, events)
    decreases |events|
  {
    hide Tracked, Fresh, Ordinary, Safe, Step, OrdinaryRun, SafeRun;
    if events == [] {
      EmptyRun(k);
    } else {
      var n := |events| - 1;
      var init := events[..n];
      OneLess(k, events);
      RunFreshExactly(k, init);
      if FreshRun(k, init) {
        RunTracked(k, init);
        assert init[..n] == init;
        StepFreshExactly(Run(k, init), events[n]);
      }
    }
  }

  lemma EmptyRun(k: Keyboard)
    requires Fresh(k)
    ensures FreshRun(k, []) && SafeRun(k, [])
  {}

  /** Across any mix of key commands, all-ups, sleeps, switches, pairings and safe power losses,
      every send of a pairing uses a counter above all earlier ones. */
  lemma CountersAscend(k: Keyboard, events: seq<Event>, slot: nat)
    requires Tracked(k) && Fresh(k) && OrdinaryRun(k, events) && SafeRun(k, events)
    ensures Ascending(History(Run(k, events), slot))
  {
    hide Tracked, OrdinaryRun, SafeRun;
    RunFreshExactly(k, events);
    assert events[..|events|] == events;
    assert Fresh(Run(k, events));
  }

  lemma NewKeyboardOk()
    ensures Tracked(NEW_KEYBOARD) && Fresh(NEW_KEYBOARD)
  {}

  // ---- Where freshness is lost ----

  /** Power lost beyond the margin: after booting, connecting and one press a counter goes out
      that is not above the earlier ones. */
  lemma UnsafeBootRepeats(k: Keyboard, report: Report, channel: bv8)
    requires Tracked(k) && Fresh(k) && k.paired && NoWrap(k, Boot) && !SafeToLosePower(k)
    ensures !Ascending(History(Run(k, [Boot, Connect(true, true, channel), KeyDown(report, [true], channel)]), k.activeSlot))
  {
    hide Step, Fresh, Tracked, History;
    var stored := k.store.profiles[k.activeSlot].counter;
    var k1 := Step(k, Boot);
    var k2 := Step(k1, Connect(true, true, channel));
    RunThree(k, Boot, Connect(true, true, channel), KeyDown(report, [true], channel));
    TightHistory(k, stored + BOOT_MARGIN);
    Rebooted(k, channel);
    OneMore(k2, k.activeSlot, stored + BOOT_MARGIN, History(k, k.activeSlot), report, channel);
  }

  lemma Rebooted(k: Keyboard, channel: bv8)
    requires Tracked(k) && k.paired && NoWrap(k, Boot)
    ensures var r := Step(Step(k, Boot), Connect(true, true, channel));
      && r.activeSlot == k.activeSlot && r.connected && History(r, k.activeSlot) == History(k, k.activeSlot)
      && r.live.counter == k.store.profiles[k.activeSlot].counter + BOOT_MARGIN
  {}

  /** n all-ups in a row that nobody hears, as damage on the UART can cause. */
  function Unheard(n: nat, channel: bv8): seq<Event> { seq(n, i => AllUp([], channel)) }

  lemma {:induction false} UnheardRun(k: Keyboard, n: nat, channel: bv8)
    requires Tracked(k) && k.connected && k.live.counter + 20 * n < COUNTER_WRAP
    ensures var r := Run(k, Unheard(n, channel));
      && OrdinaryRun(k, Unheard(n, channel)) && SafeRun(k, Unheard(n, channel))
      && r.connected && r.paired && r.activeSlot == k.activeSlot && r.store == k.store
      && r.live.counter == k.live.counter + 20 * n
    decreases n
  {
    hide Tracked, Ordinary, Safe, Step, OrdinaryRun, SafeRun;
    TrackedPaired(k);
    if n == 0 {
      assert Unheard(0, channel) == [];
      NoEvents(k);
    } else {
      var events := Unheard(n, channel);
      var init := events[..n - 1];
      assert init == Unheard(n - 1, channel);
      UnheardRun(k, n - 1, channel);
      OneLess(k, events);
      RunTracked(k, init);
      TrackedPaired(Run(k, init));
      UnheardStep(Run(k, init), channel);
    }
  }

  lemma NoEvents(k: Keyboard)
    ensures OrdinaryRun(k, []) && SafeRun(k, [])
  {}

  lemma TrackedPaired(k: Keyboard)
    requires Tracked(k)
    ensures Consistent(k) && (k.connected ==> k.paired)
  {}

  lemma UnheardStep(k: Keyboard, channel: bv8)
    requires Consistent(k) && k.connected && k.live.counter + 20 < COUNTER_WRAP
    ensures Ordinary(k, AllUp([], channel)) && Safe(k, AllUp([], channel))
    ensures var r := Step(k, AllUp([], channel));
      && r.connected && r.paired && r.activeSlot == k.activeSlot && r.store == k.store
      && r.live.counter == k.live.counter + 20
  {
    UnheardBurst(RETRY_LIMIT);
    SendsFromPlain(k.live.counter, 20, ALL_UP);
  }

  lemma {:induction false} UnheardBurst(limit: nat)
    ensures Burst([], limit) == (limit, false)
    decreases limit
  {
    if limit > 0 { UnheardBurst(limit - 1); }
  }

  /** The margin does not always suffice: 26 unheard all-ups after a save store nothing and use
      520 counters, and booting then resumes below the last of them. */
  lemma MarginOvershot(k: Keyboard, channel: bv8)
    requires Tracked(k) && Fresh(k) && k.connected
    requires k.store.profiles[k.activeSlot].counter == k.live.counter && k.live.counter + 1032 < COUNTER_WRAP
    ensures var r := Run(k, Unheard(26, channel));
      Fresh(r) && !Fresh(OnBoot(r))
  {
    hide Tracked, Fresh, OnBoot, FreshRun, OrdinaryRun, SafeRun;
    var events := Unheard(26, channel);
    UnheardRun(k, 26, channel);
    RunTracked(k, events);
    RunFreshExactly(k, events);
    LastFresh(k, events);
    BootFreshExactly(Run(k, events));
  }

  lemma LastFresh(k: Keyboard, events: seq<Event>)
    requires FreshRun(k, events)
    ensures Fresh(Run(k, events))
  {
    hide Fresh;
    assert events[..|events|] == events;
  }

  /** Pairing into another slot while the departing counter is not stored: going back and
      pressing one key sends a counter that is not above the earlier ones. */
  lemma UnstoredDepartureRepeats(k: Keyboard, e: Event, report: Report)
    requires Tracked(k) && Fresh(k) && EventOk(e) && Departs(k, e) && !Safe(k, e)
    ensures var r := Run(k, [e, Switch(k.activeSlot, true), KeyDown(report, [true], k.live.channel)]);
      !Ascending(History(r, k.activeSlot))
  {
    hide Step, Fresh, DepartedState, History;
    var back := k.activeSlot;
    var key := KeyDown(report, [true], k.live.channel);
    var k1 := Step(k, e);
    var k2 := Step(k1, Switch(back, true));
    RunThree(k, e, Switch(back, true), key);
    TightHistory(k, k.store.profiles[back].counter);
    Depart(k, e, back);
    ComeBack(k1, back, k.store.profiles[back].counter, History(k, back));
    OneMore(k2, back, k.store.profiles[back].counter, History(k, back), report, k.live.channel);
  }

  predicate DepartedState(k: Keyboard, back: nat, stored: nat, sent: seq<Sent>) {
    && k.activeSlot != back && back in k.store.profiles && k.store.profiles[back].counter == stored
    && History(k, back) == sent
  }

  lemma Depart(k: Keyboard, e: Event, back: nat)
    requires Consistent(k) && EventOk(e) && k.paired
    requires e.PairInto? && e.slot.Some? && PairsInto(k, e, e.slot.value) && e.slot.value != k.activeSlot
    requires back == k.activeSlot
    ensures DepartedState(Step(k, e), back, k.store.profiles[back].counter, History(k, back))
  {}

  lemma ComeBack(k: Keyboard, back: nat, stored: nat, sent: seq<Sent>)
    requires DepartedState(k, back, stored, sent)
    ensures var r := Step(k, Switch(back, true));
      r.activeSlot == back && r.connected && r.live.counter == stored && History(r, back) == sent
  {}

  lemma OneMore(k: Keyboard, back: nat, stored: nat, sent: seq<Sent>, report: Report, channel: bv8)
    requires k.activeSlot == back && k.connected && k.live.counter == stored && History(k, back) == sent
    requires !AllBelow(sent, stored)
    ensures !Ascending(History(Step(k, KeyDown(report, [true], channel)), back))
  {
    var r := Step(k, KeyDown(report, [true], channel));
    assert Burst([true], Attempts(k)) == (1, true);
    var last := Sent(stored, report);
    assert SendsFrom(stored, 1, report) == [last];
    assert History(r, back) == sent + [last];
    var i :| 0 <= i < |sent| && sent[i].counter >= stored;
    assert (sent + [last])[i].counter >= (sent + [last])[|sent|].counter;
  }

  lemma RunThree(k: Keyboard, a: Event, b: Event, c: Event)
    ensures Run(k, [a, b, c]) == Step(Step(Step(k, a), b), c)
  {
    hide Step;
    assert [a, b, c][..2] == [a, b] && [a, b][..1] == [a] && [a][..0] == [];
    assert Run(k, [a]) == Step(k, a);
    assert Run(k, [a, b]) == Step(Step(k, a), b);
  }

  /** Leaving a slot by pairing elsewhere is harmless exactly when its counter is stored: then
      no safe continuation repeats one, and otherwise going back repeats one at once. */
  lemma DepartureExactly(k: Keyboard, e: Event, events: seq<Event>, report: Report)
    requires Tracked(k) && Fresh(k) && Ordinary(k, e) && Departs(k, e)
    requires OrdinaryRun(Step(k, e), events) && SafeRun(Step(k, e), events)
    ensures k.store.profiles[k.activeSlot].counter == k.live.counter ==>
      Ascending(History(Run(Step(k, e), events), k.activeSlot))
    ensures k.store.profiles[k.activeSlot].counter != k.live.counter ==>
      !Ascending(History(Run(k, [e, Switch(k.activeSlot, true), KeyDown(report, [true], k.live.channel)]), k.activeSlot))
  {
    hide Fresh, Step, OrdinaryRun, SafeRun, Ascending, History;
    StoredNow(k);
    if k.store.profiles[k.activeSlot].counter == k.live.counter {
      StepFreshExactly(k, e);
      StepTracked(k, e);
      CountersAscend(Step(k, e), events, k.activeSlot);
    } else {
      UnstoredDepartureRepeats(k, e, report);
    }
  }

  // ---- The periodic save ----

  /** A key press stores its counter exactly when the attempts it makes end on a multiple of 128. */
  lemma KeyDownSavesExactly(k: Keyboard, report: Report, acks: seq<bool>, channel: bv8)
    requires Consistent(k) && k.connected && StoredBehind(k) && NoWrap(k, KeyDown(report, acks, channel))
    ensures var r := Step(k, KeyDown(report, acks, channel));
      (r.store.profiles[r.activeSlot].counter == r.live.counter) <==>
        (k.live.counter + Burst(acks, Attempts(k)).0) % 128 == 0
  {
    hide SendsFrom, CounterAfter, Burst, Grow;
    SendsFromPlain(k.live.counter, Burst(acks, Attempts(k)).0, report);
  }

  /** A press carries the counter past a multiple of 128 without storing it exactly when its
      attempts step over the multiple instead of ending on it. */
  lemma StepsOverExactly(k: Keyboard, report: Report, acks: seq<bool>, channel: bv8)
    requires Consistent(k) && k.connected && StoredBehind(k) && NoWrap(k, KeyDown(report, acks, channel))
    ensures var r := Step(k, KeyDown(report, acks, channel)); var n := Burst(acks, Attempts(k)).0;
      (MultiplesPassed(k.live.counter, r.live.counter) > 0 && r.store == k.store) <==>
        k.live.counter % 128 + n > 128
  {
    hide SendsFrom, CounterAfter, Burst, Grow;
    var n := Burst(acks, Attempts(k)).0;
    SendsFromPlain(k.live.counter, n, report);
    var r := Step(k, KeyDown(report, acks, channel));
    if k.live.counter % 128 + n == 128 {
      assert r.store.profiles[r.activeSlot].counter == r.live.counter;
    }
  }

  /** Three unheard attempts carry the counter from just below a multiple to just above it
      without a save. */
  lemma RetriesStepOver(k: Keyboard, report: Report, channel: bv8)
    requires Consistent(k) && k.connected && k.linkUp && k.live.counter % 128 == 126
    requires k.live.counter + 3 < COUNTER_WRAP
    ensures var r := Step(k, KeyDown(report, [], channel));
      r.store == k.store && MultiplesPassed(k.live.counter, r.live.counter) == 1
  {
    SendsFromPlain(k.live.counter, 3, report);
    assert Burst([], 3) == (3, false);
  }
}
