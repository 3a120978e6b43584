/** What the keyboard says on the air and what it keeps: the reports of every command, which
    keys they leave pressed, and which profile is stored and live afterwards. */
module KeyReports {
  import opened Text
  import opened Storage
  import opened ProfileMap
  import opened Slots
  import opened Counters

  // ---- How often a report goes out ----

  /** A report goes out up to and including its first acknowledgement, or as often as allowed. */
  lemma {:induction false} BurstExactly(acks: seq<bool>, limit: nat)
    ensures var (n, ok) := Burst(acks, limit);
      && (ok <==> exists i :: 0 <= i < limit && i < |acks| && acks[i])
      && (ok ==> 0 < n <= limit && n <= |acks| && acks[n - 1] && forall i :: 0 <= i < n - 1 ==> !acks[i])
      && (!ok ==> n == limit)
    decreases limit
  {
    if limit > 0 {
      if |acks| > 0 && acks[0] {
      } else {
        var rest := if |acks| > 0 then acks[1..] else [];
        BurstExactly(rest, limit - 1);
        Shifted(acks, limit);
      }
    }
  }

  lemma Shifted(acks: seq<bool>, limit: nat)
    requires limit > 0 && !(|acks| > 0 && acks[0])
    ensures var rest := if |acks| > 0 then acks[1..] else [];
      && ((exists i :: 0 <= i < limit && i < |acks| && acks[i]) <==>
            (exists i :: 0 <= i < limit - 1 && i < |rest| && rest[i]))
      && forall i :: 0 <= i < |rest| ==> rest[i] == acks[i + 1]
  {
    var rest := if |acks| > 0 then acks[1..] else [];
    if i :| 0 <= i < limit && i < |acks| && acks[i] { assert rest[i - 1]; }
    if i :| 0 <= i < limit - 1 && i < |rest| && rest[i] { assert acks[i + 1]; }
  }

  // ---- What goes out ----

  function Repeat(report: Report, n: nat): seq<Report> { seq(n, i => report) }

  /** Reports under consecutive counters. */
  function Numbered(c: nat, reports: seq<Report>): seq<Sent> {
    seq(|reports|, i requires 0 <= i < |reports| => Sent(c + i, reports[i]))
  }

  /** The press until heard, then the empty report until heard, each at most twenty times. */
  function StrokeScript(s: Stroke): seq<Report> {
    Repeat(s.report, Burst(s.press, 20).0) + Repeat(Report(0, [0, 0, 0, 0, 0, 0]), Burst(s.release, 20).0)
  }

  function TextScript(strokes: seq<Stroke>): seq<Report>
    decreases |strokes|
  {
    if strokes == [] then [] else TextScript(strokes[..|strokes| - 1]) + StrokeScript(strokes[|strokes| - 1])
  }

  /** The reports an event sends. */
  function Script(k: Keyboard, e: Event): seq<Report> {
    if !k.connected then [] else
    match e
    case KeyDown(report, acks, _) => Repeat(report, Burst(acks, if k.linkUp then 3 else 1).0)
    case KeyStroke(stroke, _) => StrokeScript(stroke)
    case TypeText(text, _) => TextScript(Strokes(text))
    case AllUp(acks, _) => Repeat(Report(0, [0, 0, 0, 0, 0, 0]), Burst(acks, 20).0)
    case _ => []
  }

  /** k has sent just these reports more, under the live pairing. */
  ghost predicate Said(k: Keyboard, r: Keyboard, reports: seq<Report>) {
    && SentAside(k, r) && r.live.counter == k.live.counter + |reports|
    && History(r, k.activeSlot) == History(k, k.activeSlot) + Numbered(k.live.counter, reports)
    && forall slot :: slot != k.activeSlot ==> History(r, slot) == History(k, slot)
  }

  lemma SendSaid(k: Keyboard, n: nat, report: Report)
    requires k.live.counter + n < COUNTER_WRAP
    ensures Said(k, Send(k, n, report), Repeat(report, n))
  {
    SendsFromPlain(k.live.counter, n, report);
    assert SendsFrom(k.live.counter, n, report) == Numbered(k.live.counter, Repeat(report, n));
    if n == 0 { assert Numbered(k.live.counter, Repeat(report, 0)) == []; }
  }

  lemma SaidMore(k: Keyboard, m: Keyboard, r: Keyboard, a: seq<Report>, b: seq<Report>)
    requires Said(k, m, a) && Said(m, r, b)
    ensures Said(k, r, a + b)
  {
    var c := k.live.counter;
    assert Numbered(c, a + b) == Numbered(c, a) + Numbered(c + |a|, b);
    assert (History(k, k.activeSlot) + Numbered(c, a)) + Numbered(c + |a|, b)
        == History(k, k.activeSlot) + (Numbered(c, a) + Numbered(c + |a|, b));
  }

  lemma StruckSaid(k: Keyboard, s: Stroke)
    requires k.live.counter + StrokeCount(s) < COUNTER_WRAP
    ensures Said(k, Struck(k, s), StrokeScript(s)) && |StrokeScript(s)| == StrokeCount(s)
  {
    hide Send, Burst, Said;
    var n, m := Burst(s.press, RETRY_LIMIT).0, Burst(s.release, RETRY_LIMIT).0;
    SendSaid(k, n, s.report);
    Counted(k, Send(k, n, s.report), Repeat(s.report, n));
    SendSaid(Send(k, n, s.report), m, ALL_UP);
    SaidMore(k, Send(k, n, s.report), Struck(k, s), Repeat(s.report, n), Repeat(ALL_UP, m));
  }

  lemma Counted(k: Keyboard, r: Keyboard, reports: seq<Report>)
    requires Said(k, r, reports)
    ensures r.live.counter == k.live.counter + |reports| && r.connected == k.connected && r.activeSlot == k.activeSlot
  {}

  lemma {:induction false} TypedSaid(k: Keyboard, strokes: seq<Stroke>)
    requires k.live.counter + TextCount(strokes) < COUNTER_WRAP
    ensures Said(k, Typed(k, strokes), TextScript(strokes)) && |TextScript(strokes)| == TextCount(strokes)
    decreases |strokes|
  {
    hide Struck, StrokeCount, StrokeScript, Said;
    if strokes == [] {
      NothingSaid(k);
    } else {
      var init, s := strokes[..|strokes| - 1], strokes[|strokes| - 1];
      TypedSaid(k, init);
      Counted(k, Typed(k, init), TextScript(init));
      StruckSaid(Typed(k, init), s);
      SaidMore(k, Typed(k, init), Typed(k, strokes), TextScript(init), StrokeScript(s));
    }
  }

  lemma NothingSaid(k: Keyboard)
    ensures Said(k, k, [])
  {
    assert Numbered(k.live.counter, []) == [];
  }

  /** What has been sent in each slot after an event: the reports of the command more, under
      consecutive counters, in the active slot; nothing any more in a slot newly paired; and
      the same as before everywhere else. */
  lemma SentExactly(k: Keyboard, e: Event, slot: nat)
    requires NoWrap(k, e)
    ensures History(Step(k, e), slot) ==
      if PairsInto(k, e, slot) then []
      else if slot == k.activeSlot then History(k, slot) + Numbered(k.live.counter, Script(k, e))
      else History(k, slot)
  {
    hide Send, Burst, Struck, Typed, Strokes, OnBoot, SwitchTo, StoreLive, TextScript, StrokeScript, TextCount;
    hide Repeat, Numbered, StrokeCount;
    NothingNumbered(k.live.counter);
    match e
    case KeyDown(report, acks, _) => if k.connected { SendSaid(k, Burst(acks, Attempts(k)).0, report); }
      KeyDownHistory(k, e);
    case KeyStroke(stroke, _) => if k.connected { StruckSaid(k, stroke); } StoreHistory(OnChannel(Struck(k, stroke), e.channel));
    case TypeText(text, _) => if k.connected { TypedSaid(k, Strokes(text)); }
      StoreHistory(OnChannel(Typed(k, Strokes(text)), e.channel));
    case AllUp(acks, _) => if k.connected { SendSaid(k, Burst(acks, RETRY_LIMIT).0, ALL_UP); }
    case _ => QuietHistory(k, e);
  }

  lemma NothingNumbered(c: nat)
    ensures Numbered(c, []) == []
  {}

  lemma StoreHistory(k: Keyboard)
    ensures StoreLive(k).sent == k.sent
  {}

  lemma KeyDownHistory(k: Keyboard, e: Event)
    requires e.KeyDown?
    ensures Step(k, e).sent == if k.connected then Send(k, Burst(e.acks, Attempts(k)).0, e.report).sent else k.sent
  {
    hide Send, Burst;
  }

  lemma QuietHistory(k: Keyboard, e: Event)
    requires !e.KeyDown? && !e.KeyStroke? && !e.TypeText? && !e.AllUp?
    ensures e.PairInto? || Step(k, e).sent == k.sent
    ensures e.PairInto? ==> forall slot ::
      History(Step(k, e), slot) == if PairsInto(k, e, slot) then [] else History(k, slot)
  {}

  // ---- Which keys stay pressed ----

  /** The last thing said is that all keys are up. */
  predicate Released(s: seq<Sent>) { s != [] ==> s[|s| - 1].report == Report(0, [0, 0, 0, 0, 0, 0]) }

  /** UKEY is a press and then just what releasing all keys sends, and it is stored. */
  lemma StrokeIsPressAndRelease(k: Keyboard, s: Stroke, channel: bv8)
    requires k.connected
    ensures Step(k, KeyStroke(s, channel))
         == StoreLive(Step(Send(k, Burst(s.press, 20).0, s.report), AllUp(s.release, channel)))
  {
    hide Burst, StoreLive;
  }

  /** Heard at once, a stroke is one press and one empty report under the next two counters. */
  lemma HeardStroke(k: Keyboard, report: Report, press: seq<bool>, release: seq<bool>, channel: bv8)
    requires Consistent(k) && k.connected && k.live.counter + 2 < COUNTER_WRAP
    requires |press| > 0 && press[0] && |release| > 0 && release[0]
    ensures var r, c := Step(k, KeyStroke(Stroke(report, press, release), channel)), k.live.counter;
      && History(r, k.activeSlot)
           == History(k, k.activeSlot) + [Sent(c, report), Sent(c + 1, Report(0, [0, 0, 0, 0, 0, 0]))]
      && r.live.counter == c + 2
      && k.activeSlot in r.store.profiles && r.store.profiles[k.activeSlot] == r.live
  {
    hide SendsFrom, CounterAfter, Grow, Consistent;
    var s := Stroke(report, press, release);
    EndsStored(k, KeyStroke(s, channel));
    assert Burst(press, 20) == (1, true) && Burst(release, 20) == (1, true);
    StruckSaid(k, s);
    assert StrokeScript(s) == [report, ALL_UP];
    assert Numbered(k.live.counter, [report, ALL_UP])
        == [Sent(k.live.counter, report), Sent(k.live.counter + 1, ALL_UP)];
  }

  /** Text is typed character by character: each is a stroke of its own, after those before it. */
  lemma TextIsStrokes(k: Keyboard, text: seq<Char>, c: Char, channel: bv8)
    requires k.connected
    ensures var before := Typed(k, Strokes(text));
      Step(k, TypeText(text + [c], channel)) == StoreLive(OnChannel(
        if c.key.None? then before else
          var (scancode, shift) := c.key.value;
          Struck(before, Stroke(Report(if shift then 2 else 0, [scancode, 0, 0, 0, 0, 0]), c.press, c.release)),
        channel))
    ensures Step(k, TypeText([], channel)) == StoreLive(OnChannel(k, channel))
  {
    hide StoreLive, Struck;
    assert (text + [c])[..|text|] == text;
    var now := Strokes(text + [c]);
    if c.key.Some? { assert now[..|now| - 1] == Strokes(text); } else { assert now == Strokes(text); }
  }

  lemma {:induction false} TextReleases(strokes: seq<Stroke>)
    ensures strokes != [] ==>
      var t := TextScript(strokes); t != [] && t[|t| - 1] == Report(0, [0, 0, 0, 0, 0, 0])
  {
    if strokes != [] {
      var s := strokes[|strokes| - 1];
      var script := StrokeScript(s);
      assert script[|script| - 1] == ALL_UP;
    }
  }

  /** After any event that is no key press of its own, whatever the receiver heard, a slot whose
      keys were released has them released again. */
  lemma StaysReleased(k: Keyboard, e: Event, slot: nat)
    requires NoWrap(k, e) && Released(History(k, slot)) && (e.KeyDown? ==> e.report == ALL_UP)
    ensures Released(History(Step(k, e), slot))
  {
    hide Step, Strokes, TextScript, StrokeScript, Burst;
    SentExactly(k, e, slot);
    var script := Script(k, e);
    if script != [] {
      match e
      case KeyDown(_, _, _) =>
      case KeyStroke(stroke, _) => TextReleases([stroke]); OneStroke(stroke);
      case TypeText(text, _) => TextReleases(Strokes(text)); NoStrokes();
      case AllUp(_, _) =>
    }
  }

  lemma NoStrokes()
    ensures TextScript([]) == []
  {}

  lemma OneStroke(s: Stroke)
    ensures TextScript([s]) == StrokeScript(s)
  {
    hide StrokeScript;
    assert [s][..0] == [];
  }

  /** UKEY and any all-up leave the keys released whatever was pressed before, and so does UTYPE
      if a character has a key. */
  lemma EndsReleased(k: Keyboard, e: Event)
    requires NoWrap(k, e) && k.connected
    requires e.KeyStroke? || e.AllUp? || (e.TypeText? && Strokes(e.text) != [])
    ensures var h := History(Step(k, e), k.activeSlot); h != [] && Released(h)
  {
    hide Step, Strokes, TextScript, StrokeScript;
    SentExactly(k, e, k.activeSlot);
    match e
    case KeyStroke(stroke, _) => TextReleases([stroke]); OneStroke(stroke);
    case TypeText(text, _) => TextReleases(Strokes(text));
    case AllUp(acks, _) =>
  }

  /** Over any run in which no key is pressed on its own, every slot's keys end up released,
      however many frames were lost. */
  lemma {:induction false} NothingStaysPressed(k: Keyboard, events: seq<Event>, slot: nat)
    requires OrdinaryRun(k, events) && Released(History(k, slot))
    requires forall i :: 0 <= i < |events| && events[i].KeyDown? ==> events[i].report == ALL_UP
    ensures Released(History(Run(k, events), slot))
    decreases |events|
  {
    hide Step, Ordinary, OrdinaryRun, Released;
    if events != [] {
      var n := |events| - 1;
      OneLess(k, events);
      NothingStaysPressed(k, events[..n], slot);
      OrdinaryNow(Run(k, events[..n]), events[n]);
      StaysReleased(Run(k, events[..n]), events[n], slot);
    }
  }

  lemma OrdinaryNow(k: Keyboard, e: Event)
    requires Ordinary(k, e)
    ensures NoWrap(k, e)
  {}

  // ---- What is stored ----

  /** The commands that end an activity leave the very profile in use stored for its slot, and
      no other slot touched: sleep, UKEY and UTYPE of a connected keyboard, and a power warning. */
  lemma EndsStored(k: Keyboard, e: Event)
    requires Consistent(k)
    requires (k.connected && (e.Sleep? || e.KeyStroke? || e.TypeText?)) || (k.paired && e.Poll? && e.powerWarning)
    ensures var r := Step(k, e);
      && r.activeSlot == k.activeSlot && r.paired
      && r.store == Store(k.store.profiles[k.activeSlot := r.live], k.store.active)
      && (e.Sleep? ==> !r.connected && r.live == k.live)
  {
    hide Struck, Typed, Strokes;
    if e.KeyStroke? { StruckAside(k, e.stroke); }
    if e.TypeText? { TypedAside(k, Strokes(e.text)); }
  }

  /** Changing slots: the one left keeps what was live, the one taken up goes on with what is
      stored for it, and it is connected exactly if it is paired and the radio is ready. */
  lemma SwitchExactly(k: Keyboard, target: nat, radioReady: bool)
    requires Consistent(k) && target < MAX_PROFILES && target != k.activeSlot
    ensures var r := Step(k, Switch(target, radioReady));
      && r.activeSlot == target && r.store.active == Some(target)
      && r.store.profiles == (if k.paired then k.store.profiles[k.activeSlot := k.live] else k.store.profiles)
      && (r.paired <==> target in k.store.profiles)
      && (r.paired ==> r.live == k.store.profiles[target])
      && (r.connected <==> r.paired && radioReady) && !r.linkUp
  {}

  /** Switching away and back resumes just where the keyboard was. */
  lemma SwitchRoundTrip(k: Keyboard, target: nat, a: bool, b: bool)
    requires Consistent(k) && k.paired && target < MAX_PROFILES && target != k.activeSlot
    ensures var r := Step(Step(k, Switch(target, a)), Switch(k.activeSlot, b));
      r.live == k.live && r.paired && r.activeSlot == k.activeSlot && r.connected == b
  {
    hide Step;
    SwitchExactly(k, target, a);
    StepConsistent(k, Switch(target, a));
    SwitchExactly(Step(k, Switch(target, a)), k.activeSlot, b);
  }

  /** Power lost and back: the persisted slot is restored with its counter moved on by 512,
      which is stored at once; without one the keyboard is unpaired. It is never connected. */
  lemma BootExactly(k: Keyboard)
    requires Consistent(k)
    ensures var r, slot := Step(k, Boot), if k.store.active.Some? then k.store.active.value else 0;
      && r.activeSlot == slot && !r.connected && !r.linkUp && r.sent == k.sent
      && (r.paired <==> slot in k.store.profiles)
      && (r.paired ==>
            var p := k.store.profiles[slot];
            && r.live == p.(counter := (p.counter + 512) % 0x1_0000_0000)
            && r.store == Store(k.store.profiles[slot := r.live], k.store.active))
      && (!r.paired ==> r.store == k.store)
  {}

  /** A keyboard put to sleep comes back after a power loss with its pairing, 512 counters on. */
  lemma SleepThenBoot(k: Keyboard)
    requires Consistent(k) && k.connected && k.live.counter + 512 < COUNTER_WRAP
    ensures var r := Step(Step(k, Sleep), Boot);
      && r.paired && r.activeSlot == k.activeSlot && !r.connected
      && r.live == k.live.(counter := k.live.counter + 512)
  {
    hide Step;
    EndsStored(k, Sleep);
    StepConsistent(k, Sleep);
    BootExactly(Step(k, Sleep));
    ActiveRemembered(Step(k, Sleep));
  }

  lemma ActiveRemembered(k: Keyboard)
    requires Consistent(k) && k.paired
    ensures k.activeSlot in k.store.profiles
    ensures (if k.store.active.Some? then k.store.active.value else 0) == k.activeSlot
  {}

  /** A pairing survives a power loss at once. */
  lemma PairThenBoot(k: Keyboard, slot: nat, p: Profile, scratch: Profile)
    requires Consistent(k) && slot < MAX_PROFILES && p.Valid() && scratch.Valid() && p.counter + 512 < COUNTER_WRAP
    ensures var r := Step(Step(k, PairInto(Some(slot), true, Some(p), scratch, true)), Boot);
      r.paired && r.activeSlot == slot && r.live == p.(counter := p.counter + 512)
  {
    var e := PairInto(Some(slot), true, Some(p), scratch, true);
    StepConsistent(k, e);
    BootExactly(Step(k, e));
  }

  /** A deleted pairing does not come back with the power. */
  lemma DeleteThenBoot(k: Keyboard, slot: Option<nat>)
    requires Consistent(k) && EventOk(Delete(slot)) && (slot.Some? ==> slot.value == k.activeSlot && k.paired)
    ensures !Step(Step(k, Delete(slot)), Boot).paired
  {
    hide Step;
    StepConsistent(k, Delete(slot));
    DeleteEmpties(k, slot);
    BootExactly(Step(k, Delete(slot)));
    if slot.Some? { DeleteKeepsChoice(k, slot); }
    if k.paired { ActiveRemembered(k); }
  }

  lemma DeleteKeepsChoice(k: Keyboard, slot: Option<nat>)
    requires slot.Some?
    ensures Step(k, Delete(slot)).store.active == k.store.active
  {}

  // ---- Connection and link ----

  /** A keyboard gets connected in just three ways: it is paired and was answered, it was paired
      anew, or it changed to another slot that holds a pairing; always with the radio ready. */
  lemma ConnectsExactly(k: Keyboard, e: Event)
    requires Consistent(k) && EventOk(e) && !k.connected
    ensures Step(k, e).connected <==>
      || (e.Connect? && k.paired && e.radioReady && e.answered)
      || (e.PairInto? && e.radioReady && e.outcome.Some?)
      || (e.Switch? && e.radioReady && if e.target == k.activeSlot then k.paired else e.target in k.store.profiles)
  {
    hide Strokes, Struck, Typed, Burst;
  }

  /** The link mark tells whether the last report, connection attempt or poll was heard. */
  lemma LinkFollows(k: Keyboard, e: Event)
    requires Consistent(k) && k.connected
    ensures e.KeyDown? ==>
      (Step(k, e).linkUp <==> exists i :: 0 <= i < (if k.linkUp then 3 else 1) && i < |e.acks| && e.acks[i])
    ensures e.Poll? ==> Step(k, e).linkUp == if e.heard.Some? then e.heard.value else k.linkUp
    ensures e.Connect? && e.radioReady && e.answered ==> Step(k, e).linkUp
  {
    hide Burst, Send;
    if e.KeyDown? { BurstExactly(e.acks, Attempts(k)); }
  }
}
