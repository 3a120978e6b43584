/** How often each page of the store is erased, over any history of its operations. */
module Wear {
  import opened Text
  import opened AppendLog
  import opened Storage
  import opened ProfileMap

  // ---- Histories on the real flash ----

  method Perform(flash: Nvmc, op: Op)
    requires flash.Valid() && OpOk(op)
    modifies flash
    ensures flash.Valid() && flash.dirtyWrites == old(flash.dirtyWrites)
    ensures Performs(old(flash.cells), flash.cells, op)
    ensures flash.erasures == old(flash.erasures) + Erasing(old(flash.cells), op)
  {
    hide Performs, Erasing;
    match op
    case SaveProfile(slot, p) => Storage.Save(flash, slot, p);
    case SaveActive(slot) => SaveActiveSlot(flash, slot);
    case Clear(slot) => ClearSlot(flash, slot);
    case ClearEverything => ClearAll(flash);
  }

  /** All pages erased in a history, in order. */
  function Erasures(flash: seq<Cells>, ops: seq<Op>): seq<nat>
    requires |flash| == |ops| + 1 && forall i :: 0 <= i < |flash| ==> |flash[i]| == FLASH_SIZE
    decreases |ops|
  {
    if ops == [] then [] else
      var n := |ops| - 1;
      Erasures(flash[..n + 1], ops[..n]) + Erasing(flash[n], ops[n])
  }

  /** Whatever the operations, what the flash records is the history's erasures, and no
      programming ever met a cleared bit. */
  method PerformAll(flash: Nvmc, ops: seq<Op>) returns (ghost history: seq<Cells>)
    requires flash.Valid() && forall i :: 0 <= i < |ops| ==> OpOk(ops[i])
    modifies flash
    ensures flash.Valid() && flash.dirtyWrites == old(flash.dirtyWrites)
    ensures IsHistory(history, ops) && history[0] == old(flash.cells) && history[|ops|] == flash.cells
    ensures flash.erasures == old(flash.erasures) + Erasures(history, ops)
  {
    hide Performs, Erasing;
    history := [flash.cells];
    for i := 0 to |ops|
      invariant flash.Valid() && flash.dirtyWrites == old(flash.dirtyWrites)
      invariant IsHistory(history, ops[..i]) && history[0] == old(flash.cells) && history[i] == flash.cells
      invariant flash.erasures == old(flash.erasures) + Erasures(history, ops[..i])
    {
      Perform(flash, ops[i]);
      assert ops[..i + 1][..i] == ops[..i];
      ghost var longer := history + [flash.cells];
      assert longer[..i + 1] == history;
      history := longer;
    }
    assert ops[..|ops|] == ops;
  }

  // ---- One page ----

  datatype Use = Saved | Cleared | Untouched

  /** How full a page of the given capacity is, and how often it was erased. */
  function Usage(uses: seq<Use>, capacity: nat): (r: (nat, nat))
    requires capacity > 0
    ensures r.0 <= capacity
    decreases |uses|
  {
    if uses == [] then (0, 0) else
      var (fill, erases) := Usage(uses[..|uses| - 1], capacity);
      match uses[|uses| - 1]
      case Saved => if fill < capacity then (fill + 1, erases) else (1, erases + 1)
      case Cleared => (0, erases + 1)
      case Untouched => (fill, erases)
  }

  function Saves(uses: seq<Use>): nat {
    if uses == [] then 0 else (if uses[0].Saved? then 1 else 0) + Saves(uses[1..])
  }

  lemma {:induction false} SavesSnoc(uses: seq<Use>, u: Use)
    ensures Saves(uses + [u]) == Saves(uses) + if u.Saved? then 1 else 0
  {
    if uses == [] {
      assert [] + [u] == [u];
    } else {
      assert (uses + [u])[1..] == uses[1..] + [u];
      SavesSnoc(uses[1..], u);
    }
  }

  /** Without clears each erase stands for one page full of saves. */
  lemma {:induction false} UsageOfSaves(uses: seq<Use>, capacity: nat)
    requires capacity > 0 && Cleared !in uses
    ensures var (fill, erases) := Usage(uses, capacity);
      && capacity * erases + fill == Saves(uses)
      && (Saves(uses) > 0 ==> fill > 0)
    decreases |uses|
  {
    if uses != [] {
      var n := |uses| - 1;
      var init := uses[..n];
      UsageOfSaves(init, capacity);
      assert uses == init + [uses[n]];
      SavesSnoc(init, uses[n]);
      OneMoreErase(capacity, Usage(init, capacity).1);
    }
  }

  function Times(pages: seq<nat>, page: nat): nat {
    if pages == [] then 0 else (if pages[0] == page then 1 else 0) + Times(pages[1..], page)
  }

  lemma {:induction false} TimesConcat(a: seq<nat>, b: seq<nat>, page: nat)
    ensures Times(a + b, page) == Times(a, page) + Times(b, page)
  {
    if a == [] {
      assert a + b == b;
    } else {
      assert (a + b)[1..] == a[1..] + b;
      TimesConcat(a[1..], b, page);
    }
  }

  // ---- Profile pages ----

  function UseOf(op: Op, slot: nat): Use {
    match op
    case SaveProfile(s, _) => if s == slot then Saved else Untouched
    case SaveActive(_) => Untouched
    case Clear(s) => if s == slot then Cleared else Untouched
    case ClearEverything => Cleared
  }

  function UsesOf(ops: seq<Op>, slot: nat): (r: seq<Use>)
    ensures |r| == |ops|
  {
    seq(|ops|, i requires 0 <= i < |ops| => UseOf(ops[i], slot))
  }

  lemma PageStep(before: Cells, after: Cells, op: Op, slot: nat, fill: nat)
    requires |before| == |after| == FLASH_SIZE && OpOk(op) && Performs(before, after, op) && slot < MAX_PROFILES
    requires Filled(Records(before, PageBase(slot)), DecodeRecord, fill, RECORD_SIZE)
    ensures var page, more := Records(after, PageBase(slot)), Times(Erasing(before, op), PageBase(slot));
      match UseOf(op, slot)
      case Saved => Filled(page, DecodeRecord, if fill < SLOTS_PER_PAGE then fill + 1 else 1, RECORD_SIZE)
                    && more == (if fill < SLOTS_PER_PAGE then 0 else 1)
      case Cleared => Filled(page, DecodeRecord, 0, RECORD_SIZE) && more == 1
      case Untouched => page == Records(before, PageBase(slot)) && more == 0
  {
    hide DecodeRecord, DecodeSlot, Encode, EncodeSlot, Records, SlotWords, Filled, Appends, AppendLog.Save, OnlyPage;
    BlankDecodesNot();
    match op
    case SaveProfile(s, p) =>
      if s == slot {
        RecordRoundTrip(p);
        FilledSave(Records(before, PageBase(slot)), DecodeRecord, fill, RECORD_SIZE, Encode(p));
      } else if s < MAX_PROFILES {
        OtherSlot(before, after, PageBase(s), slot);
      }
    case SaveActive(s) => if s < MAX_PROFILES { OtherSlot(before, after, ACTIVE_PAGE, slot); }
    case Clear(s) =>
      if s == slot { BlankIsFilled(SLOTS_PER_PAGE, RECORD_SIZE, DecodeRecord); }
      else if s < MAX_PROFILES { OtherSlot(before, after, PageBase(s), slot); }
    case ClearEverything =>
      BlankIsFilled(SLOTS_PER_PAGE, RECORD_SIZE, DecodeRecord);
      AllPages(slot);
  }

  lemma TimesFive(a: nat, b: nat, c: nat, d: nat, e: nat, page: nat)
    ensures Times([a, b, c, d, e], page)
         == (if a == page then 1 else 0) + (if b == page then 1 else 0) + (if c == page then 1 else 0)
            + (if d == page then 1 else 0) + (if e == page then 1 else 0)
  {
    assert [a, b, c, d, e][1..] == [b, c, d, e] && [b, c, d, e][1..] == [c, d, e];
    assert [c, d, e][1..] == [d, e] && [d, e][1..] == [e] && [e][1..] == [];
    assert Times([e], page) == if e == page then 1 else 0;
    assert Times([c, d, e], page) == (if c == page then 1 else 0) + Times([d, e], page);
  }

  lemma AllPages(slot: nat)
    requires slot < MAX_PROFILES
    ensures Times([PageBase(0), PageBase(1), PageBase(2), PageBase(3), ACTIVE_PAGE], PageBase(slot)) == 1
    ensures Times([PageBase(0), PageBase(1), PageBase(2), PageBase(3), ACTIVE_PAGE], ACTIVE_PAGE) == 1
  {
    TimesFive(PageBase(0), PageBase(1), PageBase(2), PageBase(3), ACTIVE_PAGE, PageBase(slot));
    TimesFive(PageBase(0), PageBase(1), PageBase(2), PageBase(3), ACTIVE_PAGE, ACTIVE_PAGE);
  }

  /** Over any history of all operations, however mixed, a profile page that began erased has
      been erased exactly as often as the saves and clears of its own slot require. */
  lemma {:induction false} PageUsage(flash: seq<Cells>, ops: seq<Op>, slot: nat)
    requires IsHistory(flash, ops) && slot < MAX_PROFILES
    requires Records(flash[0], PageBase(slot)) == BlankPage(SLOTS_PER_PAGE, RECORD_SIZE)
    ensures var (fill, erases) := Usage(UsesOf(ops, slot), SLOTS_PER_PAGE);
      && Times(Erasures(flash, ops), PageBase(slot)) == erases
      && Filled(Records(flash[|ops|], PageBase(slot)), DecodeRecord, fill, RECORD_SIZE)
    decreases |ops|
  {
    hide Performs, Erasing, Filled, Records, DecodeRecord, UseOf;
    BlankDecodesNot();
    if ops == [] {
      BlankIsFilled(SLOTS_PER_PAGE, RECORD_SIZE, DecodeRecord);
    } else {
      var n := |ops| - 1;
      PageUsage(flash[..n + 1], ops[..n], slot);
      assert UsesOf(ops, slot)[..n] == UsesOf(ops[..n], slot);
      assert flash[..n + 1][n] == flash[n];
      PageStep(flash[n], flash[n + 1], ops[n], slot, Usage(UsesOf(ops[..n], slot), SLOTS_PER_PAGE).0);
      TimesConcat(Erasures(flash[..n + 1], ops[..n]), Erasing(flash[n], ops[n]), PageBase(slot));
    }
  }

  /** n saves of a slot, between any other operations but its clears, erase its page exactly
      (n - 1) / 128 times. */
  lemma ProfileWear(flash: seq<Cells>, ops: seq<Op>, slot: nat)
    requires IsHistory(flash, ops) && slot < MAX_PROFILES
    requires Records(flash[0], PageBase(slot)) == BlankPage(SLOTS_PER_PAGE, RECORD_SIZE)
    requires Cleared !in UsesOf(ops, slot) && Saves(UsesOf(ops, slot)) >= 1
    ensures Times(Erasures(flash, ops), PageBase(slot)) == (Saves(UsesOf(ops, slot)) - 1) / 128
  {
    hide IsHistory, Records, UsesOf;
    PageUsage(flash, ops, slot);
    UsageOfSaves(UsesOf(ops, slot), SLOTS_PER_PAGE);
  }

  // ---- The active-slot page ----

  function ActiveUseOf(op: Op): Use {
    match op
    case SaveActive(s) => if s < MAX_PROFILES then Saved else Untouched
    case ClearEverything => Cleared
    case _ => Untouched
  }

  function ActiveUsesOf(ops: seq<Op>): (r: seq<Use>)
    ensures |r| == |ops|
  {
    seq(|ops|, i requires 0 <= i < |ops| => ActiveUseOf(ops[i]))
  }

  lemma ActiveStep(before: Cells, after: Cells, op: Op, fill: nat)
    requires |before| == |after| == FLASH_SIZE && OpOk(op) && Performs(before, after, op)
    requires Filled(SlotWords(before), DecodeSlot, fill, 4)
    ensures var page, more := SlotWords(after), Times(Erasing(before, op), ACTIVE_PAGE);
      match ActiveUseOf(op)
      case Saved => Filled(page, DecodeSlot, if fill < ACTIVE_ENTRIES then fill + 1 else 1, 4)
                    && more == (if fill < ACTIVE_ENTRIES then 0 else 1)
      case Cleared => Filled(page, DecodeSlot, 0, 4) && more == 1
      case Untouched => page == SlotWords(before) && more == 0
  {
    hide DecodeRecord, DecodeSlot, Encode, EncodeSlot, Records, SlotWords, Filled, Appends, AppendLog.Save, OnlyPage;
    BlankDecodesNot();
    match op
    case SaveProfile(s, p) => if s < MAX_PROFILES { OtherWords(before, after, PageBase(s)); }
    case SaveActive(s) =>
      if s < MAX_PROFILES {
        SlotRoundTrip(s);
        FilledSave(SlotWords(before), DecodeSlot, fill, 4, EncodeSlot(s));
      }
    case Clear(s) => if s < MAX_PROFILES { OtherWords(before, after, PageBase(s)); }
    case ClearEverything =>
      BlankIsFilled(ACTIVE_ENTRIES, 4, DecodeSlot);
      AllPages(0);
  }

  lemma {:induction false} ActivePageUsage(flash: seq<Cells>, ops: seq<Op>)
    requires IsHistory(flash, ops) && SlotWords(flash[0]) == BlankPage(ACTIVE_ENTRIES, 4)
    ensures var (fill, erases) := Usage(ActiveUsesOf(ops), ACTIVE_ENTRIES);
      && Times(Erasures(flash, ops), ACTIVE_PAGE) == erases
      && Filled(SlotWords(flash[|ops|]), DecodeSlot, fill, 4)
    decreases |ops|
  {
    hide Performs, Erasing, Filled, SlotWords, DecodeSlot, ActiveUseOf;
    BlankDecodesNot();
    if ops == [] {
      BlankIsFilled(ACTIVE_ENTRIES, 4, DecodeSlot);
    } else {
      var n := |ops| - 1;
      ActivePageUsage(flash[..n + 1], ops[..n]);
      assert ActiveUsesOf(ops)[..n] == ActiveUsesOf(ops[..n]);
      assert flash[..n + 1][n] == flash[n];
      ActiveStep(flash[n], flash[n + 1], ops[n], Usage(ActiveUsesOf(ops[..n]), ACTIVE_ENTRIES).0);
      TimesConcat(Erasures(flash[..n + 1], ops[..n]), Erasing(flash[n], ops[n]), ACTIVE_PAGE);
    }
  }

  /** n saves of the active slot, between any other operations but a clear of everything, erase
      its page exactly (n - 1) / 1024 times. */
  lemma ActiveSlotWear(flash: seq<Cells>, ops: seq<Op>)
    requires IsHistory(flash, ops) && SlotWords(flash[0]) == BlankPage(ACTIVE_ENTRIES, 4)
    requires Cleared !in ActiveUsesOf(ops) && Saves(ActiveUsesOf(ops)) >= 1
    ensures Times(Erasures(flash, ops), ACTIVE_PAGE) == (Saves(ActiveUsesOf(ops)) - 1) / 1024
  {
    hide IsHistory, SlotWords, ActiveUsesOf;
    ActivePageUsage(flash, ops);
    UsageOfSaves(ActiveUsesOf(ops), ACTIVE_ENTRIES);
  }
}
