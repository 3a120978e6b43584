/** The pairing store behaves like a plain map from slot to latest profile, with one
    more cell for the active slot, over any history of saves and clears. */
module ProfileMap {
  import opened Text
  import opened Bytes
  import opened AppendLog
  import opened Storage

  datatype Store = Store(profiles: map<nat, Profile>, active: Option<nat>)

  predicate OpOk(op: Op) { op.SaveProfile? ==> op.profile.Valid() }

  /** The history as a reader of the interface understands it. */
  function Apply(m: Store, op: Op): Store {
    match op
    case SaveProfile(slot, p) => if slot < MAX_PROFILES then m.(profiles := m.profiles[slot := p]) else m
    case SaveActive(slot) => if slot < MAX_PROFILES then m.(active := Some(slot)) else m
    case Clear(slot) => if slot < MAX_PROFILES then m.(profiles := m.profiles - {slot}) else m
    case ClearEverything => Store(map[], None)
  }

  function Lookup(m: Store, slot: nat): Option<Profile> {
    if slot in m.profiles then Some(m.profiles[slot]) else None
  }

  ghost predicate TidyFlash(cells: Cells)
    requires |cells| == FLASH_SIZE
  {
    && (forall slot {:trigger PageBase(slot)} :: 0 <= slot < MAX_PROFILES ==> Tidy(Records(cells, PageBase(slot)), DecodeRecord))
    && Tidy(SlotWords(cells), DecodeSlot)
  }

  /** Every load answers what the map says. */
  ghost predicate Refines(cells: Cells, m: Store)
    requires |cells| == FLASH_SIZE
  {
    && TidyFlash(cells)
    && (forall slot :: 0 <= slot < MAX_PROFILES ==> Loaded(cells, slot) == Lookup(m, slot))
    && LoadedSlot(cells) == m.active
  }

  lemma OtherSlot(before: Cells, after: Cells, base: nat, slot: nat)
    requires |before| == |after| == FLASH_SIZE && OnlyPage(before, after, base) && slot < MAX_PROFILES
    requires base % PAGE_SIZE == 0 && base != PageBase(slot)
    ensures Records(after, PageBase(slot)) == Records(before, PageBase(slot))
  {
    OtherRecords(before, after, base, PageBase(slot));
  }

  lemma SameElsewhere(before: Cells, after: Cells, slot: nat)
    requires |before| == |after| == FLASH_SIZE
    requires forall other :: 0 <= other < MAX_PROFILES && other != slot ==>
      Records(after, PageBase(other)) == Records(before, PageBase(other))
    ensures forall other :: 0 <= other < MAX_PROFILES && other != slot ==>
      Loaded(after, other) == Loaded(before, other)
  {}

  lemma SaveRefines(before: Cells, after: Cells, m: Store, slot: nat, p: Profile)
    requires |before| == |after| == FLASH_SIZE && Refines(before, m) && p.Valid() && slot < MAX_PROFILES
    requires Performs(before, after, SaveProfile(slot, p))
    ensures Refines(after, Apply(m, SaveProfile(slot, p)))
  {
    hide Encode, Records, SlotWords, Length, Le32;
    RecordRoundTrip(p);
    BlankDecodesNot();
    SaveThenLatest(Records(before, PageBase(slot)), DecodeRecord, Encode(p));
    forall other | 0 <= other < MAX_PROFILES && other != slot
      ensures Records(after, PageBase(other)) == Records(before, PageBase(other))
    {
      OtherSlot(before, after, PageBase(slot), other);
    }
    OtherWords(before, after, PageBase(slot));
    assert TidyFlash(after);
    assert Loaded(after, slot) == Some(p);
    SameElsewhere(before, after, slot);
  }

  lemma SaveActiveRefines(before: Cells, after: Cells, m: Store, slot: nat)
    requires |before| == |after| == FLASH_SIZE && Refines(before, m) && slot < MAX_PROFILES
    requires Performs(before, after, SaveActive(slot))
    ensures Refines(after, Apply(m, SaveActive(slot)))
  {
    hide EncodeSlot, Records, SlotWords, Length, Le32;
    SlotRoundTrip(slot);
    BlankDecodesNot();
    SaveThenLatest(SlotWords(before), DecodeSlot, EncodeSlot(slot));
    forall other | 0 <= other < MAX_PROFILES
      ensures Records(after, PageBase(other)) == Records(before, PageBase(other))
    {
      OtherSlot(before, after, ACTIVE_PAGE, other);
    }
    assert TidyFlash(after);
    SameElsewhere(before, after, MAX_PROFILES);
  }

  lemma ClearRefines(before: Cells, after: Cells, m: Store, slot: nat)
    requires |before| == |after| == FLASH_SIZE && Refines(before, m) && slot < MAX_PROFILES
    requires Performs(before, after, Clear(slot))
    ensures Refines(after, Apply(m, Clear(slot)))
  {
    hide Records, SlotWords, Length, Le32;
    BlankDecodesNot();
    BlankIsTidy(SLOTS_PER_PAGE, RECORD_SIZE, DecodeRecord);
    forall other | 0 <= other < MAX_PROFILES && other != slot
      ensures Records(after, PageBase(other)) == Records(before, PageBase(other))
    {
      OtherSlot(before, after, PageBase(slot), other);
    }
    OtherWords(before, after, PageBase(slot));
    assert TidyFlash(after);
    assert Loaded(after, slot) == None;
    SameElsewhere(before, after, slot);
  }

  lemma ClearEverythingRefines(before: Cells, after: Cells)
    requires |before| == |after| == FLASH_SIZE && Performs(before, after, ClearEverything)
    ensures Refines(after, Store(map[], None))
  {
    hide Records, SlotWords, Length, Le32;
    BlankDecodesNot();
    BlankIsTidy(SLOTS_PER_PAGE, RECORD_SIZE, DecodeRecord);
    BlankIsTidy(ACTIVE_ENTRIES, 4, DecodeSlot);
  }

  lemma StepRefines(before: Cells, after: Cells, m: Store, op: Op)
    requires |before| == |after| == FLASH_SIZE && Refines(before, m) && OpOk(op)
    requires Performs(before, after, op)
    ensures Refines(after, Apply(m, op))
  {
    hide Refines;
    match op
    case SaveProfile(slot, p) => if slot < MAX_PROFILES { SaveRefines(before, after, m, slot, p); }
    case SaveActive(slot) => if slot < MAX_PROFILES { SaveActiveRefines(before, after, m, slot); }
    case Clear(slot) => if slot < MAX_PROFILES { ClearRefines(before, after, m, slot); }
    case ClearEverything => ClearEverythingRefines(before, after);
  }

  function ApplyAll(m: Store, ops: seq<Op>): Store {
    if ops == [] then m else Apply(ApplyAll(m, ops[..|ops| - 1]), ops[|ops| - 1])
  }

  /** The flash before each operation of a history, and after the last. */
  ghost predicate IsHistory(flash: seq<Cells>, ops: seq<Op>) {
    && |flash| == |ops| + 1
    && (forall i :: 0 <= i < |flash| ==> |flash[i]| == FLASH_SIZE)
    && (forall i :: 0 <= i < |ops| ==> OpOk(ops[i]))
    && (forall i :: 0 <= i < |ops| ==> Performs(flash[i], flash[i + 1], ops[i]))
  }

  /** Any history of saves and clears on a tidy flash loads as the map's history does. */
  lemma {:induction false} HistoryRefines(flash: seq<Cells>, ops: seq<Op>, m: Store)
    requires IsHistory(flash, ops) && Refines(flash[0], m)
    ensures Refines(flash[|ops|], ApplyAll(m, ops))
    decreases |ops|
  {
    hide Refines, Performs, Apply;
    if ops != [] {
      var n := |ops| - 1;
      HistoryRefines(flash[..n + 1], ops[..n], m);
      assert flash[..n + 1][n] == flash[n];
      StepRefines(flash[n], flash[n + 1], ApplyAll(m, ops[..n]), ops[n]);
    }
  }

  /** What a flash holds, once it is tidy, is some map; an erased one holds nothing. */
  function Contents(cells: Cells): Store
    requires |cells| == FLASH_SIZE
  {
    Store(map slot | 0 <= slot < MAX_PROFILES && Loaded(cells, slot).Some? :: Loaded(cells, slot).value,
          LoadedSlot(cells))
  }

  lemma TidyRefinesContents(cells: Cells)
    requires |cells| == FLASH_SIZE && TidyFlash(cells)
    ensures Refines(cells, Contents(cells))
  {}

  lemma RefinementIsUnique(cells: Cells, m: Store)
    requires |cells| == FLASH_SIZE && Refines(cells, m) && forall slot :: slot in m.profiles ==> slot < MAX_PROFILES
    ensures m == Contents(cells)
  {
    forall slot | slot in m.profiles ensures slot in Contents(cells).profiles && Contents(cells).profiles[slot] == m.profiles[slot] {
      assert Loaded(cells, slot) == Lookup(m, slot);
    }
    forall slot | slot in Contents(cells).profiles ensures slot in m.profiles {
      assert Loaded(cells, slot) == Lookup(m, slot);
    }
  }

  /** Saving into an arbitrary page is read back exactly when no other readable log
      follows the place the record is appended to. */
  lemma SaveThenLoadExactly(before: Cells, after: Cells, slot: nat, p: Profile)
    requires |before| == |after| == FLASH_SIZE && p.Valid() && slot < MAX_PROFILES
    requires Performs(before, after, SaveProfile(slot, p))
    ensures var page := Records(before, PageBase(slot));
      (Loaded(after, slot) == Some(p)) == (Appends(page, DecodeRecord) ==>
        var next := Latest(page[Length(page, DecodeRecord) + 1..], DecodeRecord);
        next == None || next == Some(p))
  {
    hide DecodeRecord, Encode, Records;
    RecordRoundTrip(p);
    BlankDecodesNot();
    SaveThenLatestExactly(Records(before, PageBase(slot)), DecodeRecord, Encode(p));
  }

  /** One such page: erased, but with an old record left in its second place. */
  lemma StaleRecordWins(p: Profile, stale: Profile)
    requires p.Valid() && stale.Valid() && p != stale
    ensures var page := BlankPage(SLOTS_PER_PAGE, RECORD_SIZE)[1 := Encode(stale)];
      && Appends(page, DecodeRecord)
      && Latest(AppendLog.Save(page, DecodeRecord, Encode(p)), DecodeRecord) == Some(stale)
  {
    hide Encode, Le32;
    RecordRoundTrip(p);
    RecordRoundTrip(stale);
    BlankDecodesNot();
    BlankIsBlank(RECORD_SIZE);
    var page := BlankPage(SLOTS_PER_PAGE, RECORD_SIZE)[1 := Encode(stale)];
    LengthUnique(page, DecodeRecord, 0);
    LengthUnique(AppendLog.Save(page, DecodeRecord, Encode(p)), DecodeRecord, 2);
  }

  /** An operation moves the contents as it moves the map, and keeps the flash tidy. */
  lemma ContentsStep(before: Cells, after: Cells, op: Op)
    requires |before| == |after| == FLASH_SIZE && TidyFlash(before) && OpOk(op)
    requires Performs(before, after, op)
    ensures TidyFlash(after) && Contents(after) == Apply(Contents(before), op)
  {
    hide Performs, TidyFlash, Loaded, LoadedSlot;
    TidyRefinesContents(before);
    StepRefines(before, after, Contents(before), op);
    RefinementIsUnique(after, Apply(Contents(before), op));
  }

  /** The pages of the store are all ones. */
  predicate Erased(cells: Cells)
    requires |cells| == FLASH_SIZE
  {
    forall i :: STORAGE_BASE <= i < ACTIVE_PAGE + PAGE_SIZE ==> cells[i] == 0xff
  }

  lemma ErasedEntry(cells: Cells, base: nat, width: nat, i: nat)
    requires |cells| == FLASH_SIZE && Erased(cells)
    requires STORAGE_BASE <= base && base + width * i + width <= ACTIVE_PAGE + PAGE_SIZE
    ensures EntryAt(cells, base, width, i) == BlankEntry(width)
  {}

  lemma ErasedPages(cells: Cells)
    requires |cells| == FLASH_SIZE && Erased(cells)
    ensures forall slot :: 0 <= slot < MAX_PROFILES ==>
      Records(cells, PageBase(slot)) == BlankPage(SLOTS_PER_PAGE, RECORD_SIZE)
    ensures SlotWords(cells) == BlankPage(ACTIVE_ENTRIES, 4)
  {
    hide EntryAt, Erased;
    forall slot | 0 <= slot < MAX_PROFILES
      ensures Records(cells, PageBase(slot)) == BlankPage(SLOTS_PER_PAGE, RECORD_SIZE)
    {
      forall i | 0 <= i < SLOTS_PER_PAGE ensures Records(cells, PageBase(slot))[i] == BlankEntry(RECORD_SIZE) {
        ErasedEntry(cells, PageBase(slot), RECORD_SIZE, i);
      }
    }
    forall i | 0 <= i < ACTIVE_ENTRIES ensures SlotWords(cells)[i] == BlankEntry(4) {
      ErasedEntry(cells, ACTIVE_PAGE, 4, i);
    }
  }

  /** An erased flash is tidy and holds nothing. */
  lemma ErasedHoldsNothing(cells: Cells)
    requires |cells| == FLASH_SIZE && Erased(cells)
    ensures TidyFlash(cells) && Contents(cells) == Store(map[], None)
  {
    hide Records, SlotWords, Erased;
    BlankDecodesNot();
    ErasedPages(cells);
    BlankIsTidy(SLOTS_PER_PAGE, RECORD_SIZE, DecodeRecord);
    BlankIsTidy(ACTIVE_ENTRIES, 4, DecodeSlot);
  }
}
