/** The pairing store: four profile logs and the active-slot log, one per page of NOR
    flash, where programming can only clear bits and erasing works on whole pages. */
module Storage {
  import opened Text
  import opened Bytes
  import opened AppendLog

  const FLASH_SIZE := 0x10_0000
  const STORAGE_BASE := 0xF_8000
  const PAGE_SIZE := 4096
  const RECORD_SIZE := 32
  const SLOTS_PER_PAGE := 128
  const MAX_PROFILES := 4
  const ACTIVE_PAGE := 0xF_C000
  const ACTIVE_ENTRIES := 1024
  const MAGIC := 0x5546_4B31

  // ---- Records ----

  datatype Profile = Profile(address: seq<bv8>, key: seq<bv8>, counter: nat, channel: bv8) {
    predicate Valid() { |address| == 5 && |key| == 16 && counter < 0x1_0000_0000 }
  }

  function Encode(p: Profile): (rec: Entry)
    requires p.Valid()
    ensures |rec| == RECORD_SIZE
  {
    LeBytes(MAGIC) + p.address + [p.channel] + [0, 0] + p.key + LeBytes(p.counter)
  }

  function DecodeRecord(rec: Entry): (p: Option<Profile>)
    ensures p.Some? ==> p.value.Valid()
  {
    if |rec| != RECORD_SIZE || Le32(rec[..4]) != MAGIC then None
    else Some(Profile(rec[4..9], rec[12..28], Le32(rec[28..32]), rec[9]))
  }

  function EncodeSlot(slot: nat): (e: Entry)
    requires slot < MAX_PROFILES
    ensures |e| == 4
  {
    LeBytes(slot)
  }

  function DecodeSlot(e: Entry): (slot: Option<nat>)
    ensures slot.Some? ==> slot.value < MAX_PROFILES
  {
    if |e| != 4 || Le32(e) >= MAX_PROFILES then None else Some(Le32(e))
  }

  lemma RecordRoundTrip(p: Profile)
    requires p.Valid()
    ensures DecodeRecord(Encode(p)) == Some(p)
  {
    hide Le32, LeBytes;
    LeRoundTrip(MAGIC);
    LeRoundTrip(p.counter);
    var rec := Encode(p);
    assert rec[..4] == LeBytes(MAGIC) && rec[28..32] == LeBytes(p.counter);
    assert rec[4..9] == p.address && rec[12..28] == p.key && rec[9] == p.channel;
  }

  lemma SlotRoundTrip(slot: nat)
    requires slot < MAX_PROFILES
    ensures DecodeSlot(EncodeSlot(slot)) == Some(slot)
  {
    LeRoundTrip(slot);
  }

  lemma AllOnes()
    ensures Value(0xff) == 255
  {}

  lemma BlankDecodesNot()
    ensures DecodeRecord(BlankEntry(RECORD_SIZE)) == None && DecodeSlot(BlankEntry(4)) == None
  {
    AllOnes();
    hide Value;
    assert BlankEntry(RECORD_SIZE)[..4] == BlankEntry(4);
  }

  /** A free active-slot word is the value the source compares with u32::MAX. */
  lemma BlankWord(e: Entry)
    requires |e| == 4
    ensures IsBlank(e) <==> Le32(e) == 0xffff_ffff
  {
    AllOnes();
    hide Value;
    if Le32(e) == 0xffff_ffff {
      forall i | 0 <= i < 4 ensures e[i] == 0xff {
        assert Value(e[i]) == 255;
        ValueInjective(e[i], 0xff);
      }
    }
  }

  // ---- Flash ----

  /** Programming clears bits; it never sets one. */
  function Program(old_: Entry, new_: Entry): (r: Entry)
    requires |old_| == |new_|
    ensures |r| == |old_|
  {
    seq(|old_|, i requires 0 <= i < |old_| => old_[i] & new_[i])
  }

  lemma AndOnes(b: bv8)
    ensures 0xff & b == b
  {}

  lemma ProgramBlank(e: Entry)
    ensures Program(BlankEntry(|e|), e) == e
  {
    forall i | 0 <= i < |e| ensures Program(BlankEntry(|e|), e)[i] == e[i] { AndOnes(e[i]); }
  }

  type Cells = seq<bv8>

  class Nvmc {
    var cells: Cells
    /** Start addresses of the pages erased so far, in order. */
    var erasures: seq<nat>
    /** Programming operations that met a bit already cleared. */
    var dirtyWrites: nat

    ghost predicate Valid() reads this { |cells| == FLASH_SIZE }

    constructor (initial: Cells)
      requires |initial| == FLASH_SIZE
      ensures Valid() && cells == initial && erasures == [] && dirtyWrites == 0
    {
      cells, erasures, dirtyWrites := initial, [], 0;
    }

    method Read(offset: nat, n: nat) returns (r: Option<Entry>)
      requires Valid()
      ensures r == if offset + n <= FLASH_SIZE then Some(cells[offset..offset + n]) else None
    {
      if offset + n > FLASH_SIZE { return None; }
      r := Some(cells[offset..offset + n]);
    }

    method Erase(from: nat, to: nat) returns (ok: bool)
      requires Valid() && from <= to
      modifies this`cells, this`erasures
      ensures Valid()
      ensures ok == (to <= FLASH_SIZE && from % PAGE_SIZE == 0 && to % PAGE_SIZE == 0)
      ensures cells == if ok then Overwrite(old(cells), from, BlankEntry(to - from)) else old(cells)
      ensures erasures == old(erasures) + if ok then PagesFrom(from, (to - from) / PAGE_SIZE) else []
    {
      ok := to <= FLASH_SIZE && from % PAGE_SIZE == 0 && to % PAGE_SIZE == 0;
      if ok {
        cells := Overwrite(cells, from, BlankEntry(to - from));
        erasures := erasures + PagesFrom(from, (to - from) / PAGE_SIZE);
      }
    }

    method Write(offset: nat, bytes: Entry) returns (ok: bool)
      requires Valid()
      modifies this`cells, this`dirtyWrites
      ensures Valid()
      ensures ok == (offset + |bytes| <= FLASH_SIZE && offset % 4 == 0 && |bytes| % 4 == 0)
      ensures cells == if ok then Overwrite(old(cells), offset, Program(old(cells)[offset..offset + |bytes|], bytes))
                       else old(cells)
      ensures dirtyWrites == old(dirtyWrites)
                           + if ok && !IsBlank(old(cells)[offset..offset + |bytes|]) then 1 else 0
    {
      ok := offset + |bytes| <= FLASH_SIZE && offset % 4 == 0 && |bytes| % 4 == 0;
      if ok {
        var before := cells[offset..offset + |bytes|];
        if !IsBlank(before) { dirtyWrites := dirtyWrites + 1; }
        cells := Overwrite(cells, offset, Program(before, bytes));
      }
    }
  }

  function PagesFrom(from: nat, n: nat): seq<nat>
    decreases n
  {
    if n == 0 then [] else [from] + PagesFrom(from + PAGE_SIZE, n - 1)
  }

  lemma OnePage(base: nat)
    ensures PagesFrom(base, 1) == [base]
  {}

  // ---- A page of the flash as a log ----

  function EntryAt(cells: Cells, base: nat, width: nat, i: nat): (e: Entry)
    requires base + width * i + width <= |cells|
    ensures |e| == width
  {
    cells[base + width * i..base + width * i + width]
  }

  function Records(cells: Cells, base: nat): (p: Page)
    requires base + PAGE_SIZE <= |cells|
    ensures |p| == SLOTS_PER_PAGE && forall i :: 0 <= i < SLOTS_PER_PAGE ==> |p[i]| == RECORD_SIZE
  {
    seq(SLOTS_PER_PAGE, i requires 0 <= i < SLOTS_PER_PAGE => EntryAt(cells, base, RECORD_SIZE, i))
  }

  function SlotWords(cells: Cells): (p: Page)
    requires |cells| == FLASH_SIZE
    ensures |p| == ACTIVE_ENTRIES && forall i :: 0 <= i < ACTIVE_ENTRIES ==> |p[i]| == 4
  {
    seq(ACTIVE_ENTRIES, i requires 0 <= i < ACTIVE_ENTRIES => EntryAt(cells, ACTIVE_PAGE, 4, i))
  }

  function PageBase(slot: nat): nat { STORAGE_BASE + PAGE_SIZE * slot }

  function Loaded(cells: Cells, slot: nat): (p: Option<Profile>)
    requires |cells| == FLASH_SIZE
    ensures p.Some? ==> p.value.Valid()
  {
    if slot >= MAX_PROFILES then None else Latest(Records(cells, PageBase(slot)), DecodeRecord)
  }

  function LoadedSlot(cells: Cells): (s: Option<nat>)
    requires |cells| == FLASH_SIZE
    ensures s.Some? ==> s.value < MAX_PROFILES
  {
    Latest(SlotWords(cells), DecodeSlot)
  }

  /** The bytes of one page may differ, no others. */
  ghost predicate OnlyPage(before: Cells, after: Cells, base: nat) {
    && |before| == |after| && base + PAGE_SIZE <= |before|
    && before[..base] == after[..base] && before[base + PAGE_SIZE..] == after[base + PAGE_SIZE..]
  }

  lemma OtherPage(before: Cells, after: Cells, base: nat, a: nat, b: nat)
    requires OnlyPage(before, after, base) && a <= b <= |before|
    requires b <= base || base + PAGE_SIZE <= a
    ensures before[a..b] == after[a..b]
  {
    if b <= base {
      assert before[a..b] == before[..base][a..b] && after[a..b] == after[..base][a..b];
    } else {
      var c := base + PAGE_SIZE;
      assert before[a..b] == before[c..][a - c..b - c] && after[a..b] == after[c..][a - c..b - c];
    }
  }

  lemma OtherRecords(before: Cells, after: Cells, base: nat, other: nat)
    requires OnlyPage(before, after, base) && other + PAGE_SIZE <= |before|
    requires other + PAGE_SIZE <= base || base + PAGE_SIZE <= other
    ensures Records(before, other) == Records(after, other)
  {
    forall i | 0 <= i < SLOTS_PER_PAGE ensures Records(before, other)[i] == Records(after, other)[i] {
      OtherPage(before, after, base, other + RECORD_SIZE * i, other + RECORD_SIZE * i + RECORD_SIZE);
    }
  }

  lemma OtherWords(before: Cells, after: Cells, base: nat)
    requires OnlyPage(before, after, base) && |before| == FLASH_SIZE
    requires ACTIVE_PAGE + PAGE_SIZE <= base || base + PAGE_SIZE <= ACTIVE_PAGE
    ensures SlotWords(before) == SlotWords(after)
  {
    forall i | 0 <= i < ACTIVE_ENTRIES ensures SlotWords(before)[i] == SlotWords(after)[i] {
      OtherPage(before, after, base, ACTIVE_PAGE + 4 * i, ACTIVE_PAGE + 4 * i + 4);
    }
  }

  lemma OverwriteSame(cells: Cells, at: nat, e: Entry)
    requires at + |e| <= |cells|
    ensures Overwrite(cells, at, e)[at..at + |e|] == e
  {}

  lemma OverwriteElsewhere(cells: Cells, at: nat, e: Entry, a: nat, b: nat)
    requires at + |e| <= |cells| && a <= b <= |cells| && (b <= at || at + |e| <= a)
    ensures Overwrite(cells, at, e)[a..b] == cells[a..b]
  {
    hide Overwrite;
    forall k | a <= k < b ensures Overwrite(cells, at, e)[k] == cells[k] { OverwriteAt(cells, at, e, k); }
  }

  lemma OverwriteBlankPage(cells: Cells, base: nat, width: nat, i: nat)
    requires base + PAGE_SIZE <= |cells| && width * i + width <= PAGE_SIZE
    ensures EntryAt(Overwrite(cells, base, BlankEntry(PAGE_SIZE)), base, width, i) == BlankEntry(width)
  {
    BlankInside(cells, base, PAGE_SIZE, base + width * i, width);
  }

  // ---- What the operations do ----

  datatype Op = SaveProfile(slot: nat, profile: Profile) | SaveActive(slot: nat) | Clear(slot: nat) | ClearEverything

  /** The bytes one operation may leave behind, for every operation of the store. */
  ghost predicate Performs(before: Cells, after: Cells, op: Op)
    requires |before| == |after| == FLASH_SIZE
    requires op.SaveProfile? ==> op.profile.Valid()
  {
    match op
    case SaveProfile(slot, profile) =>
      if slot >= MAX_PROFILES then after == before else
        && Records(after, PageBase(slot))
             == AppendLog.Save(Records(before, PageBase(slot)), DecodeRecord, Encode(profile))
        && OnlyPage(before, after, PageBase(slot))
    case SaveActive(slot) =>
      if slot >= MAX_PROFILES then after == before else
        && SlotWords(after) == AppendLog.Save(SlotWords(before), DecodeSlot, EncodeSlot(slot))
        && OnlyPage(before, after, ACTIVE_PAGE)
    case Clear(slot) =>
      if slot >= MAX_PROFILES then after == before else
        && Records(after, PageBase(slot)) == BlankPage(SLOTS_PER_PAGE, RECORD_SIZE)
        && OnlyPage(before, after, PageBase(slot))
    case ClearEverything =>
      && (forall slot :: 0 <= slot < MAX_PROFILES ==>
            Records(after, PageBase(slot)) == BlankPage(SLOTS_PER_PAGE, RECORD_SIZE))
      && SlotWords(after) == BlankPage(ACTIVE_ENTRIES, 4)
      && after[..STORAGE_BASE] == before[..STORAGE_BASE]
      && after[ACTIVE_PAGE + PAGE_SIZE..] == before[ACTIVE_PAGE + PAGE_SIZE..]
  }

  /** The pages an operation erases. */
  function Erasing(before: Cells, op: Op): seq<nat>
    requires |before| == FLASH_SIZE
  {
    match op
    case SaveProfile(slot, _) =>
      if slot >= MAX_PROFILES || Appends(Records(before, PageBase(slot)), DecodeRecord) then [] else [PageBase(slot)]
    case SaveActive(slot) =>
      if slot >= MAX_PROFILES || Appends(SlotWords(before), DecodeSlot) then [] else [ACTIVE_PAGE]
    case Clear(slot) => if slot >= MAX_PROFILES then [] else [PageBase(slot)]
    case ClearEverything => [PageBase(0), PageBase(1), PageBase(2), PageBase(3), ACTIVE_PAGE]
  }

  lemma FivePages()
    ensures PagesFrom(STORAGE_BASE, 5) == [PageBase(0), PageBase(1), PageBase(2), PageBase(3), ACTIVE_PAGE]
  {
    assert PagesFrom(ACTIVE_PAGE, 1) == [ACTIVE_PAGE];
    assert PagesFrom(PageBase(3), 2) == [PageBase(3), ACTIVE_PAGE];
    assert PagesFrom(PageBase(2), 3) == [PageBase(2), PageBase(3), ACTIVE_PAGE];
    assert PagesFrom(PageBase(1), 4) == [PageBase(1), PageBase(2), PageBase(3), ACTIVE_PAGE];
  }

  // ---- Load and save ----

  method Load(flash: Nvmc, slot: nat) returns (latest: Option<Profile>)
    requires flash.Valid()
    ensures latest == Loaded(flash.cells, slot)
  {
    hide DecodeRecord;
    latest := None;
    if slot >= MAX_PROFILES { return; }
    var base := PageBase(slot);
    ghost var page := Records(flash.cells, base);
    for i := 0 to SLOTS_PER_PAGE
      invariant forall j :: 0 <= j < i ==> DecodeRecord(page[j]).Some?
      invariant latest == if i == 0 then None else DecodeRecord(page[i - 1])
    {
      var rec := flash.Read(base + i * RECORD_SIZE, RECORD_SIZE);
      if rec == None { break; }
      assert rec.value == page[i];
      var profile := DecodeRecord(rec.value);
      if profile == None {
        LengthUnique(page, DecodeRecord, i);
        return;
      }
      latest := profile;
    }
    LengthUnique(page, DecodeRecord, SLOTS_PER_PAGE);
  }

  method LoadActiveSlot(flash: Nvmc) returns (latest: Option<nat>)
    requires flash.Valid()
    ensures latest == LoadedSlot(flash.cells)
  {
    latest := None;
    ghost var page := SlotWords(flash.cells);
    for i := 0 to ACTIVE_ENTRIES
      invariant forall j :: 0 <= j < i ==> DecodeSlot(page[j]).Some?
      invariant latest == if i == 0 then None else DecodeSlot(page[i - 1])
    {
      var word := flash.Read(ACTIVE_PAGE + i * 4, 4);
      if word == None { break; }
      assert word.value == page[i];
      var value := Le32(word.value);
      if value >= MAX_PROFILES {
        LengthUnique(page, DecodeSlot, i);
        return;
      }
      latest := Some(value);
    }
    LengthUnique(page, DecodeSlot, ACTIVE_ENTRIES);
  }

  method Save(flash: Nvmc, slot: nat, profile: Profile)
    requires flash.Valid() && profile.Valid()
    modifies flash
    ensures flash.Valid() && flash.dirtyWrites == old(flash.dirtyWrites)
    ensures Performs(old(flash.cells), flash.cells, SaveProfile(slot, profile))
    ensures flash.erasures == old(flash.erasures) + Erasing(old(flash.cells), SaveProfile(slot, profile))
  {
    hide Overwrite, Program, DecodeRecord, Encode, IsBlank, Records, OnlyPage, PagesFrom;
    if slot >= MAX_PROFILES { return; }
    var base := PageBase(slot);
    var next := FreeRecord(flash, slot);
    if next >= SLOTS_PER_PAGE {
      OnePage(base);
      var erased := flash.Erase(base, base + PAGE_SIZE);
      if !erased { return; }
      next := 0;
      ErasedRecords(old(flash.cells), base);
      BlankIsBlank(RECORD_SIZE);
    }
    ghost var ready := flash.cells;
    WriteRecord(flash, base, next, Encode(profile));
    OnlyPageTwice(old(flash.cells), ready, flash.cells, base);
  }

  /** A record goes into a blank place. */
  method WriteRecord(flash: Nvmc, base: nat, next: nat, rec: Entry)
    requires flash.Valid() && base + PAGE_SIZE <= FLASH_SIZE && base % 4 == 0
    requires next < SLOTS_PER_PAGE && |rec| == RECORD_SIZE && IsBlank(Records(flash.cells, base)[next])
    modifies flash`cells, flash`dirtyWrites
    ensures flash.Valid() && flash.dirtyWrites == old(flash.dirtyWrites)
    ensures Records(flash.cells, base) == Records(old(flash.cells), base)[next := rec]
    ensures OnlyPage(old(flash.cells), flash.cells, base)
  {
    hide Overwrite, Program, IsBlank, Records, OnlyPage;
    ProgramRecord(flash.cells, base, next, rec);
    var _ := flash.Write(base + next * RECORD_SIZE, rec);
  }

  lemma BlankIsBlank(width: nat)
    ensures IsBlank(BlankEntry(width))
  {}

  lemma OnlyPageTwice(a: Cells, b: Cells, c: Cells, base: nat)
    requires OnlyPage(b, c, base) && (a == b || OnlyPage(a, b, base))
    ensures OnlyPage(a, c, base)
  {}

  /** Where the next record goes, or SLOTS_PER_PAGE when the page has to be erased first. */
  method FreeRecord(flash: Nvmc, slot: nat) returns (next: nat)
    requires flash.Valid() && slot < MAX_PROFILES
    ensures var page := Records(flash.cells, PageBase(slot));
      next == if Appends(page, DecodeRecord) then Length(page, DecodeRecord) else SLOTS_PER_PAGE
  {
    hide DecodeRecord, IsBlank;
    var base := PageBase(slot);
    ghost var page := Records(flash.cells, base);
    next := SLOTS_PER_PAGE;
    var i := 0;
    while i < SLOTS_PER_PAGE
      invariant i <= SLOTS_PER_PAGE && next == SLOTS_PER_PAGE
      invariant forall j :: 0 <= j < i ==> DecodeRecord(page[j]).Some?
    {
      var rec := flash.Read(base + i * RECORD_SIZE, RECORD_SIZE);
      if rec == None { break; }
      assert rec.value == page[i];
      if DecodeRecord(rec.value) == None {
        // Not decodable is not the same as erased: only an all-ones place may be programmed.
        next := if IsBlank(rec.value) then i else SLOTS_PER_PAGE;
        break;
      }
      i := i + 1;
    }
    LengthUnique(page, DecodeRecord, i);
  }

  /** Writing a record over a blank place of a page of records. */
  lemma ProgramRecord(cells: Cells, base: nat, k: nat, e: Entry)
    requires base + PAGE_SIZE <= |cells| && k < SLOTS_PER_PAGE && |e| == RECORD_SIZE
    requires IsBlank(Records(cells, base)[k])
    ensures var at := base + k * RECORD_SIZE;
            var after := Overwrite(cells, at, Program(cells[at..at + RECORD_SIZE], e));
      && Records(after, base) == Records(cells, base)[k := e]
      && OnlyPage(cells, after, base)
      && IsBlank(cells[at..at + RECORD_SIZE])
  {
    var at := base + k * RECORD_SIZE;
    assert cells[at..at + RECORD_SIZE] == Records(cells, base)[k];
    assert Records(cells, base)[k] == BlankEntry(RECORD_SIZE);
    ProgramBlank(e);
    var after := Overwrite(cells, at, e);
    forall i | 0 <= i < SLOTS_PER_PAGE
      ensures Records(after, base)[i] == Records(cells, base)[k := e][i]
    {
      if i == k { OverwriteSame(cells, at, e); }
      else { OverwriteElsewhere(cells, at, e, base + RECORD_SIZE * i, base + RECORD_SIZE * i + RECORD_SIZE); }
    }
  }

  lemma ErasedRecords(cells: Cells, base: nat)
    requires base + PAGE_SIZE <= |cells|
    ensures var after := Overwrite(cells, base, BlankEntry(PAGE_SIZE));
      Records(after, base) == BlankPage(SLOTS_PER_PAGE, RECORD_SIZE) && OnlyPage(cells, after, base)
  {
    var after := Overwrite(cells, base, BlankEntry(PAGE_SIZE));
    forall i | 0 <= i < SLOTS_PER_PAGE ensures Records(after, base)[i] == BlankEntry(RECORD_SIZE) {
      OverwriteBlankPage(cells, base, RECORD_SIZE, i);
    }
  }

  method SaveActiveSlot(flash: Nvmc, slot: nat)
    requires flash.Valid()
    modifies flash
    ensures flash.Valid() && flash.dirtyWrites == old(flash.dirtyWrites)
    ensures Performs(old(flash.cells), flash.cells, SaveActive(slot))
    ensures flash.erasures == old(flash.erasures) + Erasing(old(flash.cells), SaveActive(slot))
  {
    hide Overwrite, Program, DecodeSlot, EncodeSlot, IsBlank, SlotWords, OnlyPage, PagesFrom;
    if slot >= MAX_PROFILES { return; }
    var next := FreeWord(flash);
    if next >= ACTIVE_ENTRIES {
      OnePage(ACTIVE_PAGE);
      var erased := flash.Erase(ACTIVE_PAGE, ACTIVE_PAGE + PAGE_SIZE);
      if !erased { return; }
      next := 0;
      ErasedWords(old(flash.cells));
      BlankIsBlank(4);
    }
    ghost var ready := flash.cells;
    WriteWord(flash, next, EncodeSlot(slot));
    OnlyPageTwice(old(flash.cells), ready, flash.cells, ACTIVE_PAGE);
  }

  /** A slot number goes into a free word. */
  method WriteWord(flash: Nvmc, next: nat, word: Entry)
    requires flash.Valid() && next < ACTIVE_ENTRIES && |word| == 4 && IsBlank(SlotWords(flash.cells)[next])
    modifies flash`cells, flash`dirtyWrites
    ensures flash.Valid() && flash.dirtyWrites == old(flash.dirtyWrites)
    ensures SlotWords(flash.cells) == SlotWords(old(flash.cells))[next := word]
    ensures OnlyPage(old(flash.cells), flash.cells, ACTIVE_PAGE)
  {
    hide Overwrite, Program, IsBlank, SlotWords, OnlyPage;
    ProgramWord(flash.cells, next, word);
    var _ := flash.Write(ACTIVE_PAGE + next * 4, word);
  }

  method FreeWord(flash: Nvmc) returns (next: nat)
    requires flash.Valid()
    ensures var page := SlotWords(flash.cells);
      next == if Appends(page, DecodeSlot) then Length(page, DecodeSlot) else ACTIVE_ENTRIES
  {
    hide IsBlank;
    ghost var page := SlotWords(flash.cells);
    next := ACTIVE_ENTRIES;
    var i := 0;
    while i < ACTIVE_ENTRIES
      invariant i <= ACTIVE_ENTRIES && next == ACTIVE_ENTRIES
      invariant forall j :: 0 <= j < i ==> DecodeSlot(page[j]).Some?
    {
      var word := flash.Read(ACTIVE_PAGE + i * 4, 4);
      if word == None { break; }
      assert word.value == page[i];
      var value := Le32(word.value);
      if value >= MAX_PROFILES {
        BlankWord(word.value);
        next := if value == 0xffff_ffff then i else ACTIVE_ENTRIES;
        break;
      }
      i := i + 1;
    }
    LengthUnique(page, DecodeSlot, i);
  }

  lemma ProgramWord(cells: Cells, k: nat, e: Entry)
    requires |cells| == FLASH_SIZE && k < ACTIVE_ENTRIES && |e| == 4
    requires IsBlank(SlotWords(cells)[k])
    ensures var at := ACTIVE_PAGE + k * 4;
            var after := Overwrite(cells, at, Program(cells[at..at + 4], e));
      && SlotWords(after) == SlotWords(cells)[k := e]
      && OnlyPage(cells, after, ACTIVE_PAGE)
      && IsBlank(cells[at..at + 4])
  {
    var at := ACTIVE_PAGE + k * 4;
    assert cells[at..at + 4] == SlotWords(cells)[k];
    assert SlotWords(cells)[k] == BlankEntry(4);
    ProgramBlank(e);
    var after := Overwrite(cells, at, e);
    forall i | 0 <= i < ACTIVE_ENTRIES ensures SlotWords(after)[i] == SlotWords(cells)[k := e][i] {
      if i == k { OverwriteSame(cells, at, e); }
      else { OverwriteElsewhere(cells, at, e, ACTIVE_PAGE + 4 * i, ACTIVE_PAGE + 4 * i + 4); }
    }
  }

  lemma ErasedWords(cells: Cells)
    requires |cells| == FLASH_SIZE
    ensures var after := Overwrite(cells, ACTIVE_PAGE, BlankEntry(PAGE_SIZE));
      SlotWords(after) == BlankPage(ACTIVE_ENTRIES, 4) && OnlyPage(cells, after, ACTIVE_PAGE)
  {
    var after := Overwrite(cells, ACTIVE_PAGE, BlankEntry(PAGE_SIZE));
    forall i | 0 <= i < ACTIVE_ENTRIES ensures SlotWords(after)[i] == BlankEntry(4) {
      OverwriteBlankPage(cells, ACTIVE_PAGE, 4, i);
    }
  }

  method ClearSlot(flash: Nvmc, slot: nat)
    requires flash.Valid()
    modifies flash
    ensures flash.Valid() && flash.dirtyWrites == old(flash.dirtyWrites)
    ensures Performs(old(flash.cells), flash.cells, Clear(slot))
    ensures flash.erasures == old(flash.erasures) + Erasing(old(flash.cells), Clear(slot))
  {
    if slot >= MAX_PROFILES { return; }
    var base := PageBase(slot);
    ErasedRecords(flash.cells, base);
    OnePage(base);
    var _ := flash.Erase(base, base + PAGE_SIZE);
  }

  /** Erases the four profile pages and, right behind them, the active-slot page. */
  method ClearAll(flash: Nvmc)
    requires flash.Valid()
    modifies flash
    ensures flash.Valid() && flash.dirtyWrites == old(flash.dirtyWrites)
    ensures Performs(old(flash.cells), flash.cells, ClearEverything)
    ensures flash.erasures == old(flash.erasures) + Erasing(old(flash.cells), ClearEverything)
  {
    ghost var before := flash.cells;
    FivePages();
    var _ := flash.Erase(STORAGE_BASE, ACTIVE_PAGE + PAGE_SIZE);
    var blank := BlankEntry(ACTIVE_PAGE + PAGE_SIZE - STORAGE_BASE);
    forall slot | 0 <= slot < MAX_PROFILES
      ensures Records(flash.cells, PageBase(slot)) == BlankPage(SLOTS_PER_PAGE, RECORD_SIZE)
    {
      forall i | 0 <= i < SLOTS_PER_PAGE
        ensures Records(flash.cells, PageBase(slot))[i] == BlankEntry(RECORD_SIZE)
      {
        BlankInside(before, STORAGE_BASE, |blank|, PageBase(slot) + RECORD_SIZE * i, RECORD_SIZE);
      }
    }
    forall i | 0 <= i < ACTIVE_ENTRIES ensures SlotWords(flash.cells)[i] == BlankEntry(4) {
      BlankInside(before, STORAGE_BASE, |blank|, ACTIVE_PAGE + 4 * i, 4);
    }
  }

  lemma BlankInside(cells: Cells, from: nat, n: nat, a: nat, width: nat)
    requires from + n <= |cells| && from <= a && a + width <= from + n
    ensures Overwrite(cells, from, BlankEntry(n))[a..a + width] == BlankEntry(width)
  {
    hide Overwrite;
    forall k | a <= k < a + width ensures Overwrite(cells, from, BlankEntry(n))[k] == 0xff {
      OverwriteAt(cells, from, BlankEntry(n), k);
    }
  }
}
