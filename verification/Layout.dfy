/** The pairing store byte by byte: where in the flash each field of a record stands, and which
    bytes make up what is loaded. Addresses are those of the flash itself. */
module Layout {
  import opened Text
  import opened Bytes
  import opened AppendLog
  import opened Storage

  /** The mark of a record, as it stands in the flash. */
  predicate HoldsMagic(cells: Cells, at: nat)
    requires at + 32 <= |cells|
  {
    cells[at] == 0x31 && cells[at + 1] == 0x4b && cells[at + 2] == 0x46 && cells[at + 3] == 0x55
  }

  predicate HoldsProfile(cells: Cells, at: nat, p: Profile)
    requires at + 32 <= |cells|
  {
    && HoldsMagic(cells, at)
    && cells[at + 4..at + 9] == p.address && cells[at + 9] == p.channel && cells[at + 12..at + 28] == p.key
    && p.counter == Value(cells[at + 28]) + 0x100 * Value(cells[at + 29]) + 0x1_0000 * Value(cells[at + 30])
                    + 0x100_0000 * Value(cells[at + 31])
  }

  lemma MagicBytes()
    ensures Value(0x31) == 0x31 && Value(0x4b) == 0x4b && Value(0x46) == 0x46 && Value(0x55) == 0x55
  {}

  lemma MagicExactly(b: Entry)
    requires |b| == 4
    ensures Le32(b) == 0x5546_4B31 <==> b == [0x31, 0x4b, 0x46, 0x55]
  {
    hide Value;
    MagicBytes();
    LowByteFirst(b);
    if Le32(b) == 0x5546_4B31 {
      ValueInjective(b[0], 0x31);
      ValueInjective(b[1], 0x4b);
      ValueInjective(b[2], 0x46);
      ValueInjective(b[3], 0x55);
    }
  }

  /** A record decodes exactly if it bears the mark, and to the profile its bytes spell. */
  lemma RecordExactly(cells: Cells, at: nat, p: Profile)
    requires at + 32 <= |cells|
    ensures DecodeRecord(cells[at..at + 32]).Some? <==> HoldsMagic(cells, at)
    ensures DecodeRecord(cells[at..at + 32]) == Some(p) <==> HoldsProfile(cells, at, p)
  {
    hide Value;
    var rec := cells[at..at + 32];
    MagicExactly(rec[..4]);
    MarkAt(cells, at);
    Inside(cells, at, 4, 9);
    Inside(cells, at, 12, 28);
    Inside(cells, at, 28, 32);
  }

  lemma Inside(cells: Cells, at: nat, a: nat, b: nat)
    requires at + 32 <= |cells| && a <= b <= 32
    ensures cells[at..at + 32][a..b] == cells[at + a..at + b]
  {
    var rec := cells[at..at + 32];
    forall i | 0 <= i < b - a ensures rec[a..b][i] == cells[at + a..at + b][i] {
      assert rec[a + i] == cells[at + (a + i)];
    }
  }

  lemma MarkAt(cells: Cells, at: nat)
    requires at + 32 <= |cells|
    ensures cells[at..at + 32][..4] == [0x31, 0x4b, 0x46, 0x55] <==> HoldsMagic(cells, at)
  {
    assert cells[at..at + 32][..4] == [cells[at], cells[at + 1], cells[at + 2], cells[at + 3]];
  }

  /** What is written for a profile: its fields in their places, and zeros in between. */
  lemma EncodedExactly(p: Profile)
    requires p.Valid()
    ensures HoldsProfile(Encode(p), 0, p) && Encode(p)[10] == 0 && Encode(p)[11] == 0
  {
    hide Le32, LeBytes, HoldsProfile;
    RecordRoundTrip(p);
    assert Encode(p)[0..0 + 32] == Encode(p);
    RecordExactly(Encode(p), 0, p);
  }

  /** Records 0 to n of the page stand one behind the other, n is the last of them and holds p. */
  predicate LastRecord(cells: Cells, base: nat, n: nat, p: Profile)
    requires base + 0x1000 <= |cells|
  {
    && n < 128
    && (forall i :: 0 <= i <= n ==> HoldsMagic(cells, base + 32 * i))
    && (n + 1 < 128 ==> !HoldsMagic(cells, base + 32 * (n + 1)))
    && HoldsProfile(cells, base + 32 * n, p)
  }

  lemma RecordPlaces(cells: Cells, slot: nat)
    requires |cells| == 0x10_0000 && slot < 4
    ensures var page, base := Records(cells, PageBase(slot)), 0xF_8000 + 0x1000 * slot;
      |page| == 128 && forall i :: 0 <= i < 128 ==> page[i] == cells[base + 32 * i..base + 32 * i + 32]
  {}

  /** The slot's page is one of four from 0xF8000 on; loading it gives the profile of its last
      record, and nothing exactly if its first place bears no mark. */
  lemma LoadedExactly(cells: Cells, slot: nat, p: Profile)
    requires |cells| == 0x10_0000 && slot < 4
    ensures var base := 0xF_8000 + 0x1000 * slot;
      && (Loaded(cells, slot) == Some(p) <==> exists n: nat :: LastRecord(cells, base, n, p))
      && (Loaded(cells, slot) == None <==> !HoldsMagic(cells, base))
  {
    hide DecodeRecord, HoldsMagic, HoldsProfile, Records, EntryAt;
    var base, page := 0xF_8000 + 0x1000 * slot, Records(cells, PageBase(slot));
    RecordPlaces(cells, slot);
    forall i | 0 <= i < 128
      ensures DecodeRecord(page[i]).Some? <==> HoldsMagic(cells, base + 32 * i)
      ensures DecodeRecord(page[i]) == Some(p) <==> HoldsProfile(cells, base + 32 * i, p)
    {
      RecordExactly(cells, base + 32 * i, p);
    }
    var k := Length(page, DecodeRecord);
    forall i | 0 <= i < k ensures HoldsMagic(cells, base + 32 * i) { assert DecodeRecord(page[i]).Some?; }
    if k > 0 && Loaded(cells, slot) == Some(p) {
      var n := k - 1;
      assert HoldsProfile(cells, base + 32 * n, p) by { assert DecodeRecord(page[n]) == Some(p); }
      assert k < 128 ==> !HoldsMagic(cells, base + 32 * (n + 1)) by {
        assert k < 128 ==> DecodeRecord(page[n + 1]).None?;
      }
      assert LastRecord(cells, base, n, p);
    }
    if n: nat :| LastRecord(cells, base, n, p) { LengthUnique(page, DecodeRecord, n + 1); }
  }

  /** The word at a place of the active-slot page. */
  function WordAt(cells: Cells, i: nat): nat
    requires |cells| == 0x10_0000 && i < 1024
  {
    var at := 0xF_C000 + 4 * i;
    Value(cells[at]) + 0x100 * Value(cells[at + 1]) + 0x1_0000 * Value(cells[at + 2]) + 0x100_0000 * Value(cells[at + 3])
  }

  predicate LastWord(cells: Cells, n: nat, slot: nat)
    requires |cells| == 0x10_0000
  {
    && n < 1024 && (forall i :: 0 <= i <= n ==> WordAt(cells, i) < 4)
    && (n + 1 < 1024 ==> WordAt(cells, n + 1) >= 4) && WordAt(cells, n) == slot
  }

  lemma WordPlaces(cells: Cells)
    requires |cells| == 0x10_0000
    ensures var page := SlotWords(cells);
      |page| == 1024 && forall i :: 0 <= i < 1024 ==>
        DecodeSlot(page[i]) == if WordAt(cells, i) < 4 then Some(WordAt(cells, i)) else None
  {
    hide Value;
  }

  /** The active slot is the last of the little-endian words below four from 0xFC000 on. */
  lemma ActiveExactly(cells: Cells, slot: nat)
    requires |cells| == 0x10_0000
    ensures LoadedSlot(cells) == Some(slot) <==> exists n: nat :: LastWord(cells, n, slot)
    ensures LoadedSlot(cells) == None <==> WordAt(cells, 0) >= 4
  {
    hide DecodeSlot, WordAt, SlotWords;
    var page := SlotWords(cells);
    WordPlaces(cells);
    var k := Length(page, DecodeSlot);
    if k > 0 && LoadedSlot(cells) == Some(slot) { assert LastWord(cells, k - 1, slot); }
    if n: nat :| LastWord(cells, n, slot) { LengthUnique(page, DecodeSlot, n + 1); }
  }
}
