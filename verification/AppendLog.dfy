/** The append-only log kept in one flash page: entries are added one after another,
    the page is erased only when the next place is missing or dirty, and reading
    takes the last entry before the first one that does not decode. */
module AppendLog {
  import opened Text

  type Entry = seq<bv8>
  type Page = seq<Entry>

  function BlankEntry(width: nat): (e: Entry)
    ensures |e| == width
  {
    seq(width, i => 0xff)
  }

  predicate IsBlank(e: Entry) { forall i :: 0 <= i < |e| ==> e[i] == 0xff }

  function BlankPage(n: nat, width: nat): (p: Page)
    ensures |p| == n && forall i :: 0 <= i < n ==> p[i] == BlankEntry(width)
  {
    seq(n, i => BlankEntry(width))
  }

  /** How many entries decode before the first one that does not. */
  function Length<T>(page: Page, decode: Entry -> Option<T>): (k: nat)
    ensures k <= |page|
    ensures forall i :: 0 <= i < k ==> decode(page[i]).Some?
    ensures k < |page| ==> decode(page[k]).None?
  {
    if page == [] || decode(page[0]).None? then 0 else 1 + Length(page[1..], decode)
  }

  function Latest<T>(page: Page, decode: Entry -> Option<T>): Option<T> {
    var k := Length(page, decode);
    if k == 0 then None else decode(page[k - 1])
  }

  /** Nothing decodes after the first entry that does not; dirty tails are allowed. */
  predicate Tidy<T>(page: Page, decode: Entry -> Option<T>) {
    forall i :: Length(page, decode) <= i < |page| ==> decode(page[i]).None?
  }

  predicate Appends<T>(page: Page, decode: Entry -> Option<T>) {
    var k := Length(page, decode);
    k < |page| && IsBlank(page[k])
  }

  /** Appending, or starting the page afresh. */
  function Save<T>(page: Page, decode: Entry -> Option<T>, e: Entry): (r: Page)
    requires |page| > 0
    ensures |r| == |page|
  {
    if Appends(page, decode) then page[Length(page, decode) := e]
    else BlankPage(|page|, |e|)[0 := e]
  }

  lemma {:induction false} LengthUnique<T>(page: Page, decode: Entry -> Option<T>, k: nat)
    requires k <= |page| && (forall i :: 0 <= i < k ==> decode(page[i]).Some?)
    requires k < |page| ==> decode(page[k]).None?
    ensures Length(page, decode) == k
    decreases k
  {
    if k > 0 { LengthUnique(page[1..], decode, k - 1); }
  }

  /** On a tidy page the entry just saved is the one read back, and the page stays tidy. */
  lemma SaveThenLatest<T>(page: Page, decode: Entry -> Option<T>, e: Entry)
    requires |page| > 0 && Tidy(page, decode)
    requires decode(e).Some? && decode(BlankEntry(|e|)).None?
    ensures Tidy(Save(page, decode, e), decode)
    ensures Latest(Save(page, decode, e), decode) == decode(e)
    ensures Length(Save(page, decode, e), decode)
         == if Appends(page, decode) then Length(page, decode) + 1 else 1
  {
    var r := Save(page, decode, e);
    LengthUnique(r, decode, if Appends(page, decode) then Length(page, decode) + 1 else 1);
  }

  lemma BlankIsTidy<T>(n: nat, width: nat, decode: Entry -> Option<T>)
    requires decode(BlankEntry(width)).None?
    ensures Tidy(BlankPage(n, width), decode) && Latest(BlankPage(n, width), decode) == None
  {
    LengthUnique(BlankPage(n, width), decode, 0);
  }

  /** On an arbitrary page the saved entry is read back exactly when what follows the
      place it is appended to holds no other readable log. */
  lemma SaveThenLatestExactly<T>(page: Page, decode: Entry -> Option<T>, e: Entry)
    requires |page| > 0 && decode(e).Some? && decode(BlankEntry(|e|)).None?
    ensures Latest(Save(page, decode, e), decode) == decode(e)
       <==> (Appends(page, decode) ==>
               var after := Latest(page[Length(page, decode) + 1..], decode);
               after == None || after == decode(e))
  {
    hide Length;
    if Appends(page, decode) {
      AppendBefore(page, decode, Length(page, decode), e);
    } else {
      LengthUnique(Save(page, decode, e), decode, 1);
    }
  }

  /** An entry put in the first unreadable place joins what is readable behind it. */
  lemma AppendBefore<T>(page: Page, decode: Entry -> Option<T>, k: nat, e: Entry)
    requires k < |page| && k == Length(page, decode) && decode(e).Some?
    ensures var m := Length(page[k + 1..], decode);
      Length(page[k := e], decode) == k + 1 + m
      && Latest(page[k := e], decode) == if m == 0 then decode(e) else Latest(page[k + 1..], decode)
  {
    hide Length;
    var r, rest := page[k := e], page[k + 1..];
    var m := Length(rest, decode);
    forall i | k < i < |r| ensures r[i] == rest[i - k - 1] {}
    forall i | 0 <= i < k + 1 + m ensures decode(r[i]).Some? {
      if k < i { assert decode(rest[i - k - 1]).Some?; }
    }
    LengthUnique(r, decode, k + 1 + m);
  }

  // ---- Wear ----

  function SaveAll<T>(page: Page, decode: Entry -> Option<T>, es: seq<Entry>): (r: Page)
    requires |page| > 0
    ensures |r| == |page|
    decreases |es|
  {
    if es == [] then page else Save(SaveAll(page, decode, es[..|es| - 1]), decode, es[|es| - 1])
  }

  function Erases<T>(page: Page, decode: Entry -> Option<T>, es: seq<Entry>): nat
    requires |page| > 0
    decreases |es|
  {
    if es == [] then 0 else
      var before := SaveAll(page, decode, es[..|es| - 1]);
      Erases(page, decode, es[..|es| - 1]) + if Appends(before, decode) then 0 else 1
  }

  /** The page holds exactly its k newest entries and is blank from there on. */
  predicate Filled<T>(page: Page, decode: Entry -> Option<T>, k: nat, width: nat) {
    && k <= |page| && Length(page, decode) == k
    && forall i :: k <= i < |page| ==> page[i] == BlankEntry(width)
  }

  /** From an erased page, saves fill the page round and round: each erase stands for
      one whole page of entries used up before it. */
  lemma {:induction false} WearIsExact<T>(n: nat, width: nat, decode: Entry -> Option<T>, es: seq<Entry>)
    requires n > 0 && |es| >= 1 && decode(BlankEntry(width)).None?
    requires forall i :: 0 <= i < |es| ==> |es[i]| == width && decode(es[i]).Some?
    ensures var page := SaveAll(BlankPage(n, width), decode, es);
            var k := Length(page, decode);
      && 1 <= k <= n && n * Erases(BlankPage(n, width), decode, es) + k == |es|
      && Filled(page, decode, k, width)
    decreases |es|
  {
    var blank, init, e := BlankPage(n, width), es[..|es| - 1], es[|es| - 1];
    var before := SaveAll(blank, decode, init);
    var erases := Erases(blank, decode, init);
    hide Save, Appends, Filled;
    if |es| == 1 {
      BlankIsFilled(n, width, decode);
      assert init == [];
      FilledSave(before, decode, 0, width, e);
    } else {
      WearIsExact(n, width, decode, init);
      FilledSave(before, decode, Length(before, decode), width, e);
      OneMoreErase(n, erases);
    }
  }

  lemma OneMoreErase(n: nat, erases: nat)
    ensures n * (erases + 1) == n * erases + n
  {}

  lemma BlankIsFilled<T>(n: nat, width: nat, decode: Entry -> Option<T>)
    requires decode(BlankEntry(width)).None?
    ensures Filled(BlankPage(n, width), decode, 0, width)
  {
    LengthUnique(BlankPage(n, width), decode, 0);
  }

  lemma FilledSave<T>(page: Page, decode: Entry -> Option<T>, k: nat, width: nat, e: Entry)
    requires |page| > 0 && Filled(page, decode, k, width) && |e| == width
    requires decode(e).Some? && decode(BlankEntry(width)).None?
    ensures k <= |page| == |Save(page, decode, e)|
    ensures Appends(page, decode) <==> k < |page|
    ensures Length(Save(page, decode, e), decode) == if k < |page| then k + 1 else 1
    ensures Filled(Save(page, decode, e), decode, if k < |page| then k + 1 else 1, width)
  {
    var r := Save(page, decode, e);
    LengthUnique(r, decode, if k < |page| then k + 1 else 1);
  }
}
