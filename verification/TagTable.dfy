/**
 The allocation tables of both allocators (heap.c for pages, heap32.c for 32-byte blocks).

 A table holds one tag byte per unit. Nothing else records what is allocated, so this module defines what a table
 means (a set of extents) and how placing and releasing a run changes that meaning.
 */
module TagTable {
  import opened Bytes

  const FREE: byte := 0x00
  const SINGLE: byte := 0x41
  const START: byte := 0xc1
  const MID: byte := 0x81
  const END: byte := 0x01

  type Table = seq<byte>

  datatype Extent = Extent(start: nat, len: nat)

  // ----- Meaning of a table

  /** The tag of the k-th unit of a run of n units. */
  function RunTag(n: nat, k: nat): byte {
    if n == 1 then SINGLE
    else if k == 0 then START
    else if k + 1 == n then END
    else MID
  }

  ghost predicate IsExtent(t: Table, e: Extent) {
    && 1 <= e.len
    && e.start + e.len <= |t|
    && forall i :: e.start <= i < e.start + e.len ==> t[i] == RunTag(e.len, i - e.start)
  }

  /** The allocated extents that a table denotes. */
  ghost function Extents(t: Table): (r: set<Extent>)
    ensures forall e :: e in r <==> IsExtent(t, e)
  {
    set s, n | 0 <= s < |t| && 0 <= n <= |t| && IsExtent(t, Extent(s, n)) :: Extent(s, n)
  }

  predicate HasNext(b: byte) {
    b == START || b == MID
  }

  predicate HasPrevious(b: byte) {
    b == MID || b == END
  }

  /** Entry i is a legal tag and agrees with its two neighbours. */
  predicate Linked(t: Table, i: nat)
    requires i < |t|
  {
    && t[i] in {FREE, SINGLE, START, MID, END}
    && (HasNext(t[i]) ==> i + 1 < |t| && HasPrevious(t[i + 1]))
    && (HasPrevious(t[i]) ==> 0 < i && HasNext(t[i - 1]))
  }

  ghost predicate WellFormed(t: Table) {
    forall i :: 0 <= i < |t| ==> Linked(t, i)
  }

  ghost predicate Disjoint(a: Extent, b: Extent) {
    a.start + a.len <= b.start || b.start + b.len <= a.start
  }

  function AllFree(n: nat): (t: Table)
    ensures |t| == n
  {
    seq(n, _ => FREE)
  }

  // ----- First fit

  ghost predicate FreeRun(t: Table, s: nat, n: nat) {
    s + n <= |t| && forall i :: s <= i < s + n ==> t[i] == FREE
  }

  /** The lowest index >= from at which n free entries start. */
  ghost function FirstFitFrom(t: Table, n: nat, from: nat): (r: Option<nat>)
    ensures r.Some? ==> from <= r.value && FreeRun(t, r.value, n) && forall s :: from <= s < r.value ==>
              !FreeRun(t, s, n)
    ensures r.None? ==> forall s :: from <= s ==> !FreeRun(t, s, n)
    decreases |t| - from
  {
    if |t| < from + n then None
    else if FreeRun(t, from, n) then Some(from)
    else FirstFitFrom(t, n, from + 1)
  }

  /** First fit; a request for no units fails, as both searches do. */
  ghost function FirstFit(t: Table, n: nat): (r: Option<nat>)
    ensures r.Some? ==> 0 < n && FreeRun(t, r.value, n) && forall s :: 0 <= s < r.value ==> !FreeRun(t, s, n)
    ensures r.None? <==> n == 0 || forall s: nat :: !FreeRun(t, s, n)
  {
    if n == 0 then None else FirstFitFrom(t, n, 0)
  }

  // ----- Updates

  function TagAfter(t: Table, s: nat, n: nat, i: nat): byte
    requires i < |t|
  {
    if s <= i < s + n then RunTag(n, i - s) else t[i]
  }

  function MarkRun(t: Table, s: nat, n: nat): (r: Table)
    requires s + n <= |t|
    ensures |r| == |t|
  {
    seq(|t|, i requires 0 <= i < |t| => TagAfter(t, s, n, i))
  }

  function ClearRun(t: Table, s: nat, n: nat): (r: Table)
    requires s + n <= |t|
    ensures |r| == |t|
  {
    seq(|t|, i requires 0 <= i < |t| => if s <= i < s + n then FREE else t[i])
  }

  function Put(t: Table, i: nat, b: byte): (r: Table)
    requires i < |t|
    ensures r == t[i := b]
  {
    t[i := b]
  }

  /** First-fit allocation of n units. */
  ghost function Place(t: Table, n: nat): (r: (Table, Option<nat>))
    ensures |r.0| == |t|
  {
    match FirstFit(t, n)
    case None => (t, None)
    case Some(s) => (MarkRun(t, s, n), Some(s))
  }

  /** Index of the first END tag at or after i; the table size if there is none. */
  function RunEnd(t: Table, i: nat): (r: nat)
    requires i <= |t|
    ensures i <= r <= |t|
    ensures forall k :: i <= k < r ==> t[k] != END
    ensures r < |t| ==> t[r] == END
    decreases |t| - i
  {
    if i == |t| || t[i] == END then i else RunEnd(t, i + 1)
  }

  /** Release of whatever run starts at s; tells whether a run starts there. */
  function Release(t: Table, s: nat): (r: (Table, bool))
    requires s < |t|
    ensures |r.0| == |t|
  {
    if t[s] == SINGLE then (ClearRun(t, s, 1), true)
    else if t[s] == START then (ClearRun(t, s, Min(RunEnd(t, s) + 1, |t|) - s), true)
    else (t, false)
  }

  // ----- What the updates do to the meaning

  /** A unit belongs to at most one extent. */
  lemma OneOwner(t: Table, a: Extent, b: Extent, i: nat)
    requires IsExtent(t, a) && IsExtent(t, b)
    requires a.start <= i < a.start + a.len && b.start <= i < b.start + b.len
    ensures a == b
  {
    var headA, headB := t[a.start], t[b.start];
    var lastA, lastB := t[a.start + a.len - 1], t[b.start + b.len - 1];
    assert headA == RunTag(a.len, 0) && headB == RunTag(b.len, 0);
    assert lastA == RunTag(a.len, a.len - 1) && lastB == RunTag(b.len, b.len - 1);
    assert a.start == b.start;
  }

  /** Two extents of one table are equal or do not meet. */
  lemma ExtentsDisjoint(t: Table, a: Extent, b: Extent)
    requires IsExtent(t, a) && IsExtent(t, b) && a != b
    ensures Disjoint(a, b)
  {
    if !Disjoint(a, b) {
      OneOwner(t, a, b, Max(a.start, b.start));
    }
  }

  lemma ExtentHoldsNoFree(t: Table, e: Extent, i: nat)
    requires IsExtent(t, e) && e.start <= i < e.start + e.len
    ensures t[i] != FREE
  {
  }

  lemma MarkRunWellFormed(t: Table, s: nat, n: nat)
    requires WellFormed(t) && FreeRun(t, s, n) && 0 < n
    ensures WellFormed(MarkRun(t, s, n))
  {
    var r := MarkRun(t, s, n);
    forall i | 0 <= i < |r| ensures Linked(r, i) {
      assert Linked(t, i);
      assert s <= i < s + n ==> r[i] == RunTag(n, i - s);
      assert s <= i + 1 < s + n ==> r[i + 1] == RunTag(n, i + 1 - s);
      assert s <= i - 1 < s + n ==> r[i - 1] == RunTag(n, i - 1 - s);
    }
  }

  lemma MarkRunExtents(t: Table, s: nat, n: nat)
    requires FreeRun(t, s, n) && 0 < n
    ensures Extents(MarkRun(t, s, n)) == Extents(t) + {Extent(s, n)}
    ensures Extent(s, n) !in Extents(t)
  {
    var r := MarkRun(t, s, n);
    assert t[s] == FREE;
    assert IsExtent(r, Extent(s, n));
    forall e | IsExtent(t, e) ensures IsExtent(r, e) {
      if !Disjoint(e, Extent(s, n)) {
        ExtentHoldsNoFree(t, e, Max(e.start, s));
      }
    }
    forall e | IsExtent(r, e) && e != Extent(s, n) ensures IsExtent(t, e) {
      ExtentsDisjoint(r, e, Extent(s, n));
      forall i | e.start <= i < e.start + e.len ensures t[i] == RunTag(e.len, i - e.start) {
        assert t[i] == r[i];
      }
    }
  }

  lemma ClearRunWellFormed(t: Table, e: Extent)
    requires WellFormed(t) && IsExtent(t, e)
    ensures WellFormed(ClearRun(t, e.start, e.len))
  {
    var r := ClearRun(t, e.start, e.len);
    assert t[e.start] == RunTag(e.len, 0);
    assert t[e.start + e.len - 1] == RunTag(e.len, e.len - 1);
    forall i | 0 <= i < |r| ensures Linked(r, i) {
      assert Linked(t, i);
      assert Linked(t, e.start);
      assert Linked(t, e.start + e.len - 1);
    }
  }

  lemma ClearRunExtents(t: Table, e: Extent)
    requires IsExtent(t, e)
    ensures Extents(ClearRun(t, e.start, e.len)) == Extents(t) - {e}
  {
    var r := ClearRun(t, e.start, e.len);
    forall d | IsExtent(t, d) && d != e ensures IsExtent(r, d) {
      ExtentsDisjoint(t, d, e);
    }
    forall d | IsExtent(r, d) ensures IsExtent(t, d) && d != e {
      if !Disjoint(d, e) {
        ExtentHoldsNoFree(r, d, Max(d.start, e.start));
      }
      forall i | d.start <= i < d.start + d.len ensures t[i] == RunTag(d.len, i - d.start) {
        assert t[i] == r[i];
      }
    }
  }

  /** Allocation adds exactly one fresh extent of n units at the lowest place that fits, or changes nothing. */
  lemma PlaceMeaning(t: Table, n: nat)
    requires WellFormed(t)
    ensures var (t', r) := Place(t, n);
      && WellFormed(t')
      && (r.None? <==> n == 0 || forall s: nat :: !FreeRun(t, s, n))
      && (r.None? ==> t' == t)
      && (r.Some? ==>
            && Extents(t') == Extents(t) + {Extent(r.value, n)}
            && FreeRun(t, r.value, n)
            && (forall s :: 0 <= s < r.value ==> !FreeRun(t, s, n))
            && forall e :: e in Extents(t) ==> Disjoint(e, Extent(r.value, n)))
  {
    var (t', r) := Place(t, n);
    if r.Some? {
      MarkRunWellFormed(t, r.value, n);
      MarkRunExtents(t, r.value, n);
      forall e | e in Extents(t) ensures Disjoint(e, Extent(r.value, n)) {
        ExtentsDisjoint(t', e, Extent(r.value, n));
      }
    }
  }

  /** In a well-formed table a head tag starts exactly one extent. */
  lemma {:induction false} HeadExtent(t: Table, s: nat)
    requires WellFormed(t) && s < |t| && (t[s] == SINGLE || t[s] == START)
    ensures t[s] == START ==> RunEnd(t, s) < |t|
    ensures IsExtent(t, Extent(s, if t[s] == SINGLE then 1 else RunEnd(t, s) + 1 - s))
  {
    if t[s] == START {
      var e := RunEnd(t, s);
      MiddleTags(t, s, e);
    }
  }

  lemma {:induction false} MiddleTags(t: Table, s: nat, e: nat)
    requires WellFormed(t) && s < e <= |t| && t[s] == START
    requires forall k :: s <= k < e ==> t[k] != END
    ensures e < |t| && HasPrevious(t[e])
    ensures forall k :: s < k < e ==> t[k] == MID
  {
    if e == s + 1 {
      assert Linked(t, s);
    } else {
      MiddleTags(t, s, e - 1);
      assert Linked(t, e - 1);
    }
  }

  /**
   In bytes: 0x41 for one unit, else 0xc1, 0x81 for each in between, 0x01; all of them were 0, and no other changes.
   */
  lemma PlaceBytes(t: Table, n: nat, i: nat)
    requires Place(t, n).1.Some? && i < |t|
    ensures var (t', r) := Place(t, n);
      if r.value <= i < r.value + n then
        && t[i] == 0
        && t'[i] == if n == 1 then 0x41 else if i == r.value then 0xc1 else if i == r.value + n - 1 then 0x01 else 0x81
      else t'[i] == t[i]
  {
  }

  /** Release succeeds exactly on the bases of extents, and then removes exactly that extent. */
  lemma ReleaseMeaning(t: Table, s: nat)
    requires WellFormed(t) && s < |t|
    ensures var (t', ok) := Release(t, s);
      && WellFormed(t')
      && (ok <==> exists n :: Extent(s, n) in Extents(t))
      && (!ok ==> t' == t)
      && forall n :: Extent(s, n) in Extents(t) ==>
           t' == ClearRun(t, s, n) && Extents(t') == Extents(t) - {Extent(s, n)}
  {
    var (t', ok) := Release(t, s);
    if ok {
      HeadExtent(t, s);
      var len := if t[s] == SINGLE then 1 else RunEnd(t, s) + 1 - s;
      assert Extent(s, len) in Extents(t);
      ClearRunWellFormed(t, Extent(s, len));
      ClearRunExtents(t, Extent(s, len));
      forall n | Extent(s, n) in Extents(t) ensures n == len {
        if n != len { ExtentsDisjoint(t, Extent(s, n), Extent(s, len)); }
      }
    } else {
      forall n | Extent(s, n) in Extents(t) ensures t[s] == RunTag(n, 0) {
      }
    }
  }

  /** Releasing what was just placed restores the very same table. */
  lemma PlaceRelease(t: Table, n: nat)
    requires WellFormed(t) && Place(t, n).1.Some?
    ensures var (t', r) := Place(t, n); Release(t', r.value) == (t, true)
  {
    var (t', r) := Place(t, n);
    PlaceMeaning(t, n);
    ReleaseMeaning(t', r.value);
    assert Extent(r.value, n) in Extents(t');
    assert ClearRun(t', r.value, n) == t;
  }

  /** Every entry that is not free belongs to an extent. */
  lemma {:induction false} Owner(t: Table, i: nat) returns (e: Extent)
    requires WellFormed(t) && i < |t| && t[i] != FREE
    ensures IsExtent(t, e) && e.start <= i < e.start + e.len
    decreases i
  {
    assert Linked(t, i);
    if t[i] == SINGLE || t[i] == START {
      HeadExtent(t, i);
      e := Extent(i, if t[i] == SINGLE then 1 else RunEnd(t, i) + 1 - i);
    } else {
      e := Owner(t, i - 1);
      assert t[e.start + e.len - 1] == RunTag(e.len, e.len - 1);
    }
  }

  /** A table is determined by its size and its extents. */
  lemma ExtentsDetermineTable(a: Table, b: Table)
    requires WellFormed(a) && WellFormed(b) && |a| == |b| && Extents(a) == Extents(b)
    ensures a == b
  {
    forall i | 0 <= i < |a| ensures a[i] == b[i] {
      if a[i] != FREE {
        var e := Owner(a, i);
        assert e in Extents(b);
      } else if b[i] != FREE {
        var e := Owner(b, i);
        assert IsExtent(b, e) && e in Extents(a) ==> IsExtent(a, e);
        ExtentHoldsNoFree(a, e, i);
      }
    }
  }

  // ----- The grammar {free, single, start mid* end}*

  datatype Piece = Gap | Run(len: nat)

  function PieceTags(p: Piece): (r: Table)
    ensures |r| == PieceLen(p)
  {
    match p
    case Gap => [FREE]
    case Run(n) => seq(n, k requires 0 <= k < n => RunTag(n, k))
  }

  function PieceLen(p: Piece): nat {
    if p.Gap? then 1 else p.len
  }

  predicate Proper(ps: seq<Piece>) {
    forall i :: 0 <= i < |ps| ==> 1 <= PieceLen(ps[i])
  }

  function Flatten(ps: seq<Piece>): Table {
    if ps == [] then [] else PieceTags(ps[0]) + Flatten(ps[1..])
  }

  ghost function Parse(t: Table): (ps: seq<Piece>)
    requires WellFormed(t)
    ensures Proper(ps)
    ensures Flatten(ps) == t
  {
    if t == [] then []
    else
      var p := FirstPiece(t);
      [p] + Parse(t[PieceLen(p)..])
  }

  ghost function FirstPiece(t: Table): (p: Piece)
    requires WellFormed(t) && t != []
    ensures 1 <= PieceLen(p) <= |t|
    ensures PieceTags(p) == t[..PieceLen(p)]
    ensures WellFormed(t[PieceLen(p)..])
  {
    assert Linked(t, 0);
    if t[0] == FREE then
      SuffixWellFormed(t, 1);
      Gap
    else
      HeadExtent(t, 0);
      var n := if t[0] == SINGLE then 1 else RunEnd(t, 0) + 1;
      SuffixWellFormed(t, n);
      Run(n)
  }

  lemma SuffixWellFormed(t: Table, n: nat)
    requires WellFormed(t) && 1 <= n <= |t| && !HasNext(t[n - 1])
    ensures WellFormed(t[n..])
  {
    forall i | 0 <= i < |t[n..]| ensures Linked(t[n..], i) {
      assert Linked(t, n + i);
    }
  }

  lemma {:induction false} FlattenWellFormed(ps: seq<Piece>)
    requires Proper(ps)
    ensures WellFormed(Flatten(ps))
  {
    if ps != [] {
      FlattenWellFormed(ps[1..]);
      var head, rest, t := PieceTags(ps[0]), Flatten(ps[1..]), Flatten(ps);
      forall i | 0 <= i < |t| ensures Linked(t, i) {
        if |head| <= i {
          assert Linked(rest, i - |head|);
        }
      }
    }
  }

  lemma SamePiece(t: Table, p: Piece, q: Piece)
    requires 1 <= PieceLen(p) <= |t| && 1 <= PieceLen(q) <= |t|
    requires forall k :: 0 <= k < PieceLen(p) ==> t[k] == PieceTags(p)[k]
    requires forall k :: 0 <= k < PieceLen(q) ==> t[k] == PieceTags(q)[k]
    ensures p == q
  {
    if p.Run? && q.Run? {
      assert IsExtent(t, Extent(0, p.len)) && IsExtent(t, Extent(0, q.len));
      OneOwner(t, Extent(0, p.len), Extent(0, q.len), 0);
    } else {
      assert t[0] == PieceTags(p)[0] && t[0] == PieceTags(q)[0];
    }
  }

  /** The decoding is unique: one table has one reading. */
  lemma {:induction false} FlattenInjective(ps: seq<Piece>, qs: seq<Piece>)
    requires Proper(ps) && Proper(qs) && Flatten(ps) == Flatten(qs)
    ensures ps == qs
  {
    if ps != [] && qs != [] {
      var t := Flatten(ps);
      var m, n := PieceLen(ps[0]), PieceLen(qs[0]);
      assert forall k :: 0 <= k < m ==> t[k] == PieceTags(ps[0])[k];
      assert forall k :: 0 <= k < n ==> t[k] == PieceTags(qs[0])[k];
      SamePiece(t, ps[0], qs[0]);
      assert Flatten(ps[1..]) == t[m..] == Flatten(qs[1..]);
      FlattenInjective(ps[1..], qs[1..]);
    }
  }

  /** The local well-formedness condition is exactly the grammar; by FlattenInjective the reading is unique. */
  lemma WellFormedIsGrammar(t: Table)
    ensures WellFormed(t) <==> exists ps :: Proper(ps) && Flatten(ps) == t
  {
    if WellFormed(t) {
      assert Proper(Parse(t)) && Flatten(Parse(t)) == t;
    }
    forall ps | Proper(ps) && Flatten(ps) == t ensures WellFormed(t) {
      FlattenWellFormed(ps);
    }
  }

  // ----- Conservation

  function FreeCount(t: Table): (r: nat)
    ensures r <= |t|
  {
    if t == [] then 0 else (if t[0] == FREE then 1 else 0) + FreeCount(t[1..])
  }

  /** Units covered by a set of extents. */
  ghost function Units(es: set<Extent>): nat {
    if es == {} then 0
    else
      var e :| e in es;
      e.len + Units(es - {e})
  }

  lemma {:induction false} UnitsRemove(es: set<Extent>, e: Extent)
    requires e in es
    ensures Units(es) == e.len + Units(es - {e})
    decreases |es|
  {
    var d :| d in es && Units(es) == d.len + Units(es - {d});
    if d != e {
      UnitsRemove(es - {d}, e);
      UnitsRemove(es - {e}, d);
      assert es - {d} - {e} == es - {e} - {d};
    }
  }

  lemma {:induction false} FreeCountAppend(a: Table, b: Table)
    ensures FreeCount(a + b) == FreeCount(a) + FreeCount(b)
  {
    if a == [] {
      assert a + b == b;
    } else {
      assert (a + b)[1..] == a[1..] + b;
      FreeCountAppend(a[1..], b);
    }
  }

  lemma {:induction false} FreeCountConstant(t: Table, free: bool)
    requires forall i :: 0 <= i < |t| ==> (t[i] == FREE) == free
    ensures FreeCount(t) == if free then |t| else 0
  {
    if t != [] {
      FreeCountConstant(t[1..], free);
    }
  }

  /** Clearing an extent frees exactly its units. */
  lemma FreeCountClear(t: Table, e: Extent)
    requires IsExtent(t, e)
    ensures FreeCount(ClearRun(t, e.start, e.len)) == FreeCount(t) + e.len
  {
    var r := ClearRun(t, e.start, e.len);
    var lo, hi := e.start, e.start + e.len;
    assert t == t[..lo] + (t[lo..hi] + t[hi..]);
    assert r == t[..lo] + (r[lo..hi] + t[hi..]);
    FreeCountAppend(t[..lo], t[lo..hi] + t[hi..]);
    FreeCountAppend(t[lo..hi], t[hi..]);
    FreeCountAppend(t[..lo], r[lo..hi] + t[hi..]);
    FreeCountAppend(r[lo..hi], t[hi..]);
    FreeCountConstant(t[lo..hi], false);
    FreeCountConstant(r[lo..hi], true);
  }

  /** An allocation uses up exactly its units. */
  lemma FreeCountPlace(t: Table, n: nat)
    requires Place(t, n).1.Some?
    ensures FreeCount(Place(t, n).0) == FreeCount(t) - n
  {
    var (t', r) := Place(t, n);
    MarkRunExtents(t, r.value, n);
    assert Extent(r.value, n) in Extents(t');
    FreeCountClear(t', Extent(r.value, n));
    assert ClearRun(t', r.value, n) == t;
  }

  /** Free units and live units always add up to the table size. */
  lemma {:induction false} Conservation(t: Table)
    requires WellFormed(t)
    ensures FreeCount(t) + Units(Extents(t)) == |t|
    decreases |t| - FreeCount(t)
  {
    if i: nat :| i < |t| && t[i] != FREE {
      var e := Owner(t, i);
      ClearRunWellFormed(t, e);
      ClearRunExtents(t, e);
      FreeCountClear(t, e);
      Conservation(ClearRun(t, e.start, e.len));
      UnitsRemove(Extents(t), e);
    } else {
      FreeCountConstant(t, true);
      forall e | e in Extents(t) ensures t[e.start] != FREE {
      }
      assert Extents(t) == {};
    }
  }

  function ReleaseAll(t: Table, starts: seq<nat>): (r: Table)
    requires forall i :: 0 <= i < |starts| ==> starts[i] < |t|
    decreases |starts|
  {
    if starts == [] then t else ReleaseAll(Release(t, starts[0]).0, starts[1..])
  }

  /** Releasing the live runs one after the other, in any order, ends with the all-free table. */
  lemma {:induction false} ReleaseAllEmpties(t: Table, order: seq<Extent>)
    requires WellFormed(t)
    requires forall e :: e in Extents(t) <==> e in order
    requires forall i, j :: 0 <= i < j < |order| ==> order[i] != order[j]
    requires forall i :: 0 <= i < |order| ==> order[i].start < |t|
    ensures ReleaseAll(t, seq(|order|, i requires 0 <= i < |order| => order[i].start)) == AllFree(|t|)
    decreases |order|
  {
    var starts := seq(|order|, i requires 0 <= i < |order| => order[i].start);
    if order == [] {
      assert Extents(t) == {};
      forall i | 0 <= i < |t| ensures t[i] == FREE {
        if t[i] != FREE {
          var e := Owner(t, i);
        }
      }
    } else {
      var e, rest := order[0], order[1..];
      assert e in Extents(t);
      ReleaseMeaning(t, e.start);
      assert Extent(e.start, e.len) == e;
      var t' := Release(t, e.start).0;
      assert Extents(t') == Extents(t) - {e};
      assert forall d :: d in order <==> d == e || d in rest;
      ReleaseAllEmpties(t', rest);
      assert starts[1..] == seq(|rest|, i requires 0 <= i < |rest| => rest[i].start);
    }
  }

  /** One free unit is enough for a request of one unit, and needed. */
  lemma {:induction false} SingleFits(t: Table)
    ensures FirstFit(t, 1).Some? <==> 0 < FreeCount(t)
  {
    if i: nat :| i < |t| && t[i] == FREE {
      assert FreeRun(t, i, 1);
      assert t == t[..i] + ([t[i]] + t[i + 1..]);
      FreeCountAppend(t[..i], [t[i]] + t[i + 1..]);
    } else {
      FreeCountConstant(t, false);
      forall s: nat ensures !FreeRun(t, s, 1) {
        assert s < |t| ==> t[s] != FREE;
      }
    }
  }

  /** Placing a single unit: succeeds iff one is free, and tags just the lowest free one. */
  lemma PlaceSingle(t: Table)
    ensures var (t', r) := Place(t, 1);
      && (r.Some? <==> 0 < FreeCount(t))
      && (r.None? ==> t' == t)
      && (r.Some? ==>
            && r.value < |t| && t[r.value] == FREE
            && t' == Put(t, r.value, SINGLE)
            && FreeCount(t') == FreeCount(t) - 1)
  {
    SingleFits(t);
    var (t', r) := Place(t, 1);
    if r.Some? {
      FreeCountPlace(t, 1);
      assert t' == Put(t, r.value, SINGLE);
    }
  }
}
