/** The copies of the FAT16 table on disk, and what changing entries in one or all of them means. */
module FatTable {
  import opened Bytes
  import opened Disk
  import opened FatChain

  const EOC: nat := 0xfff8
  const LAST: uint16 := 0xffff

  /** Where the copies of the table lie: fatCount copies of spf sectors each, from sector `base` on. */
  datatype Tables = Tables(base: nat, spf: nat, fatCount: nat)

  /** First sector of a copy. */
  function CopyBase(t: Tables, copy: nat): nat {
    if copy == 0 then t.base else CopyBase(t, copy - 1) + t.spf
  }

  /** The address that the code computes with a product. */
  lemma {:induction false} CopyBaseIs(t: Tables, copy: nat)
    ensures CopyBase(t, copy) == t.base + copy * t.spf
  {
    if copy != 0 {
      CopyBaseIs(t, copy - 1);
      assert copy * t.spf == (copy - 1) * t.spf + t.spf;
    }
  }

  ghost predicate OnDisk(t: Tables, img: Image) {
    1 <= t.spf <= 0xffff && 1 <= t.fatCount && CopyBase(t, t.fatCount) <= |img|
  }

  /** The table that starts at sector `base`. */
  ghost function FatAt(img: Image, base: nat, spf: nat): (f: Fat)
    requires base + spf <= |img|
    ensures |f| == spf * WORDS_PER_SECTOR
  {
    seq(spf * WORDS_PER_SECTOR, e requires 0 <= e < spf * WORDS_PER_SECTOR =>
      Word16(img[base + e / WORDS_PER_SECTOR], e % WORDS_PER_SECTOR))
  }

  ghost function SetEntry(img: Image, base: nat, e: nat, w: uint16): (r: Image)
    requires base + e / WORDS_PER_SECTOR < |img|
    ensures |r| == |img|
  {
    var s := base + e / WORDS_PER_SECTOR;
    img[s := SetWord16(img[s], e % WORDS_PER_SECTOR, w)]
  }

  lemma SetEntryFat(img: Image, base: nat, spf: nat, e: nat, w: uint16)
    requires base + spf <= |img| && e < spf * WORDS_PER_SECTOR
    ensures FatAt(SetEntry(img, base, e, w), base, spf) == FatAt(img, base, spf)[e := w]
  {
    var r := SetEntry(img, base, e, w);
    forall k | 0 <= k < spf * WORDS_PER_SECTOR
      ensures FatAt(r, base, spf)[k] == FatAt(img, base, spf)[e := w][k]
    {
      if k / WORDS_PER_SECTOR == e / WORDS_PER_SECTOR {
        assert k == e <==> k % WORDS_PER_SECTOR == e % WORDS_PER_SECTOR;
      }
    }
  }

  /**
   What get_free_cluster does to one copy: entry `taken` becomes the last of a chain, and `cur`, if a cluster, leads
   to it.
   */
  ghost function Link(img: Image, base: nat, taken: uint16, cur: uint16): (r: Image)
    requires base + taken / WORDS_PER_SECTOR < |img|
    requires FIRST_CLUSTER <= cur < EOC ==> base + cur / WORDS_PER_SECTOR < |img|
    ensures |r| == |img|
  {
    var img1 := SetEntry(img, base, taken, LAST);
    if FIRST_CLUSTER <= cur < EOC then SetEntry(img1, base, cur, taken) else img1
  }

  lemma LinkFat(img: Image, base: nat, spf: nat, taken: uint16, cur: uint16)
    requires base + spf <= |img| && taken < spf * WORDS_PER_SECTOR
    requires FIRST_CLUSTER <= cur < EOC ==> cur < spf * WORDS_PER_SECTOR
    ensures FatAt(Link(img, base, taken, cur), base, spf) == Update(FatAt(img, base, spf), EOC, taken, cur)
    ensures forall s :: 0 <= s < |img| && !(base <= s < base + spf) ==> Link(img, base, taken, cur)[s] == img[s]
  {
    var img1 := SetEntry(img, base, taken, LAST);
    SetEntryFat(img, base, spf, taken, LAST);
    if FIRST_CLUSTER <= cur < EOC {
      SetEntryFat(img1, base, spf, cur, taken);
    }
  }

  /** The same change in copies 0 to n - 1. */
  ghost function LinkCopies(img: Image, t: Tables, n: nat, taken: uint16, cur: uint16): (r: Image)
    requires OnDisk(t, img) && n <= t.fatCount && taken < t.spf * WORDS_PER_SECTOR
    requires FIRST_CLUSTER <= cur < EOC ==> cur < t.spf * WORDS_PER_SECTOR
    ensures |r| == |img|
  {
    if n == 0 then img
    else
      CopiesApart(t, n - 1, t.fatCount);
      Link(LinkCopies(img, t, n - 1, taken, cur), CopyBase(t, n - 1), taken, cur)
  }

  lemma {:induction false} CopiesApart(t: Tables, a: nat, b: nat)
    requires a < b
    ensures t.base <= CopyBase(t, a) && CopyBase(t, a) + t.spf <= CopyBase(t, b)
    decreases b
  {
    if a + 1 < b {
      CopiesApart(t, a, b - 1);
    } else if 0 < a {
      CopiesApart(t, a - 1, a);
    }
  }

  lemma SameSectorsSameFat(img: Image, img': Image, base: nat, spf: nat)
    requires base + spf <= |img| && |img'| == |img|
    requires forall s :: base <= s < base + spf ==> img'[s] == img[s]
    ensures FatAt(img', base, spf) == FatAt(img, base, spf)
  {
  }

  /** No sector outside the first n copies changes. */
  lemma {:induction false} LinkCopiesFrame(img: Image, t: Tables, n: nat, taken: uint16, cur: uint16)
    requires OnDisk(t, img) && n <= t.fatCount && taken < t.spf * WORDS_PER_SECTOR
    requires FIRST_CLUSTER <= cur < EOC ==> cur < t.spf * WORDS_PER_SECTOR
    ensures forall s :: 0 <= s < |img| && !(t.base <= s < CopyBase(t, n)) ==>
              LinkCopies(img, t, n, taken, cur)[s] == img[s]
  {
    if n != 0 {
      LinkCopiesFrame(img, t, n - 1, taken, cur);
      CopiesApart(t, n - 1, t.fatCount);
      LinkFat(LinkCopies(img, t, n - 1, taken, cur), CopyBase(t, n - 1), t.spf, taken, cur);
    }
  }

  lemma LinkCopiesBeyond(img: Image, t: Tables, n: nat, taken: uint16, cur: uint16, copy: nat)
    requires OnDisk(t, img) && n <= copy < t.fatCount && taken < t.spf * WORDS_PER_SECTOR
    requires FIRST_CLUSTER <= cur < EOC ==> cur < t.spf * WORDS_PER_SECTOR
    ensures CopyBase(t, copy) + t.spf <= |img|
    ensures FatAt(LinkCopies(img, t, n, taken, cur), CopyBase(t, copy), t.spf) == FatAt(img, CopyBase(t, copy), t.spf)
  {
    CopiesApart(t, copy, t.fatCount);
    LinkCopiesFrame(img, t, n, taken, cur);
    if n < copy { CopiesApart(t, n, copy); }
    SameSectorsSameFat(img, LinkCopies(img, t, n, taken, cur), CopyBase(t, copy), t.spf);
  }

  lemma LinkCopiesOwn(img: Image, t: Tables, taken: uint16, cur: uint16, copy: nat)
    requires OnDisk(t, img) && copy < t.fatCount && taken < t.spf * WORDS_PER_SECTOR
    requires FIRST_CLUSTER <= cur < EOC ==> cur < t.spf * WORDS_PER_SECTOR
    ensures CopyBase(t, copy) + t.spf <= |img|
    ensures FatAt(LinkCopies(img, t, copy + 1, taken, cur), CopyBase(t, copy), t.spf)
         == Update(FatAt(img, CopyBase(t, copy), t.spf), EOC, taken, cur)
  {
    LinkCopiesBeyond(img, t, copy, taken, cur, copy);
    LinkFat(LinkCopies(img, t, copy, taken, cur), CopyBase(t, copy), t.spf, taken, cur);
  }

  lemma LinkCopiesLater(img: Image, t: Tables, n: nat, taken: uint16, cur: uint16, copy: nat)
    requires OnDisk(t, img) && copy < n < t.fatCount && taken < t.spf * WORDS_PER_SECTOR
    requires FIRST_CLUSTER <= cur < EOC ==> cur < t.spf * WORDS_PER_SECTOR
    ensures CopyBase(t, copy) + t.spf <= |img|
    ensures FatAt(LinkCopies(img, t, n + 1, taken, cur), CopyBase(t, copy), t.spf)
         == FatAt(LinkCopies(img, t, n, taken, cur), CopyBase(t, copy), t.spf)
  {
    CopiesApart(t, n, t.fatCount);
    CopiesApart(t, copy, n);
    var img1 := LinkCopies(img, t, n, taken, cur);
    LinkFat(img1, CopyBase(t, n), t.spf, taken, cur);
    SameSectorsSameFat(img1, LinkCopies(img, t, n + 1, taken, cur), CopyBase(t, copy), t.spf);
  }

  /** Every copy below n is updated in the same way. */
  lemma {:induction false} LinkCopiesFats(img: Image, t: Tables, n: nat, taken: uint16, cur: uint16, copy: nat)
    requires OnDisk(t, img) && copy < n <= t.fatCount && taken < t.spf * WORDS_PER_SECTOR
    requires FIRST_CLUSTER <= cur < EOC ==> cur < t.spf * WORDS_PER_SECTOR
    ensures CopyBase(t, copy) + t.spf <= |img|
    ensures FatAt(LinkCopies(img, t, n, taken, cur), CopyBase(t, copy), t.spf)
         == Update(FatAt(img, CopyBase(t, copy), t.spf), EOC, taken, cur)
  {
    if copy == n - 1 {
      LinkCopiesOwn(img, t, taken, cur, copy);
    } else {
      LinkCopiesFats(img, t, n - 1, taken, cur, copy);
      LinkCopiesLater(img, t, n - 1, taken, cur, copy);
    }
  }
}
