/**
 * `phys_map` from the kernel's physical page allocator: the set of usable
 * physical memory, kept as a list of half-open regions [base, end) in
 * sorted order and without overlaps.
 */
module PhysMap {
  import opened Wrappers

  datatype Region = Region(base: nat, end: nat)

  /** `~0` as a 64-bit `uintptr_t`. */
  const AddrMax: nat := 0xFFFF_FFFF_FFFF_FFFF

  // ---------------------------------------------------------------------
  // Abstraction: the addresses a region list covers

  predicate InRegion(r: Region, x: int) {
    r.base <= x < r.end
  }

  ghost predicate Covers(m: seq<Region>, x: int) {
    exists i :: 0 <= i < |m| && InRegion(m[i], x)
  }

  /** The integers lo, lo+1, ..., hi-1. */
  ghost function Range(lo: int, hi: int): (s: set<int>)
    ensures forall x :: x in s <==> lo <= x < hi
    decreases hi - lo
  {
    if lo >= hi then {} else {lo} + Range(lo + 1, hi)
  }

  /** The covered addresses as a set. */
  ghost function Addresses(m: seq<Region>): (s: set<int>)
    ensures forall x :: x in s <==> Covers(m, x)
  {
    if |m| == 0 then {}
    else
      var s := Range(m[0].base, m[0].end) + Addresses(m[1..]);
      CoversCons(m);
      s
  }

  /** The class invariant: every region well formed, regions sorted by base
      and pairwise non-overlapping. */
  ghost predicate Valid(m: seq<Region>) {
    && (forall i :: 0 <= i < |m| ==> m[i].base <= m[i].end)
    && (forall i, j :: 0 <= i < j < |m| ==> m[i].end <= m[j].base)
  }

  /** Regions are separated by gaps: no two of them even touch. */
  ghost predicate Separated(m: seq<Region>) {
    forall i, j :: 0 <= i < j < |m| ==> m[i].end < m[j].base
  }

  /** Every region fits below `~0`. */
  ghost predicate Bounded(m: seq<Region>) {
    forall i :: 0 <= i < |m| ==> m[i].end <= AddrMax
  }

  lemma CoversCons(m: seq<Region>)
    requires |m| > 0
    ensures forall x :: Covers(m, x) <==> InRegion(m[0], x) || Covers(m[1..], x)
  {
    forall x | Covers(m[1..], x) ensures Covers(m, x) {
      var i :| 0 <= i < |m[1..]| && InRegion(m[1..][i], x);
      assert m[i + 1] == m[1..][i];
    }
    forall x | Covers(m, x) && !InRegion(m[0], x) ensures Covers(m[1..], x) {
      var i :| 0 <= i < |m| && InRegion(m[i], x);
      assert m[1..][i - 1] == m[i];
    }
  }

  lemma CoversConcat(a: seq<Region>, b: seq<Region>)
    ensures forall x :: Covers(a + b, x) <==> Covers(a, x) || Covers(b, x)
  {
    forall x | Covers(a + b, x) ensures Covers(a, x) || Covers(b, x) {
      var i :| 0 <= i < |a + b| && InRegion((a + b)[i], x);
      if i < |a| {
        assert (a + b)[i] == a[i];
      } else {
        assert (a + b)[i] == b[i - |a|];
      }
    }
    forall x | Covers(a, x) ensures Covers(a + b, x) {
      var i :| 0 <= i < |a| && InRegion(a[i], x);
      assert (a + b)[i] == a[i];
    }
    forall x | Covers(b, x) ensures Covers(a + b, x) {
      var i :| 0 <= i < |b| && InRegion(b[i], x);
      assert (a + b)[i + |a|] == b[i];
    }
  }

  lemma CoversSingle(r: Region)
    ensures forall x :: Covers([r], x) <==> InRegion(r, x)
  {
    forall x | InRegion(r, x) ensures Covers([r], x) {
      assert [r][0] == r;
    }
  }

  lemma ValidConcat(a: seq<Region>, b: seq<Region>)
    requires Valid(a) && Valid(b)
    requires forall i, j :: 0 <= i < |a| && 0 <= j < |b| ==> a[i].end <= b[j].base
    ensures Valid(a + b)
  {
    var c := a + b;
    forall i, j | 0 <= i < j < |c| ensures c[i].end <= c[j].base {
      if j < |a| {
        assert c[i] == a[i] && c[j] == a[j];
      } else if i < |a| {
        assert c[i] == a[i] && c[j] == b[j - |a|];
      } else {
        assert c[i] == b[i - |a|] && c[j] == b[j - |a|];
      }
    }
  }

  /** Dropping a region keeps the list valid. */
  lemma ValidDrop(m: seq<Region>, i: nat)
    requires Valid(m) && i < |m|
    ensures Valid(m[..i] + m[i + 1..])
  {
    var d := m[..i] + m[i + 1..];
    forall a, b | 0 <= a < b < |d| ensures d[a].end <= d[b].base {
      var a' := if a < i then a else a + 1;
      var b' := if b < i then b else b + 1;
      assert d[a] == m[a'] && d[b] == m[b'];
    }
  }

  lemma CoversDrop(m: seq<Region>, i: nat)
    requires i < |m|
    ensures forall x :: Covers(m, x) <==> Covers(m[..i] + m[i + 1..], x) || InRegion(m[i], x)
  {
    assert m == m[..i] + ([m[i]] + m[i + 1..]);
    CoversConcat(m[..i], [m[i]] + m[i + 1..]);
    CoversConcat([m[i]], m[i + 1..]);
    CoversSingle(m[i]);
    CoversConcat(m[..i], m[i + 1..]);
  }

  // ---------------------------------------------------------------------
  // add(base, end)

  /** The overlap test of `add`: the new range overlaps or touches r. */
  predicate Touches(r: Region, base: nat, end: nat) {
    end >= r.base && base <= r.end
  }

  /** Where the scan of `add` stops: at the first region the new range
      touches, or else at the first region based at or after `base`. */
  function ScanStop(m: seq<Region>, base: nat, end: nat, k: nat): (i: nat)
    requires k <= |m|
    ensures k <= i <= |m|
    ensures forall j :: k <= j < i ==> !Touches(m[j], base, end) && m[j].base < base
    ensures i < |m| ==> Touches(m[i], base, end) || m[i].base >= base
    decreases |m| - k
  {
    if k == |m| || Touches(m[k], base, end) || m[k].base >= base then k
    else ScanStop(m, base, end, k + 1)
  }

  /** `add`: a region the new range touches is erased and the hull of the
      two is added again from scratch; otherwise the range is inserted at
      the scan's stopping point. */
  function Add(m: seq<Region>, base: nat, end: nat): seq<Region>
    decreases |m|
  {
    var i := ScanStop(m, base, end, 0);
    if i < |m| && Touches(m[i], base, end) then
      Add(m[..i] + m[i + 1..],
          if base < m[i].base then base else m[i].base,
          if end > m[i].end then end else m[i].end)
    else
      m[..i] + [Region(base, end)] + m[i..]
  }

  /** `add` keeps the invariant and the covered set grows by exactly [base, end). */
  lemma {:induction false} AddSpec(m: seq<Region>, base: nat, end: nat)
    requires Valid(m) && base <= end
    ensures Valid(Add(m, base, end))
    ensures forall x :: Covers(Add(m, base, end), x) <==> Covers(m, x) || base <= x < end
    decreases |m|
  {
    var i := ScanStop(m, base, end, 0);
    if i < |m| && Touches(m[i], base, end) {
      var nb := if base < m[i].base then base else m[i].base;
      var ne := if end > m[i].end then end else m[i].end;
      var rest := m[..i] + m[i + 1..];
      ValidDrop(m, i);
      AddSpec(rest, nb, ne);
      MergeCovers(m, i, base, end, Add(rest, nb, ne));
    } else {
      InsertGap(m, base, end, i);
      InsertCovers(m, i, Region(base, end));
    }
  }

  /** When the scan stops at no touching region, the new range fits in the
      gap before the stopping point. */
  lemma InsertGap(m: seq<Region>, base: nat, end: nat, i: nat)
    requires Valid(m) && base <= end
    requires i == ScanStop(m, base, end, 0)
    requires !(i < |m| && Touches(m[i], base, end))
    ensures forall j :: 0 <= j < i ==> m[j].end < base
    ensures i < |m| ==> end < m[i].base
  {
  }

  /** Re-adding the hull of a touched region and the new range covers the
      same as adding the range to the map that still holds the region. */
  lemma MergeCovers(m: seq<Region>, i: nat, base: nat, end: nat, r: seq<Region>)
    requires i < |m| && Touches(m[i], base, end) && m[i].base <= m[i].end && base <= end
    requires forall x :: Covers(r, x) <==>
      Covers(m[..i] + m[i + 1..], x)
      || (if base < m[i].base then base else m[i].base) <= x < (if end > m[i].end then end else m[i].end)
    ensures forall x :: Covers(r, x) <==> Covers(m, x) || base <= x < end
  {
    CoversDrop(m, i);
  }

  /** Inserting a region at a point that keeps the order. */
  lemma InsertCovers(m: seq<Region>, i: nat, r: Region)
    requires Valid(m) && i <= |m| && r.base <= r.end
    requires forall j :: 0 <= j < i ==> m[j].end < r.base
    requires i < |m| ==> r.end < m[i].base
    ensures Valid(m[..i] + [r] + m[i..])
    ensures forall x :: Covers(m[..i] + [r] + m[i..], x) <==> Covers(m, x) || InRegion(r, x)
  {
    ValidConcat(m[..i], [r]);
    ValidConcat(m[..i] + [r], m[i..]);
    CoversConcat(m[..i] + [r], m[i..]);
    CoversConcat(m[..i], [r]);
    CoversSingle(r);
    CoversConcat(m[..i], m[i..]);
    assert m[..i] + m[i..] == m;
  }

  /** Touching regions are merged, so a map built by `add` alone never holds
      two regions that touch. */
  lemma {:induction false} AddKeepsSeparated(m: seq<Region>, base: nat, end: nat)
    requires Valid(m) && Separated(m) && base <= end
    ensures Separated(Add(m, base, end))
    decreases |m|
  {
    var i := ScanStop(m, base, end, 0);
    if i < |m| && Touches(m[i], base, end) {
      var nb := if base < m[i].base then base else m[i].base;
      var ne := if end > m[i].end then end else m[i].end;
      ValidDrop(m, i);
      SeparatedDrop(m, i);
      AddKeepsSeparated(m[..i] + m[i + 1..], nb, ne);
    } else {
      InsertGap(m, base, end, i);
      InsertSeparated(m, i, Region(base, end));
    }
  }

  lemma SeparatedDrop(m: seq<Region>, i: nat)
    requires Separated(m) && i < |m|
    ensures Separated(m[..i] + m[i + 1..])
  {
    var d := m[..i] + m[i + 1..];
    forall a, b | 0 <= a < b < |d| ensures d[a].end < d[b].base {
      var a' := if a < i then a else a + 1;
      var b' := if b < i then b else b + 1;
      assert d[a] == m[a'] && d[b] == m[b'];
    }
  }

  /** Inserting a region strictly between its neighbours keeps the gaps. */
  lemma InsertSeparated(m: seq<Region>, i: nat, r: Region)
    requires Valid(m) && Separated(m) && i <= |m|
    requires forall j :: 0 <= j < i ==> m[j].end < r.base
    requires r.base <= r.end
    requires i < |m| ==> r.end < m[i].base
    ensures Separated(m[..i] + [r] + m[i..])
  {
    var n := m[..i] + [r] + m[i..];
    forall a, b | 0 <= a < b < |n| ensures n[a].end < n[b].base {
      if b < i {
        assert n[a] == m[a] && n[b] == m[b];
      } else if b == i {
        assert n[a] == m[a] && n[b] == r;
      } else if a == i {
        assert n[a] == r && n[b] == m[b - 1];
        assert m[i].base <= m[b - 1].base;
      } else if a < i {
        assert n[a] == m[a] && n[b] == m[b - 1];
      } else {
        assert n[a] == m[a - 1] && n[b] == m[b - 1];
      }
    }
  }

  // ---------------------------------------------------------------------
  // remove(base, end)

  /** What one pass of `remove`'s loop does to a single region: split it,
      erase it, truncate it on the left or on the right, or keep it.  (When
      a region is split the loop next visits the upper piece, which is then
      left alone.) */
  function Clip(r: Region, base: nat, end: nat): seq<Region>
  {
    if r.base < base && end < r.end then [Region(r.base, base), Region(end, r.end)]
    else if base <= r.base && r.end <= end then []
    else if base <= r.base && end > r.base then [Region(end, r.end)]
    else if base < r.end && end >= r.end then [Region(r.base, base)]
    else [r]
  }

  /** `remove(base, end)`.  With base > end the source's loop never
      finishes when some region reaches below base and above end: it keeps
      splitting the region it just inserted.  Otherwise it changes nothing
      (`ClipReversed`). */
  /** With base > end, a region that does not reach both below base and
      above end matches none of the four cases of the `remove` loop. */
  lemma ClipReversed(r: Region, base: nat, end: nat)
    requires r.base <= r.end && end < base
    requires !(r.base < base && end < r.end)
    ensures Clip(r, base, end) == [r]
  {
  }

  function Remove(m: seq<Region>, base: nat, end: nat): seq<Region>
    requires base <= end
  {
    if |m| == 0 then [] else Clip(m[0], base, end) + Remove(m[1..], base, end)
  }

  /** One region after `remove`: valid pieces inside it, covering it minus [base, end). */
  lemma ClipSpec(r: Region, base: nat, end: nat)
    requires r.base <= r.end && base <= end
    ensures Valid(Clip(r, base, end))
    ensures forall x :: Covers(Clip(r, base, end), x) <==> InRegion(r, x) && !(base <= x < end)
    ensures forall k :: 0 <= k < |Clip(r, base, end)| ==>
      r.base <= Clip(r, base, end)[k].base && Clip(r, base, end)[k].end <= r.end
  {
    var c := Clip(r, base, end);
    if |c| == 2 {
      CoversConcat([c[0]], [c[1]]);
      CoversSingle(c[0]);
      CoversSingle(c[1]);
      assert c == [c[0]] + [c[1]];
    } else if |c| == 1 {
      CoversSingle(c[0]);
    }
  }

  /** Regions that start at or after lo still do so after `remove`. */
  lemma {:induction false} RemoveStaysAbove(m: seq<Region>, base: nat, end: nat, lo: int)
    requires base <= end
    requires forall i :: 0 <= i < |m| ==> m[i].base <= m[i].end && lo <= m[i].base
    ensures forall k :: 0 <= k < |Remove(m, base, end)| ==> lo <= Remove(m, base, end)[k].base
  {
    if |m| > 0 {
      RemoveStaysAbove(m[1..], base, end, lo);
      ClipSpec(m[0], base, end);
    }
  }

  /** `remove` keeps the invariant and takes exactly [base, end) away. */
  lemma {:induction false} RemoveSpec(m: seq<Region>, base: nat, end: nat)
    requires Valid(m) && base <= end
    ensures Valid(Remove(m, base, end))
    ensures forall x :: Covers(Remove(m, base, end), x) <==> Covers(m, x) && !(base <= x < end)
  {
    if |m| > 0 {
      RemoveSpec(m[1..], base, end);
      ClipSpec(m[0], base, end);
      RemoveStaysAbove(m[1..], base, end, m[0].end);
      var c := Clip(m[0], base, end);
      var rest := Remove(m[1..], base, end);
      ValidConcat(c, rest);
      CoversConcat(c, rest);
      CoversCons(m);
    }
  }

  /** `remove(const phys_map &o)`: remove every region of o in turn. */
  function RemoveAll(m: seq<Region>, o: seq<Region>): seq<Region>
    requires forall i :: 0 <= i < |o| ==> o[i].base <= o[i].end
    decreases |o|
  {
    if |o| == 0 then m else RemoveAll(Remove(m, o[0].base, o[0].end), o[1..])
  }

  /** Removing a whole map keeps the invariant and subtracts its covered set. */
  lemma {:induction false} RemoveAllSpec(m: seq<Region>, o: seq<Region>)
    requires Valid(m)
    requires forall i :: 0 <= i < |o| ==> o[i].base <= o[i].end
    ensures Valid(RemoveAll(m, o))
    ensures forall x :: Covers(RemoveAll(m, o), x) <==> Covers(m, x) && !Covers(o, x)
    decreases |o|
  {
    if |o| > 0 {
      RemoveSpec(m, o[0].base, o[0].end);
      RemoveAllSpec(Remove(m, o[0].base, o[0].end), o[1..]);
      CoversCons(o);
    }
  }

  // ---------------------------------------------------------------------
  // intersect(o)

  /** The loop of `intersect` from the point where `prevend` is the end of
      the previous region of o: remove the gap before each region of o,
      then everything from the last end up to `~0`. */
  function IntersectFrom(m: seq<Region>, o: seq<Region>, prevend: nat): seq<Region>
    requires Valid(o) && Bounded(o)
    requires prevend <= AddrMax
    requires |o| > 0 ==> prevend <= o[0].base
    decreases |o|
  {
    if |o| == 0 then Remove(m, prevend, AddrMax)
    else IntersectFrom(Remove(m, prevend, o[0].base), o[1..], o[0].end)
  }

  /** `intersect(o)`: an empty o clears the map. */
  function Intersect(m: seq<Region>, o: seq<Region>): seq<Region>
    requires Valid(o) && Bounded(o)
  {
    if |o| == 0 then [] else IntersectFrom(m, o, 0)
  }

  /** The loop of `intersect` removes exactly the addresses in [prevend, ~0)
      that o does not cover. */
  lemma {:induction false} IntersectFromSpec(m: seq<Region>, o: seq<Region>, prevend: nat)
    requires Valid(m) && Valid(o) && Bounded(o)
    requires prevend <= AddrMax
    requires |o| > 0 ==> prevend <= o[0].base
    ensures Valid(IntersectFrom(m, o, prevend))
    ensures forall x :: Covers(IntersectFrom(m, o, prevend), x) <==>
      Covers(m, x) && !(prevend <= x < AddrMax && !Covers(o, x))
    decreases |o|
  {
    if |o| == 0 {
      RemoveSpec(m, prevend, AddrMax);
    } else {
      RemoveSpec(m, prevend, o[0].base);
      var m1 := Remove(m, prevend, o[0].base);
      IntersectFromSpec(m1, o[1..], o[0].end);
      CoversCons(o);
      CoversAbove(o[1..], o[0].end);
    }
  }

  /** Regions that all start at or after lo cover nothing below lo, and
      bounded ones nothing at or above `~0`. */
  lemma CoversAbove(o: seq<Region>, lo: int)
    requires Bounded(o)
    requires forall i :: 0 <= i < |o| ==> lo <= o[i].base
    ensures forall x :: Covers(o, x) ==> lo <= x < AddrMax
  {
  }

  /** `intersect` keeps the invariant and leaves exactly the addresses in both maps. */
  lemma IntersectSpec(m: seq<Region>, o: seq<Region>)
    requires Valid(m) && Bounded(m) && Valid(o) && Bounded(o)
    ensures Valid(Intersect(m, o))
    ensures forall x :: Covers(Intersect(m, o), x) <==> Covers(m, x) && Covers(o, x)
  {
    if |o| > 0 {
      IntersectFromSpec(m, o, 0);
      CoversAbove(m, 0);
    }
  }

  // ---------------------------------------------------------------------
  // Size queries

  /** `bytes()`: the summed lengths of the regions. */
  function Bytes(m: seq<Region>): int
  {
    if |m| == 0 then 0 else (m[0].end - m[0].base) + Bytes(m[1..])
  }

  lemma {:induction false} RangeSize(lo: int, hi: int)
    requires lo <= hi
    ensures |Range(lo, hi)| == hi - lo
    decreases hi - lo
  {
    if lo < hi {
      RangeSize(lo + 1, hi);
    }
  }

  /** `bytes()` is the number of addresses the map covers. */
  lemma {:induction false} BytesIsCoveredSize(m: seq<Region>)
    requires Valid(m)
    ensures Bytes(m) == |Addresses(m)|
  {
    if |m| > 0 {
      BytesIsCoveredSize(m[1..]);
      RangeSize(m[0].base, m[0].end);
      assert Range(m[0].base, m[0].end) !! Addresses(m[1..]);
    }
  }

  /** The covered addresses at or above pa. */
  ghost function AddressesFrom(m: seq<Region>, pa: int): set<int>
  {
    set x | x in Addresses(m) && pa <= x
  }

  /** `bytes_after(start)`: whole regions above pa, the tail of the region
      holding pa, nothing of the regions below. */
  function BytesAfter(m: seq<Region>, pa: nat): int
  {
    if |m| == 0 then 0
    else
      (if m[0].base > pa then m[0].end - m[0].base
       else if m[0].base <= pa <= m[0].end then m[0].end - pa
       else 0) + BytesAfter(m[1..], pa)
  }

  /** `bytes_after(start)` counts exactly the covered addresses at or above start. */
  lemma {:induction false} BytesAfterIsCoveredSize(m: seq<Region>, pa: nat)
    requires Valid(m)
    ensures BytesAfter(m, pa) == |AddressesFrom(m, pa)|
  {
    if |m| > 0 {
      BytesAfterIsCoveredSize(m[1..], pa);
      BytesAfterStep(m, pa);
    }
  }

  /** The first region contributes the part of it at or above pa. */
  lemma BytesAfterStep(m: seq<Region>, pa: nat)
    requires Valid(m) && |m| > 0
    requires BytesAfter(m[1..], pa) == |AddressesFrom(m[1..], pa)|
    ensures BytesAfter(m, pa) == |AddressesFrom(m, pa)|
  {
    var lo := if m[0].base > pa then m[0].base else pa;
    AddressesFromCons(m, pa);
    if lo <= m[0].end {
      RangeSize(lo, m[0].end);
    } else {
      assert Range(lo, m[0].end) == {};
    }
  }

  /** The addresses at or above pa split into those of the first region and the rest. */
  lemma AddressesFromCons(m: seq<Region>, pa: nat)
    requires Valid(m) && |m| > 0
    ensures var lo := if m[0].base > pa then m[0].base else pa;
      && AddressesFrom(m, pa) == Range(lo, m[0].end) + AddressesFrom(m[1..], pa)
      && Range(lo, m[0].end) !! AddressesFrom(m[1..], pa)
  {
    var lo := if m[0].base > pa then m[0].base else pa;
    assert Addresses(m) == Range(m[0].base, m[0].end) + Addresses(m[1..]);
    assert forall x :: x in AddressesFrom(m[1..], pa) ==> x >= m[0].end;
  }

  /** `max()`: the end of the last region, 0 for an empty map. */
  function Max(m: seq<Region>): nat
  {
    if |m| == 0 then 0 else m[|m| - 1].end
  }

  /** `max()` is the highest region end: every end is at most it, some
      region attains it, and an empty map gives 0.  So every covered
      address lies below it. */
  lemma MaxBoundsMap(m: seq<Region>)
    requires Valid(m)
    ensures forall i :: 0 <= i < |m| ==> m[i].end <= Max(m)
    ensures |m| > 0 ==> exists i :: 0 <= i < |m| && Max(m) == m[i].end
    ensures |m| == 0 ==> Max(m) == 0
    ensures forall x :: Covers(m, x) ==> x < Max(m)
  {
    if |m| > 0 {
      assert Max(m) == m[|m| - 1].end;
    }
  }

  /** `base()` as written: 0 doubles as "nothing seen yet", so a region that
      starts at address 0 is forgotten as soon as the next region is seen. */
  function BaseLoopAsWritten(m: seq<Region>, b: nat): nat
  {
    if |m| == 0 then b
    else
      var b1 := if b == 0 then m[0].base else b;
      BaseLoopAsWritten(m[1..], if m[0].base < b1 then m[0].base else b1)
  }

  function BaseAsWritten(m: seq<Region>): nat
  {
    BaseLoopAsWritten(m, 0)
  }

  /** The evidently intended loop of `base()`: the smallest base seen so
      far, with "nothing seen yet" kept apart from address 0. */
  function BaseLoop(m: seq<Region>, best: Option<nat>): (r: nat)
    ensures best.Some? ==> r <= best.value
    ensures forall i :: 0 <= i < |m| ==> r <= m[i].base
    ensures (best.Some? && r == best.value) || (exists i :: 0 <= i < |m| && r == m[i].base) || (best.None? && |m| == 0 && r == 0)
  {
    if |m| == 0 then (if best.Some? then best.value else 0)
    else
      var b := if best.None? || m[0].base < best.value then m[0].base else best.value;
      var r := BaseLoop(m[1..], Some(b));
      assert forall i :: 1 <= i < |m| ==> m[i] == m[1..][i - 1];
      r
  }

  /** `base()`: the lowest region base, 0 for an empty map. */
  function Base(m: seq<Region>): (r: nat)
    ensures |m| == 0 ==> r == 0
    ensures |m| > 0 ==> exists i :: 0 <= i < |m| && r == m[i].base
    ensures forall i :: 0 <= i < |m| ==> r <= m[i].base
  {
    BaseLoop(m, None)
  }

  /** The written loop gives the intended answer when no region starts at 0. */
  lemma {:induction false} BaseAsWrittenAgrees(m: seq<Region>, b: nat)
    requires forall i :: 0 <= i < |m| ==> m[i].base != 0
    ensures BaseLoopAsWritten(m, b) == BaseLoop(m, if b == 0 then None else Some(b))
  {
    if |m| > 0 {
      var b1 := if b == 0 then m[0].base else b;
      BaseAsWrittenAgrees(m[1..], if m[0].base < b1 then m[0].base else b1);
    }
  }

  /** ... and misses the lowest base when a region starts at address 0. */
  lemma BaseAsWrittenMissesZero()
    ensures BaseAsWritten([Region(0, 0x1000), Region(0x2000, 0x3000)]) == 0x2000
    ensures Base([Region(0, 0x1000), Region(0x2000, 0x3000)]) == 0
  {
    var m := [Region(0, 0x1000), Region(0x2000, 0x3000)];
    assert m[1..][1..] == [];
  }

  // ---------------------------------------------------------------------
  // max_alloc(start) and alloc(start, size, align)

  datatype Panic = OutOfMemory | BadStart

  /** The "region containing start" test of `alloc` and `max_alloc`; the
      end address itself is accepted. */
  predicate HoldsStart(r: Region, pa: nat) {
    r.base <= pa <= r.end
  }

  /** `max_alloc(start)`: room from start to the end of the first region holding it. */
  function MaxAlloc(m: seq<Region>, pa: nat): (r: Result<nat, Panic>)
    ensures r.Err? <==> forall i :: 0 <= i < |m| ==> !HoldsStart(m[i], pa)
    ensures r.Err? ==> r.error == BadStart
    ensures r.Ok? ==>
      exists i :: 0 <= i < |m| && HoldsStart(m[i], pa) && pa + r.value == m[i].end &&
        forall j :: 0 <= j < i ==> !HoldsStart(m[j], pa)
  {
    if |m| == 0 then Err(BadStart)
    else if HoldsStart(m[0], pa) then Ok(m[0].end - pa)
    else
      var r := MaxAlloc(m[1..], pa);
      assert forall i :: 1 <= i < |m| ==> m[i] == m[1..][i - 1];
      r
  }

  /** Every address of the span `max_alloc` reports is covered by the map. */
  lemma MaxAllocCovered(m: seq<Region>, pa: nat)
    requires MaxAlloc(m, pa).Ok?
    ensures forall x :: pa <= x < pa + MaxAlloc(m, pa).value ==> Covers(m, x)
  {
    var i :| 0 <= i < |m| && HoldsStart(m[i], pa) && pa + MaxAlloc(m, pa).value == m[i].end;
    assert forall x :: pa <= x < m[i].end ==> InRegion(m[i], x);
  }

  ghost predicate IsPowerOfTwo(n: nat) {
    n == 1 || (n > 1 && n % 2 == 0 && IsPowerOfTwo(n / 2))
  }

  /** `(pa + align - 1) & ~(align - 1)` for a power-of-two align: pa rounded
      up to the next multiple of align. */
  function AlignUp(pa: nat, align: nat): (r: nat)
    requires align > 0
    ensures r % align == 0
    ensures pa <= r < pa + align
  {
    var x := pa + align - 1;
    var r := x / align * align;
    assert x == r + x % align;
    MultipleMod(x / align, align);
    r
  }

  lemma MultipleMod(q: nat, a: nat)
    requires a > 0
    ensures (q * a) % a == 0
  {
    var d := (q * a) / a;
    var r := (q * a) % a;
    assert q * a == d * a + r;
    assert (q - d) * a == r;
    if q - d >= 1 {
      assert false;
    } else if q - d <= -1 {
      assert false;
    }
  }

  /** The aligned candidate address; align 0 means no alignment. */
  function Aligned(pa: nat, align: nat): (r: nat)
    ensures r >= pa
    ensures align > 0 ==> r % align == 0
  {
    if align != 0 then AlignUp(pa, align) else pa
  }

  /** The loop of `alloc` from region k on, with pa the candidate carried
      over (0 once a region has been tried and found too small). */
  function AllocFrom(m: seq<Region>, k: nat, pa: nat, size: nat, align: nat): (r: Result<nat, Panic>)
    requires k <= |m|
    ensures r.Ok? ==> align > 0 ==> r.value % align == 0
    ensures r.Ok? ==> exists i :: k <= i < |m| && m[i].base <= r.value && r.value + size < m[i].end
    decreases |m| - k
  {
    if k == |m| then (if pa == 0 then Err(OutOfMemory) else Err(BadStart))
    else
      var reg := m[k];
      var pa1 := if pa == 0 then reg.base else pa;
      if HoldsStart(reg, pa1) then
        var pa2 := Aligned(pa1, align);
        if pa2 + size < reg.end then Ok(pa2) else AllocFrom(m, k + 1, 0, size, align)
      else AllocFrom(m, k + 1, pa1, size, align)
  }

  /** `alloc(start, size, align)`: a size-byte block, aligned, strictly
      inside one region, first fit from the region holding start (from the
      first region when start is 0); panics become errors. */
  function Alloc(m: seq<Region>, start: nat, size: nat, align: nat): (r: Result<nat, Panic>)
    requires align == 0 || IsPowerOfTwo(align)
    ensures r.Ok? ==> align > 0 ==> r.value % align == 0
    ensures r.Ok? ==> exists i :: 0 <= i < |m| && m[i].base <= r.value && r.value + size < m[i].end
  {
    AllocFrom(m, 0, start, size, align)
  }

  /** Region i is big enough for the aligned block at its base. */
  predicate FitsAtBase(r: Region, size: nat, align: nat) {
    Aligned(r.base, align) + size < r.end
  }

  /** Reference first-fit search: the first region at or after k with room
      for the block at its aligned base. */
  function FirstFit(m: seq<Region>, k: nat, size: nat, align: nat): (r: Option<nat>)
    requires k <= |m|
    ensures r.Some? ==> k <= r.value < |m| && FitsAtBase(m[r.value], size, align)
    ensures forall i :: k <= i < |m| && (r.None? || i < r.value) ==> !FitsAtBase(m[i], size, align)
    decreases |m| - k
  {
    if k == |m| then None
    else if FitsAtBase(m[k], size, align) then Some(k)
    else FirstFit(m, k + 1, size, align)
  }

  /** Once a region was too small, `alloc` is first fit over the following
      regions, and panics with out-of-memory when none fits. */
  lemma {:induction false} AllocIsFirstFit(m: seq<Region>, k: nat, size: nat, align: nat)
    requires Valid(m) && k <= |m|
    ensures AllocFrom(m, k, 0, size, align) ==
      match FirstFit(m, k, size, align)
      case Some(i) => Ok(Aligned(m[i].base, align))
      case None => Err(OutOfMemory)
    decreases |m| - k
  {
    if k < |m| {
      AllocIsFirstFit(m, k + 1, size, align);
    }
  }

  /** A non-zero start that no region holds is a bad start. */
  lemma {:induction false} AllocBadStart(m: seq<Region>, k: nat, start: nat, size: nat, align: nat)
    requires k <= |m| && start != 0
    requires forall i :: k <= i < |m| ==> !HoldsStart(m[i], start)
    ensures AllocFrom(m, k, start, size, align) == Err(BadStart)
    decreases |m| - k
  {
    if k < |m| {
      AllocBadStart(m, k + 1, start, size, align);
    }
  }

  /** From a non-zero start the first region holding it is tried at the
      aligned start, and after that the following regions first fit. */
  lemma {:induction false} AllocFromStart(m: seq<Region>, k: nat, i: nat, start: nat, size: nat, align: nat)
    requires k <= i < |m| && start != 0
    requires HoldsStart(m[i], start)
    requires forall j :: k <= j < i ==> !HoldsStart(m[j], start)
    ensures AllocFrom(m, k, start, size, align) ==
      if Aligned(start, align) + size < m[i].end then Ok(Aligned(start, align))
      else AllocFrom(m, i + 1, 0, size, align)
    decreases i - k
  {
    if k < i {
      AllocFromStart(m, k + 1, i, start, size, align);
    }
  }

  /** In a valid map the block `alloc` returns never lies below start. */
  lemma AllocNotBelowStart(m: seq<Region>, start: nat, size: nat, align: nat)
    requires Valid(m) && (align == 0 || IsPowerOfTwo(align))
    requires Alloc(m, start, size, align).Ok?
    ensures Alloc(m, start, size, align).value >= start
  {
    if start != 0 {
      if forall i :: 0 <= i < |m| ==> !HoldsStart(m[i], start) {
        AllocBadStart(m, 0, start, size, align);
      } else {
        FirstHolder(m, start);
        var i :| 0 <= i < |m| && HoldsStart(m[i], start) && forall j :: 0 <= j < i ==> !HoldsStart(m[j], start);
        AllocFromStart(m, 0, i, start, size, align);
        if Aligned(start, align) + size >= m[i].end {
          AllocAfterHolder(m, i, start, size, align);
        }
      }
    }
  }

  /** A block found past the region holding start lies above start. */
  lemma AllocAfterHolder(m: seq<Region>, i: nat, start: nat, size: nat, align: nat)
    requires Valid(m) && i < |m| && HoldsStart(m[i], start)
    requires AllocFrom(m, i + 1, 0, size, align).Ok?
    ensures AllocFrom(m, i + 1, 0, size, align).value >= start
  {
    AllocIsFirstFit(m, i + 1, size, align);
    var f := FirstFit(m, i + 1, size, align).value;
    assert m[i].end <= m[f].base;
  }

  lemma FirstHolder(m: seq<Region>, pa: nat)
    requires exists i :: 0 <= i < |m| && HoldsStart(m[i], pa)
    ensures exists i :: 0 <= i < |m| && HoldsStart(m[i], pa) && forall j :: 0 <= j < i ==> !HoldsStart(m[j], pa)
  {
    var r := MaxAlloc(m, pa);
  }
}
