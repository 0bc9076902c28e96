/**
 * `steal_order` from the kernel's physical page allocator: the order in
 * which a CPU visits buddy allocators, as a list of half-open segments
 * [low, high) of buddy indexes.  The first segment added is the CPU's
 * local range.
 */
module StealOrder {

  datatype Segment = Segment(low: nat, high: nat)

  /** Segments are only ever created non-empty and only ever grow. */
  predicate WellFormed(segs: seq<Segment>) {
    forall i :: 0 <= i < |segs| ==> segs[i].low < segs[i].high
  }

  predicate InSegment(s: Segment, x: int) {
    s.low <= x < s.high
  }

  ghost predicate Covers(segs: seq<Segment>, x: int) {
    exists i :: 0 <= i < |segs| && InSegment(segs[i], x)
  }

  /** No buddy index lies in two segments. */
  ghost predicate Disjoint(segs: seq<Segment>) {
    forall i, j :: 0 <= i < j < |segs| ==> segs[i].high <= segs[j].low || segs[j].high <= segs[i].low
  }

  /** `after` keeps every segment of `before`, each possibly widened, and may add more. */
  ghost predicate Extends(before: seq<Segment>, after: seq<Segment>) {
    && |before| <= |after|
    && forall k :: 0 <= k < |before| ==> after[k].low <= before[k].low && before[k].high <= after[k].high
  }

  function Width(low: nat, high: nat): nat {
    if high > low then high - low else 0
  }

  // ---------------------------------------------------------------------
  // add(low, high)

  /** `add(low, high)`.  With `guard` false this is the code as written;
      with `guard` true a range lying inside a segment it is compared with
      is dropped as well, which the written code omits (see `Scan`). */
  function AddWith(segs: seq<Segment>, low: nat, high: nat, guard: bool): (r: seq<Segment>)
    requires WellFormed(segs)
    ensures WellFormed(r) && Extends(segs, r)
    ensures |segs| > 0 ==> r[0] == segs[0]
    decreases Width(low, high), 1, 0
  {
    Scan(segs, low, high, 0, |segs|, guard)
  }

  /** The loop of `add` over the segments present when it started (n of
      them), at segment i, with [low, high) what is left of the range.  A
      segment is read afresh at each step, since the recursive call made
      when splitting may have widened it. */
  function Scan(segs: seq<Segment>, low: nat, high: nat, i: nat, n: nat, guard: bool): (r: seq<Segment>)
    requires WellFormed(segs) && i <= n <= |segs|
    ensures WellFormed(r) && Extends(segs, r)
    ensures |segs| > 0 ==> r[0] == segs[0]
    decreases Width(low, high), 0, n - i
  {
    if i == n then Finish(segs, low, high)
    else
      var seg := segs[i];
      if low == seg.low && high == seg.high then segs
      else if low < seg.low && high > seg.high then
        // Split in two: add the upper part first, then go on with the lower part.
        var segs2 := AddWith(segs, seg.high, high, guard);
        Scan(segs2, low, segs2[i].low, i + 1, n, guard)
      else if low < seg.low && high > seg.low then Scan(segs, low, seg.low, i + 1, n, guard)
      else if low < seg.high && high > seg.high then Scan(segs, seg.high, high, i + 1, n, guard)
      else if guard && seg.low <= low && high <= seg.high then segs
      else Scan(segs, low, high, i + 1, n, guard)
  }

  /** The tail of `add`: an empty remainder adds nothing; otherwise it is
      merged with the last segment when that is not the only (local) one
      and the two touch, else appended. */
  function Finish(segs: seq<Segment>, low: nat, high: nat): (r: seq<Segment>)
    requires WellFormed(segs)
    ensures WellFormed(r) && Extends(segs, r)
    ensures |segs| > 0 ==> r[0] == segs[0]
    ensures low >= high ==> r == segs
    ensures |segs| > 0 ==> r[..|segs| - 1] == segs[..|segs| - 1]
    ensures |r| <= |segs| + 1
  {
    if low >= high then segs
    else if |segs| > 1 && segs[|segs| - 1].high == low then
      segs[..|segs| - 1] + [Segment(segs[|segs| - 1].low, high)]
    else if |segs| > 1 && high == segs[|segs| - 1].low then
      segs[..|segs| - 1] + [Segment(low, segs[|segs| - 1].high)]
    else segs + [Segment(low, high)]
  }

  /** `add` as the kernel has it. */
  function AddAsWritten(segs: seq<Segment>, low: nat, high: nat): seq<Segment>
    requires WellFormed(segs)
  {
    AddWith(segs, low, high, false)
  }

  /** `add` with ranges already inside a segment subtracted too. */
  function Add(segs: seq<Segment>, low: nat, high: nat): seq<Segment>
    requires WellFormed(segs)
  {
    AddWith(segs, low, high, true)
  }

  // ---------------------------------------------------------------------
  // Local range

  /** `get_local()`: the first segment added (undefined on an empty order). */
  function GetLocal(segs: seq<Segment>): Segment
    requires |segs| > 0
  {
    segs[0]
  }

  function IsLocal(segs: seq<Segment>, index: nat): bool
    requires |segs| > 0
  {
    GetLocal(segs).low <= index < GetLocal(segs).high
  }

  /** The first non-empty range added becomes the local range. */
  lemma FirstAddIsLocal(low: nat, high: nat, guard: bool)
    requires low < high
    ensures AddWith([], low, high, guard) == [Segment(low, high)]
    ensures forall index: nat :: IsLocal(AddWith([], low, high, guard), index) <==> low <= index < high
  {
  }

  /** Later adds never change which indexes are local. */
  lemma AddKeepsLocal(segs: seq<Segment>, low: nat, high: nat, guard: bool, index: nat)
    requires WellFormed(segs) && |segs| > 0
    ensures IsLocal(AddWith(segs, low, high, guard), index) == IsLocal(segs, index)
  {
  }

  // ---------------------------------------------------------------------
  // Covered indexes

  /** Both variants of `add` cover exactly the old indexes plus [low, high). */
  lemma {:induction false} AddCovers(segs: seq<Segment>, low: nat, high: nat, guard: bool)
    requires WellFormed(segs)
    ensures forall x :: Covers(AddWith(segs, low, high, guard), x) <==> Covers(segs, x) || low <= x < high
    decreases Width(low, high), 1, 0
  {
    ScanCovers(segs, low, high, 0, |segs|, guard);
  }

  lemma {:induction false} ScanCovers(segs: seq<Segment>, low: nat, high: nat, i: nat, n: nat, guard: bool)
    requires WellFormed(segs) && i <= n <= |segs|
    ensures forall x :: Covers(Scan(segs, low, high, i, n, guard), x) <==> Covers(segs, x) || low <= x < high
    decreases Width(low, high), 0, n - i
  {
    if i == n {
      FinishCovers(segs, low, high);
    } else {
      var seg := segs[i];
      if low == seg.low && high == seg.high {
      } else if low < seg.low && high > seg.high {
        var segs2 := AddWith(segs, seg.high, high, guard);
        AddCovers(segs, seg.high, high, guard);
        ScanCovers(segs2, low, segs2[i].low, i + 1, n, guard);
        SplitCovers(segs, segs2, Scan(segs2, low, segs2[i].low, i + 1, n, guard), low, high, i);
      } else if low < seg.low && high > seg.low {
        ScanCovers(segs, low, seg.low, i + 1, n, guard);
      } else if low < seg.high && high > seg.high {
        ScanCovers(segs, seg.high, high, i + 1, n, guard);
      } else if guard && seg.low <= low && high <= seg.high {
      } else {
        ScanCovers(segs, low, high, i + 1, n, guard);
      }
    }
  }

  /** After a split, the upper part added first and the lower part added
      by the rest of the loop together make up the whole range. */
  lemma SplitCovers(segs: seq<Segment>, segs2: seq<Segment>, r: seq<Segment>, low: nat, high: nat, i: nat)
    requires WellFormed(segs) && i < |segs| && Extends(segs, segs2)
    requires low < segs[i].low && segs[i].high < high
    requires forall x :: Covers(segs2, x) <==> Covers(segs, x) || segs[i].high <= x < high
    requires forall x :: Covers(r, x) <==> Covers(segs2, x) || low <= x < segs2[i].low
    ensures forall x :: Covers(r, x) <==> Covers(segs, x) || low <= x < high
  {
    forall x | low <= x < high ensures Covers(r, x) {
      if segs2[i].low <= x < segs[i].high {
        assert InSegment(segs2[i], x);
      }
    }
  }

  lemma FinishCovers(segs: seq<Segment>, low: nat, high: nat)
    requires WellFormed(segs)
    ensures forall x :: Covers(Finish(segs, low, high), x) <==> Covers(segs, x) || low <= x < high
  {
    var r := Finish(segs, low, high);
    if low < high {
      var last := |segs| - 1;
      forall x | Covers(r, x) ensures Covers(segs, x) || low <= x < high {
        var k :| 0 <= k < |r| && InSegment(r[k], x);
        if k < |segs| && k != last {
          assert r[k] == segs[k];
        } else if k == last && !(low <= x < high) {
          assert InSegment(segs[last], x);
        }
      }
      forall x | Covers(segs, x) ensures Covers(r, x) {
        var k :| 0 <= k < |segs| && InSegment(segs[k], x);
        assert InSegment(r[k], x);
      }
      forall x | low <= x < high ensures Covers(r, x) {
        if r == segs + [Segment(low, high)] {
          assert InSegment(r[|segs|], x);
        } else {
          assert InSegment(r[last], x);
        }
      }
    }
  }

  // ---------------------------------------------------------------------
  // No index twice

  /** With the guard, `add` never lets two segments share a buddy index. */
  lemma {:induction false} AddKeepsDisjoint(segs: seq<Segment>, low: nat, high: nat)
    requires WellFormed(segs) && Disjoint(segs)
    ensures Disjoint(Add(segs, low, high))
    decreases Width(low, high), 1, 0
  {
    ScanKeepsDisjoint(segs, low, high, 0, |segs|);
  }

  /** The loop invariant: whatever part of the remainder is already covered
      lies in a segment the loop has yet to visit. */
  ghost predicate PendingOnly(segs: seq<Segment>, low: nat, high: nat, i: nat, n: nat)
    requires i <= n <= |segs|
  {
    forall x :: low <= x < high && Covers(segs, x) ==> exists j :: i <= j < n && InSegment(segs[j], x)
  }

  lemma {:induction false} ScanKeepsDisjoint(segs: seq<Segment>, low: nat, high: nat, i: nat, n: nat)
    requires WellFormed(segs) && Disjoint(segs) && i <= n <= |segs|
    requires PendingOnly(segs, low, high, i, n)
    ensures Disjoint(Scan(segs, low, high, i, n, true))
    decreases Width(low, high), 0, n - i
  {
    if i == n {
      FinishKeepsDisjoint(segs, low, high);
    } else {
      var seg := segs[i];
      if low == seg.low && high == seg.high {
      } else if low < seg.low && high > seg.high {
        var segs2 := AddWith(segs, seg.high, high, true);
        AddKeepsDisjoint(segs, seg.high, high);
        SplitKeepsPending(segs, low, high, i, n);
        ScanKeepsDisjoint(segs2, low, segs2[i].low, i + 1, n);
      } else if low < seg.low && high > seg.low {
        NarrowKeepsPending(segs, low, high, i, n, low, seg.low);
        ScanKeepsDisjoint(segs, low, seg.low, i + 1, n);
      } else if low < seg.high && high > seg.high {
        NarrowKeepsPending(segs, low, high, i, n, seg.high, high);
        ScanKeepsDisjoint(segs, seg.high, high, i + 1, n);
      } else if seg.low <= low && high <= seg.high {
      } else {
        NarrowKeepsPending(segs, low, high, i, n, low, high);
        ScanKeepsDisjoint(segs, low, high, i + 1, n);
      }
    }
  }

  /** Moving past segment i with a remainder [lo, hi) inside [low, high)
      that misses segment i keeps the invariant. */
  lemma NarrowKeepsPending(segs: seq<Segment>, low: nat, high: nat, i: nat, n: nat, lo: nat, hi: nat)
    requires i < n <= |segs|
    requires PendingOnly(segs, low, high, i, n)
    requires low <= lo && hi <= high
    requires forall x :: lo <= x < hi ==> !InSegment(segs[i], x)
    ensures PendingOnly(segs, lo, hi, i + 1, n)
  {
    forall x | lo <= x < hi && Covers(segs, x)
      ensures exists j :: i + 1 <= j < n && InSegment(segs[j], x)
    {
      var j :| i <= j < n && InSegment(segs[j], x);
    }
  }

  /** After the upper part of a split has been added, the lower part still
      meets only segments the loop has yet to visit. */
  lemma SplitKeepsPending(segs: seq<Segment>, low: nat, high: nat, i: nat, n: nat)
    requires WellFormed(segs) && i < n <= |segs|
    requires low < segs[i].low && high > segs[i].high
    requires PendingOnly(segs, low, high, i, n)
    ensures var segs2 := AddWith(segs, segs[i].high, high, true);
      PendingOnly(segs2, low, segs2[i].low, i + 1, n)
  {
    var seg := segs[i];
    var segs2 := AddWith(segs, seg.high, high, true);
    AddCovers(segs, seg.high, high, true);
    forall x | low <= x < segs2[i].low && Covers(segs2, x)
      ensures exists j :: i + 1 <= j < n && InSegment(segs2[j], x)
    {
      var j :| i <= j < n && InSegment(segs[j], x);
      assert InSegment(segs2[j], x);
    }
  }

  lemma FinishKeepsDisjoint(segs: seq<Segment>, low: nat, high: nat)
    requires WellFormed(segs) && Disjoint(segs)
    requires forall x :: low <= x < high ==> !Covers(segs, x)
    ensures Disjoint(Finish(segs, low, high))
  {
    if low < high {
      // A segment meeting [low, high) would cover its larger lower end.
      forall k | 0 <= k < |segs| ensures segs[k].high <= low || high <= segs[k].low {
        var x := if segs[k].low < low then low else segs[k].low;
        if x < high && x < segs[k].high {
          assert InSegment(segs[k], x);
          assert Covers(segs, x);
        }
      }
      var r := Finish(segs, low, high);
      var last := |segs| - 1;
      forall a, b | 0 <= a < b < |r| ensures r[a].high <= r[b].low || r[b].high <= r[a].low {
        if b < |segs| && b != last {
          assert r[a] == segs[a] && r[b] == segs[b];
        } else {
          assert r[a] == segs[a];
        }
      }
    }
  }

  /** Written as it is, `add` lets a range lying inside an existing segment
      through: the index 2 ends up in two segments. */
  lemma AddAsWrittenCoversTwice()
    ensures AddAsWritten([Segment(0, 10)], 2, 5) == [Segment(0, 10), Segment(2, 5)]
    ensures !Disjoint(AddAsWritten([Segment(0, 10)], 2, 5))
  {
    var segs := [Segment(0, 10)];
    assert Scan(segs, 2, 5, 1, 1, false) == segs + [Segment(2, 5)];
    var r := AddAsWritten(segs, 2, 5);
    assert !(r[0].high <= r[1].low || r[1].high <= r[0].low);
  }

  /** Adding a range that is already one of the segments changes nothing,
      in the code as written too. */
  lemma AddExistingIsNoop(segs: seq<Segment>, k: nat, guard: bool)
    requires WellFormed(segs) && Disjoint(segs) && k < |segs|
    ensures AddWith(segs, segs[k].low, segs[k].high, guard) == segs
  {
    ScanToExisting(segs, k, 0, guard);
  }

  lemma {:induction false} ScanToExisting(segs: seq<Segment>, k: nat, i: nat, guard: bool)
    requires WellFormed(segs) && Disjoint(segs) && i <= k < |segs|
    ensures Scan(segs, segs[k].low, segs[k].high, i, |segs|, guard) == segs
    decreases k - i
  {
    if i < k {
      ScanToExisting(segs, k, i + 1, guard);
    }
  }

  /** The guarded `add` drops the same range. */
  lemma AddDropsContainedRange()
    ensures Add([Segment(0, 10)], 2, 5) == [Segment(0, 10)]
  {
  }

  // ---------------------------------------------------------------------
  // Iteration

  /** The indexes low, low + 1, ..., high - 1. */
  function Range(low: nat, high: nat): (r: seq<nat>)
    ensures |r| == Width(low, high)
    ensures forall k :: 0 <= k < |r| ==> r[k] == low + k
    decreases Width(low, high)
  {
    if low >= high then [] else [low] + Range(low + 1, high)
  }

  /** The index sequence a steal order stands for: each segment's indexes
      in order, segments in insertion order. */
  function Flatten(segs: seq<Segment>): seq<nat> {
    if |segs| == 0 then [] else Range(segs[0].low, segs[0].high) + Flatten(segs[1..])
  }

  /** `steal_order::iterator`: `End` is the default-constructed iterator,
      `At(k, pos)` stands at index pos of segment k. */
  datatype Iter = End | At(seg: nat, pos: nat)

  predicate ValidIter(segs: seq<Segment>, it: Iter) {
    it.At? ==> it.seg < |segs| && segs[it.seg].low <= it.pos < segs[it.seg].high
  }

  /** `begin()`: the low end of the first segment.  The kernel reads the
      first segment even when there is none; the model asks for one. */
  function Begin(segs: seq<Segment>): (it: Iter)
    requires WellFormed(segs) && |segs| > 0
    ensures ValidIter(segs, it) && it.At? && it.seg == 0
    ensures IsLocal(segs, it.pos) && forall x: nat :: IsLocal(segs, x) ==> it.pos <= x
  {
    At(0, segs[0].low)
  }

  /** `operator++`: step within the segment, else to the next segment's
      low end, else to `end()`. */
  function Next(segs: seq<Segment>, it: Iter): (r: Iter)
    requires WellFormed(segs) && ValidIter(segs, it) && it.At?
    ensures ValidIter(segs, r)
    ensures r.At? && r.seg == it.seg ==> r.pos == it.pos + 1
    ensures r.At? && r.seg != it.seg ==> r.seg == it.seg + 1 && r.pos == segs[r.seg].low
    ensures r.End? <==> it.seg == |segs| - 1 && it.pos == segs[it.seg].high - 1
  {
    if it.pos + 1 == segs[it.seg].high then
      if it.seg + 1 == |segs| then End else At(it.seg + 1, segs[it.seg + 1].low)
    else At(it.seg, it.pos + 1)
  }

  /** The indexes `*it` takes from `it` until it equals `end()`. */
  function Visit(segs: seq<Segment>, it: Iter): seq<nat>
    requires WellFormed(segs) && ValidIter(segs, it)
    decreases if it.At? then |segs| - it.seg else 0, if it.At? then segs[it.seg].high - it.pos else 0
  {
    if it.End? then [] else [it.pos] + Visit(segs, Next(segs, it))
  }

  lemma {:induction false} VisitFrom(segs: seq<Segment>, k: nat, pos: nat)
    requires WellFormed(segs) && ValidIter(segs, At(k, pos))
    ensures Visit(segs, At(k, pos)) == Range(pos, segs[k].high) + Flatten(segs[k + 1..])
    decreases |segs| - k, segs[k].high - pos
  {
    if pos + 1 < segs[k].high {
      VisitFrom(segs, k, pos + 1);
      VisitWithin(segs, k, pos);
    } else if k + 1 < |segs| {
      VisitFrom(segs, k + 1, segs[k + 1].low);
      VisitAcross(segs, k, pos);
    } else {
      VisitLast(segs, k, pos);
    }
  }

  /** A step inside segment k. */
  lemma VisitWithin(segs: seq<Segment>, k: nat, pos: nat)
    requires WellFormed(segs) && ValidIter(segs, At(k, pos)) && pos + 1 < segs[k].high
    requires Visit(segs, At(k, pos + 1)) == Range(pos + 1, segs[k].high) + Flatten(segs[k + 1..])
    ensures Visit(segs, At(k, pos)) == Range(pos, segs[k].high) + Flatten(segs[k + 1..])
  {
    assert Next(segs, At(k, pos)) == At(k, pos + 1);
    RangeCons(pos, segs[k].high);
    ConsAssoc(pos, Range(pos + 1, segs[k].high), Flatten(segs[k + 1..]));
  }

  /** A step from the last index of segment k to the low end of segment k + 1. */
  lemma VisitAcross(segs: seq<Segment>, k: nat, pos: nat)
    requires WellFormed(segs) && ValidIter(segs, At(k, pos)) && pos + 1 == segs[k].high
    requires k + 1 < |segs|
    requires Visit(segs, At(k + 1, segs[k + 1].low)) ==
      Range(segs[k + 1].low, segs[k + 1].high) + Flatten(segs[k + 2..])
    ensures Visit(segs, At(k, pos)) == Range(pos, segs[k].high) + Flatten(segs[k + 1..])
  {
    assert Next(segs, At(k, pos)) == At(k + 1, segs[k + 1].low);
    RangeCons(pos, segs[k].high);
    FlattenFrom(segs, k + 1);
  }

  /** The last index of the last segment: the next step is `end()`. */
  lemma VisitLast(segs: seq<Segment>, k: nat, pos: nat)
    requires WellFormed(segs) && ValidIter(segs, At(k, pos)) && pos + 1 == segs[k].high
    requires k + 1 == |segs|
    ensures Visit(segs, At(k, pos)) == Range(pos, segs[k].high) + Flatten(segs[k + 1..])
  {
    assert Next(segs, At(k, pos)) == End;
    RangeCons(pos, segs[k].high);
    assert segs[k + 1..] == [];
  }

  lemma RangeCons(low: nat, high: nat)
    requires low < high
    ensures Range(low, high) == [low] + Range(low + 1, high)
  {
  }

  lemma ConsAssoc(x: nat, a: seq<nat>, b: seq<nat>)
    ensures [x] + (a + b) == ([x] + a) + b
  {
  }

  /** Flattening from segment k on: segment k's indexes, then the rest. */
  lemma FlattenFrom(segs: seq<Segment>, k: nat)
    requires k < |segs|
    ensures Flatten(segs[k..]) == Range(segs[k].low, segs[k].high) + Flatten(segs[k + 1..])
  {
    assert segs[k..][1..] == segs[k + 1..];
  }

  /** Iterating from `begin()` to `end()` visits exactly the flattened
      segments, in insertion order. */
  lemma IteratorVisitsFlatten(segs: seq<Segment>)
    requires WellFormed(segs) && |segs| > 0
    ensures Visit(segs, Begin(segs)) == Flatten(segs)
  {
    VisitFrom(segs, 0, segs[0].low);
  }

  /** An index is visited exactly when some segment covers it. */
  lemma {:induction false} FlattenCovers(segs: seq<Segment>, x: nat)
    ensures x in Flatten(segs) <==> Covers(segs, x)
  {
    if |segs| > 0 {
      var r := Range(segs[0].low, segs[0].high);
      FlattenCovers(segs[1..], x);
      assert Flatten(segs) == r + Flatten(segs[1..]);
      if x in r {
        assert InSegment(segs[0], x);
      } else if x in Flatten(segs[1..]) {
        var i :| 0 <= i < |segs[1..]| && InSegment(segs[1..][i], x);
        assert InSegment(segs[i + 1], x);
      }
      if Covers(segs, x) {
        var i :| 0 <= i < |segs| && InSegment(segs[i], x);
        if i == 0 {
          assert r[x - segs[0].low] == x;
        } else {
          assert InSegment(segs[1..][i - 1], x);
        }
      }
    }
  }

  predicate Distinct(xs: seq<nat>) {
    forall a, b :: 0 <= a < b < |xs| ==> xs[a] != xs[b]
  }

  /** When no index lies in two segments, iteration visits none twice. */
  lemma {:induction false} FlattenDistinct(segs: seq<Segment>)
    requires Disjoint(segs)
    ensures Distinct(Flatten(segs))
  {
    if |segs| > 0 {
      var r := Range(segs[0].low, segs[0].high);
      var rest := Flatten(segs[1..]);
      FlattenDistinct(segs[1..]);
      forall a, b | 0 <= a < |r| && 0 <= b < |rest| ensures r[a] != rest[b] {
        assert rest[b] in rest;
        FlattenCovers(segs[1..], rest[b]);
        var i :| 0 <= i < |segs[1..]| && InSegment(segs[1..][i], rest[b]);
        assert segs[1..][i] == segs[i + 1];
      }
      var f := r + rest;
      forall a, b | 0 <= a < b < |f| ensures f[a] != f[b] {
        if b < |r| {
        } else if a >= |r| {
          assert f[a] == rest[a - |r|] && f[b] == rest[b - |r|];
        } else {
          assert f[b] == rest[b - |r|];
        }
      }
    }
  }
}
