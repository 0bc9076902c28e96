/**
 * The per-CPU hot page cache of the kernel's page allocator, in the
 * variant without load balancing: page-sized `kfree` pushes onto a
 * bounded stack and, when it is full, first returns the older half to
 * the buddy allocators; page-sized `kalloc` pops, refilling half the
 * cache from the buddies in steal order when it is empty.
 *
 * A buddy allocator is seen from outside only: the address range its
 * `contains` accepts and a pool of free pages from which `alloc_nothrow`
 * hands out one page and to which `free` returns one.
 */
module HotList {
  import opened Wrappers
  import opened StealOrder

  const PageSize: nat := 4096

  /** The addresses a buddy allocator manages; fixed once built. */
  datatype BuddyRange = BuddyRange(base: nat, limit: nat)

  predicate Contains(b: BuddyRange, p: nat) {
    b.base <= p < b.limit
  }

  datatype Panic = NotInAllocatedRegion(page: nat)

  /** What one CPU's allocation path sees: its steal order and hot list,
      and every buddy's range and free pages. */
  datatype Mem = Mem(steal: seq<Segment>, hot: seq<nat>, ranges: seq<BuddyRange>, pools: seq<seq<nat>>)

  /** Buddy indexes in `order` name existing buddies. */
  predicate InRange(order: seq<nat>, n: nat) {
    forall k :: 0 <= k < |order| ==> order[k] < n
  }

  /** The state `initkalloc` sets up and the page paths keep: a non-empty
      steal order over existing buddies, a free pool per buddy, and no more
      than `hotPages` (KALLOC_HOT_PAGES) cached pages. */
  predicate Valid(m: Mem, hotPages: nat) {
    && WellFormed(m.steal) && |m.steal| > 0
    && (forall k :: 0 <= k < |m.steal| ==> m.steal[k].high <= |m.ranges|)
    && |m.pools| == |m.ranges|
    && |m.hot| <= hotPages
  }

  /** The buddy indexes in the order the steal-order iterator visits them. */
  function Order(m: Mem): seq<nat>
    requires WellFormed(m.steal)
  {
    Flatten(m.steal)
  }

  lemma OrderInRange(m: Mem, hotPages: nat)
    requires Valid(m, hotPages)
    ensures InRange(Order(m), |m.ranges|) && |Order(m)| > 0
  {
    forall k | 0 <= k < |Order(m)| ensures Order(m)[k] < |m.ranges| {
      FlattenCovers(m.steal, Order(m)[k]);
    }
    FlattenCovers(m.steal, m.steal[0].low);
    assert InSegment(m.steal[0], m.steal[0].low);
  }

  // ---------------------------------------------------------------------
  // Free pages, counted over all buddies

  function PoolPages(pools: seq<seq<nat>>): multiset<nat> {
    if |pools| == 0 then multiset{} else PoolPages(pools[..|pools| - 1]) + multiset(pools[|pools| - 1])
  }

  /** Every page the CPU's cache and the buddies hold. */
  function Pages(m: Mem): multiset<nat> {
    multiset(m.hot) + PoolPages(m.pools)
  }

  lemma {:induction false} PoolPagesUpdate(pools: seq<seq<nat>>, i: nat, q: seq<nat>)
    requires i < |pools|
    ensures PoolPages(pools[i := q]) + multiset(pools[i]) == PoolPages(pools) + multiset(q)
  {
    var last := |pools| - 1;
    var upd := pools[i := q];
    if i < last {
      PoolPagesUpdate(pools[..last], i, q);
      assert pools[..last][i] == pools[i];
      assert upd[..last] == pools[..last][i := q];
      assert upd[last] == pools[last];
      var a, b := PoolPages(upd[..last]), PoolPages(pools[..last]);
      var x, y, l := multiset(pools[i]), multiset(q), multiset(pools[last]);
      assert a + x == b + y;
      calc {
        PoolPages(upd) + x;
        (a + l) + x;
        (a + x) + l;
        (b + y) + l;
        (b + l) + y;
        PoolPages(pools) + y;
      }
    } else {
      assert upd[..last] == pools[..last];
      assert PoolPages(upd) == PoolPages(pools[..last]) + multiset(q);
    }
  }

  lemma Cancel(a: multiset<nat>, b: multiset<nat>, x: multiset<nat>)
    requires a + x == b + x
    ensures a == b
  {
    forall e ensures a[e] == b[e] {
      assert (a + x)[e] == (b + x)[e];
    }
  }

  /** Freeing page p to buddy i adds p to the pages the buddies hold. */
  lemma PoolPagesPush(pools: seq<seq<nat>>, i: nat, p: nat)
    requires i < |pools|
    ensures PoolPages(pools[i := [p] + pools[i]]) == PoolPages(pools) + multiset{p}
  {
    PoolPagesUpdate(pools, i, [p] + pools[i]);
    var a, b, x := PoolPages(pools[i := [p] + pools[i]]), PoolPages(pools), multiset(pools[i]);
    assert multiset([p] + pools[i]) == multiset{p} + x;
    Cancel(a, b + multiset{p}, x);
  }

  /** Taking the first free page of buddy i removes it from the pages the buddies hold. */
  lemma PoolPagesPop(pools: seq<seq<nat>>, i: nat)
    requires i < |pools| && |pools[i]| > 0
    ensures PoolPages(pools[i := pools[i][1..]]) + multiset{pools[i][0]} == PoolPages(pools)
  {
    var head, tail := pools[i][0], pools[i][1..];
    PoolPagesUpdate(pools, i, tail);
    var a, b, y := PoolPages(pools[i := tail]), PoolPages(pools), multiset(tail);
    assert pools[i] == [head] + tail;
    assert multiset(pools[i]) == multiset{head} + y;
    Cancel(a + multiset{head}, b, y);
  }

  // ---------------------------------------------------------------------
  // Choosing a buddy to free to

  /** The first buddy, in `order` from position j, whose range contains p. */
  function FirstContaining(ranges: seq<BuddyRange>, order: seq<nat>, p: nat, j: nat): (r: Option<nat>)
    requires InRange(order, |ranges|) && j <= |order|
    ensures r.Some? ==> r.value < |ranges| && Contains(ranges[r.value], p)
    ensures r.Some? ==> exists i :: j <= i < |order| && order[i] == r.value
                          && forall i' :: j <= i' < i ==> !Contains(ranges[order[i']], p)
    ensures r.None? <==> forall i :: j <= i < |order| ==> !Contains(ranges[order[i]], p)
    decreases |order| - j
  {
    if j == |order| then None
    else if Contains(ranges[order[j]], p) then Some(order[j])
    else FirstContaining(ranges, order, p, j + 1)
  }

  /** Some buddy in `order` manages p. */
  predicate Managed(ranges: seq<BuddyRange>, order: seq<nat>, p: nat) {
    exists i :: 0 <= i < |order| && order[i] < |ranges| && Contains(ranges[order[i]], p)
  }

  /** The buddy the flush loop frees p to, given the buddy it used last. */
  function FlushTarget(ranges: seq<BuddyRange>, order: seq<nat>, p: nat, cur: Option<nat>): (r: Option<nat>)
    requires InRange(order, |ranges|) && (cur.Some? ==> cur.value < |ranges|)
    ensures r.Some? ==> r.value < |ranges| && Contains(ranges[r.value], p)
    ensures r.Some? && r != cur ==> r == FirstContaining(ranges, order, p, 0)
    ensures cur.Some? && Contains(ranges[cur.value], p) ==> r == cur
    ensures r.None? <==> !Managed(ranges, order, p) && !(cur.Some? && Contains(ranges[cur.value], p))
  {
    if cur.Some? && Contains(ranges[cur.value], p) then cur
    else FirstContaining(ranges, order, p, 0)
  }

  /** Every pool of `after` holds the pages of the same pool in `before`
      and possibly more, and every page it gained lies in that buddy's range. */
  ghost predicate FreedInto(ranges: seq<BuddyRange>, before: seq<seq<nat>>, after: seq<seq<nat>>) {
    && |after| == |before|
    && forall b :: 0 <= b < |before| && b < |ranges| ==>
         && multiset(before[b]) <= multiset(after[b])
         && forall p :: p in multiset(after[b]) - multiset(before[b]) ==> Contains(ranges[b], p)
  }

  lemma FreedIntoPush(ranges: seq<BuddyRange>, pools: seq<seq<nat>>, b: nat, p: nat)
    requires b < |pools| && b < |ranges| && Contains(ranges[b], p)
    ensures FreedInto(ranges, pools, pools[b := [p] + pools[b]])
  {
    assert multiset([p] + pools[b]) == multiset(pools[b]) + multiset{p};
  }

  lemma FreedIntoTrans(ranges: seq<BuddyRange>, a: seq<seq<nat>>, b: seq<seq<nat>>, c: seq<seq<nat>>)
    requires FreedInto(ranges, a, b) && FreedInto(ranges, b, c)
    ensures FreedInto(ranges, a, c)
  {
    forall i, p | 0 <= i < |a| && i < |ranges| && p in multiset(c[i]) - multiset(a[i])
      ensures Contains(ranges[i], p)
    {
      if p !in multiset(c[i]) - multiset(b[i]) {
        assert p in multiset(b[i]) - multiset(a[i]);
      }
    }
  }

  /** The flush loop of `kfree`: each page goes to the buddy the previous
      page went to when that buddy contains it, else to the first buddy in
      steal order that does; finding none fails the kernel's assertion. */
  function FreeAll(ranges: seq<BuddyRange>, pools: seq<seq<nat>>, order: seq<nat>, ptrs: seq<nat>, cur: Option<nat>)
    : (r: Result<seq<seq<nat>>, Panic>)
    requires |pools| == |ranges| && InRange(order, |ranges|)
    requires cur.Some? ==> cur.value < |ranges|
    ensures r.Ok? ==> |r.value| == |pools| && PoolPages(r.value) == PoolPages(pools) + multiset(ptrs)
    ensures r.Ok? ==> FreedInto(ranges, pools, r.value)
    decreases |ptrs|
  {
    if |ptrs| == 0 then Ok(pools)
    else
      var p := ptrs[0];
      var lb := FlushTarget(ranges, order, p, cur);
      if lb.None? then Err(NotInAllocatedRegion(p))
      else
        var b := lb.value;
        var rest := FreeAll(ranges, pools[b := [p] + pools[b]], order, ptrs[1..], lb);
        PoolPagesPush(pools, b, p);
        assert multiset(ptrs) == multiset{p} + multiset(ptrs[1..]) by {
          assert ptrs == [p] + ptrs[1..];
        }
        FreedIntoPush(ranges, pools, b, p);
        if rest.Ok? then
          FreedIntoTrans(ranges, pools, pools[b := [p] + pools[b]], rest.value);
          rest
        else rest
  }

  /** The flush fails exactly when some page to flush lies in no buddy of
      the steal order. */
  lemma {:induction false} FreeAllFailsIffUnmanaged(ranges: seq<BuddyRange>, pools: seq<seq<nat>>, order: seq<nat>, ptrs: seq<nat>, cur: Option<nat>)
    requires |pools| == |ranges| && InRange(order, |ranges|)
    requires cur.Some? ==> exists i :: 0 <= i < |order| && order[i] == cur.value
    ensures cur.Some? ==> cur.value < |ranges|
    ensures FreeAll(ranges, pools, order, ptrs, cur).Err? <==> exists p :: p in ptrs && !Managed(ranges, order, p)
    decreases |ptrs|
  {
    if |ptrs| > 0 {
      var p := ptrs[0];
      var lb := FlushTarget(ranges, order, p, cur);
      if lb.Some? {
        var b := lb.value;
        assert Managed(ranges, order, p) by {
          if lb == cur {
            var i :| 0 <= i < |order| && order[i] == b;
            assert Contains(ranges[order[i]], p);
          } else {
            var i :| 0 <= i < |order| && order[i] == b && forall i' :: 0 <= i' < i ==> !Contains(ranges[order[i']], p);
          }
        }
        assert exists i :: 0 <= i < |order| && order[i] == b by {
          if lb == cur {
          } else {
            var i :| 0 <= i < |order| && order[i] == b && forall i' :: 0 <= i' < i ==> !Contains(ranges[order[i']], p);
          }
        }
        FreeAllFailsIffUnmanaged(ranges, pools[b := [p] + pools[b]], order, ptrs[1..], lb);
        assert forall q :: q in ptrs <==> q == p || q in ptrs[1..] by {
          assert ptrs == [p] + ptrs[1..];
        }
      } else {
        assert !Managed(ranges, order, p);
      }
    } else {
      if cur.Some? {
        var i :| 0 <= i < |order| && order[i] == cur.value;
      }
    }
  }

  // ---------------------------------------------------------------------
  // Sorting the half to flush

  predicate Sorted(s: seq<nat>) {
    forall a, b :: 0 <= a < b < |s| ==> s[a] <= s[b]
  }

  function Insert(x: nat, s: seq<nat>): (r: seq<nat>)
    requires Sorted(s)
    ensures Sorted(r) && multiset(r) == multiset(s) + multiset{x}
    ensures r[0] == x || (|s| > 0 && r[0] == s[0])
  {
    if |s| == 0 || x <= s[0] then [x] + s
    else
      var t := Insert(x, s[1..]);
      assert s == [s[0]] + s[1..];
      assert s[0] <= t[0];
      [s[0]] + t
  }

  /** `std::sort` on the pages to flush, by address. */
  function Sort(s: seq<nat>): (r: seq<nat>)
    ensures Sorted(r) && multiset(r) == multiset(s)
  {
    if |s| == 0 then []
    else
      assert s == [s[0]] + s[1..];
      Insert(s[0], Sort(s[1..]))
  }

  // ---------------------------------------------------------------------
  // kfree

  /** The flush in `kfree` when the cache is full: its first half, sorted,
      goes back to the buddies, and the second half moves down. */
  function Flush(m: Mem, hotPages: nat): (r: Result<Mem, Panic>)
    requires Valid(m, hotPages) && hotPages >= 2 && |m.hot| == hotPages
    ensures r.Ok? ==> r.value == m.(hot := m.hot[hotPages / 2..], pools := r.value.pools)
    ensures r.Ok? ==> |r.value.pools| == |m.pools|
    ensures r.Ok? ==> FreedInto(m.ranges, m.pools, r.value.pools)
  {
    OrderInRange(m, hotPages);
    var pools := FreeAll(m.ranges, m.pools, Order(m), Sort(m.hot[..hotPages / 2]), None);
    if pools.Err? then Err(pools.error)
    else Ok(m.(hot := m.hot[hotPages / 2..], pools := pools.value))
  }

  /** A flush moves pages from the cache to the buddies, losing none. */
  lemma FlushKeepsPages(m: Mem, hotPages: nat)
    requires Valid(m, hotPages) && hotPages >= 2 && |m.hot| == hotPages
    ensures Flush(m, hotPages).Ok? ==> Pages(Flush(m, hotPages).value) == Pages(m)
  {
    OrderInRange(m, hotPages);
    var half := m.hot[..hotPages / 2];
    var kept := m.hot[hotPages / 2..];
    assert m.hot == half + kept;
    assert multiset(m.hot) == multiset(half) + multiset(kept);
  }

  /** A flush fails, by the kernel's assertion, exactly when a page of the
      half being flushed lies in no buddy of the steal order. */
  lemma FlushFailsIffUnmanaged(m: Mem, hotPages: nat)
    requires Valid(m, hotPages) && hotPages >= 2 && |m.hot| == hotPages
    ensures Flush(m, hotPages).Err? <==> exists p :: p in m.hot[..hotPages / 2] && !Managed(m.ranges, Order(m), p)
  {
    OrderInRange(m, hotPages);
    var half := m.hot[..hotPages / 2];
    var sorted := Sort(half);
    FreeAllFailsIffUnmanaged(m.ranges, m.pools, Order(m), sorted, None);
    assert forall p :: p in sorted <==> p in half by {
      assert forall p :: p in sorted <==> p in multiset(half);
    }
  }

  /** Page-sized `kfree(v)`: when the cache is full, flush it first; then
      push v. */
  function KFreePage(m: Mem, v: nat, hotPages: nat): (r: Result<Mem, Panic>)
    requires Valid(m, hotPages) && hotPages >= 2
    ensures r.Ok? ==> Valid(r.value, hotPages) && Pages(r.value) == Pages(m) + multiset{v}
    ensures r.Ok? ==> r.value.steal == m.steal && r.value.ranges == m.ranges
    ensures r.Ok? && |m.hot| < hotPages ==> r.value.hot == m.hot + [v] && r.value.pools == m.pools
    ensures r.Ok? && |m.hot| == hotPages ==> r.value.hot == m.hot[hotPages / 2..] + [v]
    ensures r.Err? <==> |m.hot| == hotPages && exists p :: p in m.hot[..hotPages / 2] && !Managed(m.ranges, Order(m), p)
  {
    if |m.hot| == hotPages then
      FlushKeepsPages(m, hotPages);
      FlushFailsIffUnmanaged(m, hotPages);
      var room := Flush(m, hotPages);
      if room.Err? then Err(room.error) else Ok(Push(room.value, v))
    else Ok(Push(m, v))
  }

  /** `hot_pages[nhot++] = v`. */
  function Push(m: Mem, v: nat): (r: Mem)
    ensures Pages(r) == Pages(m) + multiset{v}
    ensures |r.hot| == |m.hot| + 1 && r.hot[|m.hot|] == v && r.hot[..|m.hot|] == m.hot
    ensures r == m.(hot := r.hot)
  {
    assert multiset(m.hot + [v]) == multiset(m.hot) + multiset{v};
    m.(hot := m.hot + [v])
  }

  /** v went to the buddy at position j of `order`, the first position
      whose buddy contains v. */
  ghost predicate FirstInOrder(m: Mem, order: seq<nat>, v: nat, pools: seq<seq<nat>>) {
    exists j :: 0 <= j < |order| && order[j] < |m.ranges| && order[j] < |m.pools|
      && Contains(m.ranges[order[j]], v)
      && (forall j' :: 0 <= j' < j && order[j'] < |m.ranges| ==> !Contains(m.ranges[order[j']], v))
      && pools == m.pools[order[j] := [v] + m.pools[order[j]]]
  }

  /** `kfree(v, size)` for any other size: v goes straight to the first
      buddy in steal order that contains it, or the kernel panics. */
  function KFreeBlock(m: Mem, v: nat, hotPages: nat): (r: Result<Mem, Panic>)
    requires Valid(m, hotPages)
    ensures r.Ok? ==> Valid(r.value, hotPages) && Pages(r.value) == Pages(m) + multiset{v}
    ensures r.Ok? ==> r.value.hot == m.hot
    ensures r.Ok? ==> FirstInOrder(m, Order(m), v, r.value.pools)
    ensures r.Err? <==> !Managed(m.ranges, Order(m), v)
  {
    OrderInRange(m, hotPages);
    var lb := FirstContaining(m.ranges, Order(m), v, 0);
    if lb.None? then
      assert !Managed(m.ranges, Order(m), v);
      Err(NotInAllocatedRegion(v))
    else
      PoolPagesPush(m.pools, lb.value, v);
      Ok(m.(pools := m.pools[lb.value := [v] + m.pools[lb.value]]))
  }

  function KFree(m: Mem, v: nat, size: nat, hotPages: nat): (r: Result<Mem, Panic>)
    requires Valid(m, hotPages) && hotPages >= 2
    ensures r.Ok? ==> Valid(r.value, hotPages) && Pages(r.value) == Pages(m) + multiset{v}
    ensures size != PageSize ==> r == KFreeBlock(m, v, hotPages)
    ensures size == PageSize ==> r == KFreePage(m, v, hotPages)
  {
    if size == PageSize then KFreePage(m, v, hotPages) else KFreeBlock(m, v, hotPages)
  }

  // ---------------------------------------------------------------------
  // kalloc

  /** No buddy in `order` has a free page. */
  predicate Exhausted(pools: seq<seq<nat>>, order: seq<nat>) {
    forall i :: 0 <= i < |order| && order[i] < |pools| ==> |pools[order[i]]| == 0
  }

  /** The refill starting at position j stopped at position s: every buddy
      before s is drained, and no buddy other than those at positions j..s
      lost a page. */
  ghost predicate TakenInOrder(pools: seq<seq<nat>>, order: seq<nat>, j: nat, s: nat, after: seq<seq<nat>>)
    requires InRange(order, |pools|) && |after| == |pools|
  {
    && j <= s < |order|
    && (forall k :: j <= k < s ==> |after[order[k]]| == 0)
    && (forall b :: 0 <= b < |pools| && b !in order[j..s + 1] ==> after[b] == pools[b])
  }

  /** The refill loop of page-sized `kalloc`, at position j of the steal
      order, filling `hot` up to half the cache. */
  function Refill(pools: seq<seq<nat>>, order: seq<nat>, j: nat, hot: seq<nat>, hotPages: nat)
    : (r: (seq<seq<nat>>, seq<nat>))
    requires InRange(order, |pools|) && j < |order|
    ensures |r.0| == |pools| && multiset(r.1) + PoolPages(r.0) == multiset(hot) + PoolPages(pools)
    ensures |r.1| >= |hot| && r.1[..|hot|] == hot
    decreases |order| - j, |pools[order[j]]|
  {
    if |hot| >= hotPages / 2 then (pools, hot)
    else if |pools[order[j]]| == 0 then
      if j + 1 == |order| then (pools, hot)
      else Refill(pools, order, j + 1, hot, hotPages)
    else
      var b := order[j];
      var page := pools[b][0];
      var r := Refill(pools[b := pools[b][1..]], order, j, hot + [page], hotPages);
      PoolPagesPop(pools, b);
      assert r.1[..|hot|] == (r.1[..|hot| + 1])[..|hot|];
      r
  }

  /** x is what is left of y after pages are taken from its head. */
  predicate IsSuffix(x: seq<nat>, y: seq<nat>) {
    |x| <= |y| && x == y[|y| - |x|..]
  }

  /** Every pool of `after` is its pool in `before` with pages taken from the head. */
  ghost predicate TakenFromHeads(before: seq<seq<nat>>, after: seq<seq<nat>>) {
    |after| == |before| && forall b :: 0 <= b < |before| ==> IsSuffix(after[b], before[b])
  }

  lemma SuffixTrans(x: seq<nat>, y: seq<nat>, z: seq<nat>)
    requires IsSuffix(x, y) && IsSuffix(y, z)
    ensures IsSuffix(x, z)
  {
    assert z[|z| - |y|..][|y| - |x|..] == z[|z| - |x|..];
  }

  lemma TakenFromHeadsStep(pools: seq<seq<nat>>, b: nat, after: seq<seq<nat>>)
    requires b < |pools| && |pools[b]| > 0 && TakenFromHeads(pools[b := pools[b][1..]], after)
    ensures TakenFromHeads(pools, after)
  {
    assert IsSuffix(pools[b][1..], pools[b]);
    SuffixTrans(after[b], pools[b][1..], pools[b]);
  }

  /** Each buddy's pool loses pages from its head only. */
  lemma {:induction false} RefillTakesHeads(pools: seq<seq<nat>>, order: seq<nat>, j: nat, hot: seq<nat>, hotPages: nat)
    requires InRange(order, |pools|) && j < |order|
    ensures TakenFromHeads(pools, Refill(pools, order, j, hot, hotPages).0)
    decreases |order| - j, |pools[order[j]]|
  {
    if |hot| >= hotPages / 2 {
      assert forall b :: 0 <= b < |pools| ==> pools[b][|pools[b]| - |pools[b]|..] == pools[b];
    } else if |pools[order[j]]| == 0 {
      if j + 1 < |order| {
        RefillTakesHeads(pools, order, j + 1, hot, hotPages);
      } else {
        assert forall b :: 0 <= b < |pools| ==> pools[b][|pools[b]| - |pools[b]|..] == pools[b];
      }
    } else {
      var b := order[j];
      var pools1 := pools[b := pools[b][1..]];
      RefillTakesHeads(pools1, order, j, hot + [pools[b][0]], hotPages);
      TakenFromHeadsStep(pools, b, Refill(pools1, order, j, hot + [pools[b][0]], hotPages).0);
    }
  }

  /** Pages come from the buddies in steal order: the refill stops at some
      position s, having drained every buddy before it and touched no buddy
      that does not occur in positions j..s. */
  lemma {:induction false} RefillInOrder(pools: seq<seq<nat>>, order: seq<nat>, j: nat, hot: seq<nat>, hotPages: nat)
    requires InRange(order, |pools|) && j < |order|
    ensures exists s: nat :: TakenInOrder(pools, order, j, s, Refill(pools, order, j, hot, hotPages).0)
    decreases |order| - j, |pools[order[j]]|
  {
    var r := Refill(pools, order, j, hot, hotPages);
    if |hot| >= hotPages / 2 {
      assert TakenInOrder(pools, order, j, j, r.0);
    } else if |pools[order[j]]| == 0 {
      if j + 1 == |order| {
        assert TakenInOrder(pools, order, j, j, r.0);
      } else {
        RefillInOrder(pools, order, j + 1, hot, hotPages);
        RefillTakesHeads(pools, order, j + 1, hot, hotPages);
        assert IsSuffix(r.0[order[j]], pools[order[j]]);
        var s: nat :| TakenInOrder(pools, order, j + 1, s, r.0);
        InOrderWiden(pools, order, j, s, r.0);
      }
    } else {
      var b := order[j];
      var pools1 := pools[b := pools[b][1..]];
      RefillInOrder(pools1, order, j, hot + [pools[b][0]], hotPages);
      var s: nat :| TakenInOrder(pools1, order, j, s, r.0);
      assert order[j..s + 1][0] == b;
      assert TakenInOrder(pools, order, j, s, r.0);
    }
  }

  /** A drained buddy at position j extends a stop found from j + 1. */
  lemma InOrderWiden(pools: seq<seq<nat>>, order: seq<nat>, j: nat, s: nat, after: seq<seq<nat>>)
    requires InRange(order, |pools|) && |after| == |pools| && j + 1 < |order|
    requires TakenInOrder(pools, order, j + 1, s, after) && |after[order[j]]| == 0
    ensures TakenInOrder(pools, order, j, s, after)
  {
    forall b | 0 <= b < |pools| && b !in order[j..s + 1] ensures after[b] == pools[b] {
      assert order[j + 1..s + 1] == order[j..s + 1][1..];
    }
  }

  /** A refill stops at half a cache; if it stops short, every buddy from
      position j on is out of pages, and it takes nothing from empty ones. */
  lemma {:induction false} RefillStops(pools: seq<seq<nat>>, order: seq<nat>, j: nat, hot: seq<nat>, hotPages: nat)
    requires InRange(order, |pools|) && j < |order| && |hot| <= hotPages / 2
    ensures var r := Refill(pools, order, j, hot, hotPages);
      && |r.1| <= hotPages / 2
      && (|r.1| < hotPages / 2 ==> forall i :: j <= i < |order| ==> |r.0[order[i]]| == 0)
      && (|r.1| == |hot| ==> r.0 == pools)
      && (forall i :: 0 <= i < |pools| ==> |r.0[i]| <= |pools[i]|)
    decreases |order| - j, |pools[order[j]]|
  {
    if |hot| >= hotPages / 2 {
    } else if |pools[order[j]]| == 0 {
      if j + 1 < |order| {
        RefillStops(pools, order, j + 1, hot, hotPages);
      }
    } else {
      var b := order[j];
      var pools1 := pools[b := pools[b][1..]];
      RefillStops(pools1, order, j, hot + [pools[b][0]], hotPages);
    }
  }

  /** With every buddy out of pages a refill takes nothing. */
  lemma {:induction false} RefillFromEmpty(pools: seq<seq<nat>>, order: seq<nat>, j: nat, hot: seq<nat>, hotPages: nat)
    requires InRange(order, |pools|) && j < |order|
    requires forall i :: j <= i < |order| ==> |pools[order[i]]| == 0
    ensures Refill(pools, order, j, hot, hotPages) == (pools, hot)
    decreases |order| - j
  {
    if |hot| < hotPages / 2 && j + 1 < |order| {
      RefillFromEmpty(pools, order, j + 1, hot, hotPages);
    }
  }

  /** Position i is the first, from position j, whose buddy has a free page. */
  ghost predicate FirstNonEmpty(pools: seq<seq<nat>>, order: seq<nat>, j: nat, i: nat)
    requires InRange(order, |pools|)
  {
    && j <= i < |order| && |pools[order[i]]| > 0
    && forall i' :: j <= i' < i ==> |pools[order[i']]| == 0
  }

  /** The general allocation loop: the first buddy in steal order with a
      free page hands one out. */
  function General(pools: seq<seq<nat>>, order: seq<nat>, j: nat): (r: Option<(nat, seq<seq<nat>>)>)
    requires InRange(order, |pools|) && j <= |order|
    ensures r.Some? ==> |r.value.1| == |pools| && PoolPages(r.value.1) + multiset{r.value.0} == PoolPages(pools)
    ensures r.None? <==> forall i :: j <= i < |order| ==> |pools[order[i]]| == 0
    ensures r.Some? ==>
      exists i: nat :: FirstNonEmpty(pools, order, j, i) && r.value == (pools[order[i]][0], pools[order[i] := pools[order[i]][1..]])
    decreases |order| - j
  {
    if j == |order| then None
    else if |pools[order[j]]| == 0 then General(pools, order, j + 1)
    else
      var b := order[j];
      PoolPagesPop(pools, b);
      Some((pools[b][0], pools[b := pools[b][1..]]))
  }

  /** Page-sized `kalloc`: pop the most recently cached page, refilling
      the cache first when it is empty; when no buddy yields a page the
      general loop is tried, and failing that the result is null (None). */
  function KAllocPage(m: Mem, hotPages: nat): (r: Option<(nat, Mem)>)
    requires Valid(m, hotPages) && hotPages >= 2
    ensures r.Some? ==> r.value.1.steal == m.steal && r.value.1.ranges == m.ranges
    ensures r.Some? ==> |r.value.1.pools| == |m.pools| && |r.value.1.hot| < hotPages
    ensures |m.hot| > 0 ==> r == Some((m.hot[|m.hot| - 1], m.(hot := m.hot[..|m.hot| - 1])))
  {
    OrderInRange(m, hotPages);
    if |m.hot| > 0 then Pop(m)
    else
      var filled := Refill(m.pools, Order(m), 0, [], hotPages);
      RefillStops(m.pools, Order(m), 0, [], hotPages);
      if |filled.1| == 0 then
        var g := General(filled.0, Order(m), 0);
        if g.None? then None
        else Some((g.value.0, m.(pools := g.value.1)))
      else Pop(m.(hot := filled.1, pools := filled.0))
  }

  /** `hot_pages[--nhot]`. */
  function Pop(m: Mem): (r: Option<(nat, Mem)>)
    requires |m.hot| > 0
    ensures r.Some? && Pages(r.value.1) + multiset{r.value.0} == Pages(m)
    ensures r.value.1 == m.(hot := r.value.1.hot) && |r.value.1.hot| == |m.hot| - 1
    ensures r.value.1.hot + [r.value.0] == m.hot
  {
    var top := |m.hot| - 1;
    assert m.hot == m.hot[..top] + [m.hot[top]];
    Some((m.hot[top], m.(hot := m.hot[..top])))
  }

  /** Pop undoes Push. */
  lemma PopUndoesPush(m: Mem, v: nat)
    ensures Pop(Push(m, v)) == Some((v, m))
  {
    var r := Pop(Push(m, v)).value;
    assert r.1.hot + [r.0] == m.hot + [v];
    assert r.1.hot == m.hot;
  }

  /** `kalloc` hands out a page the CPU or the buddies held, and keeps the
      state well formed. */
  lemma KAllocPageKeepsPages(m: Mem, hotPages: nat)
    requires Valid(m, hotPages) && hotPages >= 2
    ensures var r := KAllocPage(m, hotPages);
      r.Some? ==> Valid(r.value.1, hotPages) && Pages(r.value.1) + multiset{r.value.0} == Pages(m)
  {
    OrderInRange(m, hotPages);
    if |m.hot| == 0 {
      var filled := Refill(m.pools, Order(m), 0, [], hotPages);
      RefillStops(m.pools, Order(m), 0, [], hotPages);
      if |filled.1| == 0 {
        assert PoolPages(filled.0) == PoolPages(m.pools);
      } else {
        var m1 := m.(hot := filled.1, pools := filled.0);
        assert Pages(m1) == Pages(m);
      }
    }
  }

  /** `kalloc` returns null exactly when the cache is empty and no buddy
      in the steal order has a free page. */
  lemma KAllocPageNullIffEmpty(m: Mem, hotPages: nat)
    requires Valid(m, hotPages) && hotPages >= 2
    ensures KAllocPage(m, hotPages).None? <==> |m.hot| == 0 && Exhausted(m.pools, Order(m))
  {
    OrderInRange(m, hotPages);
    if |m.hot| == 0 {
      RefillStops(m.pools, Order(m), 0, [], hotPages);
      if Exhausted(m.pools, Order(m)) {
        RefillFromEmpty(m.pools, Order(m), 0, [], hotPages);
      }
    }
  }

  // ---------------------------------------------------------------------
  // Properties

  /** The cache is a stack: a page just freed is the next one allocated,
      and the cache returns to what it held before the push. */
  lemma FreeThenAllocReturnsPage(m: Mem, v: nat, hotPages: nat)
    requires Valid(m, hotPages) && hotPages >= 2
    requires KFreePage(m, v, hotPages).Ok?
    ensures var m1 := KFreePage(m, v, hotPages).value;
      KAllocPage(m1, hotPages).Some? && KAllocPage(m1, hotPages).value.0 == v
    ensures var m2 := KAllocPage(KFreePage(m, v, hotPages).value, hotPages).value.1;
      m2.hot == if |m.hot| < hotPages then m.hot else m.hot[hotPages / 2..]
  {
    var m1 := KFreePage(m, v, hotPages).value;
    assert m1.hot[..|m1.hot| - 1] == if |m.hot| < hotPages then m.hot else m.hot[hotPages / 2..];
  }

  /** A flush leaves the cache just over half full. */
  lemma FlushLeavesHalf(m: Mem, v: nat, hotPages: nat)
    requires Valid(m, hotPages) && hotPages >= 2 && |m.hot| == hotPages
    requires KFreePage(m, v, hotPages).Ok?
    ensures |KFreePage(m, v, hotPages).value.hot| == hotPages - hotPages / 2 + 1
  {
  }

  /** A refill takes at most half a cache's worth of pages, one of which
      is handed out at once. */
  lemma RefillTakesAtMostHalf(m: Mem, hotPages: nat)
    requires Valid(m, hotPages) && hotPages >= 2 && |m.hot| == 0
    requires KAllocPage(m, hotPages).Some?
    ensures |KAllocPage(m, hotPages).value.1.hot| < hotPages / 2
  {
    OrderInRange(m, hotPages);
    RefillStops(m.pools, Order(m), 0, [], hotPages);
  }
}
