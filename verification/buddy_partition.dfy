/**
 * The arithmetic `initkalloc` uses to cut a NUMA node's memory into buddy
 * allocators and to hand those buddies out to the node's CPUs, and the
 * steal order each CPU is given: its own buddies, then the node's, then
 * every buddy.
 */
module BuddyPartition {
  import opened Wrappers
  import opened StealOrder

  // ---------------------------------------------------------------------
  // Division facts

  lemma MulMonotone(a: nat, b: nat, c: nat)
    requires a <= b
    ensures a * c <= b * c
  {
    assert b * c == a * c + (b - a) * c;
  }

  lemma DivAtLeast(x: nat, q: nat, n: nat)
    requires n > 0 && q * n <= x
    ensures q <= x / n
  {
    var d := x / n;
    if d < q {
      MulMonotone(d + 1, q, n);
      assert false;
    }
  }

  lemma DivBelow(x: nat, q: nat, n: nat)
    requires n > 0 && x < q * n
    ensures x / n < q
  {
    var d := x / n;
    if d >= q {
      MulMonotone(q, d, n);
      assert false;
    }
  }

  lemma DivMonotone(a: nat, b: nat, n: nat)
    requires n > 0 && a <= b
    ensures a / n <= b / n
  {
    assert (a / n) * n <= a;
    DivAtLeast(b, a / n, n);
  }

  // ---------------------------------------------------------------------
  // Cutting a node into buddies

  /** `size_limit`: the node's bytes divided among `subnodes`, rounded up. */
  function SizeLimit(bytes: nat, subnodes: nat): (limit: nat)
    requires subnodes >= 1
    ensures limit * subnodes >= bytes
    ensures limit > 0 ==> (limit - 1) * subnodes < bytes
    ensures bytes > 0 <==> limit > 0
  {
    var limit := (bytes + subnodes - 1) / subnodes;
    assert limit * subnodes + (bytes + subnodes - 1) % subnodes == bytes + subnodes - 1;
    limit
  }

  /** The subdivision loop over one region [base, end): pieces of
      `size_limit` bytes, the last one possibly shorter. */
  function Chunks(base: nat, end: nat, limit: nat): (r: seq<(nat, nat)>)
    requires limit >= 1 || base >= end
    decreases end - base
  {
    if base >= end then []
    else
      var subsize := if end - base < limit then end - base else limit;
      [(base, base + subsize)] + Chunks(base + subsize, end, limit)
  }

  /** The chunks tile [base, end) from left to right, none empty or larger
      than the limit. */
  lemma ChunksTile(base: nat, end: nat, limit: nat)
    requires limit >= 1 || base >= end
    ensures var r := Chunks(base, end, limit);
      && (base >= end <==> |r| == 0)
      && (|r| > 0 ==> r[0].0 == base && r[|r| - 1].1 == end)
      && (forall k :: 0 <= k < |r| ==> r[k].0 < r[k].1 <= r[k].0 + limit)
      && (forall k :: 0 <= k < |r| - 1 ==> r[k].1 == r[k + 1].0)
  {
    ChunksEnds(base, end, limit);
    ChunksSized(base, end, limit);
    ChunksAdjacent(base, end, limit);
  }

  lemma {:induction false} ChunksEnds(base: nat, end: nat, limit: nat)
    requires limit >= 1 || base >= end
    ensures var r := Chunks(base, end, limit);
      && (base >= end <==> |r| == 0)
      && (|r| > 0 ==> r[0].0 == base && r[|r| - 1].1 == end)
    decreases end - base
  {
    if base < end {
      var subsize := if end - base < limit then end - base else limit;
      ChunksEnds(base + subsize, end, limit);
    }
  }

  lemma {:induction false} ChunksSized(base: nat, end: nat, limit: nat)
    requires limit >= 1 || base >= end
    ensures forall c :: c in Chunks(base, end, limit) ==> c.0 < c.1 <= c.0 + limit
    decreases end - base
  {
    if base < end {
      var subsize := if end - base < limit then end - base else limit;
      ChunksSized(base + subsize, end, limit);
    }
  }

  lemma {:induction false} ChunksAdjacent(base: nat, end: nat, limit: nat)
    requires limit >= 1 || base >= end
    ensures var r := Chunks(base, end, limit);
      forall k :: 0 <= k < |r| - 1 ==> r[k].1 == r[k + 1].0
    decreases end - base
  {
    if base < end {
      var subsize := if end - base < limit then end - base else limit;
      var t := Chunks(base + subsize, end, limit);
      ChunksAdjacent(base + subsize, end, limit);
      ChunksEnds(base + subsize, end, limit);
      var r := Chunks(base, end, limit);
      assert r == [(base, base + subsize)] + t;
      assert forall k :: 1 <= k < |r| ==> r[k] == t[k - 1];
    }
  }

  /** There are as many chunks as it takes `limit`-sized pieces to cover
      the region: enough, and one fewer would not be. */
  lemma {:induction false} ChunkCount(base: nat, end: nat, limit: nat)
    requires limit >= 1
    ensures var n := |Chunks(base, end, limit)|;
      n * limit >= end - base && (n > 0 ==> (n - 1) * limit < end - base)
    decreases end - base
  {
    if base < end {
      var subsize := if end - base < limit then end - base else limit;
      ChunkCount(base + subsize, end, limit);
      var n := |Chunks(base, end, limit)|;
      assert n * limit == (n - 1) * limit + limit;
    }
  }

  /** A single region holding all the node's bytes yields at most
      `subnodes` buddies. */
  lemma AtMostSubnodes(base: nat, end: nat, subnodes: nat)
    requires subnodes >= 1 && base < end
    ensures |Chunks(base, end, SizeLimit(end - base, subnodes))| <= subnodes
  {
    var limit := SizeLimit(end - base, subnodes);
    ChunkCount(base, end, limit);
    var n := |Chunks(base, end, limit)|;
    assert (n - 1) * limit < subnodes * limit;
    if n - 1 >= subnodes {
      MulMonotone(subnodes, n - 1, limit);
      assert false;
    }
  }

  /** Rounding the limit up can leave fewer buddies than subnodes: five
      bytes for four CPUs make three pieces. */
  lemma FewerChunksThanSubnodes()
    ensures SizeLimit(5, 4) == 2
    ensures Chunks(0, 5, 2) == [(0, 2), (2, 4), (4, 5)]
  {
  }

  // ---------------------------------------------------------------------
  // Buddies per CPU

  /** `k * node_buddies / ncpus`: where CPU k's share of the node begins. */
  function Share(k: nat, buddies: nat, count: nat): nat
    requires count >= 1
  {
    k * buddies / count
  }

  lemma ShareMonotone(k1: nat, k2: nat, buddies: nat, count: nat)
    requires count >= 1 && k1 <= k2
    ensures Share(k1, buddies, count) <= Share(k2, buddies, count)
  {
    MulMonotone(k1, k2, buddies);
    DivMonotone(k1 * buddies, k2 * buddies, count);
  }

  lemma ShareAll(buddies: nat, count: nat)
    requires count >= 1
    ensures Share(count, buddies, count) == buddies
  {
    assert count * buddies == buddies * count;
    DivAtLeast(count * buddies, buddies, count);
    DivBelow(count * buddies, buddies + 1, count);
  }

  lemma ShareBelow(k: nat, buddies: nat, count: nat)
    requires k < count && buddies >= 1
    ensures Share(k, buddies, count) < buddies
  {
    MulMonotone(k, count - 1, buddies);
    assert (count - 1) * buddies + buddies == buddies * count;
    DivBelow(k * buddies, buddies, count);
  }

  /** With at least one buddy per CPU, consecutive shares differ. */
  lemma ShareStep(k: nat, buddies: nat, count: nat)
    requires 1 <= count <= buddies
    ensures Share(k, buddies, count) < Share(k + 1, buddies, count)
  {
    var q := Share(k, buddies, count);
    assert q * count <= k * buddies;
    assert (q + 1) * count == q * count + count;
    assert (k + 1) * buddies == k * buddies + buddies;
    DivAtLeast((k + 1) * buddies, q + 1, count);
  }

  /** The buddies of CPU i among the node's `count` CPUs, when the node's
      buddies are nodeLow .. nodeLow + buddies - 1; None when the kernel's
      assertion `cpu_high <= node_low + node_buddies` fails. */
  function CpuRange(nodeLow: nat, buddies: nat, count: nat, i: nat): (r: Option<Segment>)
    requires count >= 1 && i < count
  {
    var low := nodeLow + Share(i, buddies, count);
    var high := nodeLow + Share(i + 1, buddies, count);
    var high' := if low == high then high + 1 else high;
    if high' <= nodeLow + buddies then Some(Segment(low, high')) else None
  }

  /** The assertion holds exactly when the node has a buddy, and then the
      CPU's range is non-empty and inside the node's. */
  lemma CpuRangeInNode(nodeLow: nat, buddies: nat, count: nat, i: nat)
    requires count >= 1 && i < count
    ensures CpuRange(nodeLow, buddies, count, i).Some? <==> buddies >= 1
    ensures CpuRange(nodeLow, buddies, count, i).Some? ==>
      var s := CpuRange(nodeLow, buddies, count, i).value;
      nodeLow <= s.low < s.high <= nodeLow + buddies
  {
    ShareMonotone(i, i + 1, buddies, count);
    ShareMonotone(i + 1, count, buddies, count);
    ShareAll(buddies, count);
    if buddies >= 1 {
      ShareBelow(i, buddies, count);
    }
  }

  /** The CPU whose unbumped share holds j, searching down from CPU k. */
  function Owner(buddies: nat, count: nat, j: nat, k: nat): (i: nat)
    requires count >= 1 && k < count
    requires j < Share(k + 1, buddies, count)
    ensures i <= k && Share(i, buddies, count) <= j < Share(i + 1, buddies, count)
  {
    if Share(k, buddies, count) <= j then k
    else Owner(buddies, count, j, k - 1)
  }

  /** Every buddy of the node is in some CPU's range. */
  lemma CpuRangesCoverNode(nodeLow: nat, buddies: nat, count: nat, j: nat)
    requires count >= 1 && nodeLow <= j < nodeLow + buddies
    ensures exists i ::
      0 <= i < count && CpuRange(nodeLow, buddies, count, i).Some? && InSegment(CpuRange(nodeLow, buddies, count, i).value, j)
  {
    ShareAll(buddies, count);
    var i := Owner(buddies, count, j - nodeLow, count - 1);
    CpuRangeInNode(nodeLow, buddies, count, i);
    assert InSegment(CpuRange(nodeLow, buddies, count, i).value, j);
  }

  /** With at least as many buddies as CPUs no range is bumped, and the
      ranges of different CPUs do not overlap. */
  lemma CpuRangesDisjoint(nodeLow: nat, buddies: nat, count: nat, i: nat, i': nat)
    requires 1 <= count <= buddies && i < i' < count
    ensures var a := CpuRange(nodeLow, buddies, count, i); var b := CpuRange(nodeLow, buddies, count, i');
      a.Some? && b.Some? && a.value.high <= b.value.low
  {
    CpuRangeInNode(nodeLow, buddies, count, i);
    CpuRangeInNode(nodeLow, buddies, count, i');
    ShareStep(i, buddies, count);
    ShareMonotone(i + 1, i', buddies, count);
  }

  // ---------------------------------------------------------------------
  // A CPU's steal order

  /** The order after a CPU's own range `c` and then its node's range `n`
      (which holds `c`) are added: the parts of the node above and below
      the CPU's range follow it. */
  function NodeOrder(c: Segment, n: Segment): (r: seq<Segment>)
    requires c.low < c.high && n.low <= c.low && c.high <= n.high
    ensures WellFormed(r) && |r| > 0 && r[0] == c
  {
    if n.low == c.low && n.high == c.high then [c]
    else if n.low < c.low && n.high > c.high then [c, Segment(c.high, n.high), Segment(n.low, c.low)]
    else if n.low < c.low then [c, Segment(n.low, c.low)]
    else [c, Segment(c.high, n.high)]
  }

  /** The order after `[0, total)` is added to `NodeOrder(c, n)`. */
  function WholeOrder(c: Segment, n: Segment, total: nat): (r: seq<Segment>)
    requires c.low < c.high && n.low <= c.low && c.high <= n.high <= total
    ensures WellFormed(r) && |r| > 0 && r[0] == c
  {
    var a, b, p, q := c.low, c.high, n.low, n.high;
    if p == a && q == b then
      if 0 < a && total > b then [c, Segment(b, total), Segment(0, a)]
      else if 0 < a then [c, Segment(0, a)]
      else if total > b then [c, Segment(b, total)]
      else [c]
    else if p < a && q > b then
      if p == 0 && total == q then NodeOrder(c, n)
      else if p == 0 then NodeOrder(c, n) + [Segment(q, total)]
      else if total == q then [c, Segment(b, q), Segment(0, a)]
      else NodeOrder(c, n) + [Segment(q, total), Segment(0, p)]
    else if p < a then
      if total > b && p == 0 then [c, Segment(p, a), Segment(b, total)]
      else if total > b then [c, Segment(p, a), Segment(b, total), Segment(0, p)]
      else if p == 0 then [c, Segment(p, a)]
      else [c, Segment(0, a)]
    else if 0 < a then [c, Segment(b, total), Segment(0, a)]
    else [c, Segment(b, total)]
  }

  /** One step of `add`'s loop past a segment the range does not touch. */
  lemma ScanSkip(segs: seq<Segment>, low: nat, high: nat, i: nat, n: nat, g: bool)
    requires WellFormed(segs) && i < n <= |segs| && low < high
    requires segs[i].high <= low || high <= segs[i].low
    ensures Scan(segs, low, high, i, n, g) == Scan(segs, low, high, i + 1, n, g)
  {
  }

  /** Adding the node's range after the CPU's gives `NodeOrder`, whether or
      not contained ranges are dropped. */
  lemma NodeAdd(c: Segment, n: Segment, g: bool)
    requires c.low < c.high && n.low <= c.low && c.high <= n.high
    ensures AddWith([c], n.low, n.high, g) == NodeOrder(c, n)
  {
    var a, b, p, q := c.low, c.high, n.low, n.high;
    if p < a && q > b {
      ScanSkip([c], b, q, 0, 1, g);
      assert AddWith([c], b, q, g) == [c, Segment(b, q)];
      assert Scan([c, Segment(b, q)], p, a, 1, 1, g) == NodeOrder(c, n);
    } else if p < a && q == b {
      assert Scan([c], p, a, 1, 1, g) == NodeOrder(c, n);
    } else if p == a && q > b {
      assert Scan([c], b, q, 1, 1, g) == NodeOrder(c, n);
    }
  }

  /** Adding every buddy to a CPU's order whose own range and node range
      have been added gives `WholeOrder`, whether or not contained ranges
      are dropped. */
  lemma WholeAdd(c: Segment, n: Segment, total: nat, g: bool)
    requires c.low < c.high && n.low <= c.low && c.high <= n.high <= total
    ensures AddWith(NodeOrder(c, n), 0, total, g) == WholeOrder(c, n, total)
  {
    var a, b, p, q := c.low, c.high, n.low, n.high;
    if p == a && q == b {
      WholeAddSingle(c, total, g);
    } else if p < a && q > b {
      WholeAddBoth(c, n, total, g);
    } else if p < a {
      WholeAddBelow(c, n, total, g);
    } else {
      WholeAddAbove(c, n, total, g);
    }
  }

  lemma WholeAddSingle(c: Segment, total: nat, g: bool)
    requires c.low < c.high <= total
    ensures AddWith([c], 0, total, g) == WholeOrder(c, c, total)
  {
    var a, b := c.low, c.high;
    if 0 < a && total > b {
      ScanSkip([c], b, total, 0, 1, g);
      assert AddWith([c], b, total, g) == [c, Segment(b, total)];
      assert Scan([c, Segment(b, total)], 0, a, 1, 1, g) == WholeOrder(c, c, total);
    } else if 0 < a {
      assert Scan([c], 0, a, 1, 1, g) == WholeOrder(c, c, total);
    } else if total > b {
      assert Scan([c], b, total, 1, 1, g) == WholeOrder(c, c, total);
    }
  }

  lemma WholeAddBoth(c: Segment, n: Segment, total: nat, g: bool)
    requires c.low < c.high && n.low < c.low && c.high < n.high <= total
    ensures AddWith(NodeOrder(c, n), 0, total, g) == WholeOrder(c, n, total)
  {
    var s := NodeOrder(c, n);
    assert s == [c, Segment(c.high, n.high), Segment(n.low, c.low)];
    var up := if total == n.high then s else s + [Segment(n.high, total)];
    BothUpper(c, n, total, g);
    BothLower(c, n, total, g);
    ScanSkip(s, c.high, total, 0, 3, g);
    assert Scan(s, 0, total, 0, 3, g) == Scan(up, 0, c.low, 1, 3, g);
  }

  /** The part below the CPU's range, added after the part above it. */
  lemma BothLower(c: Segment, n: Segment, total: nat, g: bool)
    requires c.low < c.high && n.low < c.low && c.high < n.high <= total
    ensures var s := [c, Segment(c.high, n.high), Segment(n.low, c.low)];
      var up := if total == n.high then s else s + [Segment(n.high, total)];
      Scan(up, 0, c.low, 1, 3, g) == WholeOrder(c, n, total)
  {
    var s := [c, Segment(c.high, n.high), Segment(n.low, c.low)];
    var up := if total == n.high then s else s + [Segment(n.high, total)];
    assert NodeOrder(c, n) == s;
    ScanSkip(up, 0, c.low, 1, 3, g);
    if n.low == 0 {
      assert Scan(up, 0, c.low, 2, 3, g) == up;
    } else {
      assert Scan(up, 0, c.low, 2, 3, g) == Finish(up, 0, n.low);
    }
  }

  /** The part above the CPU's range, added when the node's range reaches
      past it on both sides. */
  lemma BothUpper(c: Segment, n: Segment, total: nat, g: bool)
    requires c.low < c.high && n.low < c.low && c.high < n.high <= total
    ensures var s := [c, Segment(c.high, n.high), Segment(n.low, c.low)];
      AddWith(s, c.high, total, g) == if total == n.high then s else s + [Segment(n.high, total)]
  {
    var b, q := c.high, n.high;
    var s := [c, Segment(b, q), Segment(n.low, c.low)];
    ScanSkip(s, b, total, 0, 3, g);
    if total > q {
      ScanSkip(s, q, total, 2, 3, g);
      assert Scan(s, b, total, 1, 3, g) == Scan(s, q, total, 2, 3, g);
    }
  }

  lemma WholeAddBelow(c: Segment, n: Segment, total: nat, g: bool)
    requires c.low < c.high && n.low < c.low && c.high == n.high <= total
    ensures AddWith(NodeOrder(c, n), 0, total, g) == WholeOrder(c, n, total)
  {
    assert NodeOrder(c, n) == [c, Segment(n.low, c.low)];
    if total > c.high {
      WholeAddBelowSplit(c, n.low, total, g);
    } else {
      WholeAddBelowTrim(c, n.low, g);
    }
  }

  lemma WholeAddBelowSplit(c: Segment, p: nat, total: nat, g: bool)
    requires p < c.low < c.high < total
    ensures AddWith([c, Segment(p, c.low)], 0, total, g) == WholeOrder(c, Segment(p, c.high), total)
  {
    var a, b := c.low, c.high;
    var s := [c, Segment(p, a)];
    ScanSkip(s, b, total, 0, 2, g);
    ScanSkip(s, b, total, 1, 2, g);
    var up := s + [Segment(b, total)];
    assert AddWith(s, b, total, g) == up;
    if p == 0 {
      assert Scan(up, 0, a, 1, 2, g) == up;
    } else {
      assert Scan(up, 0, a, 1, 2, g) == Finish(up, 0, p);
    }
    assert Scan(s, 0, total, 0, 2, g) == Scan(up, 0, a, 1, 2, g);
  }

  lemma WholeAddBelowTrim(c: Segment, p: nat, g: bool)
    requires p < c.low < c.high
    ensures AddWith([c, Segment(p, c.low)], 0, c.high, g) == WholeOrder(c, Segment(p, c.high), c.high)
  {
    var a := c.low;
    var s := [c, Segment(p, a)];
    if p == 0 {
      assert Scan(s, 0, a, 1, 2, g) == s;
    } else {
      assert Scan(s, 0, a, 1, 2, g) == Finish(s, 0, p);
    }
    assert Scan(s, 0, c.high, 0, 2, g) == Scan(s, 0, a, 1, 2, g);
  }

  lemma WholeAddAbove(c: Segment, n: Segment, total: nat, g: bool)
    requires c.low < c.high && n.low == c.low && c.high < n.high <= total
    ensures AddWith(NodeOrder(c, n), 0, total, g) == WholeOrder(c, n, total)
  {
    var a, b, q := c.low, c.high, n.high;
    var s := NodeOrder(c, n);
    assert s == [c, Segment(b, q)];
    var up := [c, Segment(b, total)];
    if total > q {
      assert Scan(s, b, total, 1, 2, g) == Finish(s, q, total);
    }
    assert Scan(s, b, total, 1, 2, g) == up;
    if 0 < a {
      ScanSkip(s, b, total, 0, 2, g);
      ScanSkip(up, 0, a, 1, 2, g);
      assert Scan(s, 0, total, 0, 2, g) == Scan(up, 0, a, 1, 2, g);
    } else {
      assert Scan(s, 0, total, 0, 2, g) == Scan(s, b, total, 1, 2, g);
    }
  }

  /** The three `add`s `initkalloc` makes for one CPU, as the kernel has
      them: its own buddies, its node's, and every buddy. */
  function CpuStealOrder(cpu: Segment, node: Segment, total: nat): (r: seq<Segment>)
    requires cpu.low < cpu.high && node.low <= cpu.low && cpu.high <= node.high
    ensures WellFormed(r) && |r| > 0 && r[0] == cpu
  {
    FirstAddIsLocal(cpu.low, cpu.high, false);
    AddAsWritten(AddAsWritten(AddAsWritten([], cpu.low, cpu.high), node.low, node.high), 0, total)
  }

  /** For a CPU range inside its node's range, which `CpuRangeInNode`
      guarantees, the kernel's `add`s never meet a range lying inside a
      segment: they build the same order as the corrected `add`, and that
      order is `WholeOrder`. */
  lemma CpuStealOrderAgrees(cpu: Segment, node: Segment, total: nat)
    requires cpu.low < cpu.high && node.low <= cpu.low && cpu.high <= node.high <= total
    ensures CpuStealOrder(cpu, node, total) == Add(Add(Add([], cpu.low, cpu.high), node.low, node.high), 0, total)
    ensures CpuStealOrder(cpu, node, total) == WholeOrder(cpu, node, total)
  {
    FirstAddIsLocal(cpu.low, cpu.high, false);
    FirstAddIsLocal(cpu.low, cpu.high, true);
    NodeAdd(cpu, node, false);
    NodeAdd(cpu, node, true);
    WholeAdd(cpu, node, total, false);
    WholeAdd(cpu, node, total, true);
  }

  /** A CPU's own range is its local range; it can steal from every buddy,
      and from none twice. */
  lemma CpuStealOrderSpec(cpu: Segment, node: Segment, total: nat)
    requires cpu.low < cpu.high && node.low <= cpu.low && cpu.high <= node.high <= total
    ensures var r := CpuStealOrder(cpu, node, total);
      && GetLocal(r) == cpu
      && (forall x :: Covers(r, x) <==> 0 <= x < total)
      && Disjoint(r)
  {
    var s1 := Add([], cpu.low, cpu.high);
    var s2 := Add(s1, node.low, node.high);
    CpuStealOrderAgrees(cpu, node, total);
    FirstAddIsLocal(cpu.low, cpu.high, true);
    AddCovers([], cpu.low, cpu.high, true);
    AddCovers(s1, node.low, node.high, true);
    AddCovers(s2, 0, total, true);
    AddKeepsDisjoint([], cpu.low, cpu.high);
    AddKeepsDisjoint(s1, node.low, node.high);
    AddKeepsDisjoint(s2, 0, total);
  }

  /** Iterating such a steal order visits each buddy exactly once. */
  lemma CpuStealOrderVisitsAll(cpu: Segment, node: Segment, total: nat)
    requires cpu.low < cpu.high && node.low <= cpu.low && cpu.high <= node.high <= total
    ensures var r := CpuStealOrder(cpu, node, total);
      && Distinct(Visit(r, Begin(r)))
      && forall x: nat :: x in Visit(r, Begin(r)) <==> x < total
  {
    var r := CpuStealOrder(cpu, node, total);
    CpuStealOrderSpec(cpu, node, total);
    IteratorVisitsFlatten(r);
    FlattenDistinct(r);
    forall x: nat ensures x in Flatten(r) <==> x < total {
      FlattenCovers(r, x);
    }
  }
}
