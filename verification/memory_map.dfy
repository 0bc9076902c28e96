/**
 * How the kernel cleans up the firmware (E820) memory map at boot: every
 * usable entry is added to a `phys_map`, which merges overlaps; every
 * other entry is then removed; and `initkalloc` removes the first MiB.
 * The walk over the raw multiboot bytes is replaced by a list of entries.
 */
module MemoryMap {
  import opened PhysMap

  /** One E820 entry; type 1 is usable memory. */
  datatype Entry = Entry(base: nat, length: nat, kind: nat)

  const Usable: nat := 1
  const FirstMiB: nat := 0x100000

  predicate InEntry(e: Entry, x: int) {
    e.base <= x < e.base + e.length
  }

  /** The first loop of `parse_mb_map`: add each usable entry. */
  function AddUsable(m: seq<Region>, es: seq<Entry>): seq<Region>
    decreases |es|
  {
    if |es| == 0 then m
    else
      var m1 := if es[0].kind == Usable then Add(m, es[0].base, es[0].base + es[0].length) else m;
      AddUsable(m1, es[1..])
  }

  /** The second loop: remove each entry that is not usable. */
  function RemoveUnusable(m: seq<Region>, es: seq<Entry>): seq<Region>
    decreases |es|
  {
    if |es| == 0 then m
    else
      var m1 := if es[0].kind != Usable then Remove(m, es[0].base, es[0].base + es[0].length) else m;
      RemoveUnusable(m1, es[1..])
  }

  /** The map `initkalloc` works from: `parse_mb_map`, then
      `mem.remove(0, 0x100000)`. */
  function Scrubbed(es: seq<Entry>): seq<Region> {
    Remove(RemoveUnusable(AddUsable([], es), es), 0, FirstMiB)
  }

  /** Some entry of the given usability lists x. */
  ghost predicate Listed(es: seq<Entry>, usable: bool, x: int) {
    exists k :: 0 <= k < |es| && (es[k].kind == Usable) == usable && InEntry(es[k], x)
  }

  lemma ListedCons(es: seq<Entry>, usable: bool, x: int)
    requires |es| > 0
    ensures Listed(es, usable, x) <==>
      ((es[0].kind == Usable) == usable && InEntry(es[0], x)) || Listed(es[1..], usable, x)
  {
    if Listed(es, usable, x) {
      var k :| 0 <= k < |es| && (es[k].kind == Usable) == usable && InEntry(es[k], x);
      if k > 0 {
        assert es[1..][k - 1] == es[k];
      }
    }
    if Listed(es[1..], usable, x) {
      var k :| 0 <= k < |es[1..]| && (es[1..][k].kind == Usable) == usable && InEntry(es[1..][k], x);
      assert es[k + 1] == es[1..][k];
    }
  }

  lemma {:induction false} AddUsableSpec(m: seq<Region>, es: seq<Entry>)
    requires Valid(m)
    ensures Valid(AddUsable(m, es))
    ensures forall x :: Covers(AddUsable(m, es), x) <==> Covers(m, x) || Listed(es, true, x)
    decreases |es|
  {
    if |es| > 0 {
      var e := es[0];
      var m1 := if e.kind == Usable then Add(m, e.base, e.base + e.length) else m;
      if e.kind == Usable {
        AddSpec(m, e.base, e.base + e.length);
      }
      AddUsableSpec(m1, es[1..]);
      forall x ensures Covers(AddUsable(m, es), x) <==> Covers(m, x) || Listed(es, true, x) {
        ListedCons(es, true, x);
      }
    }
  }

  lemma {:induction false} RemoveUnusableSpec(m: seq<Region>, es: seq<Entry>)
    requires Valid(m)
    ensures Valid(RemoveUnusable(m, es))
    ensures forall x :: Covers(RemoveUnusable(m, es), x) <==> Covers(m, x) && !Listed(es, false, x)
    decreases |es|
  {
    if |es| > 0 {
      var e := es[0];
      var m1 := if e.kind != Usable then Remove(m, e.base, e.base + e.length) else m;
      if e.kind != Usable {
        RemoveSpec(m, e.base, e.base + e.length);
      }
      RemoveUnusableSpec(m1, es[1..]);
      forall x ensures Covers(RemoveUnusable(m, es), x) <==> Covers(m, x) && !Listed(es, false, x) {
        ListedCons(es, false, x);
      }
    }
  }

  /** The scrubbed map is sorted and non-overlapping, and holds exactly the
      addresses from 1 MiB up that some usable entry lists and no other
      entry does; a reserved entry wins over a usable one. */
  lemma ScrubbedSpec(es: seq<Entry>)
    ensures Valid(Scrubbed(es))
    ensures forall x :: Covers(Scrubbed(es), x) <==>
      && FirstMiB <= x
      && (exists k :: 0 <= k < |es| && es[k].kind == Usable && InEntry(es[k], x))
      && !(exists k :: 0 <= k < |es| && es[k].kind != Usable && InEntry(es[k], x))
  {
    AddUsableSpec([], es);
    var m1 := AddUsable([], es);
    RemoveUnusableSpec(m1, es);
    RemoveSpec(RemoveUnusable(m1, es), 0, FirstMiB);
  }
}
