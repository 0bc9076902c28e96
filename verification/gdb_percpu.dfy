/**
 * The `$percpu(var, [cpunum])` convenience function of the xv6 debugger
 * helpers.  The debugger host is injected as a value: its global symbol
 * table, the `percpu_offsets` table, the selected thread's number and
 * the inspected memory.
 */
module PerCpu {
  import opened Wrappers

  type Addr = int

  /** The parts of the debugger host the resolver consults. */
  datatype Host<V> = Host(
    symbols: map<string, Addr>,  // global symbol name -> address of its storage
    offsets: seq<Addr>,          // contents of `percpu_offsets`, one base per CPU
    threadNum: int,              // number of the selected thread (1-based)
    memory: map<Addr, V>)        // readable memory of the inspected image

  /** A debugger value as far as the resolver looks at it: the type's tag
      (absent for unnamed types) and the type's printed name. */
  datatype TypedValue = TypedValue(tag: Option<string>, typeName: string)

  datatype Error =
    | NotPercpu                   // "Not a static_percpu"
    | ParseFailure(text: string)  // "Failed to parse type string ..."
    | KeyNotFound(key: string)    // "Failed to find per-cpu key ..."
    | MissingSymbol(name: string) // the region anchor is not a global symbol
    | CpuOutOfRange(cpu: int)     // the offset table has no entry for the CPU
    | Unreadable(addr: Addr)      // the computed address cannot be read

  const TagPrefix: string := "static_percpu<"
  const AnchorSymbol: string := "__percpu_start"
  const KeySuffix: string := "_key"

  predicate IsPercpuTag(tag: Option<string>) {
    tag.Some? && |TagPrefix| <= |tag.value| && tag.value[..|TagPrefix|] == TagPrefix
  }

  // ---------------------------------------------------------------------
  // The key pattern  &([^ ,]+_key),

  /** Characters the class [^ ,] admits. */
  predicate IsKeyChar(c: char) {
    c != ' ' && c != ','
  }

  /** Declarative meaning of the pattern: at position p the text reads
      '&', then the group g (one or more key characters ending in "_key"),
      then ','. */
  ghost predicate MatchAt(s: string, p: int, g: string) {
    && 0 <= p
    && p + 1 + |g| < |s|
    && s[p] == '&'
    && |g| > |KeySuffix|
    && g[|g| - |KeySuffix|..] == KeySuffix
    && (forall k :: 0 <= k < |g| ==> IsKeyChar(g[k]))
    && s[p + 1..p + 1 + |g|] == g
    && s[p + 1 + |g|] == ','
  }

  ghost predicate NoMatchIn(s: string, lo: int, hi: int) {
    forall p, g :: lo <= p < hi ==> !MatchAt(s, p, g)
  }

  /** First index at or after i that holds no key character. */
  function RunEnd(s: string, i: nat): (q: nat)
    requires i <= |s|
    ensures i <= q <= |s|
    ensures forall j :: i <= j < q ==> IsKeyChar(s[j])
    ensures q < |s| ==> !IsKeyChar(s[q])
    decreases |s| - i
  {
    if i < |s| && IsKeyChar(s[i]) then RunEnd(s, i + 1) else i
  }

  /** Attempt of the pattern at one start position.  The greedy class can
      only give back characters up to the first space or comma, so the
      group is the whole run of key characters after '&'. */
  function MatchFrom(s: string, p: nat): (r: Option<string>)
    requires p < |s|
    ensures r.Some? <==> exists g :: MatchAt(s, p, g)
    ensures r.Some? ==> MatchAt(s, p, r.value)
  {
    var q := RunEnd(s, p + 1);
    if s[p] == '&' && q < |s| && s[q] == ',' && q - (p + 1) > |KeySuffix|
       && s[q - |KeySuffix|..q] == KeySuffix then
      var g := s[p + 1..q];
      assert g[|g| - |KeySuffix|..] == s[q - |KeySuffix|..q];
      assert MatchAt(s, p, g);
      Some(g)
    else
      assert forall g :: !MatchAt(s, p, g) by {
        forall g | MatchAt(s, p, g) ensures false {
          MatchEndsRun(s, p, g);
        }
      }
      None
  }

  /** Any match at p ends exactly where the run of key characters ends. */
  lemma MatchEndsRun(s: string, p: nat, g: string)
    requires p < |s| && MatchAt(s, p, g)
    ensures RunEnd(s, p + 1) == p + 1 + |g|
  {
    var q := RunEnd(s, p + 1);
    forall j | p + 1 <= j < p + 1 + |g| ensures IsKeyChar(s[j]) {
      assert s[j] == g[j - (p + 1)];
    }
  }

  /** Leftmost start position at or after p where the pattern matches,
      the way `re.search` scans. */
  function FirstMatch(s: string, p: nat): (r: Option<nat>)
    requires p <= |s|
    ensures r.Some? ==> p <= r.value < |s| && MatchFrom(s, r.value).Some?
    ensures forall q :: p <= q < |s| && (r.None? || q < r.value) ==> MatchFrom(s, q).None?
    decreases |s| - p
  {
    if p == |s| then None
    else if MatchFrom(s, p).Some? then Some(p)
    else FirstMatch(s, p + 1)
  }

  /** Group 1 of the key pattern's first match in the printed type name. */
  function SearchKey(s: string): (r: Option<string>)
    ensures r.Some? ==> exists p :: 0 <= p < |s| && MatchAt(s, p, r.value) && NoMatchIn(s, 0, p)
    ensures r.None? <==> NoMatchIn(s, 0, |s|)
  {
    match FirstMatch(s, 0)
    case None =>
      assert NoMatchIn(s, 0, |s|) by {
        forall q, g | 0 <= q < |s| ensures !MatchAt(s, q, g) {
          assert MatchFrom(s, q).None?;
        }
      }
      None
    case Some(p) =>
      assert NoMatchIn(s, 0, p) by {
        forall q, g | 0 <= q < p ensures !MatchAt(s, q, g) {
          assert MatchFrom(s, q).None?;
        }
      }
      assert MatchAt(s, p, MatchFrom(s, p).value);
      MatchFrom(s, p)
  }

  /** A match always yields a key ending in "_key" free of spaces and commas. */
  lemma KeyShape(s: string)
    requires SearchKey(s).Some?
    ensures var key := SearchKey(s).value;
      |key| > |KeySuffix| && key[|key| - |KeySuffix|..] == KeySuffix
      && forall k :: 0 <= k < |key| ==> IsKeyChar(key[k])
  {
  }

  // ---------------------------------------------------------------------
  // The resolver

  /** The CPU to resolve for: the argument when given, otherwise the
      selected thread's number made 0-based.  No range check. */
  function SelectCpu<V>(h: Host<V>, cpuArg: Option<int>): (cpu: int)
    ensures cpuArg.None? ==> cpu + 1 == h.threadNum
    ensures cpuArg.Some? ==> cpu == cpuArg.value
  {
    match cpuArg
    case None => h.threadNum - 1
    case Some(c) => c
  }

  /** Address of the CPU's replica of the variable whose key symbol is
      `key`: that CPU's base plus the key's offset in the prototype region. */
  function ReplicaAddress<V>(h: Host<V>, key: string, cpu: int): (a: Addr)
    requires key in h.symbols && AnchorSymbol in h.symbols
    requires 0 <= cpu < |h.offsets|
    ensures key == AnchorSymbol ==> a == h.offsets[cpu]
    ensures h.symbols[key] >= h.symbols[AnchorSymbol] ==> a >= h.offsets[cpu]
  {
    h.offsets[cpu] + (h.symbols[key] - h.symbols[AnchorSymbol])
  }

  /** Every replica keeps the prototype's layout: two variables lie as far
      apart in one CPU's copy as their key symbols do in the prototype. */
  lemma ReplicaKeepsLayout<V>(h: Host<V>, k1: string, k2: string, cpu: int)
    requires k1 in h.symbols && k2 in h.symbols && AnchorSymbol in h.symbols
    requires 0 <= cpu < |h.offsets|
    ensures ReplicaAddress(h, k1, cpu) - ReplicaAddress(h, k2, cpu) == h.symbols[k1] - h.symbols[k2]
  {
  }

  /** One variable's replicas lie as far apart as their CPUs' bases. */
  lemma ReplicasFollowOffsets<V>(h: Host<V>, key: string, c1: int, c2: int)
    requires key in h.symbols && AnchorSymbol in h.symbols
    requires 0 <= c1 < |h.offsets| && 0 <= c2 < |h.offsets|
    ensures ReplicaAddress(h, key, c1) - ReplicaAddress(h, key, c2) == h.offsets[c1] - h.offsets[c2]
  {
  }

  function Invoke<V>(h: Host<V>, v: TypedValue, cpuArg: Option<int>): (r: Result<V, Error>)
    ensures r == Err(NotPercpu) <==> !IsPercpuTag(v.tag)
    ensures IsPercpuTag(v.tag) && SearchKey(v.typeName).None? ==> r == Err(ParseFailure(v.typeName))
    ensures IsPercpuTag(v.tag) && SearchKey(v.typeName).Some? && SearchKey(v.typeName).value !in h.symbols
            ==> r == Err(KeyNotFound(SearchKey(v.typeName).value))
    ensures r.Ok? ==>
      var key := SearchKey(v.typeName).value;
      var cpu := SelectCpu(h, cpuArg);
      && key in h.symbols && AnchorSymbol in h.symbols && 0 <= cpu < |h.offsets|
      && ReplicaAddress(h, key, cpu) in h.memory
      && r.value == h.memory[ReplicaAddress(h, key, cpu)]
  {
    if !IsPercpuTag(v.tag) then Err(NotPercpu)
    else
      var cpu := SelectCpu(h, cpuArg);
      match SearchKey(v.typeName)
      case None => Err(ParseFailure(v.typeName))
      case Some(key) =>
        if key !in h.symbols then Err(KeyNotFound(key))
        else if AnchorSymbol !in h.symbols then Err(MissingSymbol(AnchorSymbol))
        else if !(0 <= cpu < |h.offsets|) then Err(CpuOutOfRange(cpu))
        else
          var addr := ReplicaAddress(h, key, cpu);
          if addr !in h.memory then Err(Unreadable(addr)) else Ok(h.memory[addr])
  }

  // ---------------------------------------------------------------------
  // Properties relating several invocations

  /** The tag guard fires before anything in the host is consulted: a value
      that is not a per-CPU cell fails the same way against every host. */
  lemma GuardBeforeLookup<V>(h1: Host<V>, h2: Host<V>, v: TypedValue, c1: Option<int>, c2: Option<int>)
    requires !IsPercpuTag(v.tag)
    ensures Invoke(h1, v, c1) == Invoke(h2, v, c2) == Err(NotPercpu)
  {
  }

  /** Omitting the CPU means the selected thread's number minus one. */
  lemma DefaultCpu<V>(h: Host<V>, v: TypedValue)
    ensures Invoke(h, v, None) == Invoke(h, v, Some(h.threadNum - 1))
  {
  }

  /** With an explicit CPU the selected thread plays no part. */
  lemma ExplicitCpuIgnoresThread<V>(h: Host<V>, v: TypedValue, cpu: int, t: int)
    ensures Invoke(h, v, Some(cpu)) == Invoke(h.(threadNum := t), v, Some(cpu))
  {
  }

  /** The parse error quotes the printed type, and a type without the key
      pattern anywhere always produces it. */
  lemma ParseFailureIffNoPattern<V>(h: Host<V>, v: TypedValue, c: Option<int>)
    requires IsPercpuTag(v.tag)
    ensures Invoke(h, v, c) == Err(ParseFailure(v.typeName)) <==> NoMatchIn(v.typeName, 0, |v.typeName|)
  {
  }

  /** Success is exactly: key resolvable, anchor present, CPU in the table and
      the replica readable; the value is the one stored at the replica. */
  lemma ResolvesToReplica<V>(h: Host<V>, v: TypedValue, c: Option<int>, key: string)
    requires IsPercpuTag(v.tag) && SearchKey(v.typeName) == Some(key)
    requires key in h.symbols && AnchorSymbol in h.symbols
    requires 0 <= SelectCpu(h, c) < |h.offsets|
    requires ReplicaAddress(h, key, SelectCpu(h, c)) in h.memory
    ensures Invoke(h, v, c) == Ok(h.memory[h.offsets[SelectCpu(h, c)] + h.symbols[key] - h.symbols[AnchorSymbol]])
  {
  }
}
