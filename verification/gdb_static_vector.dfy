/**
 * The debugger pretty-printer for `static_vector<T, N>`: a summary line
 * and the logical elements `[0] .. [size_-1]`, read one element after the
 * other starting at the `data_` field.
 */
module StaticVectorPrinter {
  import opened Wrappers
  import opened Decimal

  /** A static_vector as the printer sees it: the printed type, the
      `size_` field, and the element slots readable from `data_` onward
      (the backing storage, possibly followed by further readable memory). */
  datatype StaticVector<V> = StaticVector(typeName: string, size: nat, slots: seq<V>)

  datatype ReadError = CannotAccessElement(index: nat)

  /** The printer always asks for array display. */
  const DisplayHint: string := "array"

  const LengthWord: string := " of length "

  /** `to_string`: the type followed by " of length " and the size. */
  function Summary<V>(v: StaticVector<V>): (s: string)
    ensures |s| > |v.typeName| + |LengthWord|
    ensures s[..|v.typeName|] == v.typeName
    ensures s[|v.typeName|..|v.typeName| + |LengthWord|] == LengthWord
    ensures var digits := s[|v.typeName| + |LengthWord|..];
      AllDigits(digits) && DigitsValue(digits) == v.size && (|digits| == 1 || digits[0] != '0')
  {
    var s := v.typeName + LengthWord + Dec(v.size);
    assert s[|v.typeName| + |LengthWord|..] == Dec(v.size);
    s
  }

  /** The label of the i-th child, "[i]". */
  function Label(i: nat): (l: string)
    ensures |l| >= 3 && l[0] == '[' && l[|l| - 1] == ']'
    ensures var inner := l[1..|l| - 1];
      AllDigits(inner) && DigitsValue(inner) == i && (|inner| == 1 || inner[0] != '0')
  {
    var l := "[" + Dec(i) + "]";
    assert l[1..|l| - 1] == Dec(i);
    l
  }

  /** Reads the number back out of a label. */
  function LabelIndex(l: string): (r: Option<nat>)
  {
    if |l| >= 3 && l[0] == '[' && l[|l| - 1] == ']' && AllDigits(l[1..|l| - 1])
    then Some(DigitsValue(l[1..|l| - 1]))
    else None
  }

  /** `children`: exactly size_ pairs, the i-th labelled "[i]" and holding
      slot i.  Reading a slot the debugger cannot reach is an error. */
  function Children<V>(v: StaticVector<V>): (r: Result<seq<(string, V)>, ReadError>)
    ensures r.Ok? <==> v.size <= |v.slots|
    ensures r.Ok? ==> |r.value| == v.size
    ensures r.Ok? ==> forall i :: 0 <= i < v.size ==> LabelIndex(r.value[i].0) == Some(i)
    ensures r.Ok? ==> forall i :: 0 <= i < v.size ==> r.value[i].0 == Label(i)
    ensures r.Ok? ==> forall i :: 0 <= i < v.size ==> r.value[i].1 == v.slots[i]
    ensures r.Err? ==> r.error == CannotAccessElement(|v.slots|)
  {
    if v.size <= |v.slots| then
      Ok(seq(v.size, i requires 0 <= i < v.size => (Label(i), v.slots[i])))
    else
      Err(CannotAccessElement(|v.slots|))
  }

  /** Slots past size_ are never shown: the children do not depend on them. */
  lemma ChildrenIgnoreSlotsPastSize<V>(v: StaticVector<V>, garbage: seq<V>)
    requires v.size <= |v.slots|
    ensures Children(v) == Children(v.(slots := v.slots[..v.size] + garbage))
  {
    var w := v.(slots := v.slots[..v.size] + garbage);
    assert forall i :: 0 <= i < v.size ==> w.slots[i] == v.slots[i];
    assert Children(v).value == Children(w).value;
  }

  /** The element values shown, in order, are exactly the first size_ slots. */
  lemma ChildrenValuesArePrefix<V>(v: StaticVector<V>)
    requires v.size <= |v.slots|
    ensures var cs := Children(v).value; seq(|cs|, i requires 0 <= i < |cs| => cs[i].1) == v.slots[..v.size]
  {
  }

  /** Distinct children carry distinct labels. */
  lemma LabelsDistinct(i: nat, j: nat)
    requires i != j
    ensures Label(i) != Label(j)
  {
    assert LabelIndex(Label(i)) == Some(i);
    assert LabelIndex(Label(j)) == Some(j);
  }

  /** An empty vector has no children and its summary ends in "length 0". */
  lemma EmptyVector<V>(typeName: string, slots: seq<V>)
    ensures Children(StaticVector(typeName, 0, slots)) == Ok([])
    ensures var s := Summary(StaticVector(typeName, 0, slots)); s[|s| - 8..] == "length 0"
  {
    assert Dec(0) == "0";
  }
}
