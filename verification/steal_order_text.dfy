/**
 * `to_stream` for a steal order, which the kernel uses to print a CPU's
 * stealing order: the local segment in angle brackets, the others after
 * it separated by spaces, each written as `low` or `low..high-1`.  A
 * reader for that text shows the rendering loses nothing.
 */
module StealOrderText {
  import opened Wrappers
  import opened Decimal
  import opened StealOrder

  /** One segment: its single index, or its first and last index. */
  function RenderSegment(seg: Segment): string
    requires seg.low < seg.high
  {
    if seg.low == seg.high - 1 then Dec(seg.low)
    else Dec(seg.low) + ".." + Dec(seg.high - 1)
  }

  /** The segments after the first, each preceded by a space. */
  function RenderRest(segs: seq<Segment>): string
    requires WellFormed(segs)
  {
    if |segs| == 0 then "" else " " + RenderSegment(segs[0]) + RenderRest(segs[1..])
  }

  /** `to_stream(s, steal)`: nothing at all for an empty order. */
  function ToStream(segs: seq<Segment>): string
    requires WellFormed(segs)
  {
    if |segs| == 0 then "" else "<" + RenderSegment(segs[0]) + ">" + RenderRest(segs[1..])
  }

  // ---------------------------------------------------------------------
  // Reading it back

  /** The number at the front of s, and what follows its digits. */
  function ParseNumber(s: string): (r: Option<(nat, string)>)
    ensures r.Some? ==> |r.value.1| < |s|
  {
    var digits := SpanDigits(s);
    if |digits.0| == 0 then None else Some((DigitsValue(digits.0), digits.1))
  }

  /** One rendered segment at the front of s, and what follows it. */
  function ParseSegment(s: string): (r: Option<(Segment, string)>)
    ensures r.Some? ==> r.value.0.low < r.value.0.high && |r.value.1| < |s|
  {
    var first := ParseNumber(s);
    if first.None? then None
    else
      var a := first.value.0;
      var rest := first.value.1;
      if |rest| >= 2 && rest[0] == '.' && rest[1] == '.' then
        var last := ParseNumber(rest[2..]);
        if last.None? || last.value.0 < a then None
        else Some((Segment(a, last.value.0 + 1), last.value.1))
      else Some((Segment(a, a + 1), rest))
  }

  /** The segments after the first: each is a space and a rendered segment. */
  function ParseRest(s: string): (r: Option<seq<Segment>>)
    ensures r.Some? ==> WellFormed(r.value)
    decreases |s|
  {
    if |s| == 0 then Some([])
    else if s[0] != ' ' then None
    else
      var seg := ParseSegment(s[1..]);
      if seg.None? then None
      else
        var more := ParseRest(seg.value.1);
        if more.None? then None
        else
          ConsWellFormed(seg.value.0, more.value);
          Some([seg.value.0] + more.value)
  }

  /** Reads a steal order back from its `to_stream` text. */
  function Parse(s: string): (r: Option<seq<Segment>>)
    ensures r.Some? ==> WellFormed(r.value)
  {
    if |s| == 0 then Some([])
    else if s[0] != '<' then None
    else
      var local := ParseSegment(s[1..]);
      if local.None? then None
      else
        var rest := local.value.1;
        if |rest| == 0 || rest[0] != '>' then None
        else
          var more := ParseRest(rest[1..]);
          if more.None? then None
          else
            ConsWellFormed(local.value.0, more.value);
            Some([local.value.0] + more.value)
  }

  lemma ConsWellFormed(seg: Segment, segs: seq<Segment>)
    requires seg.low < seg.high && WellFormed(segs)
    ensures WellFormed([seg] + segs)
  {
    assert forall i :: 1 <= i < |segs| + 1 ==> ([seg] + segs)[i] == segs[i - 1];
  }

  // ---------------------------------------------------------------------
  // Round trip

  /** What may follow a rendered segment: nothing, '>' or ' '. */
  predicate Terminates(t: string) {
    |t| == 0 || t[0] == '>' || t[0] == ' '
  }

  lemma NumberRoundTrip(n: nat, t: string)
    requires |t| == 0 || !IsDigit(t[0])
    ensures ParseNumber(Dec(n) + t) == Some((n, t))
  {
    DecRoundTrip(n, t);
  }

  lemma SegmentRoundTrip(seg: Segment, t: string)
    requires seg.low < seg.high && Terminates(t)
    ensures ParseSegment(RenderSegment(seg) + t) == Some((seg, t))
  {
    if seg.low == seg.high - 1 {
      ShortSegmentRoundTrip(seg.low, t);
    } else {
      LongSegmentRoundTrip(seg.low, seg.high - 1, t);
    }
  }

  lemma ShortSegmentRoundTrip(a: nat, t: string)
    requires Terminates(t)
    ensures ParseSegment(Dec(a) + t) == Some((Segment(a, a + 1), t))
  {
    NumberRoundTrip(a, t);
  }

  lemma LongSegmentRoundTrip(a: nat, b: nat, t: string)
    requires a < b && Terminates(t)
    ensures ParseSegment(Dec(a) + ".." + Dec(b) + t) == Some((Segment(a, b + 1), t))
  {
    var tail := Dec(b) + t;
    var rest := ".." + tail;
    Reassociate(Dec(a), "..", Dec(b), t);
    NumberRoundTrip(a, rest);
    DropTwo('.', '.', tail);
    NumberRoundTrip(b, t);
    ParseLongSegment(Dec(a) + rest, a, b, rest, t);
  }

  lemma ParseLongSegment(s: string, a: nat, b: nat, rest: string, t: string)
    requires ParseNumber(s) == Some((a, rest)) && a <= b
    requires |rest| >= 2 && rest[0] == '.' && rest[1] == '.'
    requires ParseNumber(rest[2..]) == Some((b, t))
    ensures ParseSegment(s) == Some((Segment(a, b + 1), t))
  {
  }

  lemma RestStartsWithSpace(segs: seq<Segment>)
    requires WellFormed(segs)
    ensures |RenderRest(segs)| == 0 || RenderRest(segs)[0] == ' '
  {
  }

  /** A space, a segment that reads back, and a rest that reads back. */
  lemma ParseRestStep(s: string, tail: string, segs: seq<Segment>)
    requires |s| > 0 && s[0] == ' ' && |segs| > 0
    requires ParseSegment(s[1..]) == Some((segs[0], tail))
    requires ParseRest(tail) == Some(segs[1..])
    ensures ParseRest(s) == Some(segs)
  {
    ConsTail(segs);
  }

  lemma ConsTail(segs: seq<Segment>)
    requires |segs| > 0
    ensures [segs[0]] + segs[1..] == segs
  {
  }

  /** Dropping a one-character prefix. */
  lemma DropOne(c: char, t: string)
    ensures ([c] + t)[0] == c && ([c] + t)[1..] == t
  {
  }

  lemma Reassociate(a: string, b: string, c: string, d: string)
    ensures a + b + c + d == a + (b + (c + d))
  {
  }

  /** Dropping a two-character prefix. */
  lemma DropTwo(c: char, d: char, x: string)
    ensures ([c, d] + x)[0] == c && ([c, d] + x)[1] == d && ([c, d] + x)[2..] == x
  {
  }

  /** Dropping a one-character prefix. */
  lemma DropFirst(c: char, a: string, b: string)
    ensures ([c] + a + b)[0] == c && ([c] + a + b)[1..] == a + b
  {
    assert ([c] + a + b)[1..] == a + b;
  }

  lemma RestCons(segs: seq<Segment>)
    requires WellFormed(segs) && |segs| > 0
    ensures var s := RenderRest(segs);
      |s| > 0 && s[0] == ' ' && s[1..] == RenderSegment(segs[0]) + RenderRest(segs[1..])
  {
    DropFirst(' ', RenderSegment(segs[0]), RenderRest(segs[1..]));
  }

  lemma {:induction false} RestRoundTrip(segs: seq<Segment>)
    requires WellFormed(segs)
    ensures ParseRest(RenderRest(segs)) == Some(segs)
  {
    if |segs| > 0 {
      RestRoundTrip(segs[1..]);
      RestRoundTripStep(segs);
    }
  }

  /** One segment more: if the rest reads back, so does the whole. */
  lemma RestRoundTripStep(segs: seq<Segment>)
    requires WellFormed(segs) && |segs| > 0
    requires ParseRest(RenderRest(segs[1..])) == Some(segs[1..])
    ensures ParseRest(RenderRest(segs)) == Some(segs)
  {
    RestHead(segs);
    ParseRestStep(RenderRest(segs), RenderRest(segs[1..]), segs);
  }

  /** The rendered rest opens with a space and the first segment, which
      reads back. */
  lemma RestHead(segs: seq<Segment>)
    requires WellFormed(segs) && |segs| > 0
    ensures var s := RenderRest(segs);
      |s| > 0 && s[0] == ' ' && ParseSegment(s[1..]) == Some((segs[0], RenderRest(segs[1..])))
  {
    var tail := RenderRest(segs[1..]);
    RestCons(segs);
    RestStartsWithSpace(segs[1..]);
    SegmentRoundTrip(segs[0], tail);
  }

  /** '<', a segment that reads back up to '>', and a rest that reads back. */
  lemma ParseStep(s: string, tail: string, segs: seq<Segment>)
    requires |s| > 0 && s[0] == '<' && |segs| > 0
    requires ParseSegment(s[1..]) == Some((segs[0], ">" + tail))
    requires ParseRest(tail) == Some(segs[1..])
    ensures Parse(s) == Some(segs)
  {
    var rest := ">" + tail;
    DropOne('>', tail);
    ConsTail(segs);
    assert ParseSegment(s[1..]) == Some((segs[0], rest));
    assert ParseRest(rest[1..]) == Some(segs[1..]);
  }

  /** Reading `to_stream`'s text gives back the segments it printed. */
  lemma ToStreamRoundTrip(segs: seq<Segment>)
    requires WellFormed(segs)
    ensures Parse(ToStream(segs)) == Some(segs)
  {
    if |segs| > 0 {
      ToStreamHead(segs);
      RestRoundTrip(segs[1..]);
      ParseStep(ToStream(segs), RenderRest(segs[1..]), segs);
    }
  }

  /** The text opens with '<' and the local segment, which reads back up
      to the closing '>'. */
  lemma ToStreamHead(segs: seq<Segment>)
    requires WellFormed(segs) && |segs| > 0
    ensures var s := ToStream(segs);
      |s| > 0 && s[0] == '<' && ParseSegment(s[1..]) == Some((segs[0], ">" + RenderRest(segs[1..])))
  {
    var body := RenderSegment(segs[0]);
    var tail := RenderRest(segs[1..]);
    DropFirst('<', body, ">" + tail);
    Reassociate("<", body, ">", tail);
    SegmentRoundTrip(segs[0], ">" + tail);
  }

  /** Two steal orders print alike only when they are the same. */
  lemma ToStreamInjective(a: seq<Segment>, b: seq<Segment>)
    requires WellFormed(a) && WellFormed(b)
    requires ToStream(a) == ToStream(b)
    ensures a == b
  {
    ToStreamRoundTrip(a);
    ToStreamRoundTrip(b);
  }

  /** The local segment comes first, in angle brackets. */
  lemma ToStreamShowsLocal(segs: seq<Segment>)
    requires WellFormed(segs) && |segs| > 0
    ensures var s := ToStream(segs); var l := RenderSegment(GetLocal(segs));
      |s| >= |l| + 2 && s[0] == '<' && s[1..|l| + 1] == l && s[|l| + 1] == '>'
  {
    var l := RenderSegment(segs[0]);
    var s := ToStream(segs);
    assert s == "<" + l + ">" + RenderRest(segs[1..]);
  }
}
