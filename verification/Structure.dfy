/** Measures of payload structure: maximal runs of equally stable offsets, and the number of
    differing bytes. */
module Structure {
  import opened Bytes

  datatype Stability = Unobserved | LengthDependent | Constant | Variable

  datatype OffsetAnalysis = OffsetAnalysis(withinA: Stability, withinB: Stability, crossCapture: Stability)

  datatype StructuralClass = StructuralStable | StructuralDivergent | CaptureSpecific | UnknownClass

  datatype Region = Region(start: nat, end: nat, within: Stability, cross: Stability, status: StructuralClass)

  function StatusOf(cross: Stability): StructuralClass {
    match cross
    case Constant => StructuralStable
    case Variable => StructuralDivergent
    case LengthDependent => CaptureSpecific
    case Unobserved => UnknownClass
  }

  /** The stability within the captures, judged at a region's first offset. */
  function WithinOf(o: OffsetAnalysis): Stability {
    if o.withinA == o.withinB then o.withinA else Variable
  }

  /** A run of equal cross-capture stability, labelled by its first offset. */
  ghost predicate IsRun(r: Region, offsets: seq<OffsetAnalysis>) {
    && r.start < r.end <= |offsets|
    && (forall k | r.start <= k < r.end :: offsets[k].crossCapture == r.cross)
    && Labelled(r, offsets[r.start])
  }

  /** Stability within the captures as at an offset if both agree there, and the class of its
      cross-capture stability. */
  ghost predicate Labelled(r: Region, o: OffsetAnalysis) {
    && r.within == (if o.withinA == o.withinB then o.withinA else Variable)
    && (r.status == StructuralStable <==> r.cross == Constant)
    && (r.status == StructuralDivergent <==> r.cross == Variable)
    && (r.status == CaptureSpecific <==> r.cross == LengthDependent)
    && (r.status == UnknownClass <==> r.cross == Unobserved)
  }

  lemma LabelFits(start: nat, end: nat, o: OffsetAnalysis, cross: Stability)
    ensures Labelled(Region(start, end, WithinOf(o), cross, StatusOf(cross)), o)
  {
  }

  lemma OneLabel(x: Region, y: Region, o: OffsetAnalysis)
    requires Labelled(x, o) && Labelled(y, o) && x.cross == y.cross
    ensures x.within == y.within && x.status == y.status
  {
  }

  /** The regions are runs that tile the offsets from 0 up to `upto`, and neighbours differ. */
  ghost predicate Tiles(regions: seq<Region>, offsets: seq<OffsetAnalysis>, upto: nat) {
    && (forall i | 0 <= i < |regions| :: IsRun(regions[i], offsets))
    && (if regions == [] then upto == 0 else regions[0].start == 0 && regions[|regions| - 1].end == upto)
    && (forall i | 0 < i < |regions| :: regions[i - 1].end == regions[i].start)
    && (forall i | 0 < i < |regions| :: regions[i - 1].cross != regions[i].cross)
  }

  /** Splits the offsets into maximal runs of equal stability: contiguous, covering every offset,
      each run uniform and different from its neighbours. */
  method BuildRegions(offsets: seq<OffsetAnalysis>) returns (regions: seq<Region>)
    ensures Tiles(regions, offsets, |offsets|)
  {
    hide Labelled, WithinOf, StatusOf;
    if offsets == [] {
      return [];
    }
    regions := [];
    var start := 0;
    var cur := offsets[0].crossCapture;
    for i := 1 to |offsets| + 1
      invariant Tiles(regions, offsets, if i == |offsets| + 1 then |offsets| else start)
      invariant i <= |offsets| ==>
                  && start < i && cur == offsets[start].crossCapture
                  && (forall k | start <= k < i :: offsets[k].crossCapture == cur)
                  && (regions != [] ==> regions[|regions| - 1].cross != cur)
    {
      if i == |offsets| || offsets[i].crossCapture != cur {
        var region := Region(start, i, WithinOf(offsets[start]), cur, StatusOf(cur));
        LabelFits(start, i, offsets[start], cur);
        regions := regions + [region];
        if i < |offsets| {
          start := i;
          cur := offsets[i].crossCapture;
        }
      }
    }
  }

  lemma TilesSomething(xs: seq<Region>, offsets: seq<OffsetAnalysis>)
    requires Tiles(xs, offsets, |offsets|)
    ensures xs == [] <==> offsets == []
  {
    assert xs != [] ==> IsRun(xs[0], offsets);
  }

  /** A run ends where the offsets do, or where the stability changes and the next run starts. */
  lemma RunIsMaximal(xs: seq<Region>, offsets: seq<OffsetAnalysis>, i: nat)
    requires Tiles(xs, offsets, |offsets|) && i < |xs|
    ensures IsRun(xs[i], offsets) && (xs[i].end < |offsets| <==> i + 1 < |xs|)
    ensures xs[i].end < |offsets| ==> offsets[xs[i].end].crossCapture != xs[i].cross
  {
    assert IsRun(xs[i], offsets);
    if i + 1 < |xs| {
      assert IsRun(xs[i + 1], offsets);
    }
  }

  lemma RunsAgree(xs: seq<Region>, ys: seq<Region>, offsets: seq<OffsetAnalysis>, i: nat)
    requires Tiles(xs, offsets, |offsets|) && Tiles(ys, offsets, |offsets|)
    requires i < |xs| && i < |ys| && xs[i].start == ys[i].start
    ensures xs[i] == ys[i]
  {
    RunIsMaximal(xs, offsets, i);
    RunIsMaximal(ys, offsets, i);
    assert offsets[xs[i].start].crossCapture == xs[i].cross == ys[i].cross;
    assert xs[i].end == ys[i].end;
    OneLabel(xs[i], ys[i], offsets[xs[i].start]);
  }

  lemma {:induction false} TilingsAgree(xs: seq<Region>, ys: seq<Region>, offsets: seq<OffsetAnalysis>, n: nat)
    requires Tiles(xs, offsets, |offsets|) && Tiles(ys, offsets, |offsets|) && n <= |xs|
    ensures n <= |ys| && forall i | 0 <= i < n :: xs[i] == ys[i]
  {
    if n == 0 {
    } else {
      TilingsAgree(xs, ys, offsets, n - 1);
      TilesSomething(xs, offsets);
      TilesSomething(ys, offsets);
      if n > 1 {
        RunIsMaximal(xs, offsets, n - 2);
        RunIsMaximal(ys, offsets, n - 2);
      }
      RunsAgree(xs, ys, offsets, n - 1);
    }
  }

  /** The runs are maximal, so there is one way only to split the offsets into regions. */
  lemma TilingIsUnique(xs: seq<Region>, ys: seq<Region>, offsets: seq<OffsetAnalysis>)
    requires Tiles(xs, offsets, |offsets|) && Tiles(ys, offsets, |offsets|)
    ensures xs == ys
  {
    TilingsAgree(xs, ys, offsets, |xs|);
    TilingsAgree(ys, xs, offsets, |ys|);
  }

  datatype MessagePayloadDiff = MessagePayloadDiff(
    lengthA: nat, lengthB: nat, samePrefix: nat, firstDifference: Option<nat>, differentBytes: nat)

  /** A payload read past its end yields a symbol that no byte equals. */
  ghost function At(s: Octets, i: nat): Option<byte> { if i < |s| then Some(s[i]) else None }

  /** The number of the first n positions at which two padded payloads differ. */
  ghost function Differing(a: Octets, b: Octets, n: nat): nat {
    if n == 0 then 0 else Differing(a, b, n - 1) + if At(a, n - 1) != At(b, n - 1) then 1 else 0
  }

  function Longer(a: Octets, b: Octets): nat { if |a| >= |b| then |a| else |b| }

  /** The distance of two payloads: differing positions after padding. */
  ghost function Distance(a: Octets, b: Octets): nat { Differing(a, b, Longer(a, b)) }

  lemma {:induction false} DifferingSame(a: Octets, b: Octets, n: nat)
    requires forall i | 0 <= i < n :: At(a, i) == At(b, i)
    ensures Differing(a, b, n) == 0
  {
    if n == 0 {
    } else {
      DifferingSame(a, b, n - 1);
    }
  }

  lemma {:induction false} DifferingTail(a: Octets, b: Octets, from: nat, to: nat)
    requires from <= to && forall i | from <= i < to :: At(a, i) != At(b, i)
    ensures Differing(a, b, to) == Differing(a, b, from) + to - from
  {
    if from >= to {
    } else {
      DifferingTail(a, b, from, to - 1);
    }
  }

  /** The reported count is the distance: positions past the end of the shorter payload all differ,
      and positions in the common prefix none. */
  method PayloadByteDiff(a: Octets, b: Octets) returns (d: MessagePayloadDiff)
    ensures d.lengthA == |a| && d.lengthB == |b|
    ensures d.samePrefix <= |a| && d.samePrefix <= |b| && a[..d.samePrefix] == b[..d.samePrefix]
    ensures d.firstDifference == if a == b then None else Some(d.samePrefix)
    ensures a != b ==> At(a, d.samePrefix) != At(b, d.samePrefix)
    ensures d.differentBytes == Distance(a, b)
  {
    var minLen := if |a| <= |b| then |a| else |b|;
    var prefix := 0;
    while prefix < minLen && a[prefix] == b[prefix]
      invariant prefix <= minLen && forall i | 0 <= i < prefix :: a[i] == b[i]
    {
      prefix := prefix + 1;
    }
    var first := if prefix < |a| || prefix < |b| then Some(prefix) else None;
    var different := if |a| >= |b| then |a| - |b| else |b| - |a|;
    DifferingSame(a, b, prefix);
    for i := prefix to minLen
      invariant different == Differing(a, b, i) + Longer(a, b) - minLen
    {
      if a[i] != b[i] {
        different := different + 1;
      }
    }
    DifferingTail(a, b, minLen, Longer(a, b));
    assert a[..prefix] == b[..prefix];
    assert a == b <==> first == None by {
      if first == None {
        assert a == a[..prefix] && b == b[..prefix];
      }
    }
    return MessagePayloadDiff(|a|, |b|, prefix, first, different);
  }

  /** Positions past both ends never differ. */
  lemma {:induction false} PaddingAgrees(a: Octets, b: Octets, n: nat)
    requires n >= Longer(a, b)
    ensures Differing(a, b, n) == Distance(a, b)
  {
    if n <= Longer(a, b) {
    } else {
      PaddingAgrees(a, b, n - 1);
    }
  }

  lemma {:induction false} DifferingMetric(a: Octets, b: Octets, c: Octets, n: nat)
    ensures Differing(a, b, n) == Differing(b, a, n)
    ensures Differing(a, c, n) <= Differing(a, b, n) + Differing(b, c, n)
    ensures Differing(a, b, n) == 0 ==> forall i | 0 <= i < n :: At(a, i) == At(b, i)
  {
    if n == 0 {
    } else {
      DifferingMetric(a, b, c, n - 1);
    }
  }

  /** The number of different bytes is a metric on payloads of all lengths: zero exactly on equal
      payloads, symmetric, and subject to the triangle inequality. */
  lemma DistanceIsAMetric(a: Octets, b: Octets, c: Octets)
    ensures Distance(a, b) == 0 <==> a == b
    ensures Distance(a, b) == Distance(b, a)
    ensures Distance(a, c) <= Distance(a, b) + Distance(b, c)
  {
    var n := |a| + |b| + |c| + 1;
    PaddingAgrees(a, b, n);
    PaddingAgrees(b, a, n);
    PaddingAgrees(b, c, n);
    PaddingAgrees(a, c, n);
    DifferingMetric(a, b, c, n);
    if Distance(a, b) == 0 {
      SamePadded(a, b, n);
    } else if a == b {
      DifferingSame(a, b, Longer(a, b));
    }
  }

  lemma SamePadded(a: Octets, b: Octets, n: nat)
    requires n > Longer(a, b) && forall i | 0 <= i < n :: At(a, i) == At(b, i)
    ensures a == b
  {
    assert At(a, |a|) == At(b, |a|) && At(a, |b|) == At(b, |b|);
    assert forall i | 0 <= i < |a| :: At(a, i) == Some(a[i]);
  }
}
