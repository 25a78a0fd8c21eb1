/** The greedy difference between an expected and an observed sequence of message ids. */
module ObservationDiff {
  import opened Bytes
  import opened Lcs

  datatype Category = MissingFrame | UnexpectedFrame | OrderMismatch

  datatype Entry = Entry(category: Category, expected: Option<u16>, observed: Option<u16>)

  /** One step of the comparison. */
  datatype Edit = Match(id: u16) | Missing(id: u16) | Unexpected(id: u16) | Order(wanted: u16, seen: u16)

  ghost function ExpectedAt(step: Edit): Ids {
    match step
    case Match(x) => [x]
    case Missing(x) => [x]
    case Unexpected(_) => []
    case Order(x, _) => [x]
  }

  ghost function ObservedAt(step: Edit): Ids {
    match step
    case Match(x) => [x]
    case Missing(_) => []
    case Unexpected(x) => [x]
    case Order(_, y) => [y]
  }

  ghost function EntriesAt(step: Edit): seq<Entry> {
    match step
    case Match(_) => []
    case Missing(x) => [Entry(MissingFrame, Some(x), None)]
    case Unexpected(x) => [Entry(UnexpectedFrame, None, Some(x))]
    case Order(x, y) => [Entry(OrderMismatch, Some(x), Some(y))]
  }

  ghost function ExpectedBy(script: seq<Edit>): Ids {
    if script == [] then [] else ExpectedAt(script[0]) + ExpectedBy(script[1..])
  }

  ghost function ObservedBy(script: seq<Edit>): Ids {
    if script == [] then [] else ObservedAt(script[0]) + ObservedBy(script[1..])
  }

  ghost function MatchedBy(script: seq<Edit>): Ids {
    if script == [] then []
    else (if script[0].Match? then [script[0].id] else []) + MatchedBy(script[1..])
  }

  ghost function EntriesOf(script: seq<Edit>): seq<Entry> {
    if script == [] then [] else EntriesAt(script[0]) + EntriesOf(script[1..])
  }

  /** Every step of a script has its reason in what is still to be compared. A frame is reported as
      additional only if none more is expected, or the one expected next is still to come among the
      observed; as missing only if none more was observed, or the one expected next is not to come
      but the one observed next is still expected later; and as out of order only if neither id
      occurs in what is left of the other sequence. Once frames are being skipped as missing, they
      are skipped up to the one observed next. */
  ghost predicate Justified(script: seq<Edit>, skipping: bool, e: Ids, o: Ids)
    decreases |script|
  {
    if script == [] then e == [] && o == []
    else Fits(script[0], skipping, e, o) &&
         Justified(script[1..], script[0].Missing?, LeftOfE(script[0], e), LeftOfO(script[0], o))
  }

  /** The reason for one step where it stands. */
  ghost predicate Fits(step: Edit, skipping: bool, e: Ids, o: Ids) {
    match step
    case Match(x) => e != [] && o != [] && e[0] == x == o[0]
    case Missing(x) => e != [] && e[0] == x && (o != [] ==> x != o[0] && o[0] in e && (skipping || x !in o))
    case Unexpected(y) => o != [] && o[0] == y && (e != [] ==> !skipping && y != e[0] && e[0] in o)
    case Order(x, y) => e != [] && o != [] && e[0] == x && o[0] == y && x !in o && y !in e
  }

  ghost function LeftOfE(step: Edit, e: Ids): Ids
    requires !step.Unexpected? ==> e != []
  {
    if step.Unexpected? then e else e[1..]
  }

  ghost function LeftOfO(step: Edit, o: Ids): Ids
    requires !step.Missing? ==> o != []
  {
    if step.Missing? then o else o[1..]
  }

  lemma FirstStep(script: seq<Edit>, skipping: bool, e: Ids, o: Ids)
    requires Justified(script, skipping, e, o) && (e != [] || o != [])
    ensures script != [] && Fits(script[0], skipping, e, o)
    ensures Justified(script[1..], script[0].Missing?, LeftOfE(script[0], e), LeftOfO(script[0], o))
    ensures |EntriesOf(script)| == |EntriesOf(script[1..])| + if script[0].Match? then 0 else 1
  {
  }

  /** At most one step fits anywhere, so the comparison has exactly one justified script. */
  lemma {:induction false} ScriptIsUnique(x: seq<Edit>, y: seq<Edit>, skipping: bool, e: Ids, o: Ids)
    requires Justified(x, skipping, e, o) && Justified(y, skipping, e, o)
    requires skipping && o != [] ==> o[0] in e
    ensures x == y
    decreases |x|
  {
    if x == [] || y == [] {
      assert x == y;
    } else {
      assert x[0] == y[0];
      var step := x[0];
      var eNext, oNext := LeftOfE(step, e), LeftOfO(step, o);
      if step.Missing? && o != [] {
        assert e == [e[0]] + e[1..];
      }
      ScriptIsUnique(x[1..], y[1..], step.Missing?, eNext, oNext);
      assert x == [x[0]] + x[1..] && y == [y[0]] + y[1..];
    }
  }

  /** A script that explains how the one sequence became the other, for whatever reasons. */
  ghost predicate Spells(script: seq<Edit>, e: Ids, o: Ids) { ExpectedBy(script) == e && ObservedBy(script) == o }

  lemma {:induction false} JustifiedSpells(script: seq<Edit>, skipping: bool, e: Ids, o: Ids)
    requires Justified(script, skipping, e, o)
    ensures Spells(script, e, o)
    decreases |script|
  {
    if script == [] {
    } else {
      hide Justified, Fits, ExpectedAt, ObservedAt, LeftOfE, LeftOfO;
      FirstStep(script, skipping, e, o);
      var step := script[0];
      StepTakes(step, skipping, e, o);
      JustifiedSpells(script[1..], step.Missing?, LeftOfE(step, e), LeftOfO(step, o));
    }
  }

  lemma StepTakes(step: Edit, skipping: bool, e: Ids, o: Ids)
    requires Fits(step, skipping, e, o)
    ensures !step.Unexpected? ==> e != []
    ensures !step.Missing? ==> o != []
    ensures ExpectedAt(step) + LeftOfE(step, e) == e && ObservedAt(step) + LeftOfO(step, o) == o
  {
  }

  /** The matches of any script spell a common subsequence, every other step is an entry, and each
      step takes at most one frame of either sequence. */
  lemma {:induction false} MatchesAreCommon(script: seq<Edit>)
    ensures Subseq(MatchedBy(script), ExpectedBy(script)) && Subseq(MatchedBy(script), ObservedBy(script))
    ensures |EntriesOf(script)| + |MatchedBy(script)| == |script|
    ensures |ExpectedBy(script)| <= |script| && |ObservedBy(script)| <= |script|
    ensures |script| + |MatchedBy(script)| <= |ExpectedBy(script)| + |ObservedBy(script)|
  {
    if script == [] {
    } else {
      var step, rest := script[0], script[1..];
      MatchesAreCommon(rest);
      var m, e, o := MatchedBy(rest), ExpectedBy(rest), ObservedBy(rest);
      var all := if step.Match? then [step.id] + m else m;
      assert MatchedBy(script) == all by { assert [] + m == m; }
      hide MatchedBy, ExpectedBy, ObservedBy, EntriesOf, Subseq;
      MatchFirst(step, m, e);
      MatchFirst(step, m, o);
    }
  }

  /** A subsequence, with one more step in front of both. */
  lemma MatchFirst(step: Edit, s: Ids, t: Ids)
    requires Subseq(s, t)
    ensures var all := if step.Match? then [step.id] + s else s;
            Subseq(all, ExpectedAt(step) + t) && Subseq(all, ObservedAt(step) + t)
  {
    forall ids | |ids| <= 1 ensures (ids + t)[|ids|..] == t {
    }
    assert [] + t == t;
    if step.Match? {
      assert ([step.id] + s)[1..] == s && ([step.id] + t)[1..] == t;
    } else {
      if ExpectedAt(step) != [] {
        SubseqPrepend(s, ExpectedAt(step) + t);
      }
      if ObservedAt(step) != [] {
        SubseqPrepend(s, ObservedAt(step) + t);
      }
    }
  }

  /** What the entries show of the expected sequence, and of the observed one. */
  function ExpectedShown(entries: seq<Entry>): Ids {
    if entries == [] then []
    else (if entries[0].expected.Some? then [entries[0].expected.value] else []) + ExpectedShown(entries[1..])
  }

  function ObservedShown(entries: seq<Entry>): Ids {
    if entries == [] then []
    else (if entries[0].observed.Some? then [entries[0].observed.value] else []) + ObservedShown(entries[1..])
  }

  /** A sequence taken apart into two, in order. */
  ghost predicate Interleaves(x: Ids, y: Ids, whole: Ids)
    decreases |whole|
  {
    if whole == [] then x == [] && y == []
    else
      || (x != [] && x[0] == whole[0] && Interleaves(x[1..], y, whole[1..]))
      || (y != [] && y[0] == whole[0] && Interleaves(x, y[1..], whole[1..]))
  }

  /** The category says which ids an entry has. */
  ghost predicate CategoryFits(entry: Entry) {
    && (entry.category == MissingFrame <==> entry.expected.Some? && entry.observed.None?)
    && (entry.category == UnexpectedFrame <==> entry.expected.None? && entry.observed.Some?)
    && (entry.category == OrderMismatch <==> entry.expected.Some? && entry.observed.Some?)
  }

  lemma InterleavesFirst(x: Ids, y: Ids, whole: Ids, id: u16)
    requires Interleaves(x, y, whole)
    ensures Interleaves([id] + x, y, [id] + whole) && Interleaves(x, [id] + y, [id] + whole)
  {
    assert ([id] + whole)[1..] == whole && ([id] + x)[1..] == x && ([id] + y)[1..] == y;
  }

  /** What the entries say. Each sequence is its matched frames and the frames that the entries show of
      it, in order, and the category of an entry tells which of the two ids it has. */
  lemma {:induction false} EntriesAreUnmatched(script: seq<Edit>, skipping: bool, e: Ids, o: Ids)
    requires Justified(script, skipping, e, o)
    ensures var entries := EntriesOf(script);
            && Interleaves(MatchedBy(script), ExpectedShown(entries), e)
            && Interleaves(MatchedBy(script), ObservedShown(entries), o)
            && forall entry <- entries :: CategoryFits(entry)
    decreases |script|
  {
    if script == [] {
    } else {
      hide Justified, Fits, Interleaves, LeftOfE, LeftOfO;
      var step, rest := script[0], script[1..];
      FirstStep(script, skipping, e, o);
      StepTakes(step, skipping, e, o);
      var eLeft, oLeft := LeftOfE(step, e), LeftOfO(step, o);
      EntriesAreUnmatched(rest, step.Missing?, eLeft, oLeft);
      var m, x, y := MatchedBy(rest), ExpectedShown(EntriesOf(rest)), ObservedShown(EntriesOf(rest));
      EntryFirst(step, EntriesOf(rest));
      assert [] + m == m && [] + x == x && [] + y == y && [] + eLeft == eLeft && [] + oLeft == oLeft;
      if !step.Unexpected? {
        InterleavesFirst(m, x, eLeft, e[0]);
      }
      if !step.Missing? {
        InterleavesFirst(m, y, oLeft, o[0]);
      }
    }
  }

  lemma EntryFirst(step: Edit, entries: seq<Entry>)
    ensures var all := EntriesAt(step) + entries;
            && ExpectedShown(all) == (if step.Match? then [] else ExpectedAt(step)) + ExpectedShown(entries)
            && ObservedShown(all) == (if step.Match? then [] else ObservedAt(step)) + ObservedShown(entries)
            && (forall entry <- all :: entry in entries || CategoryFits(entry))
  {
    var all := EntriesAt(step) + entries;
    if step.Match? {
      assert all == entries;
      assert [] + ExpectedShown(entries) == ExpectedShown(entries);
      assert [] + ObservedShown(entries) == ObservedShown(entries);
    } else {
      assert all[1..] == entries;
    }
  }

  /** No entries means no difference, and the other way round. */
  lemma {:induction false} EmptyIffEqual(script: seq<Edit>, skipping: bool, e: Ids, o: Ids)
    requires Justified(script, skipping, e, o)
    ensures EntriesOf(script) == [] <==> e == o
    decreases |script|
  {
    if script == [] {
    } else {
      if script[0].Match? {
        EmptyIffEqual(script[1..], false, e[1..], o[1..]);
        assert e == [e[0]] + e[1..] && o == [o[0]] + o[1..];
      } else {
        assert EntriesOf(script) != [];
      }
    }
  }

  /** No script has more matches than the sequences allow: so the entries of any number at least the
      longer length less a longest common subsequence. */
  lemma EntriesBound(script: seq<Edit>, e: Ids, o: Ids)
    requires Spells(script, e, o)
    ensures |EntriesOf(script)| >= Max(|e|, |o|) - |LcsOf(e, o)|
  {
    hide EntriesOf, ExpectedBy, ObservedBy, MatchedBy, LcsOf;
    MatchesAreCommon(script);
    LcsIsOptimal(e, o);
  }

  lemma {:induction false} ShorterIfContained(s: Ids, t: Ids)
    requires Subseq(s, t)
    ensures |s| <= |t|
  {
    if s == [] {
    } else if Subseq(s, t[1..]) {
      ShorterIfContained(s, t[1..]);
    } else {
      ShorterIfContained(s[1..], t[1..]);
    }
  }

  lemma {:induction false} ContainedTails(s: Ids, t: Ids)
    requires s != [] && Subseq(s, t)
    ensures s[0] in t && Subseq(s[1..], t[1..]) && (s[0] != t[0] ==> Subseq(s, t[1..]))
  {
    if s[0] == t[0] && Subseq(s[1..], t[1..]) {
    } else {
      ContainedTails(s, t[1..]);
      SubseqPrepend(s[1..], t[1..]);
    }
  }

  lemma NothingIsContained(t: Ids)
    ensures Subseq([], t)
  {
  }

  /** No script that explains the same difference has fewer entries. */
  ghost predicate Minimal(script: seq<Edit>, e: Ids, o: Ids) {
    Spells(script, e, o) && forall other | Spells(other, e, o) :: |EntriesOf(script)| <= |EntriesOf(other)|
  }

  /** The comparison of these two sequences reports no more entries than any script that explains
      their difference. */
  ghost predicate ComparedMinimally(e: Ids, o: Ids) {
    forall script | Justified(script, false, e, o) :: Minimal(script, e, o)
  }

  /** The step that fits: where there is anything left to compare, there is one. */
  ghost function StepAt(skipping: bool, e: Ids, o: Ids): (step: Edit)
    requires (e != [] || o != []) && (skipping && o != [] ==> o[0] in e)
    ensures Fits(step, skipping, e, o)
  {
    if o == [] then Missing(e[0])
    else if e == [] then Unexpected(o[0])
    else if e[0] == o[0] then Match(e[0])
    else if skipping then Missing(e[0])
    else if e[0] in o then Unexpected(o[0])
    else if o[0] in e then Missing(e[0])
    else Order(e[0], o[0])
  }

  /** The script of the comparison, which always exists. */
  ghost function Compared(skipping: bool, e: Ids, o: Ids): (script: seq<Edit>)
    requires skipping && o != [] ==> o[0] in e
    ensures Justified(script, skipping, e, o)
    decreases |e| + |o|
  {
    if e == [] && o == [] then []
    else
      var step := StepAt(skipping, e, o);
      assert e != [] ==> e == [e[0]] + e[1..];
      var rest := Compared(step.Missing?, LeftOfE(step, e), LeftOfO(step, o));
      assert ([step] + rest)[1..] == rest;
      [step] + rest
  }

  lemma {:induction false} SpellsAppend(x: seq<Edit>, y: seq<Edit>)
    ensures Spells(x + y, ExpectedBy(x) + ExpectedBy(y), ObservedBy(x) + ObservedBy(y))
    ensures EntriesOf(x + y) == EntriesOf(x) + EntriesOf(y)
  {
    if x == [] {
      assert x + y == y;
    } else {
      hide ExpectedAt, ObservedAt, EntriesAt;
      var rest := x[1..];
      assert (x + y)[0] == x[0] && (x + y)[1..] == rest + y;
      SpellsAppend(rest, y);
      AppendAppend(ExpectedAt(x[0]), ExpectedBy(rest), ExpectedBy(y));
      AppendAppend(ObservedAt(x[0]), ObservedBy(rest), ObservedBy(y));
      AppendAppend(EntriesAt(x[0]), EntriesOf(rest), EntriesOf(y));
    }
  }

  lemma AppendAppend<T>(x: seq<T>, y: seq<T>, z: seq<T>)
    ensures x + (y + z) == x + y + z
  {
  }

  lemma OneStep(step: Edit)
    ensures Spells([step], ExpectedAt(step), ObservedAt(step)) && EntriesOf([step]) == EntriesAt(step)
  {
    assert [step][1..] == [];
    assert ExpectedAt(step) + [] == ExpectedAt(step) && ObservedAt(step) + [] == ObservedAt(step);
    assert EntriesAt(step) + [] == EntriesAt(step);
  }

  ghost function Matches(s: Ids): seq<Edit> { if s == [] then [] else [Match(s[0])] + Matches(s[1..]) }

  lemma {:induction false} MatchesSpell(s: Ids)
    ensures Spells(Matches(s), s, s) && EntriesOf(Matches(s)) == []
  {
    if s == [] {
    } else {
      MatchesSpell(s[1..]);
      OneStep(Match(s[0]));
      SpellsAppend([Match(s[0])], Matches(s[1..]));
      assert s == [s[0]] + s[1..];
    }
  }

  lemma {:induction false} NoEntriesNoDifference(script: seq<Edit>)
    requires EntriesOf(script) == []
    ensures ExpectedBy(script) == ObservedBy(script)
  {
    if script == [] {
    } else {
      assert script[0].Match?;
      NoEntriesNoDifference(script[1..]);
    }
  }

  /** Sequences that start alike are compared from where they stop doing so. */
  lemma {:induction false} SameStart(script: seq<Edit>, a: Ids, e: Ids, o: Ids) returns (rest: seq<Edit>)
    requires Justified(script, false, a + e, a + o)
    ensures Justified(rest, false, e, o) && |EntriesOf(script)| == |EntriesOf(rest)|
    decreases |a|
  {
    if a == [] {
      assert a + e == e && a + o == o;
      rest := script;
    } else {
      hide Justified, EntriesOf;
      FirstStep(script, false, a + e, a + o);
      assert (a + e)[0] == (a + o)[0] == a[0] && script[0].Match?;
      assert (a + e)[1..] == a[1..] + e && (a + o)[1..] == a[1..] + o;
      rest := SameStart(script[1..], a[1..], e, o);
    }
  }

  /** Where the sequences differ, one entry is minimal, and two are not if one explains it. */
  lemma OneEntryIsMinimal(script: seq<Edit>, e: Ids, o: Ids)
    requires Justified(script, false, e, o) && |EntriesOf(script)| == 1 && e != o
    ensures ComparedMinimally(e, o)
  {
    hide Justified, EntriesOf, ExpectedBy, ObservedBy;
    forall s | Justified(s, false, e, o) ensures Minimal(s, e, o) {
      ScriptIsUnique(s, script, false, e, o);
      JustifiedSpells(s, false, e, o);
      forall other | Spells(other, e, o) ensures |EntriesOf(other)| >= 1 {
        if EntriesOf(other) == [] {
          NoEntriesNoDifference(other);
        }
      }
    }
  }

  /** A frame replaced by another, between frames that agree, is one entry if and only if neither id
      comes again. */
  lemma ReplacedFrameIff(a: Ids, x: u16, z: u16, t: Ids)
    requires x != z
    ensures ComparedMinimally(a + ([x] + t), a + ([z] + t)) <==> x !in t && z !in t
  {
    hide Justified, EntriesOf, ExpectedBy, ObservedBy, Matches, Fits;
    var e, o := a + ([x] + t), a + ([z] + t);
    var script := Compared(false, e, o);
    var rest := SameStart(script, a, [x] + t, [z] + t);
    ReplacedTail(rest, x, z, t);
    assert e != o by { assert e[|a|] == x && o[|a|] == z; }
    if x !in t && z !in t {
      OneEntryIsMinimal(script, e, o);
    } else {
      var other := Matches(a) + ([Order(x, z)] + Matches(t));
      MatchesSpell(a);
      MatchesSpell(t);
      OneStep(Order(x, z));
      SpellsAppend([Order(x, z)], Matches(t));
      SpellsAppend(Matches(a), [Order(x, z)] + Matches(t));
      assert Spells(other, e, o) && |EntriesOf(other)| == 1;
      assert !Minimal(script, e, o);
    }
  }

  lemma ReplacedTail(script: seq<Edit>, x: u16, z: u16, t: Ids)
    requires x != z && Justified(script, false, [x] + t, [z] + t)
    ensures if x !in t && z !in t then |EntriesOf(script)| == 1 else |EntriesOf(script)| >= 2
  {
    hide Justified, EntriesOf;
    var e, o := [x] + t, [z] + t;
    assert e[1..] == t && o[1..] == t;
    assert (x in o <==> x in t) && (z in e <==> z in t);
    FirstStep(script, false, e, o);
    var eNext, oNext := LeftOfE(script[0], e), LeftOfO(script[0], o);
    assert script[0].Order? <==> x !in t && z !in t;
    assert |eNext| == |oNext| <==> script[0].Order?;
    EmptyIffEqual(script[1..], script[0].Missing?, eNext, oNext);
  }

  /** A missing frame, between frames that agree, is one entry if and only if its id does not come
      again. (Of several equal frames in a row it is the last that is missing.) */
  lemma MissingFrameIff(a: Ids, x: u16, t: Ids)
    requires t != [] ==> t[0] != x
    ensures ComparedMinimally(a + ([x] + t), a + t) <==> x !in t
  {
    hide Justified, EntriesOf, ExpectedBy, ObservedBy, Matches, Fits;
    var e, o := a + ([x] + t), a + t;
    assert |e| == |o| + 1;
    var script := Compared(false, e, o);
    var rest := SameStart(script, a, [x] + t, t);
    MissingTail(rest, x, t);
    if x !in t {
      OneEntryIsMinimal(script, e, o);
    } else {
      var other := Matches(a) + ([Missing(x)] + Matches(t));
      MatchesSpell(a);
      MatchesSpell(t);
      OneStep(Missing(x));
      SpellsAppend([Missing(x)], Matches(t));
      SpellsAppend(Matches(a), [Missing(x)] + Matches(t));
      assert [] + t == t;
      assert Spells(other, e, o) && |EntriesOf(other)| == 1;
      assert !Minimal(script, e, o);
    }
  }

  lemma MissingTail(script: seq<Edit>, x: u16, t: Ids)
    requires (t != [] ==> t[0] != x) && Justified(script, false, [x] + t, t)
    ensures if x !in t then |EntriesOf(script)| == 1 else |EntriesOf(script)| >= 2
  {
    hide Justified, EntriesOf;
    var e := [x] + t;
    assert e[1..] == t && forall y :: y in e <==> y == x || y in t;
    FirstStep(script, false, e, t);
    var eNext, oNext := LeftOfE(script[0], e), LeftOfO(script[0], t);
    assert script[0].Missing? <==> x !in t;
    assert script[0].Unexpected? <==> x in t;
    EmptyIffEqual(script[1..], script[0].Missing?, eNext, oNext);
  }

  /** Added frames are always counted right: if the expected sequence is contained in the observed one,
      the entries are the frames that are additional, and no script has fewer. */
  lemma AddedFrames(e: Ids, o: Ids)
    requires Subseq(e, o)
    ensures ComparedMinimally(e, o)
    ensures forall script | Justified(script, false, e, o) :: |EntriesOf(script)| == |o| - |e|
  {
    hide Justified, EntriesOf, ExpectedBy, ObservedBy, Subseq, MatchedBy;
    forall script | Justified(script, false, e, o)
      ensures Minimal(script, e, o) && |EntriesOf(script)| == |o| - |e|
    {
      NothingMissing(script, e, o);
      JustifiedSpells(script, false, e, o);
      forall other | Spells(other, e, o) ensures |EntriesOf(other)| >= |o| - |e| {
        MatchesAreCommon(other);
        ShorterIfContained(MatchedBy(other), e);
      }
    }
  }

  lemma {:induction false} NothingMissing(script: seq<Edit>, e: Ids, o: Ids)
    requires Justified(script, false, e, o) && Subseq(e, o)
    ensures |EntriesOf(script)| == |o| - |e|
    decreases |script|
  {
    hide Subseq;
    if script == [] {
    } else {
      if e == [] {
        NothingIsContained(o[1..]);
      } else {
        ContainedTails(e, o);
      }
      match script[0] {
        case Match(x) => NothingMissing(script[1..], e[1..], o[1..]);
        case Unexpected(y) => NothingMissing(script[1..], e, o[1..]);
      }
    }
  }

  ghost predicate Disjoint(e: Ids, o: Ids) { forall x <- e :: x !in o }

  /** Sequences without a common id differ in every frame of the longer one. */
  lemma {:induction false} NothingInCommon(script: seq<Edit>, skipping: bool, e: Ids, o: Ids)
    requires Justified(script, skipping, e, o) && Disjoint(e, o) && (skipping ==> o == [])
    ensures |EntriesOf(script)| == Max(|e|, |o|)
    decreases |script|
  {
    if script == [] {
    } else {
      hide Justified, EntriesOf;
      FirstStep(script, skipping, e, o);
      var step := script[0];
      assert (e != [] ==> e[0] in e) && (o != [] ==> o[0] in o);
      forall x <- LeftOfE(step, e) ensures x in e && x !in LeftOfO(step, o) {
      }
      NothingInCommon(script[1..], step.Missing?, LeftOfE(step, e), LeftOfO(step, o));
    }
  }

  lemma DisjointIsMinimal(e: Ids, o: Ids)
    requires Disjoint(e, o)
    ensures ComparedMinimally(e, o)
  {
    hide Justified, EntriesOf, ExpectedBy, ObservedBy, MatchedBy, Subseq;
    forall script | Justified(script, false, e, o) ensures Minimal(script, e, o) {
      NothingInCommon(script, false, e, o);
      JustifiedSpells(script, false, e, o);
      forall other | Spells(other, e, o) ensures |EntriesOf(other)| >= Max(|e|, |o|) {
        MatchesAreCommon(other);
        if MatchedBy(other) != [] {
          ContainedTails(MatchedBy(other), e);
          ContainedTails(MatchedBy(other), o);
          assert false;
        }
      }
    }
  }

  /** One observed frame that was expected leaves all the others missing. */
  lemma {:induction false} OneObserved(script: seq<Edit>, skipping: bool, e: Ids, y: u16)
    requires Justified(script, skipping, e, [y]) && y in e
    ensures |EntriesOf(script)| == |e| - 1
    decreases |script|
  {
    hide Justified, EntriesOf;
    FirstStep(script, skipping, e, [y]);
    assert [y][1..] == [];
    if e[0] == y {
      assert script[0].Match?;
      NothingInCommon(script[1..], false, e[1..], []);
    } else {
      assert script[0].Missing?;
      OneObserved(script[1..], true, e[1..], y);
    }
  }

  lemma OneObservedIsMinimal(e: Ids, y: u16)
    requires y in e
    ensures ComparedMinimally(e, [y])
  {
    hide Justified, EntriesOf, ExpectedBy, ObservedBy, MatchedBy, Subseq;
    forall script | Justified(script, false, e, [y]) ensures Minimal(script, e, [y]) {
      OneObserved(script, false, e, y);
      JustifiedSpells(script, false, e, [y]);
      forall other | Spells(other, e, [y]) ensures |EntriesOf(other)| >= |e| - 1 {
        MatchesAreCommon(other);
        ShorterIfContained(MatchedBy(other), [y]);
      }
    }
  }

  /** An id with which to replace the first frame so that the comparison is not minimal. */
  ghost function Spoiler(s: Ids): (z: u16)
    requires |s| >= 2
    ensures z != s[0] && (s[0] in s[1..] || z in s[1..])
  {
    if s[1] != s[0] then s[1] else assert s[1..][0] == s[0]; if s[0] == 0 then 1 else 0
  }

  /** Minimality. Against every observed sequence the comparison is minimal if and only if at most one
      frame is expected. */
  lemma MinimalForExpectedIff(e: Ids)
    ensures (forall o: Ids :: ComparedMinimally(e, o)) <==> |e| <= 1
  {
    hide ComparedMinimally;
    if |e| <= 1 {
      forall o: Ids ensures ComparedMinimally(e, o) {
        if e == [] || e[0] !in o {
          DisjointIsMinimal(e, o);
        } else {
          assert e == [e[0]];
          OneIsContained(e[0], o);
          AddedFrames(e, o);
        }
      }
    } else {
      var z := Spoiler(e);
      ReplacedFrameIff([], e[0], z, e[1..]);
      assert [] + ([e[0]] + e[1..]) == e;
      assert !ComparedMinimally(e, [] + ([z] + e[1..]));
    }
  }

  /** The same for every observed sequence, against all that might have been expected. */
  lemma MinimalForObservedIff(o: Ids)
    ensures (forall e: Ids :: ComparedMinimally(e, o)) <==> |o| <= 1
  {
    hide ComparedMinimally;
    if |o| <= 1 {
      forall e: Ids ensures ComparedMinimally(e, o) {
        if o == [] || o[0] !in e {
          DisjointIsMinimal(e, o);
        } else {
          assert o == [o[0]];
          OneObservedIsMinimal(e, o[0]);
        }
      }
    } else {
      var z := Spoiler(o);
      ReplacedFrameIff([], z, o[0], o[1..]);
      assert [] + ([o[0]] + o[1..]) == o;
      assert !ComparedMinimally([] + ([z] + o[1..]), o);
    }
  }

  lemma {:induction false} OneIsContained(x: u16, o: Ids)
    requires x in o
    ensures Subseq([x], o)
    decreases |o|
  {
    if o[0] == x {
      assert [x][1..] == [];
    } else {
      OneIsContained(x, o[1..]);
    }
  }

  /** If any id is common, some step matches. */
  lemma {:induction false} CommonIsMatched(script: seq<Edit>, skipping: bool, e: Ids, o: Ids)
    requires Justified(script, skipping, e, o) && !Disjoint(e, o)
    ensures MatchedBy(script) != []
    decreases |script|
  {
    hide MatchedBy, Justified, Fits;
    FirstStep(script, skipping, e, o);
    MatchedFirst(script);
    if !script[0].Match? {
      StillCommon(script[0], skipping, e, o);
      CommonIsMatched(script[1..], script[0].Missing?, LeftOfE(script[0], e), LeftOfO(script[0], o));
    }
  }

  lemma StillCommon(step: Edit, skipping: bool, e: Ids, o: Ids)
    requires Fits(step, skipping, e, o) && !step.Match? && !Disjoint(e, o)
    ensures (!step.Unexpected? ==> e != []) && (!step.Missing? ==> o != [])
    ensures !Disjoint(LeftOfE(step, e), LeftOfO(step, o))
  {
    var x :| x in e && x in o;
    assert e == [e[0]] + e[1..] && o == [o[0]] + o[1..];
    var y := if step.Missing? then o[0] else if step.Unexpected? then e[0] else x;
    assert y in LeftOfE(step, e) && y in LeftOfO(step, o);
  }

  lemma MatchedFirst(script: seq<Edit>)
    requires script != []
    ensures script[0].Match? || MatchedBy(script[1..]) != [] ==> MatchedBy(script) != []
  {
  }

  /** The most entries there can be. */
  lemma NeverWorse(script: seq<Edit>, e: Ids, o: Ids)
    requires Justified(script, false, e, o)
    ensures if Disjoint(e, o) then |EntriesOf(script)| == Max(|e|, |o|) else |EntriesOf(script)| <= |e| + |o| - 2
  {
    hide Justified, EntriesOf, ExpectedBy, ObservedBy, MatchedBy, Subseq, Disjoint;
    if Disjoint(e, o) {
      NothingInCommon(script, false, e, o);
    } else {
      CommonIsMatched(script, false, e, o);
      MatchesAreCommon(script);
      JustifiedSpells(script, false, e, o);
    }
  }

  /** The frame expected first comes after others: those are all reported as additional, and all that
      is expected after it as missing. */
  lemma {:induction false} FrameComesLate(script: seq<Edit>, x: u16, t: Ids, u: Ids)
    requires x !in u && Justified(script, false, [x] + t, u + [x])
    ensures |EntriesOf(script)| == |t| + |u|
    decreases |u|
  {
    hide Justified, EntriesOf;
    var e, o := [x] + t, u + [x];
    assert e[1..] == t && o[|u|] == x;
    FirstStep(script, false, e, o);
    if u == [] {
      assert script[0].Match? && o[1..] == [];
      NothingInCommon(script[1..], false, t, []);
    } else {
      assert o[0] == u[0] && o[1..] == u[1..] + [x];
      assert script[0].Unexpected?;
      FrameComesLate(script[1..], x, t, u[1..]);
    }
  }

  /** The most entries are reached, where two suffice: a frame that comes late by any number of frames
      makes all of them count twice. So nothing bounds how far the comparison is from minimal. */
  lemma LateFrame(script: seq<Edit>, x: u16, t: Ids)
    requires x !in t && Justified(script, false, [x] + t, t + [x])
    ensures |EntriesOf(script)| == 2 * |t| == |[x] + t| + |t + [x]| - 2
    ensures exists other :: Spells(other, [x] + t, t + [x]) && |EntriesOf(other)| == 2
  {
    hide Justified, EntriesOf, ExpectedBy, ObservedBy, Matches;
    FrameComesLate(script, x, t, t);
    var other := [Missing(x)] + (Matches(t) + [Unexpected(x)]);
    MatchesSpell(t);
    OneStep(Missing(x));
    OneStep(Unexpected(x));
    SpellsAppend(Matches(t), [Unexpected(x)]);
    SpellsAppend([Missing(x)], Matches(t) + [Unexpected(x)]);
    assert t + [] == t && [] + (t + [x]) == t + [x];
    assert Spells(other, [x] + t, t + [x]);
  }

  /** A script that, put before any continuation for what is left, explains the whole. */
  ghost predicate Explains(done: seq<Edit>, e: Ids, o: Ids, skipping: bool, eLeft: Ids, oLeft: Ids) {
    forall rest :: Justified(rest, skipping, eLeft, oLeft) ==> Justified(done + rest, false, e, o)
  }

  lemma ExplainsStep(done: seq<Edit>, e: Ids, o: Ids, skipping: bool, eLeft: Ids, oLeft: Ids, step: Edit,
      eNext: Ids, oNext: Ids)
    requires Explains(done, e, o, skipping, eLeft, oLeft)
    requires forall rest :: Justified(rest, step.Missing?, eNext, oNext) ==>
        Justified([step] + rest, skipping, eLeft, oLeft)
    ensures Explains(done + [step], e, o, step.Missing?, eNext, oNext)
  {
    hide Justified;
    forall rest | Justified(rest, step.Missing?, eNext, oNext) ensures Justified(done + [step] + rest, false, e, o) {
      assert done + [step] + rest == done + ([step] + rest);
    }
  }

  /** The first position of an id, if it occurs. */
  method Position(s: Ids, x: u16) returns (at: Option<nat>)
    ensures at.None? ==> x !in s
    ensures at.Some? ==> at.value < |s| && s[at.value] == x && x !in s[..at.value]
  {
    for i := 0 to |s|
      invariant x !in s[..i]
    {
      if s[i] == x {
        return Some(i);
      }
    }
    return None;
  }

  /** Progress of the comparison: `entries` reports `script`, which explains all but what is left. */
  ghost predicate Progress(
    script: seq<Edit>, entries: seq<Entry>, e: Ids, o: Ids, skipping: bool, eLeft: Ids, oLeft: Ids)
  {
    Explains(script, e, o, skipping, eLeft, oLeft) && entries == EntriesOf(script)
  }

  lemma Step(script: seq<Edit>, entries: seq<Entry>, e: Ids, o: Ids, skipping: bool, eLeft: Ids, oLeft: Ids, step: Edit)
    requires Progress(script, entries, e, o, skipping, eLeft, oLeft) && Fits(step, skipping, eLeft, oLeft)
    ensures Progress(script + [step], entries + EntriesOf([step]), e, o, step.Missing?,
                     LeftOfE(step, eLeft), LeftOfO(step, oLeft))
  {
    var eNext, oNext := LeftOfE(step, eLeft), LeftOfO(step, oLeft);
    forall rest | Justified(rest, step.Missing?, eNext, oNext)
      ensures Justified([step] + rest, skipping, eLeft, oLeft)
    {
      assert ([step] + rest)[1..] == rest;
    }
    SpellsAppend(script, [step]);
    ExplainsStep(script, e, o, skipping, eLeft, oLeft, step, eNext, oNext);
  }

  lemma ProgressStarts(e: Ids, o: Ids)
    ensures Progress([], [], e, o, false, e, o)
  {
    forall rest | Justified(rest, false, e, o) ensures Justified([] + rest, false, e, o) {
      assert [] + rest == rest;
    }
  }

  lemma ProgressEnds(script: seq<Edit>, entries: seq<Entry>, e: Ids, o: Ids, skipping: bool)
    requires Progress(script, entries, e, o, skipping, [], [])
    ensures Justified(script, false, e, o) && entries == EntriesOf(script)
  {
    assert Justified([], skipping, [], []);
    assert script + [] == script;
  }

  lemma Slices(s: Ids, i: nat)
    requires i < |s|
    ensures s[i..] != [] && s[i..][0] == s[i] && s[i..][1..] == s[i + 1..]
  {
  }

  /** Compares step by step, looking ahead for the next expected id among the observed ones first
      and for the next observed id among the expected ones second. The script is not reported; it
      says what the entries mean. */
  method DiffIdSequences(expected: Ids, observed: Ids) returns (entries: seq<Entry>, ghost script: seq<Edit>)
    ensures Justified(script, false, expected, observed) && entries == EntriesOf(script)
    ensures entries == [] <==> expected == observed
    ensures |entries| >= Max(|expected|, |observed|) - |LcsOf(expected, observed)|
  {
    hide Progress, Justified, EntriesOf, LcsOf, Spells;
    entries, script := [], [];
    var ei: nat, oi: nat := 0, 0;
    ghost var skipping := false;
    assert expected[0..] == expected && observed[0..] == observed;
    ProgressStarts(expected, observed);
    while ei < |expected| && oi < |observed|
      invariant ei <= |expected| && oi <= |observed|
      invariant skipping ==> ei < |expected| && oi < |observed| && expected[ei] == observed[oi]
      invariant Progress(script, entries, expected, observed, skipping, expected[ei..], observed[oi..])
      decreases |expected| - ei + |observed| - oi
    {
      Slices(expected, ei);
      Slices(observed, oi);
      if expected[ei] == observed[oi] {
        var step := Match(expected[ei]);
        Step(script, entries, expected, observed, skipping, expected[ei..], observed[oi..], step);
        OneStep(step);
        assert entries + [] == entries;
        script, skipping := script + [step], false;
        ei, oi := ei + 1, oi + 1;
        continue;
      }
      var later := Position(observed[oi..], expected[ei]);
      if later.Some? {
        entries, script := SkipObserved(expected, observed, ei, oi, later.value, entries, script);
        oi := oi + later.value;
        continue;
      }
      var wanted := Position(expected[ei..], observed[oi]);
      if wanted.Some? {
        entries, script := SkipExpected(expected, observed, ei, oi, wanted.value, entries, script);
        ei := ei + wanted.value;
        skipping := true;
        continue;
      }
      var step := Order(expected[ei], observed[oi]);
      Step(script, entries, expected, observed, skipping, expected[ei..], observed[oi..], step);
      OneStep(step);
      script := script + [step];
      entries := entries + [Entry(OrderMismatch, Some(expected[ei]), Some(observed[oi]))];
      ei, oi := ei + 1, oi + 1;
    }
    while ei < |expected|
      invariant ei <= |expected| && oi <= |observed| && (ei < |expected| ==> oi == |observed|)
      invariant Progress(script, entries, expected, observed, skipping, expected[ei..], observed[oi..])
    {
      Slices(expected, ei);
      assert observed[oi..] == [];
      var step := Missing(expected[ei]);
      Step(script, entries, expected, observed, skipping, expected[ei..], observed[oi..], step);
      OneStep(step);
      script, skipping := script + [step], true;
      entries := entries + [Entry(MissingFrame, Some(expected[ei]), None)];
      ei := ei + 1;
    }
    while oi < |observed|
      invariant ei == |expected| && oi <= |observed|
      invariant Progress(script, entries, expected, observed, skipping, expected[ei..], observed[oi..])
    {
      Slices(observed, oi);
      assert expected[ei..] == [];
      var step := Unexpected(observed[oi]);
      Step(script, entries, expected, observed, skipping, expected[ei..], observed[oi..], step);
      OneStep(step);
      script, skipping := script + [step], false;
      entries := entries + [Entry(UnexpectedFrame, None, Some(observed[oi]))];
      oi := oi + 1;
    }
    assert expected[ei..] == [] && observed[oi..] == [];
    ProgressEnds(script, entries, expected, observed, skipping);
    EmptyIffEqual(script, false, expected, observed);
    JustifiedSpells(script, false, expected, observed);
    EntriesBound(script, expected, observed);
  }

  /** Reports the observed frames before the next expected id as additional. */
  method SkipObserved(expected: Ids, observed: Ids, ei: nat, oi: nat, count: nat, before: seq<Entry>,
      ghost done: seq<Edit>)
    returns (entries: seq<Entry>, ghost script: seq<Edit>)
    requires ei < |expected| && oi + count < |observed|
    requires observed[oi + count] == expected[ei] && expected[ei] !in observed[oi..][..count]
    requires Progress(done, before, expected, observed, false, expected[ei..], observed[oi..])
    ensures Progress(script, entries, expected, observed, false, expected[ei..], observed[oi + count..])
  {
    hide Progress, EntriesOf, Spells;
    entries, script := before, done;
    for i := oi to oi + count
      invariant Progress(script, entries, expected, observed, false, expected[ei..], observed[i..])
    {
      Slices(observed, i);
      Slices(expected, ei);
      assert observed[oi..][..count][i - oi] == observed[i] && observed[i..][oi + count - i] == expected[ei];
      var step := Unexpected(observed[i]);
      Step(script, entries, expected, observed, false, expected[ei..], observed[i..], step);
      OneStep(step);
      script := script + [step];
      entries := entries + [Entry(UnexpectedFrame, None, Some(observed[i]))];
    }
  }

  /** Reports the expected frames before the next observed id as missing. */
  method SkipExpected(expected: Ids, observed: Ids, ei: nat, oi: nat, count: nat, before: seq<Entry>,
      ghost done: seq<Edit>)
    returns (entries: seq<Entry>, ghost script: seq<Edit>)
    requires ei + count < |expected| && oi < |observed| && count > 0 && expected[ei] !in observed[oi..]
    requires expected[ei + count] == observed[oi] && observed[oi] !in expected[ei..][..count]
    requires Progress(done, before, expected, observed, false, expected[ei..], observed[oi..])
    ensures Progress(script, entries, expected, observed, true, expected[ei + count..], observed[oi..])
  {
    hide Progress, EntriesOf, Spells;
    entries, script := before, done;
    for i := ei to ei + count
      invariant Progress(script, entries, expected, observed, i > ei, expected[i..], observed[oi..])
    {
      Slices(expected, i);
      Slices(observed, oi);
      assert expected[ei..][..count][i - ei] == expected[i] && expected[i..][ei + count - i] == observed[oi];
      var step := Missing(expected[i]);
      assert expected[i] != observed[oi] && expected[i..][ei + count - i] in expected[i..];
      Step(script, entries, expected, observed, i > ei, expected[i..], observed[oi..], step);
      OneStep(step);
      script := script + [step];
      entries := entries + [Entry(MissingFrame, Some(expected[i]), None)];
    }
  }
}
