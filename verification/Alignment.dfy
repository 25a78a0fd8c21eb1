/** Two sequences laid side by side: what they share, and what only one of them has. */
module Alignment {
  import opened Bytes
  import opened Lcs

  datatype Kind = Common | AOnly | BOnly

  datatype Segment = Segment(kind: Kind, messageIds: Ids)

  /** Adds ids at the end, to the last segment if that is of the same kind. */
  function Pushed(segments: seq<Segment>, kind: Kind, ids: Ids): seq<Segment> {
    if ids == [] then segments
    else if segments != [] && segments[|segments| - 1].kind == kind then
      segments[|segments| - 1 := Segment(kind, segments[|segments| - 1].messageIds + ids)]
    else segments + [Segment(kind, ids)]
  }

  /** The ids of the segments of some kinds, in order. */
  ghost function Spell(segments: seq<Segment>, kinds: set<Kind>): Ids {
    if segments == [] then []
    else
      var last := segments[|segments| - 1];
      Spell(segments[..|segments| - 1], kinds) + if last.kind in kinds then last.messageIds else []
  }

  /** No segment is empty, no two neighbours are of one kind, and between two common segments what
      only a has comes before what only b has. */
  ghost predicate Tidy(segments: seq<Segment>) {
    && (forall k | 0 <= k < |segments| :: segments[k].messageIds != [])
    && (forall k | 0 < k < |segments| :: segments[k - 1].kind != segments[k].kind)
    && (forall k | 0 < k < |segments| :: !(segments[k - 1].kind == BOnly && segments[k].kind == AOnly))
  }

  /** The trailing segments since the last common one do without an id. */
  ghost predicate GapAvoids(segments: seq<Segment>, id: u16) {
    var n := |segments|;
    && (n >= 1 && segments[n - 1].kind != Common ==> id !in segments[n - 1].messageIds)
    && (n >= 2 && segments[n - 1].kind == BOnly && segments[n - 2].kind == AOnly ==> id !in segments[n - 2].messageIds)
  }

  /** Common ids are taken as early as they come: what stands between two common segments on either
      side does without the id that follows it. */
  ghost predicate Greedy(segments: seq<Segment>) {
    forall k | 0 <= k < |segments| ::
      segments[k].kind == Common ==> segments[k].messageIds != [] && GapAvoids(segments[..k], segments[k].messageIds[0])
  }

  lemma GreedyPushed(segments: seq<Segment>, kind: Kind, ids: Ids)
    requires Greedy(segments)
    requires kind == Common && ids != [] ==> GapAvoids(segments, ids[0])
    ensures Greedy(Pushed(segments, kind, ids))
  {
    hide GapAvoids;
    var after := Pushed(segments, kind, ids);
    forall k | 0 <= k < |after| && after[k].kind == Common
      ensures after[k].messageIds != [] && GapAvoids(after[..k], after[k].messageIds[0])
    {
      if k < |segments| {
        assert after[..k] == segments[..k];
      } else {
        assert after[..k] == segments;
      }
    }
  }

  /** Filling a gap first with ids of a, then with ids of b, that avoid an id. */
  lemma GapFilled(segments: seq<Segment>, aOnly: Ids, bOnly: Ids, id: u16)
    requires EndsGap(segments) && id !in aOnly && id !in bOnly
    ensures GapAvoids(Pushed(Pushed(segments, AOnly, aOnly), BOnly, bOnly), id)
  {
  }

  lemma SpellPushed(segments: seq<Segment>, kind: Kind, ids: Ids, kinds: set<Kind>)
    ensures Spell(Pushed(segments, kind, ids), kinds) == Spell(segments, kinds) + if kind in kinds then ids else []
  {
    if ids != [] {
      var n := |segments|;
      var after := Pushed(segments, kind, ids);
      if n > 0 && segments[n - 1].kind == kind {
        assert after[..n - 1] == segments[..n - 1];
      } else {
        assert after[..n] == segments;
      }
    }
  }

  /** Pushing in the order the walk does keeps the segments tidy. */
  lemma TidyPushed(segments: seq<Segment>, kind: Kind, ids: Ids)
    requires Tidy(segments)
    requires kind == AOnly ==> segments == [] || segments[|segments| - 1].kind != BOnly
    ensures Tidy(Pushed(segments, kind, ids))
  {
  }

  lemma SpellsPushed(segments: seq<Segment>, kind: Kind, ids: Ids)
    ensures var after := Pushed(segments, kind, ids);
            && Spell(after, {Common, AOnly}) == Spell(segments, {Common, AOnly}) + (if kind == BOnly then [] else ids)
            && Spell(after, {Common, BOnly}) == Spell(segments, {Common, BOnly}) + (if kind == AOnly then [] else ids)
            && Spell(after, {Common}) == Spell(segments, {Common}) + (if kind == Common then ids else [])
  {
    SpellPushed(segments, kind, ids, {Common, AOnly});
    SpellPushed(segments, kind, ids, {Common, BOnly});
    SpellPushed(segments, kind, ids, {Common});
  }

  /** A subsequence that does not start with the first id does without it; one that does goes on
      after it. */
  lemma StepOver(s: Ids, t: Ids)
    requires s != [] && Subseq(s, t)
    ensures t != []
    ensures t[0] != s[0] ==> Subseq(s, t[1..])
    ensures t[0] == s[0] ==> Subseq(s[1..], t[1..])
  {
    if Subseq(s, t[1..]) {
      SubseqTail(s, t[1..]);
    }
  }

  /** The end of the last segment that is not of the kinds about to be pushed. */
  ghost predicate EndsGap(segments: seq<Segment>) {
    segments == [] || segments[|segments| - 1].kind == Common
  }

  /** The ids of `whole` from `from` up to the next `target`. */
  method TakeUntil(whole: Ids, from: nat, target: u16, ghost rest: Ids) returns (taken: Ids, to: nat)
    requires from <= |whole| && rest != [] && rest[0] == target && Subseq(rest, whole[from..])
    ensures from <= to < |whole| && whole[to] == target && taken == whole[from..to]
    ensures target !in taken
    ensures Subseq(rest[1..], whole[to + 1..])
  {
    hide Subseq;
    taken, to := [], from;
    while to < |whole| && whole[to] != target
      invariant from <= to <= |whole| && taken == whole[from..to] && target !in taken
      invariant Subseq(rest, whole[to..])
    {
      StepOver(rest, whole[to..]);
      assert whole[to..][1..] == whole[to + 1..];
      assert whole[from..to] + [whole[to]] == whole[from..to + 1];
      taken := taken + [whole[to]];
      to := to + 1;
    }
    StepOver(rest, whole[to..]);
    assert whole[to..][1..] == whole[to + 1..];
  }

  /** The segments spell x for a, y for b and z for both, tidily. */
  ghost predicate Laid(segments: seq<Segment>, x: Ids, y: Ids, z: Ids) {
    && Spell(segments, {Common, AOnly}) == x && Spell(segments, {Common, BOnly}) == y
    && Spell(segments, {Common}) == z && Tidy(segments) && Greedy(segments)
  }

  lemma LaidOn(segments: seq<Segment>, x: Ids, y: Ids, z: Ids, kind: Kind, ids: Ids)
    requires Laid(segments, x, y, z) && (kind == AOnly ==> EndsGap(segments))
    requires kind == Common && ids != [] ==> GapAvoids(segments, ids[0])
    ensures Laid(Pushed(segments, kind, ids),
                 if kind == BOnly then x else x + ids,
                 if kind == AOnly then y else y + ids,
                 if kind == Common then z + ids else z)
    ensures kind == Common && ids != [] ==> EndsGap(Pushed(segments, kind, ids))
  {
    hide Spell;
    SpellsPushed(segments, kind, ids);
    hide Tidy, Greedy;
    TidyPushed(segments, kind, ids);
    GreedyPushed(segments, kind, ids);
  }

  lemma Extend(t: Ids, from: nat, to: nat)
    requires from <= to <= |t|
    ensures t[..from] + t[from..to] == t[..to]
    ensures from < |t| ==> t[..from] + [t[from]] == t[..from + 1] && t[from..][1..] == t[from + 1..]
    ensures t[..from] + t[from..] == t
  {
  }

  /** What is left of one side at the end. */
  method PushRest(segments: seq<Segment>, kind: Kind, whole: Ids, from: nat, ghost other: Ids, ghost lcs: Ids)
    returns (pushed: seq<Segment>)
    requires kind != Common && from <= |whole|
    requires kind == AOnly ==> Laid(segments, whole[..from], other, lcs) && EndsGap(segments)
    requires kind == BOnly ==> Laid(segments, other, whole[..from], lcs)
    ensures kind == AOnly ==> Laid(pushed, whole, other, lcs)
    ensures kind == BOnly ==> Laid(pushed, other, whole, lcs)
  {
    hide Laid, Pushed, EndsGap, GapAvoids;
    assert whole[..from] + whole[from..] == whole;
    if from < |whole| {
      if kind == AOnly {
        LaidOn(segments, whole[..from], other, lcs, kind, whole[from..]);
      } else {
        LaidOn(segments, other, whole[..from], lcs, kind, whole[from..]);
      }
      pushed := Pushed(segments, kind, whole[from..]);
    } else {
      assert whole[..from] == whole;
      pushed := segments;
    }
  }

  /** Leaving out what only b has spells a, leaving out what only a has spells b, and the common
      segments spell the longest common subsequence. The walk never gets stuck: the next common id
      is always found in what is left of both sequences. */
  method AlignSequences(a: Ids, b: Ids) returns (segments: seq<Segment>)
    ensures Spell(segments, {Common, AOnly}) == a
    ensures Spell(segments, {Common, BOnly}) == b
    ensures Spell(segments, {Common}) == LcsOf(a, b)
    ensures Tidy(segments) && Greedy(segments)
  {
    hide Laid, Spell, Pushed, Tidy, LcsOf, Subseq, EndsGap, Greedy, GapAvoids;
    var lcs := LcsIds(a, b);
    segments := [];
    NothingSpelt();
    var ia, ib, li := 0, 0, 0;
    assert a[0..] == a && b[0..] == b && lcs[0..] == lcs && a[..0] == [] && b[..0] == [] && lcs[..0] == [];
    while li < |lcs|
      invariant ia <= |a| && ib <= |b| && li <= |lcs|
      invariant Subseq(lcs[li..], a[ia..]) && Subseq(lcs[li..], b[ib..])
      invariant Laid(segments, a[..ia], b[..ib], lcs[..li]) && EndsGap(segments)
    {
      var target := lcs[li];
      ghost var before := segments;
      ghost var rest := lcs[li..];
      Extend(lcs, li, li);
      var aOnly, na := TakeUntil(a, ia, target, rest);
      Extend(a, ia, na);
      LaidOn(segments, a[..ia], b[..ib], lcs[..li], AOnly, aOnly);
      segments := Pushed(segments, AOnly, aOnly);
      ia := na;
      var bOnly, nb := TakeUntil(b, ib, target, rest);
      Extend(b, ib, nb);
      LaidOn(segments, a[..ia], b[..ib], lcs[..li], BOnly, bOnly);
      segments := Pushed(segments, BOnly, bOnly);
      ib := nb;
      GapFilled(before, aOnly, bOnly, target);
      if ia < |a| && ib < |b| && a[ia] == target && b[ib] == target {
        Extend(a, ia, ia);
        Extend(b, ib, ib);
        LaidOn(segments, a[..ia], b[..ib], lcs[..li], Common, [target]);
        segments := Pushed(segments, Common, [target]);
        ia, ib, li := ia + 1, ib + 1, li + 1;
      } else {
        assert false;
        break;
      }
    }
    assert lcs[..li] == lcs;
    segments := PushRest(segments, AOnly, a, ia, b[..ib], lcs);
    segments := PushRest(segments, BOnly, b, ib, a, lcs);
    LaidMeans(segments, a, b, lcs);
  }

  lemma LaidMeans(segments: seq<Segment>, x: Ids, y: Ids, z: Ids)
    requires Laid(segments, x, y, z)
    ensures Spell(segments, {Common, AOnly}) == x && Spell(segments, {Common, BOnly}) == y
    ensures Spell(segments, {Common}) == z && Tidy(segments) && Greedy(segments)
  {
  }

  lemma NothingSpelt()
    ensures Laid([], [], [], []) && EndsGap([])
  {
  }

}
