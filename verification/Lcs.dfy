/** Longest common subsequences of message ids: the table, the backtrack, and why the result is
    one. Also where two sequences diverge. */
module Lcs {
  import opened Bytes

  type Ids = seq<u16>

  /** s is t with some elements left out. */
  ghost predicate Subseq(s: Ids, t: Ids) {
    s == [] || (t != [] && (Subseq(s, t[1..]) || (s[0] == t[0] && Subseq(s[1..], t[1..]))))
  }

  function Max(x: nat, y: nat): nat { if x >= y then x else y }

  /** The table entry for the first i ids of a and the first j of b. */
  ghost function Entry(a: Ids, b: Ids, i: nat, j: nat): nat
    requires i <= |a| && j <= |b|
  {
    if i == 0 || j == 0 then 0
    else if a[i - 1] == b[j - 1] then Entry(a, b, i - 1, j - 1) + 1
    else Max(Entry(a, b, i - 1, j), Entry(a, b, i, j - 1))
  }

  /** What the backtrack collects from that entry. */
  ghost function Walk(a: Ids, b: Ids, i: nat, j: nat): Ids
    requires i <= |a| && j <= |b|
    decreases i + j
  {
    if i == 0 || j == 0 then []
    else if a[i - 1] == b[j - 1] then Walk(a, b, i - 1, j - 1) + [a[i - 1]]
    else if Entry(a, b, i - 1, j) >= Entry(a, b, i, j - 1) then Walk(a, b, i - 1, j)
    else Walk(a, b, i, j - 1)
  }

  ghost function LcsOf(a: Ids, b: Ids): Ids { Walk(a, b, |a|, |b|) }

  ghost predicate RowsFilled(dp: array2<nat>, a: Ids, b: Ids, rows: nat)
    requires dp.Length0 == |a| + 1 && dp.Length1 == |b| + 1
    reads dp
  {
    forall i, j | 0 <= i < rows && i <= |a| && 0 <= j <= |b| :: dp[i, j] == Entry(a, b, i, j)
  }

  lemma EntryRule(a: Ids, b: Ids, i: nat, j: nat)
    requires i <= |a| && j <= |b|
    ensures i == 0 || j == 0 ==> Entry(a, b, i, j) == 0
    ensures i > 0 && j > 0 ==>
              Entry(a, b, i, j) == if a[i - 1] == b[j - 1] then Entry(a, b, i - 1, j - 1) + 1
                                   else Max(Entry(a, b, i - 1, j), Entry(a, b, i, j - 1))
  {
  }

  method FillTable(a: Ids, b: Ids) returns (dp: array2<nat>)
    ensures fresh(dp) && dp.Length0 == |a| + 1 && dp.Length1 == |b| + 1 && RowsFilled(dp, a, b, |a| + 1)
  {
    hide Entry;
    var n, m := |a|, |b|;
    dp := new nat[n + 1, m + 1]((_, _) => 0);
    forall j | 0 <= j <= m ensures Entry(a, b, 0, j) == 0 {
      EntryRule(a, b, 0, j);
    }
    for i := 1 to n + 1
      invariant RowsFilled(dp, a, b, i)
      invariant forall k | i <= k <= n :: dp[k, 0] == 0
    {
      EntryRule(a, b, i, 0);
      for j := 1 to m + 1
        invariant RowsFilled(dp, a, b, i)
        invariant forall l | 0 <= l < j :: dp[i, l] == Entry(a, b, i, l)
        invariant forall k | i < k <= n :: dp[k, 0] == 0
      {
        EntryRule(a, b, i, j);
        assert dp[i - 1, j - 1] == Entry(a, b, i - 1, j - 1) && dp[i - 1, j] == Entry(a, b, i - 1, j);
        if a[i - 1] == b[j - 1] {
          dp[i, j] := dp[i - 1, j - 1] + 1;
        } else {
          dp[i, j] := Max(dp[i - 1, j], dp[i, j - 1]);
        }
      }
    }
  }

  /** A longest common subsequence: a subsequence of both, and no common subsequence is longer. */
  method LcsIds(a: Ids, b: Ids) returns (out: Ids)
    ensures out == LcsOf(a, b)
    ensures Subseq(out, a) && Subseq(out, b)
    ensures forall c: Ids :: Subseq(c, a) && Subseq(c, b) ==> |c| <= |out|
  {
    var dp := FillTable(a, b);
    out := [];
    var i, j := |a|, |b|;
    while i > 0 && j > 0
      invariant 0 <= i <= |a| && 0 <= j <= |b| && RowsFilled(dp, a, b, |a| + 1)
      invariant LcsOf(a, b) == Walk(a, b, i, j) + Reverse(out)
      decreases i + j
    {
      assert dp[i - 1, j] == Entry(a, b, i - 1, j) && dp[i, j - 1] == Entry(a, b, i, j - 1);
      if a[i - 1] == b[j - 1] {
        ReverseAppend(out, a[i - 1]);
        assert Walk(a, b, i - 1, j - 1) + [a[i - 1]] + Reverse(out) ==
            Walk(a, b, i - 1, j - 1) + ([a[i - 1]] + Reverse(out));
        out := out + [a[i - 1]];
        i := i - 1;
        j := j - 1;
      } else if dp[i - 1, j] >= dp[i, j - 1] {
        i := i - 1;
      } else {
        j := j - 1;
      }
    }
    out := Reverse(out);
    LcsIsOptimal(a, b);
  }

  lemma {:induction false} SubseqGrows(s: Ids, t: Ids, x: u16)
    requires Subseq(s, t)
    ensures Subseq(s, t + [x]) && Subseq(s + [x], t + [x])
  {
    if s == [] {
      LastOnly(t, x);
      assert s + [x] == [x];
    } else {
      assert (t + [x])[1..] == t[1..] + [x];
      if Subseq(s, t[1..]) {
        SubseqGrows(s, t[1..], x);
      } else {
        SubseqGrows(s[1..], t[1..], x);
        assert (s + [x])[1..] == s[1..] + [x];
      }
    }
  }

  lemma {:induction false} LastOnly(t: Ids, x: u16)
    ensures Subseq([x], t + [x])
  {
    if t == [] {
      assert t + [x] == [x] && [x][1..] == [];
    } else {
      assert (t + [x])[1..] == t[1..] + [x];
      LastOnly(t[1..], x);
    }
  }

  /** A subsequence of t + [x] either does without the x or ends in it. */
  lemma {:induction false} SubseqOfSnoc(s: Ids, t: Ids, x: u16)
    requires Subseq(s, t + [x])
    ensures Subseq(s, t) || (s != [] && s[|s| - 1] == x && Subseq(s[..|s| - 1], t))
  {
    if s == [] {
    } else {
      if t == [] {
        assert t + [x] == [x] && [x][1..] == [];
      } else {
        assert (t + [x])[1..] == t[1..] + [x];
        if Subseq(s, t[1..] + [x]) {
          SubseqOfSnoc(s, t[1..], x);
          if !Subseq(s, t[1..]) {
            SubseqPrepend(s[..|s| - 1], t);
          }
        } else {
          SubseqOfSnoc(s[1..], t[1..], x);
          if !Subseq(s[1..], t[1..]) {
            assert s[..|s| - 1][1..] == s[1..][..|s| - 2];
          }
        }
      }
    }
  }

  lemma SubseqPrepend(s: Ids, t: Ids)
    requires t != [] && Subseq(s, t[1..])
    ensures Subseq(s, t)
  {
  }

  lemma {:induction false} SubseqTail(s: Ids, t: Ids)
    requires s != [] && Subseq(s, t)
    ensures Subseq(s[1..], t)
  {
    if Subseq(s, t[1..]) {
      SubseqTail(s, t[1..]);
    }
  }

  lemma {:induction false} SubseqInit(s: Ids, t: Ids)
    requires s != [] && Subseq(s, t)
    ensures Subseq(s[..|s| - 1], t)
  {
    if Subseq(s, t[1..]) {
      SubseqInit(s, t[1..]);
    } else if |s| > 1 {
      SubseqInit(s[1..], t[1..]);
      assert s[..|s| - 1][1..] == s[1..][..|s| - 2];
    }
  }

  lemma {:induction false} WalkIsCommon(a: Ids, b: Ids, i: nat, j: nat)
    requires i <= |a| && j <= |b|
    ensures |Walk(a, b, i, j)| == Entry(a, b, i, j)
    ensures Subseq(Walk(a, b, i, j), a[..i]) && Subseq(Walk(a, b, i, j), b[..j])
    decreases i + j
  {
    if i == 0 || j == 0 {
    } else {
      assert a[..i] == a[..i - 1] + [a[i - 1]] && b[..j] == b[..j - 1] + [b[j - 1]];
      if a[i - 1] == b[j - 1] {
        WalkIsCommon(a, b, i - 1, j - 1);
        SubseqGrows(Walk(a, b, i - 1, j - 1), a[..i - 1], a[i - 1]);
        SubseqGrows(Walk(a, b, i - 1, j - 1), b[..j - 1], b[j - 1]);
      } else if Entry(a, b, i - 1, j) >= Entry(a, b, i, j - 1) {
        WalkIsCommon(a, b, i - 1, j);
        SubseqGrows(Walk(a, b, i - 1, j), a[..i - 1], a[i - 1]);
      } else {
        WalkIsCommon(a, b, i, j - 1);
        SubseqGrows(Walk(a, b, i, j - 1), b[..j - 1], b[j - 1]);
      }
    }
  }

  /** No common subsequence of two prefixes is longer than their table entry. */
  lemma {:induction false} EntryBounds(a: Ids, b: Ids, i: nat, j: nat, c: Ids)
    requires i <= |a| && j <= |b| && Subseq(c, a[..i]) && Subseq(c, b[..j])
    ensures |c| <= Entry(a, b, i, j)
    decreases i + j
  {
    if i == 0 || j == 0 || c == [] {
    } else {
      assert a[..i] == a[..i - 1] + [a[i - 1]] && b[..j] == b[..j - 1] + [b[j - 1]];
      SubseqOfSnoc(c, a[..i - 1], a[i - 1]);
      SubseqOfSnoc(c, b[..j - 1], b[j - 1]);
      if a[i - 1] == b[j - 1] {
        if Subseq(c, a[..i - 1]) {
          SubseqInit(c, a[..i - 1]);
        }
        if Subseq(c, b[..j - 1]) {
          SubseqInit(c, b[..j - 1]);
        }
        EntryBounds(a, b, i - 1, j - 1, c[..|c| - 1]);
      } else if Subseq(c, a[..i - 1]) {
        EntryBounds(a, b, i - 1, j, c);
      } else {
        EntryBounds(a, b, i, j - 1, c);
      }
    }
  }

  lemma LcsIsOptimal(a: Ids, b: Ids)
    ensures Subseq(LcsOf(a, b), a) && Subseq(LcsOf(a, b), b)
    ensures forall c: Ids :: Subseq(c, a) && Subseq(c, b) ==> |c| <= |LcsOf(a, b)|
  {
    WalkIsCommon(a, b, |a|, |b|);
    assert a[..|a|] == a && b[..|b|] == b;
    forall c: Ids | Subseq(c, a) && Subseq(c, b) ensures |c| <= |LcsOf(a, b)| {
      EntryBounds(a, b, |a|, |b|, c);
    }
  }

  /** Longer prefixes have no smaller entries. */
  lemma EntryGrows(a: Ids, b: Ids, i: nat, j: nat, i': nat, j': nat)
    requires i <= i' <= |a| && j <= j' <= |b|
    ensures Entry(a, b, i, j) <= Entry(a, b, i', j')
  {
    hide Entry, Walk, Subseq;
    WalkIsCommon(a, b, i, j);
    WithinLonger(Walk(a, b, i, j), a, i, i');
    WithinLonger(Walk(a, b, i, j), b, j, j');
    EntryBounds(a, b, i', j', Walk(a, b, i, j));
  }

  lemma {:induction false} WithinLonger(s: Ids, t: Ids, i: nat, j: nat)
    requires i <= j <= |t| && Subseq(s, t[..i])
    ensures Subseq(s, t[..j])
    decreases j
  {
    if i == j {
    } else {
      WithinLonger(s, t, i, j - 1);
      SubseqGrows(s, t[..j - 1], t[j - 1]);
      assert t[..j - 1] + [t[j - 1]] == t[..j];
    }
  }

  lemma WalkRule(a: Ids, b: Ids, i: nat, j: nat)
    requires i <= |a| && j <= |b|
    ensures i == 0 || j == 0 ==> Walk(a, b, i, j) == []
    ensures i > 0 && j > 0 ==>
              Walk(a, b, i, j) == if a[i - 1] == b[j - 1] then Walk(a, b, i - 1, j - 1) + [a[i - 1]]
                                  else if Entry(a, b, i - 1, j) >= Entry(a, b, i, j - 1) then Walk(a, b, i - 1, j)
                                  else Walk(a, b, i, j - 1)
  {
    hide Entry;
  }

  /** Ids of a that add nothing do not change the walk. */
  lemma {:induction false} WalkShortens(a: Ids, b: Ids, i: nat, i': nat, j: nat)
    requires i <= i' <= |a| && j <= |b| && Entry(a, b, i, j) == Entry(a, b, i', j)
    ensures Walk(a, b, i, j) == Walk(a, b, i', j)
    decreases i + i' + j
  {
    hide Entry, Walk;
    EntryRule(a, b, i, j);
    EntryRule(a, b, i', j);
    WalkRule(a, b, i, j);
    WalkRule(a, b, i', j);
    if Entry(a, b, i, j) == 0 {
      WalkIsCommon(a, b, i, j);
      WalkIsCommon(a, b, i', j);
    } else if i < i' {
      if a[i' - 1] != b[j - 1] {
        EntryGrows(a, b, i, j, i' - 1, j);
        WalkShortens(a, b, i, i' - 1, j);
      } else if a[i - 1] == b[j - 1] {
        WalkShortens(a, b, i - 1, i' - 1, j - 1);
      } else {
        EntryGrows(a, b, i, j - 1, i' - 1, j - 1);
        WalkShortens(a, b, i - 1, i', j);
      }
    }
  }

  /** Where the last id of a counts, the walk goes back in b to its last occurrence. */
  lemma {:induction false} WalkFindsLast(a: Ids, b: Ids, i: nat, j: nat, k: nat)
    requires 0 < i <= |a| && 0 < k <= j <= |b| && Entry(a, b, i - 1, j) < Entry(a, b, i, j)
    requires b[k - 1] == a[i - 1] && a[i - 1] !in b[k..j]
    ensures Walk(a, b, i, j) == Walk(a, b, i - 1, k - 1) + [a[i - 1]]
    decreases j
  {
    hide Entry, Walk;
    EntryRule(a, b, i, j);
    WalkRule(a, b, i, j);
    if k < j {
      assert b[k..j][j - 1 - k] == b[j - 1] && forall x <- b[k..j - 1] :: x in b[k..j];
      EntryGrows(a, b, i - 1, j - 1, i - 1, j);
      WalkFindsLast(a, b, i, j - 1, k);
    }
  }

  /** Entries and walks look at the prefixes alone. */
  lemma {:induction false} PrefixesOnly(a: Ids, b: Ids, a': Ids, b': Ids, i: nat, j: nat)
    requires i <= |a| && j <= |b| && i <= |a'| && j <= |b'| && a[..i] == a'[..i] && b[..j] == b'[..j]
    ensures Entry(a, b, i, j) == Entry(a', b', i, j) && Walk(a, b, i, j) == Walk(a', b', i, j)
    decreases i + j
  {
    if i > 0 && j > 0 {
      assert a[..i][i - 1] == a'[..i][i - 1] && b[..j][j - 1] == b'[..j][j - 1];
      assert a[..i][..i - 1] == a[..i - 1] && a'[..i][..i - 1] == a'[..i - 1];
      assert b[..j][..j - 1] == b[..j - 1] && b'[..j][..j - 1] == b'[..j - 1];
      PrefixesOnly(a, b, a', b', i - 1, j - 1);
      PrefixesOnly(a, b, a', b', i - 1, j);
      PrefixesOnly(a, b, a', b', i, j - 1);
    }
  }

  ghost predicate IsCommon(c: Ids, a: Ids, b: Ids) { Subseq(c, a) && Subseq(c, b) }

  /** Which of several longest common subsequences is returned. Take the shortest prefix of a that has one
      as long as the whole of a has; its last id is the last of the result, and stands for the last
      occurrence of that id in b; and the rest of the result is what is returned for what comes
      before the two. So there is no choice left. */
  lemma LcsChoice(a: Ids, b: Ids, i: nat, j: nat)
    requires 0 < i <= |a| && 0 < j <= |b| && b[j - 1] == a[i - 1] && a[i - 1] !in b[j..]
    requires exists c :: IsCommon(c, a[..i], b) && |c| == |LcsOf(a, b)|
    requires forall c :: IsCommon(c, a[..i - 1], b) ==> |c| < |LcsOf(a, b)|
    ensures LcsOf(a, b) == LcsOf(a[..i - 1], b[..j - 1]) + [a[i - 1]]
  {
    hide Entry, Walk, Subseq;
    var n, m := |a|, |b|;
    assert a[..n] == a && b[..m] == b && b[j..m] == b[j..];
    WalkIsCommon(a, b, n, m);
    WalkIsCommon(a, b, i - 1, m);
    assert IsCommon(Walk(a, b, i - 1, m), a[..i - 1], b);
    var c :| IsCommon(c, a[..i], b) && |c| == |LcsOf(a, b)|;
    EntryBounds(a, b, i, m, c);
    EntryGrows(a, b, i, m, n, m);
    WalkShortens(a, b, i, n, m);
    WalkFindsLast(a, b, i, m, j);
    var p, q := a[..i - 1], b[..j - 1];
    assert p[..i - 1] == a[..i - 1] && q[..j - 1] == b[..j - 1];
    PrefixesOnly(a, b, p, q, i - 1, j - 1);
  }

  lemma {:induction false} AbsentAddsNothing(a: Ids, b: Ids, i: nat, j: nat)
    requires 0 < i <= |a| && j <= |b| && a[i - 1] !in b[..j]
    ensures Entry(a, b, i, j) == Entry(a, b, i - 1, j)
    decreases j
  {
    hide Entry;
    EntryRule(a, b, i, j);
    EntryRule(a, b, i - 1, j);
    if j > 0 {
      assert b[..j][j - 1] == b[j - 1] && forall x <- b[..j - 1] :: x in b[..j];
      AbsentAddsNothing(a, b, i, j - 1);
      EntryGrows(a, b, i - 1, j - 1, i - 1, j);
    }
  }

  /** There is always such a place, as long as anything is common. */
  lemma ChoiceExists(a: Ids, b: Ids) returns (i: nat, j: nat)
    requires LcsOf(a, b) != []
    ensures 0 < i <= |a| && 0 < j <= |b| && b[j - 1] == a[i - 1] && a[i - 1] !in b[j..]
    ensures exists c :: IsCommon(c, a[..i], b) && |c| == |LcsOf(a, b)|
    ensures forall c :: IsCommon(c, a[..i - 1], b) ==> |c| < |LcsOf(a, b)|
  {
    hide Entry, Walk, Subseq;
    var n, m := |a|, |b|;
    assert a[..n] == a && b[..m] == b;
    WalkIsCommon(a, b, n, m);
    EntryRule(a, b, 0, m);
    i := n;
    while Entry(a, b, i - 1, m) == Entry(a, b, n, m)
      invariant 0 < i <= n && Entry(a, b, i, m) == Entry(a, b, n, m)
      decreases i
    {
      i := i - 1;
    }
    EntryGrows(a, b, i - 1, m, i, m);
    WalkIsCommon(a, b, i, m);
    assert IsCommon(Walk(a, b, i, m), a[..i], b);
    forall c | IsCommon(c, a[..i - 1], b) ensures |c| < |LcsOf(a, b)| {
      EntryBounds(a, b, i - 1, m, c);
    }
    if a[i - 1] !in b {
      AbsentAddsNothing(a, b, i, m);
    }
    j := m;
    while b[j - 1] != a[i - 1]
      invariant 0 < j <= m && a[i - 1] !in b[j..] && a[i - 1] in b[..j]
      decreases j
    {
      assert b[j - 1..] == [b[j - 1]] + b[j..] && b[..j] == b[..j - 1] + [b[j - 1]];
      j := j - 1;
    }
  }

  datatype SequenceDivergence = SequenceDivergence(
    prefix: nat, suffix: nat, index: Option<nat>, messageA: Option<u16>, messageB: Option<u16>)

  /** Where two sequences part: the longest common prefix, then the longest common suffix that does
      not overlap it, and the ids at the first difference. */
  method ComputeSequenceDivergence(a: Ids, b: Ids) returns (d: SequenceDivergence)
    ensures d.prefix <= |a| && d.prefix <= |b| && a[..d.prefix] == b[..d.prefix]
    ensures d.prefix < |a| && d.prefix < |b| ==> a[d.prefix] != b[d.prefix]
    ensures d.prefix + d.suffix <= |a| && d.prefix + d.suffix <= |b|
    ensures a[|a| - d.suffix..] == b[|b| - d.suffix..]
    ensures d.prefix + d.suffix < |a| && d.prefix + d.suffix < |b| ==>
              a[|a| - 1 - d.suffix] != b[|b| - 1 - d.suffix]
    ensures d.index == if a == b then None else Some(d.prefix)
    ensures d.messageA == if d.prefix < |a| then Some(a[d.prefix]) else None
    ensures d.messageB == if d.prefix < |b| then Some(b[d.prefix]) else None
    ensures d.prefix + d.suffix <= |LcsOf(a, b)|
  {
    var prefix := 0;
    while prefix < |a| && prefix < |b| && a[prefix] == b[prefix]
      invariant prefix <= |a| && prefix <= |b| && a[..prefix] == b[..prefix]
    {
      assert a[..prefix + 1] == a[..prefix] + [a[prefix]] && b[..prefix + 1] == b[..prefix] + [b[prefix]];
      prefix := prefix + 1;
    }
    var suffix := 0;
    while suffix < |a| - prefix && suffix < |b| - prefix && a[|a| - 1 - suffix] == b[|b| - 1 - suffix]
      invariant prefix + suffix <= |a| && prefix + suffix <= |b| && a[|a| - suffix..] == b[|b| - suffix..]
    {
      assert a[|a| - (suffix + 1)..] == [a[|a| - 1 - suffix]] + a[|a| - suffix..];
      assert b[|b| - (suffix + 1)..] == [b[|b| - 1 - suffix]] + b[|b| - suffix..];
      suffix := suffix + 1;
    }
    PrefixAndSuffixAreCommon(a, b, prefix, suffix);
    if prefix < |a| || prefix < |b| {
      return SequenceDivergence(prefix, suffix, Some(prefix),
                                if prefix < |a| then Some(a[prefix]) else None,
                                if prefix < |b| then Some(b[prefix]) else None);
    }
    assert a == a[..prefix] && b == b[..prefix];
    return SequenceDivergence(prefix, suffix, None, None, None);
  }

  lemma PrefixAndSuffixAreCommon(a: Ids, b: Ids, prefix: nat, suffix: nat)
    requires prefix + suffix <= |a| && prefix + suffix <= |b|
    requires a[..prefix] == b[..prefix] && a[|a| - suffix..] == b[|b| - suffix..]
    ensures prefix + suffix <= |LcsOf(a, b)|
  {
    var c := a[..prefix] + a[|a| - suffix..];
    CutOut(a, prefix, |a| - suffix);
    CutOut(b, prefix, |b| - suffix);
    LcsIsOptimal(a, b);
  }

  lemma {:induction false} CutOut(t: Ids, from: nat, to: nat)
    requires from <= to <= |t|
    ensures Subseq(t[..from] + t[to..], t)
    decreases |t|
  {
    var s := t[..from] + t[to..];
    if s == [] {
    } else {
      if from > 0 {
        assert s[1..] == t[1..][..from - 1] + t[1..][to - 1..];
        CutOut(t[1..], from - 1, to - 1);
      } else if to > 0 {
        assert s == t[1..][..0] + t[1..][to - 1..];
        CutOut(t[1..], 0, to - 1);
      } else {
        assert s[1..] == t[1..][..0] + t[1..][0..];
        CutOut(t[1..], 0, 0);
      }
    }
  }
}
