/** The index remap of the diff trigger: two cursors walk the runs of a diff,
    removed runs yield block positions in the first document and added runs
    block positions in the second. */
module IndexRemap {
  import opened SequenceDiff

  /** The first document's side of a unit script: one entry per block of the
      first document, `Kept` or `Removed`. */
  function SideA(ks: seq<Kind>): (r: seq<Kind>)
    ensures forall t :: 0 <= t < |r| ==> r[t] != Added
  {
    if ks == [] then []
    else SideA(ks[..|ks| - 1]) + (if ks[|ks| - 1] != Added then [ks[|ks| - 1]] else [])
  }

  /** The second document's side: one entry per block of the second
      document, `Kept` or `Added`. */
  function SideB(ks: seq<Kind>): (r: seq<Kind>)
    ensures forall t :: 0 <= t < |r| ==> r[t] != Removed
  {
    if ks == [] then []
    else SideB(ks[..|ks| - 1]) + (if ks[|ks| - 1] != Removed then [ks[|ks| - 1]] else [])
  }

  /** The positions of `s` that hold `k`, in increasing order. */
  function Positions(s: seq<Kind>, k: Kind): seq<nat> {
    if s == [] then []
    else Positions(s[..|s| - 1], k) + (if s[|s| - 1] == k then [|s| - 1] else [])
  }

  ghost predicate StrictlyIncreasing(xs: seq<nat>) {
    forall p, q :: 0 <= p < q < |xs| ==> xs[p] < xs[q]
  }

  /** `Positions` lists exactly the positions holding `k`, each once, in
      increasing order, and there are as many as there are `k` entries. */
  lemma {:induction false} PositionsMeaning(s: seq<Kind>, k: Kind)
    ensures StrictlyIncreasing(Positions(s, k))
    ensures forall x: nat :: x in Positions(s, k) <==> x < |s| && s[x] == k
    ensures |Positions(s, k)| == Count(s, k)
  {
    if s != [] {
      var init := s[..|s| - 1];
      PositionsMeaning(init, k);
      var ps := Positions(s, k);
      forall p, q | 0 <= p < q < |ps| ensures ps[p] < ps[q] {
        if q < |Positions(init, k)| {
        } else {
          assert ps[p] in Positions(init, k);
        }
      }
      forall x: nat ensures x in Positions(s, k) <==> x < |s| && s[x] == k {
        if x < |s| - 1 {
          assert s[x] == init[x];
        }
      }
    }
  }

  // ----- distributing the sides over a script -----

  lemma {:induction false} SidesAppend(xs: seq<Kind>, ys: seq<Kind>)
    ensures SideA(xs + ys) == SideA(xs) + SideA(ys)
    ensures SideB(xs + ys) == SideB(xs) + SideB(ys)
    decreases |ys|
  {
    var zs := xs + ys;
    if ys == [] {
      assert zs == xs;
    } else {
      assert zs[..|zs| - 1] == xs + ys[..|ys| - 1];
      assert zs[|zs| - 1] == ys[|ys| - 1];
      SidesAppend(xs, ys[..|ys| - 1]);
    }
  }

  lemma {:induction false} SidesRepeat(k: Kind, n: nat)
    ensures SideA(Repeat(k, n)) == if k == Added then [] else Repeat(k, n)
    ensures SideB(Repeat(k, n)) == if k == Removed then [] else Repeat(k, n)
  {
    if n > 0 {
      var ks := Repeat(k, n);
      assert ks[..n - 1] == Repeat(k, n - 1);
      assert ks == Repeat(k, n - 1) + [k];
      SidesRepeat(k, n - 1);
      SnocSides(ks);
    }
  }

  lemma {:induction false} PositionsAppendOther(s: seq<Kind>, other: Kind, n: nat, k: Kind)
    requires other != k
    ensures Positions(s + Repeat(other, n), k) == Positions(s, k)
  {
    if n == 0 {
      assert s + Repeat(other, n) == s;
    } else {
      var z := s + Repeat(other, n);
      assert z[..|z| - 1] == s + Repeat(other, n - 1);
      PositionsAppendOther(s, other, n - 1, k);
    }
  }

  lemma {:induction false} PositionsAppendOne(s: seq<Kind>, i: nat, k: Kind)
    ensures Positions(s + Repeat(k, i + 1), k) == Positions(s + Repeat(k, i), k) + [|s| + i]
  {
    var z := s + Repeat(k, i + 1);
    assert z[..|z| - 1] == s + Repeat(k, i);
  }

  /** The units of the first r parts are those of the first r - 1 parts
      followed by the last part spelled out. */
  lemma {:induction false} ExpandPrefix(diff: seq<Part>, r: nat)
    requires r < |diff|
    ensures Expand(diff[..r + 1]) == Expand(diff[..r]) + Repeat(diff[r].kind, diff[r].count)
  {
    assert diff[..r + 1] == diff[..r] + [diff[r]];
    ExpandAppend(diff[..r], [diff[r]]);
    ExpandSingle(diff[r]);
  }

  /** One run of the diff extends each side by its run spelled out, or not at
      all when the run belongs to the other document only. */
  lemma {:induction false} RunStep(diff: seq<Part>, r: nat)
    requires r < |diff|
    ensures var done, k, n := Expand(diff[..r]), diff[r].kind, diff[r].count;
      && SideA(Expand(diff[..r + 1])) == SideA(done) + (if k == Added then [] else Repeat(k, n))
      && SideB(Expand(diff[..r + 1])) == SideB(done) + (if k == Removed then [] else Repeat(k, n))
  {
    ExpandPrefix(diff, r);
    SidesAppend(Expand(diff[..r]), Repeat(diff[r].kind, diff[r].count));
    SidesRepeat(diff[r].kind, diff[r].count);
  }

  // ----- the loop -----

  /** The inner loop of one run: pushes start, ..., start + n - 1, which are
      the positions of the n new entries of kind `k` appended to `side`. */
  method PushRun(acc: seq<nat>, ghost side: seq<Kind>, start: nat, n: nat, k: Kind) returns (r: seq<nat>)
    requires acc == Positions(side, k) && start == |side|
    ensures r == Positions(side + Repeat(k, n), k)
  {
    r := acc;
    assert side + Repeat(k, 0) == side;
    for i := 0 to n
      invariant r == Positions(side + Repeat(k, i), k)
    {
      PositionsAppendOne(side, i, k);
      r := r + [start + i];
    }
  }

  /** Lines 138-159 of the trigger: `idx1` and `idx2` start at 0; an added run
      of n pushes idx2, ..., idx2+n-1 onto `p2Additions` and advances idx2 by
      n; a removed run does the same with idx1 and `p1Removals`; a kept run
      advances both cursors. The result: the cursors end at the lengths of
      the two sides, and the two lists are the removed positions of the
      first side and the added positions of the second. */
  method RemapIndices(diff: seq<Part>) returns (p1Removals: seq<nat>, p2Additions: seq<nat>, idx1: nat, idx2: nat)
    ensures idx1 == |SideA(Expand(diff))| && idx2 == |SideB(Expand(diff))|
    ensures p1Removals == Positions(SideA(Expand(diff)), Removed)
    ensures p2Additions == Positions(SideB(Expand(diff)), Added)
  {
    p1Removals, p2Additions := [], [];
    idx1, idx2 := 0, 0;
    for r := 0 to |diff|
      invariant idx1 == |SideA(Expand(diff[..r]))| && idx2 == |SideB(Expand(diff[..r]))|
      invariant p1Removals == Positions(SideA(Expand(diff[..r])), Removed)
      invariant p2Additions == Positions(SideB(Expand(diff[..r])), Added)
    {
      var part := diff[r];
      ghost var sideA, sideB := SideA(Expand(diff[..r])), SideB(Expand(diff[..r]));
      RunStep(diff, r);
      if part.kind == Added {
        p2Additions := PushRun(p2Additions, sideB, idx2, part.count, Added);
        idx2 := idx2 + part.count;
        assert sideA + [] == sideA;
      } else if part.kind == Removed {
        p1Removals := PushRun(p1Removals, sideA, idx1, part.count, Removed);
        idx1 := idx1 + part.count;
        assert sideB + [] == sideB;
      } else {
        idx1 := idx1 + part.count;
        idx2 := idx2 + part.count;
        PositionsAppendOther(sideA, Kept, part.count, Removed);
        PositionsAppendOther(sideB, Kept, part.count, Added);
      }
    }
    assert diff[..|diff|] == diff;
  }

  // ----- what the highlights mean -----

  /** The blocks of `s` whose mark is not `k`, in order. */
  function Unmarked<T>(s: seq<T>, marks: seq<Kind>, k: Kind): seq<T>
    requires |marks| == |s|
  {
    if s == [] then []
    else Unmarked(s[..|s| - 1], marks[..|marks| - 1], k) + (if marks[|marks| - 1] != k then [s[|s| - 1]] else [])
  }

  lemma {:induction false} UnmarkedSnoc<T>(s: seq<T>, marks: seq<Kind>, x: T, m: Kind, k: Kind)
    requires |marks| == |s|
    ensures Unmarked(s + [x], marks + [m], k) == Unmarked(s, marks, k) + (if m != k then [x] else [])
  {
    assert (s + [x])[..|s|] == s;
    assert (marks + [m])[..|marks|] == marks;
  }

  lemma {:induction false} SnocSides(ks: seq<Kind>)
    requires ks != []
    ensures var init, last := ks[..|ks| - 1], ks[|ks| - 1];
      && SideA(ks) == SideA(init) + (if last != Added then [last] else [])
      && SideB(ks) == SideB(init) + (if last != Removed then [last] else [])
  {
  }

  /** Each side counts its own kind exactly as often as the script does. */
  lemma {:induction false} SideCounts(ks: seq<Kind>)
    ensures Count(SideA(ks), Removed) == Count(ks, Removed)
    ensures Count(SideB(ks), Added) == Count(ks, Added)
    decreases |ks|
  {
    if ks != [] {
      var init, last := ks[..|ks| - 1], ks[|ks| - 1];
      SideCounts(init);
      SnocSides(ks);
      CountAppend(SideA(init), if last != Added then [last] else [], Removed);
      CountAppend(SideB(init), if last != Removed then [last] else [], Added);
      assert [last][..0] == [];
    }
  }

  /** For a script that replays a[..i] and b[..j]: the first side has one
      mark per block of a[..i], the second one per block of b[..j], and once
      the removed blocks of `a` and the added blocks of `b` are taken out,
      the two documents read the same. */
  lemma {:induction false} SidesOfReplay<T>(ks: seq<Kind>, a: seq<T>, b: seq<T>, i: nat, j: nat)
    requires i <= |a| && j <= |b|
    requires Replays(ks, a, b, i, j)
    ensures |SideA(ks)| == i && |SideB(ks)| == j
    ensures Unmarked(a[..i], SideA(ks), Removed) == Unmarked(b[..j], SideB(ks), Added)
    decreases |ks|
  {
    if ks != [] {
      var init := ks[..|ks| - 1];
      SnocSides(ks);
      match ks[|ks| - 1]
      case Kept =>
        SidesOfReplay(init, a, b, i - 1, j - 1);
        KeptStep(SideA(init), SideB(init), a, b, i, j);
      case Removed =>
        SidesOfReplay(init, a, b, i - 1, j);
        StepOneSide(SideA(init), a, i, Removed);
        assert SideB(ks) == SideB(init) + [] == SideB(init);
      case Added =>
        SidesOfReplay(init, a, b, i, j - 1);
        StepOneSide(SideB(init), b, j, Added);
        assert SideA(ks) == SideA(init) + [] == SideA(init);
    }
  }

  lemma {:induction false} KeptStep<T>(sa: seq<Kind>, sb: seq<Kind>, a: seq<T>, b: seq<T>, i: nat, j: nat)
    requires 0 < i <= |a| && 0 < j <= |b| && a[i - 1] == b[j - 1]
    requires |sa| == i - 1 && |sb| == j - 1
    requires Unmarked(a[..i - 1], sa, Removed) == Unmarked(b[..j - 1], sb, Added)
    ensures Unmarked(a[..i], sa + [Kept], Removed) == Unmarked(b[..j], sb + [Kept], Added)
  {
    assert a[..i] == a[..i - 1] + [a[i - 1]] && b[..j] == b[..j - 1] + [b[j - 1]];
    UnmarkedSnoc(a[..i - 1], sa, a[i - 1], Kept, Removed);
    UnmarkedSnoc(b[..j - 1], sb, b[j - 1], Kept, Added);
  }

  /** A unit of the document's own kind hides the new block. */
  lemma {:induction false} StepOneSide<T>(marks: seq<Kind>, s: seq<T>, n: nat, k: Kind)
    requires 0 < n <= |s| && |marks| == n - 1
    ensures Unmarked(s[..n], marks + [k], k) == Unmarked(s[..n - 1], marks, k)
  {
    assert s[..n] == s[..n - 1] + [s[n - 1]];
    UnmarkedSnoc(s[..n - 1], marks, s[n - 1], k, k);
    assert Unmarked(s[..n - 1], marks, k) + [] == Unmarked(s[..n - 1], marks, k);
  }

  /** The remap applied to the viewer's diff of `a` and `b`: both cursors
      end at the document lengths, the removal positions are strictly
      increasing, lie in [0, |a|) and number |a| - LCS, the addition
      positions likewise in [0, |b|) numbering |b| - LCS, and the blocks
      left unhighlighted in the two documents read the same. */
  lemma {:induction false} RemapOfDiff<T>(a: seq<T>, b: seq<T>)
    ensures var ks := Expand(Diff(a, b));
      var rem, add := Positions(SideA(ks), Removed), Positions(SideB(ks), Added);
      && |SideA(ks)| == |a| && |SideB(ks)| == |b|
      && StrictlyIncreasing(rem) && (forall x :: x in rem ==> x < |a|)
      && StrictlyIncreasing(add) && (forall x :: x in add ==> x < |b|)
      && |rem| == |a| - Lcs(a, b, |a|, |b|) && |add| == |b| - Lcs(a, b, |a|, |b|)
      && Unmarked(a, SideA(ks), Removed) == Unmarked(b, SideB(ks), Added)
  {
    DiffCorrect(a, b);
    RemapOfReplay(Expand(Diff(a, b)), a, b);
    TotalIsCount(Diff(a, b), Removed);
    TotalIsCount(Diff(a, b), Added);
  }

  /** The same for any script that replays the two documents, with the
      counts of its removed and added units. */
  lemma {:induction false} RemapOfReplay<T>(ks: seq<Kind>, a: seq<T>, b: seq<T>)
    requires Replays(ks, a, b, |a|, |b|)
    ensures var rem, add := Positions(SideA(ks), Removed), Positions(SideB(ks), Added);
      && |SideA(ks)| == |a| && |SideB(ks)| == |b|
      && StrictlyIncreasing(rem) && (forall x :: x in rem ==> x < |a|)
      && StrictlyIncreasing(add) && (forall x :: x in add ==> x < |b|)
      && |rem| == Count(ks, Removed) && |add| == Count(ks, Added)
      && Unmarked(a, SideA(ks), Removed) == Unmarked(b, SideB(ks), Added)
  {
    SidesOfReplay(ks, a, b, |a|, |b|);
    SideCounts(ks);
    PositionsMeaning(SideA(ks), Removed);
    PositionsMeaning(SideB(ks), Added);
    assert a[..|a|] == a && b[..|b|] == b;
  }

  /** The appended-paragraph scenario: nothing is removed from the first
      document and the third block of the second one is added. */
  lemma {:induction false} AppendedBlockRemap<T>(x: T, y: T, z: T)
    requires z != x && z != y
    ensures var ks := Expand(Diff([x, y], [x, y, z]));
      Positions(SideA(ks), Removed) == [] && Positions(SideB(ks), Added) == [2]
  {
    AppendedBlockExample(x, y, z);
    KeptKeptAdded();
  }

  lemma {:induction false} KeptKeptAdded()
    ensures var ks := Expand([Part(Kept, 2), Part(Added, 1)]);
      Positions(SideA(ks), Removed) == [] && Positions(SideB(ks), Added) == [2]
  {
    var ks := Expand([Part(Kept, 2), Part(Added, 1)]);
    assert ks == [Kept, Kept, Added] by {
      ExpandAppend([Part(Kept, 2)], [Part(Added, 1)]);
      ExpandSingle(Part(Kept, 2));
      ExpandSingle(Part(Added, 1));
    }
    TwoKept();
    SnocSides(ks);
    assert ks[..2] == [Kept, Kept];
    PositionsMeaning(SideA(ks), Removed);
    assert Positions(SideB(ks), Added) == Positions([Kept, Kept], Added) + [2];
    PositionsMeaning([Kept, Kept], Added);
  }

  lemma {:induction false} TwoKept()
    ensures SideA([Kept, Kept]) == [Kept, Kept] && SideB([Kept, Kept]) == [Kept, Kept]
  {
    var ks := [Kept, Kept];
    SnocSides(ks);
    SnocSides(ks[..1]);
    assert ks[..1] == [Kept] && ks[..1][..0] == [];
  }
}
