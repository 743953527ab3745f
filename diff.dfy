/** The block-level sequence diff behind the side-by-side comparison: a
    longest-common-subsequence table, a backtracking walk with a fixed
    tie-break, and run-length compression of the resulting unit operations.

    The pure part (`Lcs`, `Trace`, `Compress`, `Diff`) is the specification;
    `DiffArrays` computes the same thing the way the viewer does, with a table
    filled in nested loops, a stack, a reversal and a merging pass. */
module SequenceDiff {

  /** How one unit of an edit script treats the two sequences. */
  datatype Kind = Kept | Added | Removed

  /** One entry of a diff: `count` consecutive units of one kind. The viewer
      represents it as an object `{count, added?, removed?}` in which a kept
      entry carries neither flag; two entries are "the same kind" exactly when
      both flags agree, which is equality of `kind` here. */
  datatype Part = Part(kind: Kind, count: nat)

  function Max(x: int, y: int): int {
    if x >= y then x else y
  }

  // ----- the table -----

  /** Entry [i][j] of the table: the length of a longest common subsequence
      of a[..i] and b[..j]. */
  function Lcs<T(==)>(a: seq<T>, b: seq<T>, i: nat, j: nat): (r: nat)
    requires i <= |a| && j <= |b|
    ensures r <= i && r <= j
    decreases i + j
  {
    if i == 0 || j == 0 then 0
    else if a[i - 1] == b[j - 1] then Lcs(a, b, i - 1, j - 1) + 1
    else Max(Lcs(a, b, i, j - 1), Lcs(a, b, i - 1, j))
  }

  /** Moving one step along either sequence changes a table entry by 0 or 1. */
  lemma {:induction false} LcsSteps<T>(a: seq<T>, b: seq<T>, i: nat, j: nat)
    requires i <= |a| && j <= |b|
    ensures 0 < i ==> Lcs(a, b, i - 1, j) <= Lcs(a, b, i, j) <= Lcs(a, b, i - 1, j) + 1
    ensures 0 < j ==> Lcs(a, b, i, j - 1) <= Lcs(a, b, i, j) <= Lcs(a, b, i, j - 1) + 1
    decreases i + j
  {
    if 0 < i && 0 < j {
      LcsSteps(a, b, i - 1, j);
      LcsSteps(a, b, i, j - 1);
    }
  }

  // ----- edit scripts -----

  /** Replaying the unit script `ks` in order consumes exactly a[..i] and
      b[..j]: a kept unit takes one element from each and the two are equal,
      a removed unit takes one element of `a`, an added unit one element of
      `b`. (Stated from the last unit backwards.) */
  ghost predicate Replays<T>(ks: seq<Kind>, a: seq<T>, b: seq<T>, i: nat, j: nat)
    requires i <= |a| && j <= |b|
    decreases |ks|
  {
    if ks == [] then i == 0 && j == 0
    else
      var init := ks[..|ks| - 1];
      match ks[|ks| - 1]
      case Kept => 0 < i && 0 < j && a[i - 1] == b[j - 1] && Replays(init, a, b, i - 1, j - 1)
      case Removed => 0 < i && Replays(init, a, b, i - 1, j)
      case Added => 0 < j && Replays(init, a, b, i, j - 1)
  }

  /** The number of units of kind `k`. */
  function Count(ks: seq<Kind>, k: Kind): (r: nat)
    ensures r <= |ks|
  {
    if ks == [] then 0
    else Count(ks[..|ks| - 1], k) + (if ks[|ks| - 1] == k then 1 else 0)
  }

  lemma {:induction false} CountAppend(xs: seq<Kind>, ys: seq<Kind>, k: Kind)
    ensures Count(xs + ys, k) == Count(xs, k) + Count(ys, k)
    decreases |ys|
  {
    if ys != [] {
      var zs := xs + ys;
      assert zs[..|zs| - 1] == xs + ys[..|ys| - 1];
      assert zs[|zs| - 1] == ys[|ys| - 1];
      CountAppend(xs, ys[..|ys| - 1], k);
    } else {
      assert xs + ys == xs;
    }
  }

  /** Every unit is of exactly one kind. */
  lemma {:induction false} CountKinds(ks: seq<Kind>)
    ensures Count(ks, Kept) + Count(ks, Added) + Count(ks, Removed) == |ks|
  {
    if ks != [] {
      CountKinds(ks[..|ks| - 1]);
    }
  }

  /** A replay uses every element of both prefixes: kept and removed units
      together number i, kept and added units together number j. */
  lemma {:induction false} ReplaysLengths<T>(ks: seq<Kind>, a: seq<T>, b: seq<T>, i: nat, j: nat)
    requires i <= |a| && j <= |b|
    requires Replays(ks, a, b, i, j)
    ensures Count(ks, Kept) + Count(ks, Removed) == i
    ensures Count(ks, Kept) + Count(ks, Added) == j
    decreases |ks|
  {
    if ks != [] {
      var init := ks[..|ks| - 1];
      match ks[|ks| - 1]
      case Kept => ReplaysLengths(init, a, b, i - 1, j - 1);
      case Removed => ReplaysLengths(init, a, b, i - 1, j);
      case Added => ReplaysLengths(init, a, b, i, j - 1);
    }
  }

  /** No replay keeps more units than the table entry: Lcs is an upper bound
      on the common part of any edit script between the two prefixes. */
  lemma {:induction false} LcsIsOptimal<T>(ks: seq<Kind>, a: seq<T>, b: seq<T>, i: nat, j: nat)
    requires i <= |a| && j <= |b|
    requires Replays(ks, a, b, i, j)
    ensures Count(ks, Kept) <= Lcs(a, b, i, j)
    decreases |ks|
  {
    if ks != [] {
      var init := ks[..|ks| - 1];
      match ks[|ks| - 1]
      case Kept =>
        LcsIsOptimal(init, a, b, i - 1, j - 1);
      case Removed =>
        LcsIsOptimal(init, a, b, i - 1, j);
        LcsSteps(a, b, i, j);
      case Added =>
        LcsIsOptimal(init, a, b, i, j - 1);
        LcsSteps(a, b, i, j);
    }
  }

  // ----- backtracking -----

  /** One step of the backtracking walk from (i, j): the unit it pushes and
      where it goes next. On a mismatch it prefers "added" when
      table[i][j-1] >= table[i-1][j], or when `a` is used up. */
  function Step<T(==)>(a: seq<T>, b: seq<T>, i: nat, j: nat): (r: (Part, nat, nat))
    requires i <= |a| && j <= |b| && (0 < i || 0 < j)
    ensures r.1 <= i && r.2 <= j && r.1 + r.2 < i + j
  {
    if 0 < i && 0 < j && a[i - 1] == b[j - 1] then (Part(Kept, 1), i - 1, j - 1)
    else if 0 < j && (i == 0 || Lcs(a, b, i, j - 1) >= Lcs(a, b, i - 1, j)) then (Part(Added, 1), i, j - 1)
    else (Part(Removed, 1), i - 1, j)
  }

  /** The units the backtracking walk pushes, starting at (i, j), in push
      order (the last positions first). */
  function Trace<T(==)>(a: seq<T>, b: seq<T>, i: nat, j: nat): (r: seq<Part>)
    requires i <= |a| && j <= |b|
    ensures |r| <= i + j
    decreases i + j
  {
    if i == 0 && j == 0 then []
    else
      var (p, i', j') := Step(a, b, i, j);
      [p] + Trace(a, b, i', j')
  }

  function Reverse<T>(s: seq<T>): (r: seq<T>)
    ensures |r| == |s|
    ensures forall k :: 0 <= k < |s| ==> r[k] == s[|s| - 1 - k]
  {
    if s == [] then [] else Reverse(s[1..]) + [s[0]]
  }

  // ----- runs -----

  function Repeat(k: Kind, n: nat): (r: seq<Kind>)
    ensures |r| == n && forall t :: 0 <= t < n ==> r[t] == k
  {
    seq(n, _ => k)
  }

  /** The unit script a list of parts stands for: each part spelled out as
      `count` units of its kind. */
  function Expand(ps: seq<Part>): seq<Kind> {
    if ps == [] then [] else Repeat(ps[0].kind, ps[0].count) + Expand(ps[1..])
  }

  lemma {:induction false} ExpandAppend(xs: seq<Part>, ys: seq<Part>)
    ensures Expand(xs + ys) == Expand(xs) + Expand(ys)
  {
    if xs != [] {
      var zs := xs + ys;
      assert zs[0] == xs[0];
      assert zs[1..] == xs[1..] + ys;
      ExpandAppend(xs[1..], ys);
      calc {
        Expand(zs);
        Repeat(xs[0].kind, xs[0].count) + Expand(xs[1..] + ys);
        Repeat(xs[0].kind, xs[0].count) + (Expand(xs[1..]) + Expand(ys));
      }
    } else {
      assert xs + ys == ys;
    }
  }

  lemma {:induction false} ExpandSingle(p: Part)
    ensures Expand([p]) == Repeat(p.kind, p.count)
  {
    assert [p][1..] == [];
  }

  lemma {:induction false} RepeatAppend(k: Kind, x: nat, y: nat)
    ensures Repeat(k, x + y) == Repeat(k, x) + Repeat(k, y)
  {
  }

  /** The sum of the counts of the parts of kind `k`. */
  function Total(ps: seq<Part>, k: Kind): nat {
    if ps == [] then 0 else (if ps[0].kind == k then ps[0].count else 0) + Total(ps[1..], k)
  }

  lemma {:induction false} TotalIsCount(ps: seq<Part>, k: Kind)
    ensures Total(ps, k) == Count(Expand(ps), k)
  {
    if ps != [] {
      var p := ps[0];
      TotalIsCount(ps[1..], k);
      CountAppend(Repeat(p.kind, p.count), Expand(ps[1..]), k);
      RepeatCount(p.kind, p.count, k);
    }
  }

  lemma {:induction false} RepeatCount(r: Kind, n: nat, k: Kind)
    ensures Count(Repeat(r, n), k) == if r == k then n else 0
  {
    if n > 0 {
      assert Repeat(r, n)[..n - 1] == Repeat(r, n - 1);
      RepeatCount(r, n - 1, k);
    }
  }

  /** A run list as the viewer emits it: every run has count at least 1 and
      no two neighbouring runs have the same kind. */
  ghost predicate WellFormed(rs: seq<Part>) {
    && (forall t :: 0 <= t < |rs| ==> rs[t].count >= 1)
    && (forall t :: 0 < t < |rs| ==> rs[t - 1].kind != rs[t].kind)
  }

  /** The merging pass over the reversed stack, as a function of the prefix
      seen so far: a part of the same kind as the current run is added to
      its count, any other part starts a new run. */
  function Compress(ps: seq<Part>): (r: seq<Part>)
    ensures |r| <= |ps|
    ensures r == [] <==> ps == []
    ensures ps != [] ==> r[|r| - 1].kind == ps[|ps| - 1].kind
  {
    if ps == [] then [] else AppendRun(Compress(ps[..|ps| - 1]), ps[|ps| - 1])
  }

  /** One step of the merging pass: `next` joins the last run when both have
      the same kind, and otherwise starts a new run. */
  function AppendRun(init: seq<Part>, next: Part): (r: seq<Part>)
    ensures |r| <= |init| + 1 && r != [] && r[|r| - 1].kind == next.kind
  {
    if init != [] && init[|init| - 1].kind == next.kind then
      init[..|init| - 1] + [Part(next.kind, init[|init| - 1].count + next.count)]
    else
      init + [next]
  }

  /** Merging loses and invents nothing: the runs spell out the same unit
      script as the parts they were built from. */
  lemma {:induction false} CompressExpand(ps: seq<Part>)
    ensures Expand(Compress(ps)) == Expand(ps)
  {
    if ps != [] {
      var front := ps[..|ps| - 1];
      var next := ps[|ps| - 1];
      CompressExpand(front);
      assert ps == front + [next];
      ExpandAppend(front, [next]);
      AppendRunExpand(Compress(front), next);
    }
  }

  lemma {:induction false} AppendRunExpand(init: seq<Part>, next: Part)
    ensures Expand(AppendRun(init, next)) == Expand(init) + Expand([next])
  {
    if init != [] && init[|init| - 1].kind == next.kind {
      MergeExpand(init, next);
    } else {
      ExpandAppend(init, [next]);
    }
  }

  /** Adding a part's count to a last run of the same kind spells out the
      same units as appending the part. */
  lemma {:induction false} MergeExpand(init: seq<Part>, next: Part)
    requires init != [] && init[|init| - 1].kind == next.kind
    ensures var last := init[|init| - 1];
      Expand(init[..|init| - 1] + [Part(next.kind, last.count + next.count)]) == Expand(init) + Expand([next])
  {
    var last := init[|init| - 1];
    var front := init[..|init| - 1];
    var merged := Part(next.kind, last.count + next.count);
    assert init == front + [last];
    ExpandAppend(front, [last]);
    ExpandAppend(front, [merged]);
    ExpandSingle(last);
    ExpandSingle(next);
    ExpandSingle(merged);
    RepeatAppend(next.kind, last.count, next.count);
    calc {
      Expand(front + [merged]);
      Expand(front) + Repeat(next.kind, last.count + next.count);
      Expand(front) + (Repeat(last.kind, last.count) + Repeat(next.kind, next.count));
      (Expand(front) + Expand([last])) + Expand([next]);
      Expand(init) + Expand([next]);
    }
  }

  /** Merging parts of count at least 1 yields a well-formed run list. */
  lemma {:induction false} CompressWellFormed(ps: seq<Part>)
    requires forall t :: 0 <= t < |ps| ==> ps[t].count >= 1
    ensures WellFormed(Compress(ps))
  {
    if ps != [] {
      CompressWellFormed(ps[..|ps| - 1]);
      AppendRunWellFormed(Compress(ps[..|ps| - 1]), ps[|ps| - 1]);
    }
  }

  lemma {:induction false} AppendRunWellFormed(init: seq<Part>, next: Part)
    requires WellFormed(init) && next.count >= 1
    ensures WellFormed(AppendRun(init, next))
  {
  }

  /** On a run list that is already well formed, merging changes nothing:
      `Compress` is the one well-formed run list for its unit script. */
  lemma {:induction false} CompressWellFormedIdentity(rs: seq<Part>)
    requires WellFormed(rs)
    ensures Compress(rs) == rs
  {
    if rs != [] {
      var init := rs[..|rs| - 1];
      assert WellFormed(init);
      CompressWellFormedIdentity(init);
      assert rs == init + [rs[|rs| - 1]];
      assert init != [] ==> init[|init| - 1].kind != rs[|rs| - 1].kind by {
        if init != [] {
          assert init[|init| - 1] == rs[|rs| - 2];
        }
      }
    }
  }

  // ----- the diff -----

  /** The unit operations in forward order: the stack after `reverse`. */
  function Script<T(==)>(a: seq<T>, b: seq<T>): seq<Part> {
    Reverse(Trace(a, b, |a|, |b|))
  }

  /** The run list the viewer computes for `a` and `b`. */
  function Diff<T(==)>(a: seq<T>, b: seq<T>): seq<Part> {
    Compress(Script(a, b))
  }

  /** Every unit the walk pushes has count 1. */
  lemma {:induction false} TraceUnits<T>(a: seq<T>, b: seq<T>, i: nat, j: nat)
    requires i <= |a| && j <= |b|
    ensures forall t :: 0 <= t < |Trace(a, b, i, j)| ==> Trace(a, b, i, j)[t].count == 1
    decreases i + j
  {
    if 0 < i || 0 < j {
      var (u, i', j') := Step(a, b, i, j);
      TraceUnits(a, b, i', j');
      var tr := Trace(a, b, i, j);
      assert tr == [u] + Trace(a, b, i', j');
      forall t | 0 < t < |tr| ensures tr[t].count == 1 {
        assert tr[t] == Trace(a, b, i', j')[t - 1];
      }
    }
  }

  /** In forward order, the walk from (i, j) spells out the units of the
      walk from where its first step goes, then that step's unit. */
  lemma {:induction false} TraceExpand<T>(a: seq<T>, b: seq<T>, i: nat, j: nat)
    requires i <= |a| && j <= |b| && (0 < i || 0 < j)
    ensures var (u, i', j') := Step(a, b, i, j);
      Expand(Reverse(Trace(a, b, i, j))) == Expand(Reverse(Trace(a, b, i', j'))) + [u.kind]
  {
    var (u, i', j') := Step(a, b, i, j);
    var tr := Trace(a, b, i, j);
    assert tr == [u] + Trace(a, b, i', j');
    var prev := Reverse(Trace(a, b, i', j'));
    assert Reverse(tr) == prev + [u];
    ExpandAppend(prev, [u]);
    assert Expand([u]) == [u.kind];
  }

  /** The walk from (i, j) spells out a unit script that replays a[..i] and
      b[..j] ... */
  lemma {:induction false} TraceReplays<T>(a: seq<T>, b: seq<T>, i: nat, j: nat)
    requires i <= |a| && j <= |b|
    ensures Replays(Expand(Reverse(Trace(a, b, i, j))), a, b, i, j)
    decreases i + j
  {
    if 0 < i || 0 < j {
      var (u, i', j') := Step(a, b, i, j);
      TraceReplays(a, b, i', j');
      TraceExpand(a, b, i, j);
      var ks := Expand(Reverse(Trace(a, b, i, j)));
      assert ks[..|ks| - 1] == Expand(Reverse(Trace(a, b, i', j')));
    }
  }

  /** ... and keeps exactly table[i][j] units. */
  lemma {:induction false} TraceKept<T>(a: seq<T>, b: seq<T>, i: nat, j: nat)
    requires i <= |a| && j <= |b|
    ensures Count(Expand(Reverse(Trace(a, b, i, j))), Kept) == Lcs(a, b, i, j)
    decreases i + j
  {
    if 0 < i || 0 < j {
      var (u, i', j') := Step(a, b, i, j);
      var rest := Expand(Reverse(Trace(a, b, i', j')));
      TraceKept(a, b, i', j');
      TraceExpand(a, b, i, j);
      CountAppend(rest, [u.kind], Kept);
      assert Count([u.kind], Kept) == if u.kind == Kept then 1 else 0 by {
        assert [u.kind][..0] == [];
      }
      StepLcs(a, b, i, j);
    }
  }

  /** A step keeps a unit exactly when it moves to an entry one smaller. */
  lemma {:induction false} StepLcs<T>(a: seq<T>, b: seq<T>, i: nat, j: nat)
    requires i <= |a| && j <= |b| && (0 < i || 0 < j)
    ensures var (u, i', j') := Step(a, b, i, j);
      Lcs(a, b, i, j) == Lcs(a, b, i', j') + if u.kind == Kept then 1 else 0
  {
  }

  /** What the viewer promises of its diff: the runs are well formed,
      replaying them reproduces both inputs, the kept units number exactly
      the LCS length (so the removed ones n - LCS and the added ones
      m - LCS), and no other edit script between the two inputs gets away
      with fewer added and removed units. */
  lemma {:induction false} DiffCorrect<T>(a: seq<T>, b: seq<T>)
    ensures WellFormed(Diff(a, b))
    ensures Replays(Expand(Diff(a, b)), a, b, |a|, |b|)
    ensures Total(Diff(a, b), Kept) == Lcs(a, b, |a|, |b|)
    ensures Total(Diff(a, b), Removed) == |a| - Lcs(a, b, |a|, |b|)
    ensures Total(Diff(a, b), Added) == |b| - Lcs(a, b, |a|, |b|)
    ensures Diff(a, b) == [] <==> a == [] && b == []
  {
    var tr := Trace(a, b, |a|, |b|);
    var ps := Script(a, b);
    TraceUnits(a, b, |a|, |b|);
    TraceReplays(a, b, |a|, |b|);
    TraceKept(a, b, |a|, |b|);
    CompressExpand(ps);
    CompressWellFormed(ps);
    var ks := Expand(Diff(a, b));
    ReplaysLengths(ks, a, b, |a|, |b|);
    TotalIsCount(Diff(a, b), Kept);
    TotalIsCount(Diff(a, b), Removed);
    TotalIsCount(Diff(a, b), Added);
    if a == [] && b == [] {
      assert tr == [];
    }
  }

  /** Minimality: every edit script that replays `a` and `b` adds and
      removes at least as many units as the viewer's diff, which adds and
      removes |a| + |b| - 2 LCS units. */
  lemma {:induction false} DiffIsMinimal<T>(a: seq<T>, b: seq<T>, ks: seq<Kind>)
    requires Replays(ks, a, b, |a|, |b|)
    ensures Total(Diff(a, b), Added) + Total(Diff(a, b), Removed) == |a| + |b| - 2 * Lcs(a, b, |a|, |b|)
    ensures Total(Diff(a, b), Added) + Total(Diff(a, b), Removed) <= Count(ks, Added) + Count(ks, Removed)
  {
    DiffCorrect(a, b);
    LcsIsOptimal(ks, a, b, |a|, |b|);
    ReplaysLengths(ks, a, b, |a|, |b|);
  }

  /** The tie-break, on the smallest input where it matters: with both
      orders of two different blocks, the walk prefers "added" at the first
      tie, so the diff reads "removed x, kept y, added x". */
  lemma {:induction false} TieBreakExample<T>(x: T, y: T)
    requires x != y
    ensures Diff([x, y], [y, x]) == [Part(Removed, 1), Part(Kept, 1), Part(Added, 1)]
  {
    TieBreakScript(x, y);
    DistinctKinds([Part(Removed, 1), Part(Kept, 1), Part(Added, 1)]);
  }

  lemma {:induction false} TieBreakScript<T>(x: T, y: T)
    requires x != y
    ensures Script([x, y], [y, x]) == [Part(Removed, 1), Part(Kept, 1), Part(Added, 1)]
  {
    var a, b := [x, y], [y, x];
    assert Lcs(a, b, 2, 1) == 1 && Lcs(a, b, 1, 2) == 1;
    assert Trace(a, b, 1, 0) == [Part(Removed, 1)];
    assert Trace(a, b, 2, 1) == [Part(Kept, 1), Part(Removed, 1)];
    assert Trace(a, b, 2, 2) == [Part(Added, 1), Part(Kept, 1), Part(Removed, 1)];
  }

  /** A block appended after two blocks is one added run after one kept
      run. */
  lemma {:induction false} AppendedBlockExample<T>(x: T, y: T, z: T)
    requires z != x && z != y
    ensures Diff([x, y], [x, y, z]) == [Part(Kept, 2), Part(Added, 1)]
  {
    AppendedBlockScript(x, y, z);
    var s := [Part(Kept, 1), Part(Kept, 1), Part(Added, 1)];
    CompressStep(s, 1);
    CompressStep(s, 2);
    assert s[..1] == [Part(Kept, 1)];
    assert s[..3] == s;
  }

  lemma {:induction false} AppendedBlockScript<T>(x: T, y: T, z: T)
    requires z != x && z != y
    ensures Script([x, y], [x, y, z]) == [Part(Kept, 1), Part(Kept, 1), Part(Added, 1)]
  {
    var a, b := [x, y], [x, y, z];
    assert Lcs(a, b, 2, 2) == 2 && Lcs(a, b, 1, 3) == 1;
    assert Trace(a, b, 0, 0) == [];
    assert Trace(a, b, 1, 1) == [Part(Kept, 1)];
    assert Trace(a, b, 2, 2) == [Part(Kept, 1), Part(Kept, 1)];
    assert Trace(a, b, 2, 3) == [Part(Added, 1), Part(Kept, 1), Part(Kept, 1)];
  }

  /** Three unit parts of pairwise different kinds are already runs. */
  lemma {:induction false} DistinctKinds(s: seq<Part>)
    requires |s| == 3 && forall t :: 0 <= t < 3 ==> s[t].count >= 1
    requires s[0].kind != s[1].kind && s[1].kind != s[2].kind
    ensures Compress(s) == s
  {
    CompressWellFormedIdentity(s);
  }

  // ----- the method -----

  /** The first phase of `diffArrays`: the (n+1) x (m+1) table, filled row
      by row from a table of zeros. */
  method FillTable<T(==)>(arr1: seq<T>, arr2: seq<T>) returns (matrix: array2<nat>)
    ensures fresh(matrix)
    ensures matrix.Length0 == |arr1| + 1 && matrix.Length1 == |arr2| + 1
    ensures forall x, y :: 0 <= x <= |arr1| && 0 <= y <= |arr2| ==> matrix[x, y] == Lcs(arr1, arr2, x, y)
  {
    var n, m := |arr1|, |arr2|;
    matrix := new nat[n + 1, m + 1]((_, _) => 0);
    for i := 0 to n
      invariant forall x, y :: 0 <= x <= i && 0 <= y <= m ==> matrix[x, y] == Lcs(arr1, arr2, x, y)
      invariant forall x, y :: i < x <= n && 0 <= y <= m ==> matrix[x, y] == 0
    {
      FillRow(arr1, arr2, matrix, i, i + 1);
    }
  }

  /** One pass of the inner loop: row `r` of the table from row `r - 1`,
      left to right. */
  method FillRow<T(==)>(arr1: seq<T>, arr2: seq<T>, matrix: array2<nat>, p: nat, r: nat)
    requires matrix.Length0 == |arr1| + 1 && matrix.Length1 == |arr2| + 1 && r == p + 1 <= |arr1|
    requires forall y :: 0 <= y <= |arr2| ==> matrix[p, y] == Lcs(arr1, arr2, p, y)
    requires matrix[r, 0] == 0
    modifies matrix
    ensures forall y :: 0 <= y <= |arr2| ==> matrix[r, y] == Lcs(arr1, arr2, r, y)
    ensures forall x, y :: 0 <= x <= |arr1| && 0 <= y <= |arr2| && x != r ==> matrix[x, y] == old(matrix[x, y])
  {
    for j := 0 to |arr2|
      invariant forall y :: 0 <= y <= j ==> matrix[r, y] == Lcs(arr1, arr2, r, y)
      invariant forall x, y :: 0 <= x <= |arr1| && 0 <= y <= |arr2| && x != r ==> matrix[x, y] == old(matrix[x, y])
    {
      FillEntry(arr1, arr2, matrix, p, r, j);
    }
  }

  /** The body of the inner loop: entry [r][j + 1] from its three neighbours
      [p][j], [r][j] and [p][j + 1], by the recurrence of `Lcs`. */
  method FillEntry<T(==)>(arr1: seq<T>, arr2: seq<T>, matrix: array2<nat>, p: nat, r: nat, j: nat)
    requires matrix.Length0 == |arr1| + 1 && matrix.Length1 == |arr2| + 1 && r == p + 1 <= |arr1| && j < |arr2|
    requires matrix[p, j] == Lcs(arr1, arr2, p, j) && matrix[p, j + 1] == Lcs(arr1, arr2, p, j + 1)
    requires matrix[r, j] == Lcs(arr1, arr2, r, j)
    modifies matrix
    ensures matrix[r, j + 1] == Lcs(arr1, arr2, r, j + 1)
    ensures forall x, y :: 0 <= x <= |arr1| && 0 <= y <= |arr2| && (x != r || y != j + 1) ==> matrix[x, y] == old(matrix[x, y])
  {
    var v: nat;
    if arr1[p] == arr2[j] {
      v := matrix[p, j] + 1;
    } else {
      v := Max(matrix[r, j], matrix[p, j + 1]);
    }
    LcsNext(arr1, arr2, p, j);
    matrix[r, j + 1] := v;
  }

  /** The recurrence the inner loop evaluates at entry [p + 1][j + 1]. */
  lemma {:induction false} LcsNext<T>(a: seq<T>, b: seq<T>, p: nat, j: nat)
    requires p < |a| && j < |b|
    ensures Lcs(a, b, p + 1, j + 1) == if a[p] == b[j] then Lcs(a, b, p, j) + 1 else Max(Lcs(a, b, p + 1, j), Lcs(a, b, p, j + 1))
  {
  }

  /** The second phase: the walk from (n, m) back to (0, 0), pushing one unit
      part per step. */
  method Backtrack<T(==)>(arr1: seq<T>, arr2: seq<T>, matrix: array2<nat>) returns (stack: seq<Part>)
    requires matrix.Length0 == |arr1| + 1 && matrix.Length1 == |arr2| + 1
    requires forall x, y :: 0 <= x <= |arr1| && 0 <= y <= |arr2| ==> matrix[x, y] == Lcs(arr1, arr2, x, y)
    ensures stack == Trace(arr1, arr2, |arr1|, |arr2|)
  {
    var i: nat, j: nat := |arr1|, |arr2|;
    stack := [];
    while 0 < i || 0 < j
      invariant i <= |arr1| && j <= |arr2|
      invariant stack + Trace(arr1, arr2, i, j) == Trace(arr1, arr2, |arr1|, |arr2|)
      decreases i + j
    {
      var p: Part, i', j': nat;
      if 0 < i && 0 < j && arr1[i - 1] == arr2[j - 1] {
        p, i', j' := Part(Kept, 1), i - 1, j - 1;
      } else if 0 < j && (i == 0 || matrix[i, j - 1] >= matrix[i - 1, j]) {
        p, i', j' := Part(Added, 1), i, j - 1;
      } else {
        p, i', j' := Part(Removed, 1), i - 1, j;
      }
      assert (p, i', j') == Step(arr1, arr2, i, j);
      WalkStep(arr1, arr2, i, j, stack);
      stack := stack + [p];
      i, j := i', j';
    }
  }

  /** Pushing the unit of one step keeps the stack and the rest of the walk
      together equal to the whole walk. */
  lemma {:induction false} WalkStep<T>(a: seq<T>, b: seq<T>, i: nat, j: nat, stack: seq<Part>)
    requires i <= |a| && j <= |b| && (0 < i || 0 < j)
    ensures var (p, i', j') := Step(a, b, i, j);
      (stack + [p]) + Trace(a, b, i', j') == stack + Trace(a, b, i, j)
  {
    var (p, i', j') := Step(a, b, i, j);
    assert Trace(a, b, i, j) == [p] + Trace(a, b, i', j');
    assert (stack + [p]) + Trace(a, b, i', j') == stack + ([p] + Trace(a, b, i', j'));
  }

  /** The last phase: one pass over the reversed stack that adds each part to
      the current run when both have the same kind and otherwise closes the
      run. */
  method MergeRuns(stack: seq<Part>) returns (parts: seq<Part>)
    ensures parts == Compress(stack)
  {
    parts := [];
    if 0 < |stack| {
      var current := stack[0];
      for k := 1 to |stack|
        invariant parts + [current] == Compress(stack[..k])
      {
        var next := stack[k];
        CompressStep(stack, k);
        MergeStep(parts, current, next);
        if current.kind == next.kind {
          current := current.(count := current.count + next.count);
        } else {
          parts := parts + [current];
          current := next;
        }
      }
      parts := parts + [current];
      assert stack[..|stack|] == stack;
    }
  }

  /** Merging one more part onto a merged prefix. */
  lemma {:induction false} CompressStep(ps: seq<Part>, k: nat)
    requires k < |ps|
    ensures Compress(ps[..k + 1]) == AppendRun(Compress(ps[..k]), ps[k])
  {
    assert ps[..k + 1][..k] == ps[..k];
  }

  /** What one iteration of the merging loop does to the closed runs and the
      current run. */
  lemma {:induction false} MergeStep(parts: seq<Part>, current: Part, next: Part)
    ensures AppendRun(parts + [current], next)
      == if current.kind == next.kind then parts + [current.(count := current.count + next.count)]
         else (parts + [current]) + [next]
  {
    assert (parts + [current])[..|parts|] == parts;
  }

  /** `diffArrays`: table, backtracking walk, `reverse`, merge. */
  method DiffArrays<T(==)>(arr1: seq<T>, arr2: seq<T>) returns (parts: seq<Part>)
    ensures parts == Diff(arr1, arr2)
    ensures WellFormed(parts)
    ensures Replays(Expand(parts), arr1, arr2, |arr1|, |arr2|)
    ensures Total(parts, Kept) == Lcs(arr1, arr2, |arr1|, |arr2|)
    ensures Total(parts, Removed) == |arr1| - Lcs(arr1, arr2, |arr1|, |arr2|)
    ensures Total(parts, Added) == |arr2| - Lcs(arr1, arr2, |arr1|, |arr2|)
  {
    var matrix := FillTable(arr1, arr2);
    var stack := Backtrack(arr1, arr2, matrix);
    stack := Reverse(stack);
    parts := MergeRuns(stack);
    DiffCorrect(arr1, arr2);
  }
}
