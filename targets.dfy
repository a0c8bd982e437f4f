/** `dougs_next_pareto` of kaiserlift/main.py: from the personal records
    of each exercise, the sets to aim for next, one just past every edge and
    gap of the record frontier, returned with their `1RM` column. */
module Targets {
  import opened Numeric
  import opened Frames
  import opened Order
  import opened Pareto
  import opened Epley

  /** The weight step the suggestions add. */
  const WeightStep: real := 5.0

  /** A suggested set: an (Exercise, Weight, Reps) row of the result. */
  datatype Target = Target(exercise: string, weight: real, reps: int)

  /** The row a suggestion becomes before `add_1rm_column`. */
  function TargetRow(t: Target): (r: Row)
    ensures Clean(r) == Some(Lift(t.exercise, t.weight, t.reps, map[]))
  {
    TruncOfInt(t.reps);
    Row(Some(t.exercise), Num(t.weight), Num(t.reps as real), map[])
  }

  function TargetRows(ts: seq<Target>): (rs: seq<Row>)
    ensures |rs| == |ts| && forall i :: 0 <= i < |ts| ==> rs[i] == TargetRow(ts[i])
  {
    if ts == [] then [] else [TargetRow(ts[0])] + TargetRows(ts[1..])
  }

  // ----- the pandas steps the function relies on -----

  /** `Series.unique()`: the values, each once, in order of first appearance. */
  function Unique(xs: seq<string>): (u: seq<string>)
    ensures forall x :: x in u <==> x in xs
    ensures forall i, j :: 0 <= i < j < |u| ==> u[i] != u[j]
  {
    if xs == [] then []
    else
      var u := Unique(xs[..|xs| - 1]);
      SplitLast(xs);
      if xs[|xs| - 1] in u then u else u + [xs[|xs| - 1]]
  }

  /** The Exercise column. */
  function Names(recs: seq<Lift>): (ns: seq<string>)
    ensures |ns| == |recs| && forall i :: 0 <= i < |recs| ==> ns[i] == recs[i].exercise
  {
    seq(|recs|, i requires 0 <= i < |recs| => recs[i].exercise)
  }

  /** `df[df['Exercise'] == ex]`: the records of one exercise, in order. */
  function RecordsOf(recs: seq<Lift>, ex: string): (ed: seq<Lift>)
    ensures forall x :: x in ed <==> x in recs && x.exercise == ex
  {
    if recs == [] then []
    else
      var init := RecordsOf(recs[..|recs| - 1], ex);
      SplitLast(recs);
      if recs[|recs| - 1].exercise == ex then init + [recs[|recs| - 1]] else init
  }

  lemma RecordsOfListed(recs: seq<Lift>, ex: string)
    requires ex in Names(recs)
    ensures RecordsOf(recs, ex) != []
  {
    var i :| 0 <= i < |recs| && Names(recs)[i] == ex;
    assert recs[i] in RecordsOf(recs, ex);
  }

  predicate RepsAscending(xs: seq<Lift>)
  {
    forall i, j :: 0 <= i < j < |xs| ==> xs[i].reps <= xs[j].reps
  }

  /** Insertion of `x` after every entry with at most its reps. */
  function Insert(x: Lift, s: seq<Lift>): (r: seq<Lift>)
    ensures multiset(r) == multiset(s) + multiset{x}
  {
    if s == [] || s[|s| - 1].reps <= x.reps then s + [x]
    else
      SplitLast(s);
      Insert(x, s[..|s| - 1]) + [s[|s| - 1]]
  }

  /** `sort_values('Reps')`, stable: the records in ascending rep order. */
  function SortByReps(xs: seq<Lift>): (s: seq<Lift>)
    ensures multiset(s) == multiset(xs)
    ensures RepsAscending(s)
  {
    if xs == [] then []
    else
      SplitLast(xs);
      var sorted := SortByReps(xs[..|xs| - 1]);
      InsertAscending(xs[|xs| - 1], sorted);
      Insert(xs[|xs| - 1], sorted)
  }

  lemma {:induction false} InsertAscending(x: Lift, s: seq<Lift>)
    requires RepsAscending(s)
    ensures RepsAscending(Insert(x, s))
  {
    if s != [] && s[|s| - 1].reps > x.reps {
      var init, last := s[..|s| - 1], s[|s| - 1];
      PrefixAscending(s);
      InsertAscending(x, init);
      var r := Insert(x, init);
      InsertMembers(x, init);
      forall y | y in r ensures y.reps <= last.reps {
        if y != x {
          var k :| 0 <= k < |init| && init[k] == y;
          assert s[k] == y;
        }
      }
      AppendAscending(r, last);
    } else {
      forall y | y in s ensures y.reps <= x.reps {
        var k :| 0 <= k < |s| && s[k] == y;
      }
      AppendAscending(s, x);
    }
  }

  lemma {:induction false} InsertMembers(x: Lift, s: seq<Lift>)
    ensures forall y :: y in Insert(x, s) <==> y in s || y == x
  {
    if s != [] && s[|s| - 1].reps > x.reps {
      InsertMembers(x, s[..|s| - 1]);
      SplitLast(s);
    }
  }

  lemma PrefixAscending(s: seq<Lift>)
    requires s != [] && RepsAscending(s)
    ensures RepsAscending(s[..|s| - 1])
  {
    var init := s[..|s| - 1];
    forall i, j | 0 <= i < j < |init| ensures init[i].reps <= init[j].reps {
      assert init[i] == s[i] && init[j] == s[j];
    }
  }

  lemma AppendAscending(s: seq<Lift>, x: Lift)
    requires RepsAscending(s) && forall y :: y in s ==> y.reps <= x.reps
    ensures RepsAscending(s + [x])
  {
    var r := s + [x];
    forall i, j | 0 <= i < j < |r| ensures r[i].reps <= r[j].reps {
      assert r[i] == s[i];
      if j < |s| {
        assert r[j] == s[j];
      } else {
        assert s[i] in s;
      }
    }
  }

  lemma SplitLast<T>(xs: seq<T>)
    requires xs != []
    ensures xs == xs[..|xs| - 1] + [xs[|xs| - 1]]
  {
  }

  lemma SortByRepsStep(xs: seq<Lift>)
    requires xs != []
    ensures SortByReps(xs) == Insert(xs[|xs| - 1], SortByReps(xs[..|xs| - 1]))
  {
  }

  lemma InsertAtEnd(x: Lift, s: seq<Lift>)
    requires s == [] || s[|s| - 1].reps <= x.reps
    ensures Insert(x, s) == s + [x]
  {
  }

  /** Records already in rep order are left as they are. */
  lemma {:induction false} SortByRepsOfSorted(xs: seq<Lift>)
    requires RepsAscending(xs)
    ensures SortByReps(xs) == xs
  {
    if xs != [] {
      var init, x := xs[..|xs| - 1], xs[|xs| - 1];
      PrefixAscending(xs);
      SortByRepsOfSorted(init);
      assert init == [] || init[|init| - 1].reps <= x.reps by {
        if init != [] { assert init[|init| - 1] == xs[|xs| - 2]; }
      }
      SortByRepsStep(xs);
      InsertAtEnd(x, init);
      SplitLast(xs);
    }
  }

  // ----- the suggestions -----

  /** Two neighbouring records with at least one rep count missing between them. */
  predicate IsGap(lo: Lift, hi: Lift)
  {
    hi.reps > lo.reps + 1
  }

  /** The suggestion for a gap: one rep more than the lower record, at its
      weight or at the upper record's weight plus a step, whichever is lighter. */
  function GapTarget(ex: string, lo: Lift, hi: Lift): (t: Target)
    ensures t.exercise == ex && t.reps == lo.reps + 1
    ensures t.weight <= lo.weight && t.weight <= hi.weight + WeightStep
    ensures t.weight == lo.weight || t.weight == hi.weight + WeightStep
    ensures IsGap(lo, hi) ==> lo.reps < t.reps < hi.reps
  {
    Target(ex, Min(lo.weight, hi.weight + WeightStep), lo.reps + 1)
  }

  /** The gap suggestions among the first n records of `ed`: one per gap,
      in the order of the gaps. */
  function GapTargets(ex: string, ed: seq<Lift>, n: int): (ts: seq<Target>)
    requires 0 <= n <= |ed|
    ensures OnePerGap(ex, ed, ts, GapIndices(ed, n))
  {
    if n < 2 then []
    else
      var prev := GapTargets(ex, ed, n - 1);
      if IsGap(ed[n - 2], ed[n - 1]) then
        AppendOneGap(ex, ed, prev, GapIndices(ed, n - 1), n - 2);
        prev + [GapTarget(ex, ed[n - 2], ed[n - 1])]
      else prev + []
  }

  /** The single-rep suggestion: one rep at the lowest-rep record's weight
      plus 5 (the heaviest one when the records form a frontier). */
  function FirstTarget(ex: string, ed: seq<Lift>): (t: Target)
    requires ed != []
    ensures t.exercise == ex && t.reps == 1 && t.weight > ed[0].weight
    ensures StrictFrontier(ed) ==> forall r :: r in ed ==> r.weight < t.weight
  {
    Target(ex, ed[0].weight + WeightStep, 1)
  }

  /** The suggestion past the most reps: one rep more at the same weight;
      on a frontier that is more reps than any record has. */
  function LastTarget(ex: string, ed: seq<Lift>): (t: Target)
    requires ed != []
    ensures t.exercise == ex && t.weight == ed[|ed| - 1].weight && t.reps > ed[|ed| - 1].reps
    ensures StrictFrontier(ed) ==> forall r :: r in ed ==> r.reps < t.reps
  {
    Target(ex, ed[|ed| - 1].weight, ed[|ed| - 1].reps + 1)
  }

  /** The suggestions for one exercise whose records, in rep order, are
      `ed`: two plus one per gap, all for that exercise. */
  function ExerciseTargets(ex: string, ed: seq<Lift>): (ts: seq<Target>)
    requires ed != []
    ensures |ts| == 2 + |GapIndices(ed, |ed|)|
    ensures forall t :: t in ts ==> t.exercise == ex
  {
    [FirstTarget(ex, ed)] + GapTargets(ex, ed, |ed|) + [LastTarget(ex, ed)]
  }

  /** The suggestions for the exercises `exs`, in turn. */
  function TargetsFor(recs: seq<Lift>, exs: seq<string>): seq<Target>
    requires forall e :: e in exs ==> RecordsOf(recs, e) != []
  {
    if exs == [] then []
    else
      var ex := exs[|exs| - 1];
      TargetsFor(recs, exs[..|exs| - 1]) + ExerciseTargets(ex, SortByReps(RecordsOf(recs, ex)))
  }

  lemma TargetsForStep(recs: seq<Lift>, exs: seq<string>, e: int)
    requires forall x :: x in exs ==> RecordsOf(recs, x) != []
    requires 0 <= e < |exs|
    ensures RecordsOf(recs, exs[e]) != []
    ensures TargetsFor(recs, exs[..e + 1])
      == TargetsFor(recs, exs[..e]) + ExerciseTargets(exs[e], SortByReps(RecordsOf(recs, exs[e])))
  {
    assert exs[..e + 1][..e] == exs[..e];
  }

  /** What `dougs_next_pareto` suggests for the records `recs`, before the
      `1RM` column is added: exactly the suggestions of every exercise of
      the records. */
  function NextTargets(recs: seq<Lift>): (ts: seq<Target>)
    ensures forall t :: t in ts <==>
      t.exercise in Names(recs) && RecordsOf(recs, t.exercise) != [] &&
      t in ExerciseTargets(t.exercise, SortByReps(RecordsOf(recs, t.exercise)))
  {
    NamesListed(recs);
    AllTargetsForMembers(recs, Unique(Names(recs)));
    TargetsFor(recs, Unique(Names(recs)))
  }

  lemma NamesListed(recs: seq<Lift>)
    ensures forall e :: e in Names(recs) ==> RecordsOf(recs, e) != []
  {
    forall e | e in Names(recs) ensures RecordsOf(recs, e) != [] {
      RecordsOfListed(recs, e);
    }
  }

  /** The body of the loop over exercises: the suggestions for `ex`, whose
      records in rep order are `ed`, appended to `rows`. */
  method AppendExerciseTargets(rows: seq<Target>, ex: string, ed: seq<Lift>) returns (out: seq<Target>)
    requires ed != []
    ensures out == rows + ExerciseTargets(ex, ed)
  {
    ghost var mine := [FirstTarget(ex, ed)];
    out := rows + [Target(ex, ed[0].weight + WeightStep, 1)];
    for i := 0 to |ed| - 1
      invariant out == rows + mine
      invariant mine == [FirstTarget(ex, ed)] + GapTargets(ex, ed, i + 1)
    {
      if ed[i + 1].reps > ed[i].reps + 1 {
        var nr := ed[i].reps + 1;
        var c1 := ed[i].weight;
        var c2 := ed[i + 1].weight + WeightStep;
        assert rows + mine + [GapTarget(ex, ed[i], ed[i + 1])] == rows + (mine + [GapTarget(ex, ed[i], ed[i + 1])]);
        out := out + [Target(ex, Min(c1, c2), nr)];
        mine := mine + [GapTarget(ex, ed[i], ed[i + 1])];
      }
    }
    assert rows + mine + [LastTarget(ex, ed)] == rows + (mine + [LastTarget(ex, ed)]);
    out := out + [Target(ex, ed[|ed| - 1].weight, ed[|ed| - 1].reps + 1)];
    mine := mine + [LastTarget(ex, ed)];
  }

  /** `dougs_next_pareto`: the suggestions exercise by exercise, with the
      `1RM` column `add_1rm_column` gives them. */
  method DougsNextPareto(recs: seq<Lift>) returns (out: seq<Row>)
    ensures |out| == |NextTargets(recs)|
    ensures forall i :: 0 <= i < |out| ==> out[i] == WithOneRm(TargetRow(NextTargets(recs)[i]))
  {
    var exs := Unique(Names(recs));
    NamesListed(recs);
    var rows: seq<Target> := [];
    for e := 0 to |exs|
      invariant rows == TargetsFor(recs, exs[..e])
    {
      var ex := exs[e];
      TargetsForStep(recs, exs, e);
      var ed := SortByReps(RecordsOf(recs, ex));
      assert |ed| > 0 by {
        assert |multiset(ed)| == |multiset(RecordsOf(recs, ex))|;
      }
      rows := AppendExerciseTargets(rows, ex, ed);
    }
    assert exs[..|exs|] == exs;
    out := AddOneRmColumn(TargetRows(rows));
  }

  // ----- what the suggestions mean -----

  /** The gap suggestions are exactly one per gap between neighbours. */
  lemma {:induction false} GapTargetsMembers(ex: string, ed: seq<Lift>, n: int, t: Target)
    requires 0 <= n <= |ed|
    ensures t in GapTargets(ex, ed, n) <==>
      exists i :: 0 <= i && i + 1 < n && IsGap(ed[i], ed[i + 1]) && t == GapTarget(ex, ed[i], ed[i + 1])
    decreases n
  {
    if n >= 2 {
      GapTargetsMembers(ex, ed, n - 1, t);
      if t == GapTarget(ex, ed[n - 2], ed[n - 1]) && IsGap(ed[n - 2], ed[n - 1]) {
        assert t in GapTargets(ex, ed, n);
      }
    }
  }

  lemma ExerciseTargetsCases(ex: string, ed: seq<Lift>, t: Target)
    requires ed != [] && t in ExerciseTargets(ex, ed)
    ensures t == FirstTarget(ex, ed) || t in GapTargets(ex, ed, |ed|) || t == LastTarget(ex, ed)
  {
  }

  /** The positions i among the first n records where a gap opens between
      records i and i + 1, in ascending order. */
  predicate GapAt(ed: seq<Lift>, i: int)
  {
    0 <= i && i + 1 < |ed| && IsGap(ed[i], ed[i + 1])
  }

  function GapIndices(ed: seq<Lift>, n: int): (g: seq<int>)
    requires 0 <= n <= |ed|
    ensures forall k :: 0 <= k < |g| ==> GapAt(ed, g[k]) && g[k] + 1 < n
    ensures forall i :: GapAt(ed, i) && i + 1 < n ==> i in g
    ensures forall a, b :: 0 <= a < b < |g| ==> g[a] < g[b]
  {
    if n < 2 then []
    else
      var g := GapIndices(ed, n - 1);
      if IsGap(ed[n - 2], ed[n - 1]) then g + [n - 2] else g
  }

  /** `ts` holds, in order, the suggestion for each gap listed in `g`. */
  ghost predicate OnePerGap(ex: string, ed: seq<Lift>, ts: seq<Target>, g: seq<int>)
  {
    |ts| == |g| &&
    forall k :: 0 <= k < |g| ==>
      0 <= g[k] && g[k] + 1 < |ed| && ts[k] == GapTarget(ex, ed[g[k]], ed[g[k] + 1])
  }

  lemma AppendOneGap(ex: string, ed: seq<Lift>, ts: seq<Target>, g: seq<int>, i: int)
    requires OnePerGap(ex, ed, ts, g) && 0 <= i && i + 1 < |ed|
    ensures OnePerGap(ex, ed, ts + [GapTarget(ex, ed[i], ed[i + 1])], g + [i])
  {
  }

  /** Records of one exercise in rep order that form a strict frontier:
      more reps always means less weight. */
  ghost predicate StrictFrontier(ed: seq<Lift>)
  {
    forall i, j :: 0 <= i < j < |ed| ==> ed[i].reps < ed[j].reps && ed[i].weight > ed[j].weight
  }

  /** On a strict frontier no suggestion is already met: every record with
      at least the suggested reps is lighter than the suggested weight. */
  lemma ExerciseTargetsAreNew(ex: string, ed: seq<Lift>, t: Target, r: Lift)
    requires ed != [] && StrictFrontier(ed)
    requires t in ExerciseTargets(ex, ed) && r in ed
    ensures r.reps >= t.reps ==> r.weight < t.weight
  {
    ExerciseTargetsCases(ex, ed, t);
    if t in GapTargets(ex, ed, |ed|) {
      GapTargetsMembers(ex, ed, |ed|, t);
      var i :| 0 <= i && i + 1 < |ed| && IsGap(ed[i], ed[i + 1]) && t == GapTarget(ex, ed[i], ed[i + 1]);
      GapTargetIsNew(ex, ed, i, r);
    }
  }

  lemma GapTargetIsNew(ex: string, ed: seq<Lift>, i: int, r: Lift)
    requires StrictFrontier(ed) && GapAt(ed, i) && r in ed
    ensures r.reps >= GapTarget(ex, ed[i], ed[i + 1]).reps ==> r.weight < GapTarget(ex, ed[i], ed[i + 1]).weight
  {
    var t := GapTarget(ex, ed[i], ed[i + 1]);
    var k :| 0 <= k < |ed| && ed[k] == r;
    if r.reps >= t.reps {
      assert k > i;
      assert r.weight <= ed[i + 1].weight;
    }
  }

  /** Every suggestion but the single-rep one is one rep past a record, at no
      more than its weight; the single-rep one is a step above the
      lowest-rep record. */
  lemma ExerciseTargetsNear(ex: string, ed: seq<Lift>, t: Target)
    requires ed != [] && t in ExerciseTargets(ex, ed)
    ensures t.exercise == ex
    ensures t == Target(ex, ed[0].weight + WeightStep, 1)
      || exists r :: r in ed && t.reps == r.reps + 1 && t.weight <= r.weight
  {
    ExerciseTargetsCases(ex, ed, t);
    if t in GapTargets(ex, ed, |ed|) {
      GapTargetsMembers(ex, ed, |ed|, t);
      var i :| 0 <= i && i + 1 < |ed| && IsGap(ed[i], ed[i + 1]) && t == GapTarget(ex, ed[i], ed[i + 1]);
      var r := ed[i];
      assert r in ed && t.reps == r.reps + 1 && t.weight <= r.weight;
    } else if t == LastTarget(ex, ed) {
      var r := ed[|ed| - 1];
      assert r in ed && t.reps == r.reps + 1 && t.weight <= r.weight;
    }
  }

  /** On a strict frontier starting at one rep or more, the suggestions come
      in strictly rising rep order. */
  lemma ExerciseTargetsAscend(ex: string, ed: seq<Lift>)
    requires ed != [] && StrictFrontier(ed) && ed[0].reps >= 1
    ensures forall a, b :: 0 <= a < b < |ExerciseTargets(ex, ed)| ==>
      ExerciseTargets(ex, ed)[a].reps < ExerciseTargets(ex, ed)[b].reps
  {
    var gaps := GapTargets(ex, ed, |ed|);
    GapTargetsAscend(ex, ed, |ed|);
    RepsAscendAround(FirstTarget(ex, ed), gaps, LastTarget(ex, ed));
  }

  lemma RepsAscendAround(first: Target, gaps: seq<Target>, last: Target)
    requires forall a :: 0 <= a < |gaps| ==> first.reps < gaps[a].reps < last.reps
    requires forall a, b :: 0 <= a < b < |gaps| ==> gaps[a].reps < gaps[b].reps
    requires first.reps < last.reps
    ensures var ts := [first] + gaps + [last];
      forall a, b :: 0 <= a < b < |ts| ==> ts[a].reps < ts[b].reps
  {
    var ts := [first] + gaps + [last];
    forall a, b | 0 <= a < b < |ts| ensures ts[a].reps < ts[b].reps {
      if a == 0 && b < |ts| - 1 {
        assert ts[b] == gaps[b - 1];
      } else if 0 < a && b < |ts| - 1 {
        assert ts[a] == gaps[a - 1] && ts[b] == gaps[b - 1];
      } else if 0 < a {
        assert ts[a] == gaps[a - 1];
      }
    }
  }

  /** The gap suggestions among the first n records rise in reps and stay
      between the first record's reps and the n-th record's. */
  lemma GapTargetsAscend(ex: string, ed: seq<Lift>, n: int)
    requires 0 <= n <= |ed| && StrictFrontier(ed)
    ensures forall a :: 0 <= a < |GapTargets(ex, ed, n)| ==>
      ed[0].reps < GapTargets(ex, ed, n)[a].reps < ed[n - 1].reps
    ensures forall a, b :: 0 <= a < b < |GapTargets(ex, ed, n)| ==>
      GapTargets(ex, ed, n)[a].reps < GapTargets(ex, ed, n)[b].reps
  {
    var ts, g := GapTargets(ex, ed, n), GapIndices(ed, n);
    forall a | 0 <= a < |ts| ensures ed[0].reps < ts[a].reps < ed[n - 1].reps {
      var i := g[a];
      assert ts[a].reps == ed[i].reps + 1 && IsGap(ed[i], ed[i + 1]) && i + 1 < n;
      assert ed[0].reps <= ed[i].reps && ed[i + 1].reps <= ed[n - 1].reps;
    }
    forall a, b | 0 <= a < b < |ts| ensures ts[a].reps < ts[b].reps {
      assert g[a] < g[b] && g[b] < |ed|;
      assert ts[a].reps == ed[g[a]].reps + 1 && ts[b].reps == ed[g[b]].reps + 1;
    }
  }

  /** The suggestions for `exs` are exactly the suggestions of each of
      those exercises: every one comes from its own exercise's records, and
      every exercise contributes all of its own. */
  lemma {:induction false} TargetsForMembers(recs: seq<Lift>, exs: seq<string>, t: Target)
    requires forall e :: e in exs ==> RecordsOf(recs, e) != []
    ensures t in TargetsFor(recs, exs) <==>
      t.exercise in exs && RecordsOf(recs, t.exercise) != [] &&
      t in ExerciseTargets(t.exercise, SortByReps(RecordsOf(recs, t.exercise)))
  {
    if exs != [] {
      var init, ex := exs[..|exs| - 1], exs[|exs| - 1];
      var ed := SortByReps(RecordsOf(recs, ex));
      assert |ed| > 0 by {
        assert |multiset(ed)| == |multiset(RecordsOf(recs, ex))|;
      }
      assert exs == init + [ex];
      TargetsForMembers(recs, init, t);
    }
  }

  lemma AllTargetsForMembers(recs: seq<Lift>, exs: seq<string>)
    requires forall e :: e in exs ==> RecordsOf(recs, e) != []
    ensures forall t :: t in TargetsFor(recs, exs) <==>
      t.exercise in exs && RecordsOf(recs, t.exercise) != [] &&
      t in ExerciseTargets(t.exercise, SortByReps(RecordsOf(recs, t.exercise)))
  {
    forall t {
      TargetsForMembers(recs, exs, t);
    }
  }

  /** How many suggestions the exercises `exs` get: two each plus one per gap. */
  function SuggestionCount(recs: seq<Lift>, exs: seq<string>): nat
    requires forall e :: e in exs ==> RecordsOf(recs, e) != []
  {
    if exs == [] then 0
    else
      var ed := SortByReps(RecordsOf(recs, exs[|exs| - 1]));
      SuggestionCount(recs, exs[..|exs| - 1]) + 2 + |GapIndices(ed, |ed|)|
  }

  lemma {:induction false} TargetsForCount(recs: seq<Lift>, exs: seq<string>)
    requires forall e :: e in exs ==> RecordsOf(recs, e) != []
    ensures |TargetsFor(recs, exs)| == SuggestionCount(recs, exs)
    ensures |TargetsFor(recs, exs)| >= 2 * |exs|
  {
    if exs != [] {
      var ed := SortByReps(RecordsOf(recs, exs[|exs| - 1]));
      assert |ed| > 0 by {
        assert |multiset(ed)| == |multiset(RecordsOf(recs, exs[|exs| - 1]))|;
      }
      TargetsForCount(recs, exs[..|exs| - 1]);
    }
  }

  /** Every exercise of the records gets its two suggestions plus one per
      gap, and nothing else is suggested. */
  lemma NextTargetsCount(recs: seq<Lift>)
    ensures (NamesListed(recs); |NextTargets(recs)| == SuggestionCount(recs, Unique(Names(recs))))
    ensures |NextTargets(recs)| >= 2 * |Unique(Names(recs))|
  {
    NamesListed(recs);
    TargetsForCount(recs, Unique(Names(recs)));
  }

  /** Filtering keeps the group order. */
  lemma {:induction false} RecordsOfSorted(xs: seq<Lift>, ex: string)
    requires StrictlySorted(xs)
    ensures StrictlySorted(RecordsOf(xs, ex))
  {
    if xs != [] {
      var init := xs[..|xs| - 1];
      RecordsOfSorted(init, ex);
      var last := xs[|xs| - 1];
      forall y | y in RecordsOf(init, ex) ensures KeyLess(y, last) {
        var k :| 0 <= k < |init| && init[k] == y;
      }
    }
  }

  /** The records of one exercise from `highest_weight_per_rep` are, as the
      sort leaves them, a strict frontier. */
  lemma RecordsOfFrontier(cs: seq<Lift>, out: seq<Lift>, ex: string)
    requires IsHighestWeightPerRep(cs, out)
    ensures SortByReps(RecordsOf(out, ex)) == RecordsOf(out, ex)
    ensures StrictFrontier(RecordsOf(out, ex))
  {
    var ed := RecordsOf(out, ex);
    RecordsOfSorted(out, ex);
    LexIrreflexive(ex);
    forall i, j | 0 <= i < j < |ed| ensures ed[i].reps < ed[j].reps && ed[i].weight > ed[j].weight {
      assert KeyLess(ed[i], ed[j]) && ed[i] in ed && ed[j] in ed;
      RecordsTradeOff(cs, out, ed[i], ed[j]);
    }
    SortByRepsOfSorted(ed);
  }

  /** Two records of one exercise: the one with more reps is lighter. */
  lemma RecordsTradeOff(cs: seq<Lift>, out: seq<Lift>, x: Lift, y: Lift)
    requires IsHighestWeightPerRep(cs, out)
    requires x in out && y in out && x.exercise == y.exercise && x.reps < y.reps
    ensures x.weight > y.weight
  {
    var a :| 0 <= a < |out| && out[a] == x;
    var b :| 0 <= b < |out| && out[b] == y;
    LexIrreflexive(x.exercise);
    KeyLessStrict(out[a], out[b]);
    KeyLessStrict(out[b], out[a]);
    assert a < b;
    RecordsFormFrontier(cs, out, a, b);
  }

  /** The point of the suggestions: nothing in the log already achieves
      one. For the records that `highest_weight_per_rep` draws from a log,
      every logged set of the suggestion's exercise with at least its reps
      is lighter than it. */
  lemma NextTargetsAreNew(cs: seq<Lift>, out: seq<Lift>, t: Target, c: Lift)
    requires IsHighestWeightPerRep(cs, out)
    requires t in NextTargets(out) && c in cs && c.exercise == t.exercise
    ensures c.reps >= t.reps ==> c.weight < t.weight
  {
    var ex := t.exercise;
    var ed := RecordsOf(out, ex);
    assert ed != [] && t in ExerciseTargets(ex, SortByReps(ed));
    RecordsOfFrontier(cs, out, ex);
    var r := CoveringRecord(cs, out, c);
    ExerciseTargetsAreNew(ex, ed, t, r);
  }

  /** A record of the lift's own exercise with at least its reps and weight. */
  lemma CoveringRecord(cs: seq<Lift>, out: seq<Lift>, c: Lift) returns (r: Lift)
    requires IsHighestWeightPerRep(cs, out) && c in cs
    ensures r in RecordsOf(out, c.exercise) && r.reps >= c.reps && r.weight >= c.weight
  {
    var i :| 0 <= i < |cs| && cs[i] == c;
    EveryLiftCovered(cs, out, i);
    r :| r in out && r.exercise == c.exercise && r.reps >= c.reps && r.weight >= c.weight;
  }

  // ----- the checks that follow the function in kaiserlift/main.py -----
  // They log "Bench Press" and "Incline Bench Press"; they hold for any two
  // different exercise names.

  lemma RecordsOfStep(recs: seq<Lift>, ex: string)
    requires recs != []
    ensures RecordsOf(recs, ex) == RecordsOf(recs[..|recs| - 1], ex) +
      (if recs[|recs| - 1].exercise == ex then [recs[|recs| - 1]] else [])
  {
  }

  lemma {:induction false} RecordsOfAppend(a: seq<Lift>, b: seq<Lift>, ex: string)
    ensures RecordsOf(a + b, ex) == RecordsOf(a, ex) + RecordsOf(b, ex)
    decreases |b|
  {
    if b == [] {
      assert a + b == a;
    } else {
      var b' := b[..|b| - 1];
      RecordsOfAppend(a, b', ex);
      RecordsOfStep(a + b, ex);
      RecordsOfStep(b, ex);
      assert (a + b)[..|a + b| - 1] == a + b';
      assert (a + b)[|a + b| - 1] == b[|b| - 1];
    }
  }

  lemma {:induction false} RecordsOfAllOf(recs: seq<Lift>, ex: string)
    requires forall r :: r in recs ==> r.exercise == ex
    ensures RecordsOf(recs, ex) == recs
  {
    if recs != [] {
      var init := recs[..|recs| - 1];
      forall r | r in init ensures r.exercise == ex {
        var k :| 0 <= k < |init| && init[k] == r;
        assert recs[k] in recs;
      }
      RecordsOfAllOf(init, ex);
      assert recs[|recs| - 1] in recs;
      SplitLast(recs);
    }
  }

  lemma {:induction false} RecordsOfNoneOf(recs: seq<Lift>, ex: string)
    requires forall r :: r in recs ==> r.exercise != ex
    ensures RecordsOf(recs, ex) == []
  {
    if recs != [] {
      RecordsOfNoneOf(recs[..|recs| - 1], ex);
    }
  }

  lemma {:induction false} UniqueAllSame(xs: seq<string>, x: string)
    requires xs != [] && forall y :: y in xs ==> y == x
    ensures Unique(xs) == [x]
  {
    var init := xs[..|xs| - 1];
    assert xs[|xs| - 1] in xs;
    if init == [] {
      assert xs == [x];
    } else {
      forall y | y in init ensures y == x {
        var k :| 0 <= k < |init| && init[k] == y;
        assert xs[k] in xs;
      }
      UniqueAllSame(init, x);
    }
  }

  lemma TargetsForOne(recs: seq<Lift>, ex: string)
    requires RecordsOf(recs, ex) != []
    ensures TargetsFor(recs, [ex]) == ExerciseTargets(ex, SortByReps(RecordsOf(recs, ex)))
  {
    assert [ex][..0] == [];
  }

  /** For the records of a single exercise, already in rep order, the
      suggestions are those of that exercise. */
  lemma NextTargetsOneExercise(recs: seq<Lift>, ex: string)
    requires recs != [] && RepsAscending(recs)
    requires forall r :: r in recs ==> r.exercise == ex
    ensures NextTargets(recs) == ExerciseTargets(ex, recs)
  {
    UniqueAllSame(Names(recs), ex);
    RecordsOfAllOf(recs, ex);
    SortByRepsOfSorted(recs);
    TargetsForOne(recs, ex);
  }

  /** For the records of one exercise followed by those of another, each
      already in rep order, the suggestions are those of the first exercise
      followed by those of the second. */
  lemma NextTargetsTwoExercises(recs1: seq<Lift>, ex1: string, recs2: seq<Lift>, ex2: string)
    requires ex1 != ex2 && recs1 != [] && recs2 != []
    requires RepsAscending(recs1) && RepsAscending(recs2)
    requires forall r :: r in recs1 ==> r.exercise == ex1
    requires forall r :: r in recs2 ==> r.exercise == ex2
    ensures NextTargets(recs1 + recs2) == ExerciseTargets(ex1, recs1) + ExerciseTargets(ex2, recs2)
  {
    UniqueOfTwo(recs1, ex1, recs2, ex2);
    TargetsForTwo(recs1, ex1, recs2, ex2);
  }

  lemma TargetsForTwo(recs1: seq<Lift>, ex1: string, recs2: seq<Lift>, ex2: string)
    requires ex1 != ex2 && recs1 != [] && recs2 != []
    requires RepsAscending(recs1) && RepsAscending(recs2)
    requires forall r :: r in recs1 ==> r.exercise == ex1
    requires forall r :: r in recs2 ==> r.exercise == ex2
    ensures RecordsOf(recs1 + recs2, ex1) != [] && RecordsOf(recs1 + recs2, ex2) != []
    ensures TargetsFor(recs1 + recs2, [ex1, ex2]) == ExerciseTargets(ex1, recs1) + ExerciseTargets(ex2, recs2)
  {
    var recs := recs1 + recs2;
    RecordsOfTwo(recs1, ex1, recs2, ex2);
    var exs := [ex1, ex2];
    assert TargetsFor(recs, exs[..1]) == ExerciseTargets(ex1, recs1) by {
      assert exs[..1] == [ex1];
      TargetsForOne(recs, ex1);
      SortByRepsOfSorted(recs1);
    }
    assert ExerciseTargets(ex2, SortByReps(RecordsOf(recs, ex2))) == ExerciseTargets(ex2, recs2) by {
      SortByRepsOfSorted(recs2);
    }
    assert exs[..|exs| - 1] == exs[..1];
    assert TargetsFor(recs, exs) == TargetsFor(recs, exs[..1]) + ExerciseTargets(ex2, SortByReps(RecordsOf(recs, ex2)));
  }

  lemma UniqueOfTwo(recs1: seq<Lift>, ex1: string, recs2: seq<Lift>, ex2: string)
    requires ex1 != ex2 && recs1 != [] && recs2 != []
    requires forall r :: r in recs1 ==> r.exercise == ex1
    requires forall r :: r in recs2 ==> r.exercise == ex2
    ensures Unique(Names(recs1 + recs2)) == [ex1, ex2]
  {
    assert Names(recs1 + recs2) == Names(recs1) + Names(recs2);
    forall z | z in Names(recs1) ensures z == ex1 {
      var k :| 0 <= k < |recs1| && Names(recs1)[k] == z;
      assert recs1[k] in recs1;
    }
    forall z | z in Names(recs2) ensures z == ex2 {
      var k :| 0 <= k < |recs2| && Names(recs2)[k] == z;
      assert recs2[k] in recs2;
    }
    UniqueAllSame(Names(recs1), ex1);
    UniqueOfAppend(Names(recs1), Names(recs2), ex1, ex2);
  }

  lemma RecordsOfTwo(recs1: seq<Lift>, ex1: string, recs2: seq<Lift>, ex2: string)
    requires ex1 != ex2
    requires forall r :: r in recs1 ==> r.exercise == ex1
    requires forall r :: r in recs2 ==> r.exercise == ex2
    ensures RecordsOf(recs1 + recs2, ex1) == recs1 && RecordsOf(recs1 + recs2, ex2) == recs2
  {
    RecordsOfAppend(recs1, recs2, ex1);
    RecordsOfAppend(recs1, recs2, ex2);
    RecordsOfAllOf(recs1, ex1);
    RecordsOfNoneOf(recs2, ex1);
    RecordsOfNoneOf(recs1, ex2);
    RecordsOfAllOf(recs2, ex2);
  }

  lemma {:induction false} UniqueOfAppend(xs: seq<string>, ys: seq<string>, x: string, y: string)
    requires Unique(xs) == [x] && x != y && ys != [] && forall z :: z in ys ==> z == y
    ensures Unique(xs + ys) == [x, y]
    decreases |ys|
  {
    var init := ys[..|ys| - 1];
    assert ys[|ys| - 1] in ys;
    if init == [] {
      assert (xs + ys)[..|xs + ys| - 1] == xs;
    } else {
      forall z | z in init ensures z == y {
        var k :| 0 <= k < |init| && init[k] == z;
        assert ys[k] in ys;
      }
      UniqueOfAppend(xs, init, x, y);
      assert (xs + ys)[..|xs + ys| - 1] == xs + init;
    }
  }

  /** Sets of one exercise whose reps never fall from one set to the next. */
  lemma {:induction false} OneExerciseShape(recs: seq<Lift>, ex: string)
    requires forall k :: 0 <= k < |recs| ==> recs[k].exercise == ex
    requires forall k :: 0 < k < |recs| ==> recs[k - 1].reps <= recs[k].reps
    ensures forall r :: r in recs ==> r.exercise == ex
    ensures RepsAscending(recs)
  {
    if recs != [] {
      var init := recs[..|recs| - 1];
      OneExerciseShape(init, ex);
      forall i, j | 0 <= i < j < |recs| ensures recs[i].reps <= recs[j].reps {
        if j < |recs| - 1 {
          assert init[i] == recs[i] && init[j] == recs[j];
        } else if i < j - 1 {
          assert init[i].reps <= init[j - 1].reps;
        }
      }
    }
  }

  /** 100x1 gives 105x1 and 100x2. */
  lemma SingleRecordExample(ex: string)
    ensures NextTargets([Set(ex, 100.0, 1)]) == [Target(ex, 105.0, 1), Target(ex, 100.0, 2)]
  {
    NextTargetsOneExercise([Set(ex, 100.0, 1)], ex);
  }

  /** 100x5 gives 105x1 and 100x6: the reps below the first record are not gaps. */
  lemma FirstRecordAboveOneExample(ex: string)
    ensures NextTargets([Set(ex, 100.0, 5)]) == [Target(ex, 105.0, 1), Target(ex, 100.0, 6)]
  {
    NextTargetsOneExercise([Set(ex, 100.0, 5)], ex);
  }

  /** Two exercises are handled one after the other, in order of appearance. */
  lemma TwoExercisesExample(ex: string, ex2: string)
    requires ex != ex2
    ensures NextTargets([Set(ex, 100.0, 5)] + [Set(ex2, 80.0, 1), Set(ex2, 50.0, 10)])
      == [Target(ex, 105.0, 1), Target(ex, 100.0, 6),
          Target(ex2, 85.0, 1), Target(ex2, 55.0, 2), Target(ex2, 50.0, 11)]
  {
    TwoExercisesLog([Set(ex, 100.0, 5)], ex, [Set(ex2, 80.0, 1), Set(ex2, 50.0, 10)], ex2);
    TwoExercisesTargets(ex, ex2);
  }

  lemma TwoExercisesTargets(ex: string, ex2: string)
    ensures ExerciseTargets(ex, [Set(ex, 100.0, 5)]) + ExerciseTargets(ex2, [Set(ex2, 80.0, 1), Set(ex2, 50.0, 10)])
      == [Target(ex, 105.0, 1), Target(ex, 100.0, 6),
          Target(ex2, 85.0, 1), Target(ex2, 55.0, 2), Target(ex2, 50.0, 11)]
  {
    OneSetTargets(ex);
    TwoSetsTargets(ex2);
  }

  lemma TwoExercisesLog(recs1: seq<Lift>, ex: string, recs2: seq<Lift>, ex2: string)
    requires ex != ex2
    requires recs1 == [Set(ex, 100.0, 5)] && recs2 == [Set(ex2, 80.0, 1), Set(ex2, 50.0, 10)]
    ensures NextTargets(recs1 + recs2) == ExerciseTargets(ex, recs1) + ExerciseTargets(ex2, recs2)
  {
    OneExerciseShape(recs1, ex);
    OneExerciseShape(recs2, ex2);
    NextTargetsTwoExercises(recs1, ex, recs2, ex2);
  }

  lemma OneSetTargets(ex: string)
    ensures ExerciseTargets(ex, [Set(ex, 100.0, 5)]) == [Target(ex, 105.0, 1), Target(ex, 100.0, 6)]
  {
    assert GapTargets(ex, [Set(ex, 100.0, 5)], 1) == [];
  }

  lemma TwoSetsTargets(ex: string)
    ensures ExerciseTargets(ex, [Set(ex, 80.0, 1), Set(ex, 50.0, 10)])
      == [Target(ex, 85.0, 1), Target(ex, 55.0, 2), Target(ex, 50.0, 11)]
  {
    var recs := [Set(ex, 80.0, 1), Set(ex, 50.0, 10)];
    assert GapTargets(ex, recs, 1) == [];
    assert GapTargets(ex, recs, 2) == [Target(ex, 55.0, 2)];
  }

  /** 100x2, 80x5, 75x6 and 50x10 give 105x1, 85x3, 55x7 and 50x11: no gap
      between 5 and 6 reps, and each gap suggestion takes the lighter of its
      two candidates. */
  lemma FrontierGapsExample(ex: string)
    ensures NextTargets([Set(ex, 100.0, 2), Set(ex, 80.0, 5), Set(ex, 75.0, 6), Set(ex, 50.0, 10)])
      == [Target(ex, 105.0, 1), Target(ex, 85.0, 3), Target(ex, 55.0, 7), Target(ex, 50.0, 11)]
  {
    FrontierLog([Set(ex, 100.0, 2), Set(ex, 80.0, 5), Set(ex, 75.0, 6), Set(ex, 50.0, 10)], ex);
    FrontierTargets(ex);
  }

  lemma FrontierLog(recs: seq<Lift>, ex: string)
    requires recs == [Set(ex, 100.0, 2), Set(ex, 80.0, 5), Set(ex, 75.0, 6), Set(ex, 50.0, 10)]
    ensures NextTargets(recs) == ExerciseTargets(ex, recs)
  {
    OneExerciseShape(recs, ex);
    NextTargetsOneExercise(recs, ex);
  }

  lemma FrontierTargets(ex: string)
    ensures ExerciseTargets(ex, [Set(ex, 100.0, 2), Set(ex, 80.0, 5), Set(ex, 75.0, 6), Set(ex, 50.0, 10)])
      == [Target(ex, 105.0, 1), Target(ex, 85.0, 3), Target(ex, 55.0, 7), Target(ex, 50.0, 11)]
  {
    var recs := [Set(ex, 100.0, 2), Set(ex, 80.0, 5), Set(ex, 75.0, 6), Set(ex, 50.0, 10)];
    assert GapTargets(ex, recs, 1) == [];
    assert GapTargets(ex, recs, 2) == [Target(ex, 85.0, 3)];
    assert GapTargets(ex, recs, 3) == [Target(ex, 85.0, 3)];
    assert GapTargets(ex, recs, 4) == [Target(ex, 85.0, 3), Target(ex, 55.0, 7)];
  }
}
