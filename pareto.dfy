/** `highest_weight_per_rep` of kaiserlift/main.py: the personal records of
    a lifting log. Unusable rows are dropped, the heaviest set of every
    (Exercise, Reps) pair is kept (the earliest on ties), and a kept set is
    removed when another kept set of the same exercise has strictly more
    reps and at least its weight. */
module Pareto {
  import opened Numeric
  import opened Frames
  import opened Order

  /** A usable set of the log: the row with Weight a number and Reps
      truncated to an integer, every other column carried along. */
  datatype Lift = Lift(exercise: string, weight: real, reps: int, others: map<string, Cell>)

  /** The cleaning of one row: `to_numeric` on Weight and Reps, `dropna`
      on Exercise, Weight and Reps, then `astype(int)` on Reps. */
  function Clean(row: Row): (l: Option<Lift>)
    ensures l.Some? <==> row.exercise.Some? && row.weight.Num? && row.reps.Num?
    ensures l.Some? ==> (l.value.exercise == row.exercise.value && l.value.weight == row.weight.num
                         && l.value.reps == Trunc(row.reps.num) && l.value.others == row.others)
  {
    if row.exercise.Some? && row.weight.Num? && row.reps.Num? then
      Some(Lift(row.exercise.value, row.weight.num, Trunc(row.reps.num), row.others))
    else None
  }

  /** The cleaned copy of the frame, in row order. */
  function CleanRows(rows: seq<Row>): (cs: seq<Lift>)
    ensures |cs| <= |rows|
    ensures |cs| == |rows| <==> forall i :: 0 <= i < |rows| ==> Clean(rows[i]).Some?
  {
    assert forall i :: 1 <= i < |rows| ==> rows[i] == rows[1..][i - 1];
    if rows == [] then []
    else match Clean(rows[0])
      case Some(l) => [l] + CleanRows(rows[1..])
      case None => CleanRows(rows[1..])
  }

  /** The cleaned frame holds exactly the usable rows. */
  lemma {:induction false} CleanRowsMembers(rows: seq<Row>)
    ensures forall x :: x in CleanRows(rows) <==> exists i :: 0 <= i < |rows| && Clean(rows[i]) == Some(x)
  {
    if rows != [] {
      CleanRowsMembers(rows[1..]);
      forall x | (exists i :: 0 <= i < |rows| && Clean(rows[i]) == Some(x))
        ensures x in CleanRows(rows)
      {
        var i :| 0 <= i < |rows| && Clean(rows[i]) == Some(x);
        if i > 0 {
          assert rows[1..][i - 1] == rows[i];
        }
      }
      forall x | x in CleanRows(rows)
        ensures exists i :: 0 <= i < |rows| && Clean(rows[i]) == Some(x)
      {
        if Clean(rows[0]) != Some(x) {
          var i :| 0 <= i < |rows[1..]| && Clean(rows[1..][i]) == Some(x);
          assert rows[i + 1] == rows[1..][i];
        }
      }
    }
  }

  /** Where row i of the log lands in the cleaned frame: the number of
      usable rows before it. */
  function CleanPos(rows: seq<Row>, i: int): nat
    requires 0 <= i <= |rows|
  {
    |CleanRows(rows[..i])|
  }

  lemma {:induction false} CleanRowsAppend(a: seq<Row>, b: seq<Row>)
    ensures CleanRows(a + b) == CleanRows(a) + CleanRows(b)
  {
    if a != [] {
      assert (a + b)[0] == a[0];
      assert (a + b)[1..] == a[1..] + b;
      CleanRowsAppend(a[1..], b);
      match Clean(a[0])
      case Some(l) =>
        assert CleanRows(a + b) == [l] + CleanRows(a[1..] + b);
      case None =>
        assert CleanRows(a + b) == CleanRows(a[1..] + b);
    } else {
      assert a + b == b;
    }
  }

  /** `dropna` keeps the log order: a usable row sits at its position in
      the cleaned frame, and a later usable row sits further on. */
  lemma CleanRowsInLogOrder(rows: seq<Row>, i: int, j: int)
    requires 0 <= i < j <= |rows| && Clean(rows[i]).Some?
    ensures CleanPos(rows, i) < |CleanRows(rows)|
    ensures CleanRows(rows)[CleanPos(rows, i)] == Clean(rows[i]).value
    ensures CleanPos(rows, i) < CleanPos(rows, j)
  {
    assert rows == rows[..i] + rows[i..];
    CleanRowsAppend(rows[..i], rows[i..]);
    assert rows[i..][0] == rows[i];
    assert CleanRows(rows[i..]) == [Clean(rows[i]).value] + CleanRows(rows[i..][1..]);
    assert rows[..j] == rows[..i] + rows[i..j];
    CleanRowsAppend(rows[..i], rows[i..j]);
    assert rows[i..j][0] == rows[i];
    assert CleanRows(rows[i..j]) == [Clean(rows[i]).value] + CleanRows(rows[i..j][1..]);
  }

  /** Every entry of the cleaned frame comes from a usable row at that position. */
  lemma {:induction false} CleanRowsOrigin(rows: seq<Row>, k: int)
    requires 0 <= k < |CleanRows(rows)|
    ensures exists i :: 0 <= i < |rows| && Clean(rows[i]).Some? && CleanPos(rows, i) == k
  {
    var tail := rows[1..];
    assert rows == [rows[0]] + tail;
    var base := if Clean(rows[0]).Some? then 1 else 0;
    if base == 1 && k == 0 {
      assert rows[..0] == [];
      assert CleanPos(rows, 0) == 0;
    } else {
      CleanRowsOrigin(tail, k - base);
      var i' :| 0 <= i' < |tail| && Clean(tail[i']).Some? && CleanPos(tail, i') == k - base;
      assert rows[..i' + 1] == [rows[0]] + tail[..i'];
      CleanRowsAppend([rows[0]], tail[..i']);
      assert [rows[0]][1..] == [];
      assert CleanPos(rows, i' + 1) == k;
      assert rows[i' + 1] == tail[i'];
    }
  }

  // ----- keys and their order -----

  predicate SameKey(a: Lift, b: Lift)
  {
    a.exercise == b.exercise && a.reps == b.reps
  }

  /** The order of pandas' groups: by Exercise (Python string order), then by Reps. */
  predicate KeyLess(a: Lift, b: Lift)
  {
    LexLess(a.exercise, b.exercise) || (a.exercise == b.exercise && a.reps < b.reps)
  }

  lemma KeyLessStrict(a: Lift, b: Lift)
    ensures KeyLess(a, b) ==> !SameKey(a, b) && !KeyLess(b, a)
  {
    LexIrreflexive(a.exercise);
    LexAsymmetric(a.exercise, b.exercise);
  }

  lemma KeyLessTransitive(a: Lift, b: Lift, c: Lift)
    requires KeyLess(a, b) && KeyLess(b, c)
    ensures KeyLess(a, c)
  {
    if LexLess(a.exercise, b.exercise) && LexLess(b.exercise, c.exercise) {
      LexTransitive(a.exercise, b.exercise, c.exercise);
    }
  }

  lemma KeyLessTotal(a: Lift, b: Lift)
    ensures SameKey(a, b) || KeyLess(a, b) || KeyLess(b, a)
  {
    LexTotal(a.exercise, b.exercise);
  }
  predicate StrictlySorted(xs: seq<Lift>)
  {
    forall i, j :: 0 <= i < j < |xs| ==> KeyLess(xs[i], xs[j])
  }

  // ----- the specification -----

  /** `cs[j]` does not beat `cs[i]` for `idxmax`: it has another key, or it
      is lighter, or it is as heavy and comes later. */
  ghost predicate NoBetter(cs: seq<Lift>, i: int, j: int)
  {
    && 0 <= i < |cs| && 0 <= j < |cs|
    && (SameKey(cs[j], cs[i]) ==> cs[j].weight <= cs[i].weight && (j < i ==> cs[j].weight < cs[i].weight))
  }

  /** `cs[i]` is the set `idxmax` picks for its (Exercise, Reps) pair among
      the first n sets. */
  ghost predicate HeaviestIn(cs: seq<Lift>, n: int, i: int)
  {
    0 <= i < n <= |cs| && forall j :: 0 <= j < n ==> NoBetter(cs, i, j)
  }

  ghost predicate Heaviest(cs: seq<Lift>, i: int)
  {
    HeaviestIn(cs, |cs|, i)
  }

  /** `a` supersedes `b`: same exercise, strictly more reps, at least the
      weight. No set supersedes itself. */
  predicate Supersedes(a: Lift, b: Lift): (r: bool)
    ensures r ==> a != b
  {
    a.exercise == b.exercise && a.reps > b.reps && a.weight >= b.weight
  }

  /** Supersession is a strict order: never both ways, and transitive. */
  lemma SupersedesStrictOrder(a: Lift, b: Lift, c: Lift)
    ensures Supersedes(a, b) ==> !Supersedes(b, a)
    ensures Supersedes(a, b) && Supersedes(b, c) ==> Supersedes(a, c)
  {
  }

  /** Some heaviest set supersedes `cs[i]`. */
  ghost predicate Superseded(cs: seq<Lift>, i: int)
    requires 0 <= i < |cs|
  {
    exists j :: 0 <= j < |cs| && Heaviest(cs, j) && Supersedes(cs[j], cs[i])
  }

  /** `cs[i]` is a personal record. */
  ghost predicate Kept(cs: seq<Lift>, i: int)
  {
    0 <= i < |cs| && Heaviest(cs, i) && !Superseded(cs, i)
  }

  /** `out` is what `highest_weight_per_rep` returns for the cleaned sets
      `cs`: exactly the personal records, in group order. */
  ghost predicate IsHighestWeightPerRep(cs: seq<Lift>, out: seq<Lift>): (r: bool)
    ensures r ==> forall x :: x in out ==> x in cs
    ensures r && cs == [] ==> out == []
  {
    RecordsWithin(cs, out);
    && StrictlySorted(out)
    && (forall x :: x in out ==> exists i :: Kept(cs, i) && x == cs[i])
    && (forall i :: Kept(cs, i) ==> cs[i] in out)
  }

  // ----- the algorithm -----

  /** Indices into `cs` whose sets are in strict key order. */
  ghost predicate SortedIndices(cs: seq<Lift>, idx: seq<nat>)
  {
    && (forall k :: 0 <= k < |idx| ==> idx[k] < |cs|)
    && (forall k, m :: 0 <= k < m < |idx| ==> KeyLess(cs[idx[k]], cs[idx[m]]))
  }

  /** Every entry of `idx` is the heaviest of its key among the first n sets. */
  ghost predicate AllHeaviestIn(cs: seq<Lift>, n: int, idx: seq<nat>)
  {
    forall k :: 0 <= k < |idx| ==> HeaviestIn(cs, n, idx[k])
  }

  /** The key of `cs[i]` has an entry in `idx`. */
  ghost predicate KeyIn(cs: seq<Lift>, idx: seq<nat>, i: int)
  {
    0 <= i < |cs| && exists k :: 0 <= k < |idx| && idx[k] < |cs| && SameKey(cs[idx[k]], cs[i])
  }

  /** Every one of the first n sets has its key among the entries of `idx`. */
  ghost predicate CoversKeys(cs: seq<Lift>, n: int, idx: seq<nat>)
  {
    forall i :: 0 <= i < n ==> KeyIn(cs, idx, i)
  }

  /** `best` lists the heaviest set of every key, each once, in key order. */
  ghost predicate IsHeaviestPerKey(cs: seq<Lift>, best: seq<nat>)
  {
    && SortedIndices(cs, best)
    && (forall k :: 0 <= k < |best| ==> Heaviest(cs, best[k]))
    && (forall i :: Heaviest(cs, i) ==> i in best)
  }

  /** The `groupby(['Exercise', 'Reps'])['Weight'].idxmax()` step: the
      index of the heaviest set of every pair, in group order. */
  method HeaviestPerKey(cs: seq<Lift>) returns (best: seq<nat>)
    ensures IsHeaviestPerKey(cs, best)
  {
    best := [];
    for n := 0 to |cs|
      invariant AllHeaviestIn(cs, n, best)
      invariant SortedIndices(cs, best)
      invariant CoversKeys(cs, n, best)
    {
      var x := cs[n];
      var p := 0;
      while p < |best| && KeyLess(cs[best[p]], x)
        invariant 0 <= p <= |best|
        invariant forall k :: 0 <= k < p ==> KeyLess(cs[best[k]], x)
      {
        p := p + 1;
      }
      ghost var before := best;
      AfterScan(cs, best, x, p);
      if p < |best| && SameKey(cs[best[p]], x) {
        if x.weight > cs[best[p]].weight {
          best := best[p := n];
          ReplaceKeepsInvariant(cs, before, best, n, p);
        } else {
          KeepKeepsInvariant(cs, best, n, p);
        }
      } else {
        best := best[..p] + [n] + best[p..];
        InsertKeepsInvariant(cs, before, best, n, p);
      }
    }
    forall i | Heaviest(cs, i) ensures i in best {
      assert KeyIn(cs, best, i);
      var k :| 0 <= k < |best| && best[k] < |cs| && SameKey(cs[best[k]], cs[i]);
      HeaviestOfKeyUnique(cs, best[k], i);
    }
  }

  /** A key has one heaviest set. */
  lemma HeaviestOfKeyUnique(cs: seq<Lift>, i: int, j: int)
    requires Heaviest(cs, i) && Heaviest(cs, j) && SameKey(cs[i], cs[j])
    ensures i == j
  {
    assert NoBetter(cs, i, j) && NoBetter(cs, j, i);
  }

  /** Where the scan stopped: every earlier entry sorts before `x`, every
      later one after it, and the entry at `p` has its key or sorts after it. */
  lemma AfterScan(cs: seq<Lift>, best: seq<nat>, x: Lift, p: int)
    requires SortedIndices(cs, best)
    requires 0 <= p <= |best|
    requires forall k :: 0 <= k < p ==> KeyLess(cs[best[k]], x)
    requires p < |best| ==> !KeyLess(cs[best[p]], x)
    ensures p < |best| ==> SameKey(cs[best[p]], x) || KeyLess(x, cs[best[p]])
    ensures forall k :: p < k < |best| ==> KeyLess(x, cs[best[k]])
    ensures forall k :: 0 <= k < |best| && k != p ==> !SameKey(cs[best[k]], x)
  {
    if p < |best| {
      KeyLessTotal(cs[best[p]], x);
      forall k | p < k < |best| ensures KeyLess(x, cs[best[k]]) {
        assert KeyLess(cs[best[p]], cs[best[k]]);
        if !SameKey(cs[best[p]], x) {
          KeyLessTransitive(x, cs[best[p]], cs[best[k]]);
        }
      }
    }
    forall k | 0 <= k < |best| && k != p ensures !SameKey(cs[best[k]], x) {
      if k < p {
        KeyLessStrict(cs[best[k]], x);
      } else {
        KeyLessStrict(x, cs[best[k]]);
      }
    }
  }

  /** The step where `cs[n]` meets the entry of its key, at position `p`,
      and is not heavier: nothing changes. */
  lemma KeepKeepsInvariant(cs: seq<Lift>, best: seq<nat>, n: int, p: int)
    requires 0 <= n < |cs| && 0 <= p < |best|
    requires AllHeaviestIn(cs, n, best) && CoversKeys(cs, n, best)
    requires SameKey(cs[best[p]], cs[n]) && cs[n].weight <= cs[best[p]].weight
    requires forall k :: 0 <= k < |best| && k != p ==> !SameKey(cs[best[k]], cs[n])
    ensures AllHeaviestIn(cs, n + 1, best) && CoversKeys(cs, n + 1, best)
  {
    forall k | 0 <= k < |best| ensures HeaviestIn(cs, n + 1, best[k]) {
      assert HeaviestIn(cs, n, best[k]);
      assert NoBetter(cs, best[k], n);
    }
    forall i | 0 <= i < n + 1 ensures KeyIn(cs, best, i) {
      if i == n {
        assert SameKey(cs[best[p]], cs[i]);
      } else {
        assert KeyIn(cs, best, i);
      }
    }
  }

  /** The step where `cs[n]` meets the entry of its key, at position `p`,
      and is heavier: it takes the entry's place. */
  lemma ReplaceKeepsInvariant(cs: seq<Lift>, before: seq<nat>, after: seq<nat>, n: int, p: int)
    requires 0 <= n < |cs| && 0 <= p < |before|
    requires AllHeaviestIn(cs, n, before) && SortedIndices(cs, before) && CoversKeys(cs, n, before)
    requires SameKey(cs[before[p]], cs[n]) && cs[n].weight > cs[before[p]].weight
    requires forall k :: 0 <= k < |before| && k != p ==> !SameKey(cs[before[k]], cs[n])
    requires after == before[p := n]
    ensures AllHeaviestIn(cs, n + 1, after) && SortedIndices(cs, after) && CoversKeys(cs, n + 1, after)
  {
    var b := before[p];
    assert HeaviestIn(cs, n, b);
    forall k | 0 <= k < |after| ensures HeaviestIn(cs, n + 1, after[k]) {
      if k != p {
        assert HeaviestIn(cs, n, before[k]);
        assert NoBetter(cs, after[k], n);
      } else {
        forall j | 0 <= j < n + 1 ensures NoBetter(cs, n, j) {
          if j < n {
            assert NoBetter(cs, b, j);
          }
        }
      }
    }
    forall k, m | 0 <= k < m < |after| ensures KeyLess(cs[after[k]], cs[after[m]]) {
      assert KeyLess(cs[before[k]], cs[before[m]]);
    }
    forall i | 0 <= i < n + 1 ensures KeyIn(cs, after, i) {
      if i == n {
        assert SameKey(cs[after[p]], cs[i]);
      } else {
        assert KeyIn(cs, before, i);
        var k :| 0 <= k < |before| && before[k] < |cs| && SameKey(cs[before[k]], cs[i]);
        assert SameKey(cs[after[k]], cs[i]);
      }
    }
  }

  /** The step where `cs[n]` opens a new key, inserted at position `p`. */
  lemma InsertKeepsInvariant(cs: seq<Lift>, before: seq<nat>, after: seq<nat>, n: int, p: int)
    requires 0 <= n < |cs| && 0 <= p <= |before|
    requires AllHeaviestIn(cs, n, before) && SortedIndices(cs, before) && CoversKeys(cs, n, before)
    requires forall k :: 0 <= k < p ==> KeyLess(cs[before[k]], cs[n])
    requires forall k :: p <= k < |before| ==> KeyLess(cs[n], cs[before[k]])
    requires after == before[..p] + [n] + before[p..]
    ensures AllHeaviestIn(cs, n + 1, after) && SortedIndices(cs, after) && CoversKeys(cs, n + 1, after)
  {
    forall k | 0 <= k < |before| ensures !SameKey(cs[before[k]], cs[n]) {
      if k < p {
        KeyLessStrict(cs[before[k]], cs[n]);
      } else {
        KeyLessStrict(cs[n], cs[before[k]]);
      }
    }
    forall k | 0 <= k < |after| ensures HeaviestIn(cs, n + 1, after[k]) {
      if k != p {
        var k' := if k < p then k else k - 1;
        assert after[k] == before[k'] && HeaviestIn(cs, n, before[k']);
        assert NoBetter(cs, after[k], n);
      } else {
        forall j | 0 <= j < n + 1 ensures NoBetter(cs, n, j) {
          if j < n {
            assert KeyIn(cs, before, j);
          }
        }
      }
    }
    forall k, m | 0 <= k < m < |after| ensures KeyLess(cs[after[k]], cs[after[m]]) {
      if k < p && m < p {
        assert KeyLess(cs[before[k]], cs[before[m]]);
      } else if k > p {
        assert KeyLess(cs[before[k - 1]], cs[before[m - 1]]);
      } else if k < p && m > p {
        assert KeyLess(cs[before[k]], cs[before[m - 1]]);
      }
    }
    forall i | 0 <= i < n + 1 ensures KeyIn(cs, after, i) {
      if i == n {
        assert after[p] == n;
      } else {
        assert KeyIn(cs, before, i);
        var k :| 0 <= k < |before| && before[k] < |cs| && SameKey(cs[before[k]], cs[i]);
        var k' := if k < p then k else k + 1;
        assert after[k'] == before[k];
      }
    }
  }

  /** Supersession can be checked among the heaviest sets alone, the
      `max_weight_sets` frame of the source. */
  lemma SupersededAmongBest(cs: seq<Lift>, best: seq<nat>, i: int)
    requires IsHeaviestPerKey(cs, best) && 0 <= i < |cs|
    ensures Superseded(cs, i) <==> exists m :: 0 <= m < |best| && Supersedes(cs[best[m]], cs[i])
  {
    if Superseded(cs, i) {
      var j :| 0 <= j < |cs| && Heaviest(cs, j) && Supersedes(cs[j], cs[i]);
      assert j in best;
      var m :| 0 <= m < |best| && best[m] == j;
    }
    if exists m :: 0 <= m < |best| && Supersedes(cs[best[m]], cs[i]) {
      var m :| 0 <= m < |best| && Supersedes(cs[best[m]], cs[i]);
      assert Heaviest(cs, best[m]);
    }
  }

  /** `highest_weight_per_rep`: the personal records among the usable rows
      of `rows`, in (Exercise, Reps) order. */
  method HighestWeightPerRep(rows: seq<Row>) returns (out: seq<Lift>)
    ensures IsHighestWeightPerRep(CleanRows(rows), out)
  {
    var cs := CleanRows(rows);
    if |cs| == 0 {
      return [];
    }
    var best := HeaviestPerKey(cs);
    out := [];
    ghost var src: seq<nat> := [];
    for k := 0 to |best|
      invariant Filtered(cs, best, k, src, out)
    {
      var superseded := false;
      for j := 0 to |best|
        invariant superseded <==> exists m :: 0 <= m < j && Supersedes(cs[best[m]], cs[best[k]])
      {
        if Supersedes(cs[best[j]], cs[best[k]]) {
          superseded := true;
        }
      }
      KeptIffNotSuperseded(cs, best, k);
      if !superseded {
        FilterKeep(cs, best, k, src, out);
        out := out + [cs[best[k]]];
        src := src + [k];
      } else {
        FilterSkip(cs, best, k, src, out);
      }
    }
    FilterMeetsSpec(cs, best, src, out);
  }

  /** The filter loop after k entries of `best`: `out` holds, in order, the
      records among them; `src` says where in `best` each came from. */
  ghost predicate Filtered(cs: seq<Lift>, best: seq<nat>, k: int, src: seq<nat>, out: seq<Lift>)
  {
    && IsHeaviestPerKey(cs, best) && 0 <= k <= |best| && |src| == |out|
    && (forall m :: 0 <= m < |src| ==> src[m] < k && out[m] == cs[best[src[m]]] && Kept(cs, best[src[m]]))
    && (forall m, m' :: 0 <= m < m' < |src| ==> src[m] < src[m'])
    && (forall k' :: 0 <= k' < k && Kept(cs, best[k']) ==> cs[best[k']] in out)
  }

  /** An entry of `best` is a record exactly when no entry of `best`
      supersedes it. */
  lemma KeptIffNotSuperseded(cs: seq<Lift>, best: seq<nat>, k: int)
    requires IsHeaviestPerKey(cs, best) && 0 <= k < |best|
    ensures Kept(cs, best[k]) <==> !exists m :: 0 <= m < |best| && Supersedes(cs[best[m]], cs[best[k]])
  {
    SupersededAmongBest(cs, best, best[k]);
  }

  /** The filter loop steps past an entry that is not a record. */
  lemma FilterSkip(cs: seq<Lift>, best: seq<nat>, k: int, src: seq<nat>, out: seq<Lift>)
    requires Filtered(cs, best, k, src, out) && k < |best| && !Kept(cs, best[k])
    ensures Filtered(cs, best, k + 1, src, out)
  {
    forall k' | 0 <= k' < k + 1 && Kept(cs, best[k']) ensures cs[best[k']] in out {
      assert k' != k;
    }
  }

  /** The filter loop appends an entry that is a record. */
  lemma FilterKeep(cs: seq<Lift>, best: seq<nat>, k: int, src: seq<nat>, out: seq<Lift>)
    requires Filtered(cs, best, k, src, out) && k < |best| && Kept(cs, best[k])
    ensures Filtered(cs, best, k + 1, src + [k], out + [cs[best[k]]])
  {
    var src', out' := src + [k], out + [cs[best[k]]];
    forall m | 0 <= m < |src'|
      ensures src'[m] < k + 1 && out'[m] == cs[best[src'[m]]] && Kept(cs, best[src'[m]])
    {
      if m < |src| {
        assert src'[m] == src[m] && out'[m] == out[m];
      }
    }
    forall m, m' | 0 <= m < m' < |src'| ensures src'[m] < src'[m'] {
      if m' < |src| {
        assert src'[m] == src[m] && src'[m'] == src[m'];
      } else {
        assert src'[m] == src[m];
      }
    }
    forall k' | 0 <= k' < k + 1 && Kept(cs, best[k']) ensures cs[best[k']] in out' {
      if k' < k {
        assert cs[best[k']] in out;
      } else {
        assert out'[|out|] == cs[best[k]];
      }
    }
  }

  /** What the filter loop leaves behind is the specified result. */
  lemma FilterMeetsSpec(cs: seq<Lift>, best: seq<nat>, src: seq<nat>, out: seq<Lift>)
    requires Filtered(cs, best, |best|, src, out)
    ensures IsHighestWeightPerRep(cs, out)
  {
    forall a, b | 0 <= a < b < |out| ensures KeyLess(out[a], out[b]) {
      assert KeyLess(cs[best[src[a]]], cs[best[src[b]]]);
    }
    forall x | x in out ensures exists i :: Kept(cs, i) && x == cs[i] {
      var m :| 0 <= m < |out| && out[m] == x;
      assert Kept(cs, best[src[m]]);
    }
    forall i | Kept(cs, i) ensures cs[i] in out {
      assert i in best;
      var k :| 0 <= k < |best| && best[k] == i;
    }
  }

  // ----- what the result means -----

  /** Two strictly sorted lists with the same members are equal. */
  lemma {:induction false} SortedSameMembersEqual(xs: seq<Lift>, ys: seq<Lift>)
    requires StrictlySorted(xs) && StrictlySorted(ys)
    requires forall x :: x in xs <==> x in ys
    ensures xs == ys
    decreases |xs|
  {
    MembersOfEmpty(xs, ys);
    MembersOfEmpty(ys, xs);
    if xs != [] {
      SameHead(xs, ys);
      SameTailMembers(xs, ys);
      TailSorted(xs);
      TailSorted(ys);
      SortedSameMembersEqual(xs[1..], ys[1..]);
      assert xs == [xs[0]] + xs[1..] && ys == [ys[0]] + ys[1..];
    }
  }

  lemma TailSorted(xs: seq<Lift>)
    requires xs != [] && StrictlySorted(xs)
    ensures StrictlySorted(xs[1..])
  {
    var t := xs[1..];
    forall i, j | 0 <= i < j < |t| ensures KeyLess(t[i], t[j]) {
      assert t[i] == xs[i + 1] && t[j] == xs[j + 1];
    }
  }

  /** Two non-empty strictly sorted lists with the same members start alike. */
  lemma SameHead(xs: seq<Lift>, ys: seq<Lift>)
    requires xs != [] && ys != [] && StrictlySorted(xs) && StrictlySorted(ys)
    requires forall x :: x in xs <==> x in ys
    ensures xs[0] == ys[0]
  {
    assert xs[0] in xs && ys[0] in ys;
    var i :| 0 <= i < |xs| && xs[i] == ys[0];
    var j :| 0 <= j < |ys| && ys[j] == xs[0];
    assert i == 0 || KeyLess(xs[0], xs[i]);
    assert j == 0 || KeyLess(ys[0], ys[j]);
    KeyLessStrict(xs[0], ys[0]);
  }

  lemma SameTailMembers(xs: seq<Lift>, ys: seq<Lift>)
    requires xs != [] && ys != [] && StrictlySorted(xs) && StrictlySorted(ys)
    requires forall x :: x in xs <==> x in ys
    requires xs[0] == ys[0]
    ensures forall x :: x in xs[1..] <==> x in ys[1..]
  {
    forall x ensures x in xs[1..] <==> x in ys[1..] {
      if x in xs[1..] {
        var i :| 1 <= i < |xs| && xs[i] == x;
        KeyLessStrict(xs[0], xs[i]);
        assert x in ys && x != ys[0];
      }
      if x in ys[1..] {
        var j :| 1 <= j < |ys| && ys[j] == x;
        KeyLessStrict(ys[0], ys[j]);
        assert x in xs && x != xs[0];
      }
    }
  }

  lemma MembersOfEmpty(xs: seq<Lift>, ys: seq<Lift>)
    requires forall x :: x in xs <==> x in ys
    ensures xs == [] ==> ys == []
  {
    if ys != [] {
      assert ys[0] in ys;
    }
  }

  /** The personal records of a log are determined: any two results agree. */
  lemma HighestWeightPerRepUnique(cs: seq<Lift>, out1: seq<Lift>, out2: seq<Lift>)
    requires IsHighestWeightPerRep(cs, out1) && IsHighestWeightPerRep(cs, out2)
    ensures out1 == out2
  {
    forall x ensures x in out1 <==> x in out2 {
      if x in out1 {
        var i :| Kept(cs, i) && x == cs[i];
      }
      if x in out2 {
        var i :| Kept(cs, i) && x == cs[i];
      }
    }
    SortedSameMembersEqual(out1, out2);
  }

  /** Within an exercise the records come in rising reps and strictly falling
      weight: each record trades weight for reps, and no two share a rep count. */
  lemma RecordsFormFrontier(cs: seq<Lift>, out: seq<Lift>, a: int, b: int)
    requires IsHighestWeightPerRep(cs, out)
    requires 0 <= a < b < |out| && out[a].exercise == out[b].exercise
    ensures out[a].reps < out[b].reps && out[a].weight > out[b].weight
  {
    assert KeyLess(out[a], out[b]);
    LexIrreflexive(out[a].exercise);
    assert out[a] in out && out[b] in out;
    var i :| Kept(cs, i) && out[a] == cs[i];
    var j :| Kept(cs, j) && out[b] == cs[j];
    assert !Supersedes(cs[j], cs[i]);
  }

  /** The heaviest set of the key of `cs[i]` among the first n sets exists. */
  lemma {:induction false} HeaviestExists(cs: seq<Lift>, n: int, i: int) returns (h: int)
    requires 0 <= i < n <= |cs|
    ensures HeaviestIn(cs, n, h) && SameKey(cs[h], cs[i])
    decreases n
  {
    var last := n - 1;
    if !exists j :: 0 <= j < last && SameKey(cs[j], cs[i]) {
      assert SameKey(cs[i], cs[i]);
      h := last;
      forall j | 0 <= j < n ensures NoBetter(cs, h, j) {
        if j < last { assert !SameKey(cs[j], cs[i]); }
      }
    } else {
      var j0 :| 0 <= j0 < last && SameKey(cs[j0], cs[i]);
      var h' := HeaviestExists(cs, last, j0);
      if SameKey(cs[last], cs[i]) && cs[last].weight > cs[h'].weight {
        h := last;
        forall j | 0 <= j < n ensures NoBetter(cs, h, j) {
          if j < last { assert NoBetter(cs, h', j); }
        }
      } else {
        h := h';
        forall j | 0 <= j < n ensures NoBetter(cs, h, j) {
          if j < last { assert NoBetter(cs, h', j); }
        }
      }
    }
  }

  /** The most reps of any set. */
  function MaxReps(cs: seq<Lift>): (m: int)
    ensures forall i :: 0 <= i < |cs| ==> cs[i].reps <= m
  {
    if cs == [] then 0
    else
      var rest := MaxReps(cs[1..]);
      assert forall i :: 1 <= i < |cs| ==> cs[i] == cs[1..][i - 1];
      if cs[0].reps > rest then cs[0].reps else rest
  }

  /** Following supersession from a heaviest set ends at a record that is at
      least as heavy, with at least as many reps. */
  lemma {:induction false} ClimbToRecord(cs: seq<Lift>, i: int) returns (k: int)
    requires 0 <= i < |cs| && Heaviest(cs, i)
    ensures Kept(cs, k) && cs[k].exercise == cs[i].exercise
    ensures cs[k].reps >= cs[i].reps && cs[k].weight >= cs[i].weight
    decreases MaxReps(cs) - cs[i].reps
  {
    if Superseded(cs, i) {
      var j :| 0 <= j < |cs| && Heaviest(cs, j) && Supersedes(cs[j], cs[i]);
      k := ClimbToRecord(cs, j);
    } else {
      k := i;
    }
  }

  /** Nothing logged is lost: every usable set is matched or beaten, in both
      weight and reps, by a record of its exercise. */
  lemma EveryLiftCovered(cs: seq<Lift>, out: seq<Lift>, i: int)
    requires IsHighestWeightPerRep(cs, out) && 0 <= i < |cs|
    ensures exists r :: r in out && r.exercise == cs[i].exercise && r.reps >= cs[i].reps && r.weight >= cs[i].weight
  {
    var h := HeaviestExists(cs, |cs|, i);
    assert NoBetter(cs, h, i);
    var k := ClimbToRecord(cs, h);
    assert cs[k] in out;
  }

  /** Every record is a usable row of the log, unchanged but for Reps
      truncated to an integer. */
  lemma {:induction false} RecordsComeFromLog(rows: seq<Row>, out: seq<Lift>, x: Lift)
    requires IsHighestWeightPerRep(CleanRows(rows), out) && x in out
    ensures exists i :: 0 <= i < |rows| && Clean(rows[i]) == Some(x)
  {
    var cs := CleanRows(rows);
    var i :| Kept(cs, i) && x == cs[i];
    assert x in cs;
    CleanRowsMembers(rows);
  }

  /** Records picked among the kept sets are cleaned sets, and there are
      none when there are no cleaned sets. */
  lemma RecordsWithin(cs: seq<Lift>, out: seq<Lift>)
    ensures (forall x :: x in out ==> exists i :: Kept(cs, i) && x == cs[i]) ==>
      (forall x :: x in out ==> x in cs) && (cs == [] ==> out == [])
  {
    if forall x :: x in out ==> exists i :: Kept(cs, i) && x == cs[i] {
      forall x | x in out ensures x in cs {
        var i :| Kept(cs, i) && x == cs[i];
      }
      WithinEmpty(out, cs);
    }
  }

  lemma WithinEmpty(xs: seq<Lift>, ys: seq<Lift>)
    requires forall x :: x in xs ==> x in ys
    ensures ys == [] ==> xs == []
  {
    if xs != [] {
      assert xs[0] in xs;
    }
  }

  /** Every record is the heaviest set of its (Exercise, Reps) pair, and
      the first of them when several are as heavy. */
  lemma RecordIsHeaviestOfItsKey(cs: seq<Lift>, out: seq<Lift>, x: Lift)
    requires IsHighestWeightPerRep(cs, out) && x in out
    ensures exists i ::
              0 <= i < |cs| && cs[i] == x &&
              forall j :: 0 <= j < |cs| && SameKey(cs[j], x) ==>
                cs[j].weight <= x.weight && (j < i ==> cs[j].weight < x.weight)
  {
    var i :| Kept(cs, i) && x == cs[i];
    forall j | 0 <= j < |cs| && SameKey(cs[j], x)
      ensures cs[j].weight <= x.weight && (j < i ==> cs[j].weight < x.weight)
    {
      assert NoBetter(cs, i, j);
    }
  }

  /** The same on the log itself: a record comes from one usable row, no
      usable row of its pair is heavier, and every earlier one is lighter,
      as `idxmax` picks the first row seen. */
  lemma {:induction false} RecordIsFirstHeaviestInLog(rows: seq<Row>, out: seq<Lift>, x: Lift)
    requires IsHighestWeightPerRep(CleanRows(rows), out) && x in out
    ensures exists i ::
              0 <= i < |rows| && Clean(rows[i]) == Some(x) &&
              forall j :: 0 <= j < |rows| && Clean(rows[j]).Some? && SameKey(Clean(rows[j]).value, x) ==>
                Clean(rows[j]).value.weight <= x.weight && (j < i ==> Clean(rows[j]).value.weight < x.weight)
  {
    var cs := CleanRows(rows);
    var k :| Kept(cs, k) && x == cs[k];
    CleanRowsOrigin(rows, k);
    var i :| 0 <= i < |rows| && Clean(rows[i]).Some? && CleanPos(rows, i) == k;
    CleanRowsInLogOrder(rows, i, |rows|);
    forall j | 0 <= j < |rows| && Clean(rows[j]).Some? && SameKey(Clean(rows[j]).value, x)
      ensures Clean(rows[j]).value.weight <= x.weight && (j < i ==> Clean(rows[j]).value.weight < x.weight)
    {
      var m := CleanPos(rows, j);
      if j < i {
        CleanRowsInLogOrder(rows, j, i);
      } else {
        CleanRowsInLogOrder(rows, j, |rows|);
      }
      assert NoBetter(cs, k, m);
    }
  }

  /** No two records share an (Exercise, Reps) pair. */
  lemma OneRecordPerKey(cs: seq<Lift>, out: seq<Lift>, a: int, b: int)
    requires IsHighestWeightPerRep(cs, out) && 0 <= a < b < |out|
    ensures !SameKey(out[a], out[b])
  {
    KeyLessStrict(out[a], out[b]);
  }

  /** A heaviest set that is not a record is superseded by a record. */
  lemma DroppedSupersededByRecord(cs: seq<Lift>, out: seq<Lift>, i: int)
    requires IsHighestWeightPerRep(cs, out) && 0 <= i < |cs| && Heaviest(cs, i) && cs[i] !in out
    ensures exists r :: r in out && Supersedes(r, cs[i])
  {
    var j :| 0 <= j < |cs| && Heaviest(cs, j) && Supersedes(cs[j], cs[i]);
    var k := ClimbToRecord(cs, j);
    assert cs[k] in out && Supersedes(cs[k], cs[i]);
  }

  /** A record's row as the frame holds it: Reps back as a number. */
  function ToRow(l: Lift): (r: Row)
    ensures Clean(r) == Some(l)
  {
    TruncOfInt(l.reps);
    Row(Some(l.exercise), Num(l.weight), Num(l.reps as real), l.others)
  }

  function ToRows(ls: seq<Lift>): (rs: seq<Row>)
    ensures |rs| == |ls| && forall i :: 0 <= i < |ls| ==> rs[i] == ToRow(ls[i])
  {
    if ls == [] then [] else [ToRow(ls[0])] + ToRows(ls[1..])
  }

  /** Cleaning the rows of usable sets gives the sets back. */
  lemma {:induction false} CleanToRows(ls: seq<Lift>)
    ensures CleanRows(ToRows(ls)) == ls
  {
    if ls != [] {
      CleanToRows(ls[1..]);
      assert ToRows(ls)[1..] == ToRows(ls[1..]);
    }
  }

  /** The records of a list of records are the list itself. */
  lemma RecordsAreTheirOwnRecords(cs: seq<Lift>, out: seq<Lift>)
    requires IsHighestWeightPerRep(cs, out)
    ensures IsHighestWeightPerRep(out, out)
  {
    forall i | 0 <= i < |out| ensures Kept(out, i) {
      forall j | 0 <= j < |out| ensures NoBetter(out, i, j) {
        if j < i { KeyLessStrict(out[j], out[i]); }
        if i < j { KeyLessStrict(out[i], out[j]); }
      }
      forall j | 0 <= j < |out| && out[j].exercise == out[i].exercise ensures !Supersedes(out[j], out[i]) {
        if j < i {
          RecordsFormFrontier(cs, out, j, i);
        } else if i < j {
          RecordsFormFrontier(cs, out, i, j);
        }
      }
    }
    forall x | x in out ensures exists i :: Kept(out, i) && x == out[i] {
      var k :| 0 <= k < |out| && out[k] == x;
      assert Kept(out, k);
    }
  }

  /** `highest_weight_per_rep` is idempotent: run on its own result it
      returns that result. */
  lemma HighestWeightPerRepIdempotent(rows: seq<Row>, out: seq<Lift>, again: seq<Lift>)
    requires IsHighestWeightPerRep(CleanRows(rows), out)
    requires IsHighestWeightPerRep(CleanRows(ToRows(out)), again)
    ensures again == out
  {
    CleanToRows(out);
    RecordsAreTheirOwnRecords(CleanRows(rows), out);
    HighestWeightPerRepUnique(out, out, again);
  }

  // ----- the checks that follow the function in kaiserlift/main.py -----
  // They log "Bench Press"; they hold for every exercise name.

  function SetRow(ex: string, weight: real, reps: int): Row
  {
    Row(Some(ex), Num(weight), Num(reps as real), map[])
  }

  function Set(ex: string, weight: real, reps: int): Lift
  {
    Lift(ex, weight, reps, map[])
  }

  /** Sets of pairwise different keys are each the heaviest of their key. */
  lemma DistinctKeysAllHeaviest(cs: seq<Lift>)
    requires forall i, j :: 0 <= i < j < |cs| ==> !SameKey(cs[i], cs[j])
    ensures forall i :: 0 <= i < |cs| ==> Heaviest(cs, i)
  {
    forall i | 0 <= i < |cs| ensures Heaviest(cs, i) {
      forall j | 0 <= j < |cs| ensures NoBetter(cs, i, j) {
        if j < i { assert !SameKey(cs[j], cs[i]); }
      }
    }
  }

  /** 100x1 alone is its own record. */
  lemma SingleSetExample(ex: string, out: seq<Lift>)
    requires IsHighestWeightPerRep(CleanRows([SetRow(ex, 100.0, 1)]), out)
    ensures out == [Set(ex, 100.0, 1)]
  {
    var cs := [Set(ex, 100.0, 1)];
    assert [SetRow(ex, 100.0, 1)] == ToRows(cs);
    CleanToRows(cs);
    DistinctKeysAllHeaviest(cs);
    assert Kept(cs, 0);
    HighestWeightPerRepUnique(cs, out, cs);
  }

  /** 90x5 is dropped in favour of 100x10. */
  lemma SupersededSetExample(ex: string, out: seq<Lift>)
    requires IsHighestWeightPerRep(CleanRows([SetRow(ex, 100.0, 10), SetRow(ex, 90.0, 5)]), out)
    ensures out == [Set(ex, 100.0, 10)]
  {
    var cs := [Set(ex, 100.0, 10), Set(ex, 90.0, 5)];
    assert [SetRow(ex, 100.0, 10), SetRow(ex, 90.0, 5)] == ToRows(cs);
    CleanToRows(cs);
    var expected := [Set(ex, 100.0, 10)];
    DistinctKeysAllHeaviest(cs);
    assert Kept(cs, 0);
    assert !Kept(cs, 1) by {
      assert Supersedes(cs[0], cs[1]);
    }
    HighestWeightPerRepUnique(cs, out, expected);
  }

  /** Of 100x10, 90x15, 100x5, 95x3 and 110x1 the records are 110x1, 100x10
      and 90x15. */
  lemma FrontierExample(ex: string, out: seq<Lift>)
    requires IsHighestWeightPerRep(CleanRows([SetRow(ex, 100.0, 10), SetRow(ex, 90.0, 15),
      SetRow(ex, 100.0, 5), SetRow(ex, 95.0, 3), SetRow(ex, 110.0, 1)]), out)
    ensures out == [Set(ex, 110.0, 1), Set(ex, 100.0, 10), Set(ex, 90.0, 15)]
  {
    var cs := [Set(ex, 100.0, 10), Set(ex, 90.0, 15), Set(ex, 100.0, 5), Set(ex, 95.0, 3), Set(ex, 110.0, 1)];
    assert [SetRow(ex, 100.0, 10), SetRow(ex, 90.0, 15),
      SetRow(ex, 100.0, 5), SetRow(ex, 95.0, 3), SetRow(ex, 110.0, 1)] == ToRows(cs);
    CleanToRows(cs);
    FrontierRecords(ex, cs);
    HighestWeightPerRepUnique(cs, out, [Set(ex, 110.0, 1), Set(ex, 100.0, 10), Set(ex, 90.0, 15)]);
  }

  lemma FrontierRecords(ex: string, cs: seq<Lift>)
    requires cs == [Set(ex, 100.0, 10), Set(ex, 90.0, 15), Set(ex, 100.0, 5), Set(ex, 95.0, 3), Set(ex, 110.0, 1)]
    ensures IsHighestWeightPerRep(cs, [Set(ex, 110.0, 1), Set(ex, 100.0, 10), Set(ex, 90.0, 15)])
  {
    var expected := [Set(ex, 110.0, 1), Set(ex, 100.0, 10), Set(ex, 90.0, 15)];
    DistinctKeysAllHeaviest(cs);
    assert Kept(cs, 0) && Kept(cs, 1) && Kept(cs, 4);
    assert Supersedes(cs[0], cs[2]) && Supersedes(cs[0], cs[3]);
    assert StrictlySorted(expected) by {
      LexIrreflexive(ex);
    }
    forall i | Kept(cs, i) ensures cs[i] in expected {
      assert i != 2 && i != 3;
    }
  }
}
