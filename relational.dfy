/** The row-set operations of the pipeline, as functions of the rows they
    read: the WHERE/HAVING filter, the cross product and ON filter of a
    join, and array_slice for LIMIT. The engine's methods are proved equal
    to these. */
module Relational {
  import opened Wrappers
  import opened Strings
  import opened Values
  import opened Assoc
  import opened Rows
  import opened Expr

  // ---------------------------------------------------------------------
  // Keeping the rows a verdict allows

  /** The rows whose verdict is true, in their original order. */
  function Filter<T>(xs: seq<T>, keep: seq<bool>): (r: seq<T>)
    requires |keep| == |xs|
    ensures |r| <= |xs|
  {
    if xs == [] then []
    else
      var n := |xs| - 1;
      Filter(xs[..n], keep[..n]) + (if keep[n] then [xs[n]] else [])
  }

  /** The positions a verdict keeps, in increasing order. */
  function KeptIndices(keep: seq<bool>): (r: seq<nat>)
    ensures forall j :: 0 <= j < |r| ==> r[j] < |keep| && keep[r[j]]
    ensures forall j, k :: 0 <= j < k < |r| ==> r[j] < r[k]
  {
    if keep == [] then []
    else
      var n := |keep| - 1;
      KeptIndices(keep[..n]) + (if keep[n] then [n] else [])
  }

  /** Every kept position is listed. */
  lemma {:induction false} KeptIndicesComplete(keep: seq<bool>, i: nat)
    requires i < |keep| && keep[i]
    ensures i in KeptIndices(keep)
  {
    var n := |keep| - 1;
    if i < n {
      KeptIndicesComplete(keep[..n], i);
    }
  }

  /** The filter picks exactly the kept positions, in order. */
  lemma {:induction false} FilterPicksKept<T>(xs: seq<T>, keep: seq<bool>)
    requires |keep| == |xs|
    ensures |Filter(xs, keep)| == |KeptIndices(keep)|
    ensures forall j :: 0 <= j < |Filter(xs, keep)| ==> Filter(xs, keep)[j] == xs[KeptIndices(keep)[j]]
  {
    if xs != [] {
      var n := |xs| - 1;
      FilterPicksKept(xs[..n], keep[..n]);
    }
  }

  lemma {:induction false} FilterAll<T>(xs: seq<T>, keep: seq<bool>)
    requires |keep| == |xs| && forall i :: 0 <= i < |keep| ==> keep[i]
    ensures Filter(xs, keep) == xs
  {
    if xs != [] {
      var n := |xs| - 1;
      FilterAll(xs[..n], keep[..n]);
      assert xs[..n] + [xs[n]] == xs;
    }
  }

  // ---------------------------------------------------------------------
  // Evaluating a condition on every row

  /** The condition's value on each row, left to right; the first row whose
      evaluation fails decides the error. */
  function Evaluations(ctx: Ctx, cond: seq<Node>, t: Table): (r: Result<seq<Value>>)
    ensures r.Ok? ==> |r.value| == |t| && forall i :: 0 <= i < |t| ==> Eval(ctx, cond, t[i]) == Ok(r.value[i])
    ensures r.Err? ==> exists i :: (0 <= i < |t| && Eval(ctx, cond, t[i]) == Err(r.error)
                                    && forall j :: 0 <= j < i ==> Eval(ctx, cond, t[j]).Ok?)
  {
    if t == [] then Ok([])
    else
      var n := |t| - 1;
      var prev := Evaluations(ctx, cond, t[..n]);
      EvaluationsStep(ctx, cond, t[..n], t[n], t, prev);
      var vs :- prev;
      var v :- Eval(ctx, cond, t[n]);
      Ok(vs + [v])
  }

  lemma EvaluationsStep(ctx: Ctx, cond: seq<Node>, init: Table, last: Row, t: Table, prev: Result<seq<Value>>)
    requires t == init + [last]
    requires prev.Ok? ==> |prev.value| == |init|
                          && forall i :: 0 <= i < |init| ==> Eval(ctx, cond, init[i]) == Ok(prev.value[i])
    requires prev.Err? ==> exists i :: (0 <= i < |init| && Eval(ctx, cond, init[i]) == Err(prev.error)
                                        && forall j :: 0 <= j < i ==> Eval(ctx, cond, init[j]).Ok?)
    ensures prev.Ok? ==> forall i :: 0 <= i < |init| ==> Eval(ctx, cond, t[i]) == Ok(prev.value[i])
    ensures prev.Err? ==> exists i :: (0 <= i < |init| && Eval(ctx, cond, t[i]) == Err(prev.error)
                                       && forall j :: 0 <= j < i ==> Eval(ctx, cond, t[j]).Ok?)
  {
    if prev.Ok? {
      forall i | 0 <= i < |init| ensures Eval(ctx, cond, t[i]) == Ok(prev.value[i]) {
        assert init[i] == t[i];
      }
    } else {
      var i :| 0 <= i < |init| && Eval(ctx, cond, init[i]) == Err(prev.error)
               && forall j :: 0 <= j < i ==> Eval(ctx, cond, init[j]).Ok?;
      assert init[i] == t[i];
      forall j | 0 <= j < i ensures Eval(ctx, cond, t[j]).Ok? {
        assert init[j] == t[j];
      }
    }
  }

  /** One more row evaluated: the first error stays, a new one is reported,
      otherwise the row's value is appended. */
  lemma EvaluationsSnoc(ctx: Ctx, cond: seq<Node>, t: Table, x: Row)
    ensures Evaluations(ctx, cond, t).Err? ==> Evaluations(ctx, cond, t + [x]) == Evaluations(ctx, cond, t)
    ensures Evaluations(ctx, cond, t).Ok? && Eval(ctx, cond, x).Err? ==>
              Evaluations(ctx, cond, t + [x]) == Err(Eval(ctx, cond, x).error)
    ensures Evaluations(ctx, cond, t).Ok? && Eval(ctx, cond, x).Ok? ==>
              Evaluations(ctx, cond, t + [x]) == Ok(Evaluations(ctx, cond, t).value + [Eval(ctx, cond, x).value])
  {
    assert (t + [x])[..|t|] == t;
  }

  /** An error on a prefix of the rows is the error of all of them. */
  lemma {:induction false} EvaluationsPrefixErr(ctx: Ctx, cond: seq<Node>, t: Table, k: nat)
    requires k <= |t| && Evaluations(ctx, cond, t[..k]).Err?
    ensures Evaluations(ctx, cond, t) == Evaluations(ctx, cond, t[..k])
    decreases |t| - k
  {
    if k < |t| {
      var n := |t| - 1;
      PrefixOfPrefix(t, n, k);
      EvaluationsPrefixErr(ctx, cond, t[..n], k);
    } else {
      assert t[..k] == t;
    }
  }

  /** The first row whose condition fails decides the error of all of them. */
  lemma EvaluationsErrAt(ctx: Ctx, cond: seq<Node>, t: Table, k: nat)
    requires k < |t| && Evaluations(ctx, cond, t[..k]).Ok? && Eval(ctx, cond, t[k]).Err?
    ensures Evaluations(ctx, cond, t) == Err(Eval(ctx, cond, t[k]).error)
  {
    assert t[..k + 1] == t[..k] + [t[k]];
    EvaluationsSnoc(ctx, cond, t[..k], t[k]);
    EvaluationsPrefixErr(ctx, cond, t, k + 1);
  }

  lemma FilterSnoc<T>(xs: seq<T>, keep: seq<bool>, x: T, k: bool)
    requires |keep| == |xs|
    ensures Filter(xs + [x], keep + [k]) == Filter(xs, keep) + (if k then [x] else [])
  {
    assert (xs + [x])[..|xs|] == xs;
    assert (keep + [k])[..|keep|] == keep;
  }

  /** `$result === false` drops a row from WHERE and HAVING. */
  predicate WhereKeeps(v: Value)
  {
    v != Bool(false)
  }

  /** `$result === true` keeps a joined row. */
  predicate JoinKeeps(v: Value)
  {
    v == Bool(true)
  }

  function WhereVerdicts(vs: seq<Value>): (r: seq<bool>)
    ensures |r| == |vs| && forall i :: 0 <= i < |vs| ==> r[i] == WhereKeeps(vs[i])
  {
    seq(|vs|, i requires 0 <= i < |vs| => WhereKeeps(vs[i]))
  }

  function JoinVerdicts(vs: seq<Value>): (r: seq<bool>)
    ensures |r| == |vs| && forall i :: 0 <= i < |vs| ==> r[i] == JoinKeeps(vs[i])
  {
    seq(|vs|, i requires 0 <= i < |vs| => JoinKeeps(vs[i]))
  }

  /** One more row through the WHERE loop: kept when its value is not `false`. */
  lemma WhereStep(ctx: Ctx, cond: seq<Node>, t: Table, x: Row)
    requires Evaluations(ctx, cond, t).Ok? && Eval(ctx, cond, x).Ok?
    ensures Evaluations(ctx, cond, t + [x]).Ok?
    ensures var vs := Evaluations(ctx, cond, t).value;
            Filter(t + [x], WhereVerdicts(Evaluations(ctx, cond, t + [x]).value))
              == Filter(t, WhereVerdicts(vs)) + (if WhereKeeps(Eval(ctx, cond, x).value) then [x] else [])
  {
    var vs := Evaluations(ctx, cond, t).value;
    var v := Eval(ctx, cond, x).value;
    EvaluationsSnoc(ctx, cond, t, x);
    assert WhereVerdicts(vs + [v]) == WhereVerdicts(vs) + [WhereKeeps(v)];
    FilterSnoc(t, WhereVerdicts(vs), x, WhereKeeps(v));
  }

  /** One more merged pair through the join loop: kept when its value is `true`. */
  lemma JoinStep(ctx: Ctx, cond: seq<Node>, t: Table, x: Row)
    requires Evaluations(ctx, cond, t).Ok? && Eval(ctx, cond, x).Ok?
    ensures Evaluations(ctx, cond, t + [x]).Ok?
    ensures var vs := Evaluations(ctx, cond, t).value;
            Filter(t + [x], JoinVerdicts(Evaluations(ctx, cond, t + [x]).value))
              == Filter(t, JoinVerdicts(vs)) + (if JoinKeeps(Eval(ctx, cond, x).value) then [x] else [])
  {
    var vs := Evaluations(ctx, cond, t).value;
    var v := Eval(ctx, cond, x).value;
    EvaluationsSnoc(ctx, cond, t, x);
    assert JoinVerdicts(vs + [v]) == JoinVerdicts(vs) + [JoinKeeps(v)];
    FilterSnoc(t, JoinVerdicts(vs), x, JoinKeeps(v));
  }

  /** applyWhere (and applyHaving): the rows whose condition is not
      `false`, in order and renumbered from 0. */
  function Where(ctx: Ctx, cond: seq<Node>, t: Table): Result<Table>
  {
    var vs :- Evaluations(ctx, cond, t);
    Ok(Filter(t, WhereVerdicts(vs)))
  }

  /** What the WHERE loop has kept of the first rows: those whose condition
      is not `false`, every condition so far having evaluated. */
  predicate WhereSoFar(ctx: Ctx, cond: seq<Node>, rows: Table, kept: Table)
  {
    Evaluations(ctx, cond, rows).Ok? && kept == Filter(rows, WhereVerdicts(Evaluations(ctx, cond, rows).value))
  }

  lemma WhereSoFarStart(ctx: Ctx, cond: seq<Node>, t: Table)
    ensures WhereSoFar(ctx, cond, t[..0], [])
  {
    assert t[..0] == [];
  }

  lemma WhereSoFarNext(ctx: Ctx, cond: seq<Node>, t: Table, i: nat, kept: Table)
    requires i < |t| && WhereSoFar(ctx, cond, t[..i], kept) && Eval(ctx, cond, t[i]).Ok?
    ensures WhereSoFar(ctx, cond, t[..i + 1], if WhereKeeps(Eval(ctx, cond, t[i]).value) then kept + [t[i]] else kept)
  {
    assert t[..i + 1] == t[..i] + [t[i]];
    WhereStep(ctx, cond, t[..i], t[i]);
  }

  lemma WhereSoFarDone(ctx: Ctx, cond: seq<Node>, t: Table, kept: Table)
    requires WhereSoFar(ctx, cond, t[..|t|], kept)
    ensures Where(ctx, cond, t) == Ok(kept)
  {
    assert t[..|t|] == t;
  }

  lemma WhereFailsAt(ctx: Ctx, cond: seq<Node>, t: Table, i: nat, kept: Table)
    requires i < |t| && WhereSoFar(ctx, cond, t[..i], kept) && Eval(ctx, cond, t[i]).Err?
    ensures Where(ctx, cond, t) == Err(Eval(ctx, cond, t[i]).error)
  {
    EvaluationsErrAt(ctx, cond, t, i);
  }

  /** A row of the filter is kept exactly when its condition is not false. */
  lemma WhereKeepsExactly(ctx: Ctx, cond: seq<Node>, t: Table)
    requires Where(ctx, cond, t).Ok?
    ensures var r := Where(ctx, cond, t).value;
            var idx := KeptIndices(WhereVerdicts(Evaluations(ctx, cond, t).value));
            && |r| == |idx|
            && (forall j :: 0 <= j < |r| ==> r[j] == t[idx[j]] && Eval(ctx, cond, t[idx[j]]) != Ok(Bool(false)))
            && (forall j, k :: 0 <= j < k < |idx| ==> idx[j] < idx[k])
            && (forall i :: 0 <= i < |t| && Eval(ctx, cond, t[i]) != Ok(Bool(false)) ==> i in idx)
  {
    var vs := Evaluations(ctx, cond, t).value;
    var keep := WhereVerdicts(vs);
    FilterPicksKept(t, keep);
    forall i | 0 <= i < |t| && Eval(ctx, cond, t[i]) != Ok(Bool(false)) ensures i in KeptIndices(keep) {
      KeptIndicesComplete(keep, i);
    }
  }

  // ---------------------------------------------------------------------
  // Joins

  /** One row of the accumulator merged with every incoming row. */
  function MergeEach(a: Row, bs: Table): (r: Table)
    ensures |r| == |bs| && forall j :: 0 <= j < |bs| ==> r[j] == MergeRows(a, bs[j])
  {
    if bs == [] then [] else MergeEach(a, bs[..|bs| - 1]) + [MergeRows(a, bs[|bs| - 1])]
  }

  /** n·m written as repeated addition, one block of m rows per row of
      the accumulator. */
  function Times(n: nat, m: nat): nat
  {
    if n == 0 then 0 else Times(n - 1, m) + m
  }

  lemma {:induction false} TimesIsProduct(n: nat, m: nat)
    ensures Times(n, m) == n * m
  {
    if n > 0 {
      TimesIsProduct(n - 1, m);
      assert n * m == (n - 1) * m + m;
    }
  }

  /** The merged pairs in row-major order: the accumulator's rows outside,
      the incoming rows inside. */
  function Cross(as_: Table, bs: Table): (r: Table)
    ensures |r| == Times(|as_|, |bs|)
  {
    if as_ == [] then []
    else
      var n := |as_| - 1;
      Cross(as_[..n], bs) + MergeEach(as_[n], bs)
  }

  /** The pairs of the first a+1 accumulator rows. */
  lemma CrossStep(as_: Table, bs: Table, a: nat)
    requires a < |as_|
    ensures Cross(as_[..a + 1], bs) == Cross(as_[..a], bs) + MergeEach(as_[a], bs)
  {
    assert as_[..a + 1][..a] == as_[..a];
  }

  /** The cross product of a prefix of the accumulator is a prefix. */
  lemma {:induction false} CrossGrows(as_: Table, bs: Table, m: nat)
    requires m <= |as_|
    ensures |Cross(as_[..m], bs)| <= |Cross(as_, bs)|
    ensures Cross(as_, bs)[..|Cross(as_[..m], bs)|] == Cross(as_[..m], bs)
    decreases |as_| - m
  {
    if m < |as_| {
      var n := |as_| - 1;
      var front := Cross(as_[..n], bs);
      var small := Cross(as_[..m], bs);
      assert Cross(as_, bs) == front + MergeEach(as_[n], bs);
      PrefixOfPrefix(as_, n, m);
      CrossGrows(as_[..n], bs, m);
      assert front[..|small|] == small;
      assert (front + MergeEach(as_[n], bs))[..|small|] == front[..|small|];
    } else {
      assert as_[..m] == as_;
    }
  }

  /** The pairs the nested loops have produced at (a, b) lead the cross
      product, in row-major order. */
  lemma CrossPrefix(as_: Table, bs: Table, a: nat, b: nat)
    requires a < |as_| && b <= |bs|
    ensures var p := Cross(as_[..a], bs) + MergeEach(as_[a], bs[..b]);
            |p| <= |Cross(as_, bs)| && Cross(as_, bs)[..|p|] == p
  {
    var front := Cross(as_[..a], bs);
    var row := MergeEach(as_[a], bs);
    var q := Cross(as_[..a + 1], bs);
    CrossStep(as_, bs, a);
    CrossGrows(as_, bs, a + 1);
    MergeEachPrefix(as_[a], bs, b);
    var p := front + row[..b];
    assert q == front + row;
    assert q[..|p|] == p;
  }

  lemma MergeEachPrefix(x: Row, bs: Table, b: nat)
    requires b <= |bs|
    ensures MergeEach(x, bs[..b]) == MergeEach(x, bs)[..b]
  {
  }

  /** The pair of accumulator row i and incoming row j sits at i·|bs| + j
      of the cross product. */
  lemma {:induction false} CrossIndex(as_: Table, bs: Table, i: nat, j: nat)
    requires i < |as_| && j < |bs|
    ensures Times(i, |bs|) + j < |Cross(as_, bs)|
    ensures Cross(as_, bs)[Times(i, |bs|) + j] == MergeRows(as_[i], bs[j])
    decreases |as_|, 1
  {
    if i < |as_| - 1 {
      CrossIndexFront(as_, bs, i, j);
    } else {
      CrossIndexLast(as_, bs, j);
    }
  }

  /** A pair of an earlier accumulator row lies in the pairs of the rows
      before the last. */
  lemma {:induction false} CrossIndexFront(as_: Table, bs: Table, i: nat, j: nat)
    requires i < |as_| - 1 && j < |bs|
    ensures Times(i, |bs|) + j < |Cross(as_, bs)|
    ensures Cross(as_, bs)[Times(i, |bs|) + j] == MergeRows(as_[i], bs[j])
    decreases |as_|, 0
  {
    var n := |as_| - 1;
    var k := Times(i, |bs|) + j;
    var front := Cross(as_[..n], bs);
    assert Cross(as_, bs) == front + MergeEach(as_[n], bs);
    CrossIndex(as_[..n], bs, i, j);
    assert as_[..n][i] == as_[i];
  }

  /** A pair of the last accumulator row lies in its own block, after the
      pairs of the rows before it. */
  lemma CrossIndexLast(as_: Table, bs: Table, j: nat)
    requires as_ != [] && j < |bs|
    ensures Times(|as_| - 1, |bs|) + j < |Cross(as_, bs)|
    ensures Cross(as_, bs)[Times(|as_| - 1, |bs|) + j] == MergeRows(as_[|as_| - 1], bs[j])
  {
    var n := |as_| - 1;
    var front := Cross(as_[..n], bs);
    var back := MergeEach(as_[n], bs);
    assert Cross(as_, bs) == front + back;
    assert |front| == Times(n, |bs|) by {
      assert |as_[..n]| == n;
    }
    AppendRight(front, back, j);
  }

  lemma AppendRight(a: Table, b: Table, j: nat)
    requires j < |b|
    ensures |a| + j < |a + b| && (a + b)[|a| + j] == b[j]
  {
  }

  /** The ON filter of a join: every pair is kept when there is no
      condition, otherwise the pairs whose condition is `true`. */
  function OnFilter(ctx: Ctx, cond: seq<Node>, pairs: Table): Result<Table>
  {
    if cond == [] then Ok(pairs)
    else
      var vs :- Evaluations(ctx, cond, pairs);
      Ok(Filter(pairs, JoinVerdicts(vs)))
  }

  /** outerJoin: an empty incoming table changes nothing, an empty
      accumulator is replaced, otherwise the filtered cross product. */
  function OuterJoin(ctx: Ctx, acc: Table, incoming: Table, cond: seq<Node>): (r: Result<Table>)
    ensures incoming == [] ==> r == Ok(acc)
    ensures incoming != [] && acc == [] ==> r == Ok(incoming)
    ensures incoming != [] && acc != [] && cond == [] ==> r == Ok(Cross(acc, incoming))
  {
    if incoming == [] then Ok(acc)
    else if acc == [] then Ok(incoming)
    else OnFilter(ctx, cond, Cross(acc, incoming))
  }

  // ---------------------------------------------------------------------
  // The join's nested loops, step by step

  /** The inner loop one incoming row further. */
  lemma MergeEachNext(x: Row, bs: Table, b: nat)
    requires b < |bs|
    ensures MergeEach(x, bs[..b + 1]) == MergeEach(x, bs[..b]) + [MergeRows(x, bs[b])]
  {
    assert bs[..b + 1][..b] == bs[..b];
  }

  /** What the join loop has kept of the pairs produced so far: all of them
      without a condition, otherwise those whose condition is `true`, every
      condition so far having evaluated. */
  predicate KeptSoFar(ctx: Ctx, cond: seq<Node>, pairs: Table, result: Table)
  {
    if cond == [] then result == pairs
    else Evaluations(ctx, cond, pairs).Ok? && result == Filter(pairs, JoinVerdicts(Evaluations(ctx, cond, pairs).value))
  }

  lemma KeptSoFarStart(ctx: Ctx, cond: seq<Node>)
    ensures KeptSoFar(ctx, cond, [], [])
  {
  }

  lemma KeptSoFarNext(ctx: Ctx, cond: seq<Node>, pairs: Table, result: Table, row: Row)
    requires KeptSoFar(ctx, cond, pairs, result)
    requires cond != [] ==> Eval(ctx, cond, row).Ok?
    ensures KeptSoFar(ctx, cond, pairs + [row],
                      if cond == [] || JoinKeeps(Eval(ctx, cond, row).value) then result + [row] else result)
  {
    if cond != [] {
      JoinStep(ctx, cond, pairs, row);
    }
  }

  /** One step of the inner join loop: merging x with row b of the incoming
      table keeps the loop's account of the pairs produced so far. */
  lemma KeptSoFarMerge(ctx: Ctx, cond: seq<Node>, x: Row, B: Table, pairs: Table, b: nat, result: Table)
    requires b < |B| && KeptSoFar(ctx, cond, pairs + MergeEach(x, B[..b]), result)
    requires cond != [] ==> Eval(ctx, cond, MergeRows(x, B[b])).Ok?
    ensures KeptSoFar(ctx, cond, pairs + MergeEach(x, B[..b + 1]),
                      if cond == [] || JoinKeeps(Eval(ctx, cond, MergeRows(x, B[b])).value)
                      then result + [MergeRows(x, B[b])] else result)
  {
    var p := pairs + MergeEach(x, B[..b]);
    MergeEachNext(x, B, b);
    assert pairs + MergeEach(x, B[..b + 1]) == p + [MergeRows(x, B[b])];
    KeptSoFarNext(ctx, cond, p, result, MergeRows(x, B[b]));
  }

  /** Once every pair is produced, what was kept is the join. */
  lemma KeptSoFarDone(ctx: Ctx, cond: seq<Node>, A: Table, B: Table, result: Table)
    requires A != [] && B != [] && KeptSoFar(ctx, cond, Cross(A, B), result)
    ensures OuterJoin(ctx, A, B, cond) == Ok(result)
  {
  }

  /** A condition failing on the merge of x with row b fails the rest of
      the inner loop. */
  lemma JoinRowFails(ctx: Ctx, cond: seq<Node>, x: Row, B: Table, pairs: Table, b: nat)
    requires b < |B| && cond != []
    requires Evaluations(ctx, cond, pairs + MergeEach(x, B[..b])).Ok?
    requires Eval(ctx, cond, MergeRows(x, B[b])).Err?
    ensures Evaluations(ctx, cond, pairs + MergeEach(x, B)) == Err(Eval(ctx, cond, MergeRows(x, B[b])).error)
  {
    MergedSoFarLeads(pairs, x, B, b);
    EvaluationsErrAt(ctx, cond, pairs + MergeEach(x, B), |pairs + MergeEach(x, B[..b])|);
  }

  /** The merges the inner loop has produced up to row b lead those of the
      whole loop. */
  lemma MergedSoFarLeads(pairs: Table, x: Row, B: Table, b: nat)
    requires b < |B|
    ensures var p := pairs + MergeEach(x, B[..b]);
            |p| < |pairs + MergeEach(x, B)| && (pairs + MergeEach(x, B))[..|p|] == p
            && (pairs + MergeEach(x, B))[|p|] == MergeRows(x, B[b])
  {
    MergeEachPrefix(x, B, b);
    ConcatLeads(pairs, MergeEach(x, B), b);
  }

  lemma ConcatLeads<T>(u: seq<T>, v: seq<T>, k: nat)
    requires k < |v|
    ensures (u + v)[..|u| + k] == u + v[..k] && (u + v)[|u| + k] == v[k]
  {
  }

  /** A condition failing while row a of the accumulator is merged fails
      the whole join. */
  lemma JoinFailsIn(ctx: Ctx, cond: seq<Node>, A: Table, B: Table, a: nat)
    requires a < |A| && B != [] && cond != []
    requires Evaluations(ctx, cond, Cross(A[..a + 1], B)).Err?
    ensures OuterJoin(ctx, A, B, cond) == Err(Evaluations(ctx, cond, Cross(A[..a + 1], B)).error)
  {
    CrossGrows(A, B, a + 1);
    EvaluationsPrefixErr(ctx, cond, Cross(A, B), |Cross(A[..a + 1], B)|);
  }

  /** Without a condition a join of non-empty tables has |A|·|B| rows
      (Times is that product, TimesIsProduct), the merge of row i of A with
      row j of B at position i·|B| + j. */
  lemma JoinWithoutCondition(ctx: Ctx, as_: Table, bs: Table, i: nat, j: nat)
    requires i < |as_| && j < |bs|
    ensures OuterJoin(ctx, as_, bs, []).Ok?
    ensures |OuterJoin(ctx, as_, bs, []).value| == Times(|as_|, |bs|)
    ensures Times(i, |bs|) + j < Times(|as_|, |bs|)
    ensures OuterJoin(ctx, as_, bs, []).value[Times(i, |bs|) + j] == MergeRows(as_[i], bs[j])
  {
    assert OuterJoin(ctx, as_, bs, []) == Ok(Cross(as_, bs));
    CrossIndex(as_, bs, i, j);
  }

  /** With a condition, a joined row is kept exactly when its condition is
      `true`: a truthy non-boolean does not keep it. */
  lemma JoinKeepsExactlyTrue(ctx: Ctx, as_: Table, bs: Table, cond: seq<Node>)
    requires as_ != [] && bs != [] && cond != []
    requires OuterJoin(ctx, as_, bs, cond).Ok?
    ensures var pairs := Cross(as_, bs);
            var r := OuterJoin(ctx, as_, bs, cond).value;
            var idx := KeptIndices(JoinVerdicts(Evaluations(ctx, cond, pairs).value));
            && |r| == |idx|
            && (forall j :: 0 <= j < |r| ==> r[j] == pairs[idx[j]] && Eval(ctx, cond, pairs[idx[j]]) == Ok(Bool(true)))
            && (forall i :: 0 <= i < |pairs| && Eval(ctx, cond, pairs[i]) == Ok(Bool(true)) ==> i in idx)
  {
    var pairs := Cross(as_, bs);
    var keep := JoinVerdicts(Evaluations(ctx, cond, pairs).value);
    FilterPicksKept(pairs, keep);
    forall i | 0 <= i < |pairs| && Eval(ctx, cond, pairs[i]) == Ok(Bool(true)) ensures i in KeptIndices(keep) {
      KeptIndicesComplete(keep, i);
    }
  }

  // ---------------------------------------------------------------------
  // LIMIT

  /** array_slice($t, $offset, $length) with an integer length: a negative
      offset counts from the end, a negative length stops that many rows
      before the end. */
  function Slice<T>(t: seq<T>, offset: int, length: int): (r: seq<T>)
    ensures |r| <= |t|
  {
    var n := |t|;
    var start := if offset > n then n else if offset >= 0 then offset else if n + offset < 0 then 0 else n + offset;
    var stop := if length >= 0 then (if start + length > n then n else start + length)
                else (if n + length < start then start else n + length);
    t[start..stop]
  }

  /** For a non-negative offset and row count the slice is the contiguous
      run starting at the offset, min(rowcount, max(0, n - offset)) long. */
  lemma SliceIsWindow<T>(t: seq<T>, offset: int, rowcount: int)
    requires offset >= 0 && rowcount >= 0
    ensures var len := if offset >= |t| then 0 else if rowcount < |t| - offset then rowcount else |t| - offset;
            && |Slice(t, offset, rowcount)| == len
            && forall i :: 0 <= i < len ==> Slice(t, offset, rowcount)[i] == t[offset + i]
  {
  }

  /** applyLimit: intval of both texts, then the slice. */
  function Limit(t: Table, offset: string, rowcount: string): Table
  {
    Slice(t, StrToInt(offset), StrToInt(rowcount))
  }
}
