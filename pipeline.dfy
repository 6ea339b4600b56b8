/** handleSelect as a function of the engine's state: the stages in the
    order core.php runs them, each only when its clause is present, and
    the result rows stripped of their prefixes as execute() returns them.
    ORDER BY resolves its keys before sorting (see OrderBy and, for the
    code as written, OrderByAsWritten). */
module Pipeline {
  import opened Wrappers
  import opened Strings
  import opened Values
  import opened Assoc
  import opened Rows
  import opened Names
  import opened Expr
  import opened Relational
  import opened Grouping
  import opened Stages
  import opened Ordering

  /** A parsed SELECT statement: an absent or empty clause is an empty
      sequence (or None for LIMIT, whose offset and row count stay text). */
  datatype Statement = Statement(
    select: seq<Item>,
    from: seq<FromItem>,
    where: seq<Node>,
    group: seq<Item>,
    having: seq<Node>,
    order: seq<OrderItem>,
    limit: Option<(string, string)>)

  // ---------------------------------------------------------------------
  // ORDER BY (applyOrder)

  /** Each ORDER BY entry resolved with toColumnNameWithPrefix, left to
      right; the first entry that does not resolve decides the error. */
  function ResolveKeys(res: Resolver, order: seq<OrderItem>): (r: Result<seq<SortKey>>)
    ensures r.Ok? ==> |r.value| == |order|
    ensures r.Ok? ==> forall i :: 0 <= i < |order| ==>
              r.value[i].desc == order[i].desc && ToColumnNameWithPrefix(res, order[i].text) == Ok(r.value[i].col)
  {
    if order == [] then Ok([])
    else
      var n := |order| - 1;
      var ks :- ResolveKeys(res, order[..n]);
      var c :- ToColumnNameWithPrefix(res, order[n].text);
      Ok(ks + [SortKey(c, order[n].desc)])
  }

  lemma ResolveKeysStep(res: Resolver, order: seq<OrderItem>, j: nat)
    requires j < |order|
    ensures var ks := ResolveKeys(res, order[..j]);
            var c := ToColumnNameWithPrefix(res, order[j].text);
            ResolveKeys(res, order[..j + 1])
              == if ks.Err? then ks else if c.Err? then Err(c.error) else Ok(ks.value + [SortKey(c.value, order[j].desc)])
  {
    assert order[..j + 1][..j] == order[..j];
  }

  lemma {:induction false} ResolveKeysPrefixErr(res: Resolver, order: seq<OrderItem>, k: nat)
    requires k <= |order| && ResolveKeys(res, order[..k]).Err?
    ensures ResolveKeys(res, order) == ResolveKeys(res, order[..k])
    decreases |order| - k
  {
    if k < |order| {
      var n := |order| - 1;
      assert ResolveKeys(res, order[..n]) == ResolveKeys(res, order[..k]) by {
        PrefixOfPrefix(order, n, k);
        ResolveKeysPrefixErr(res, order[..n], k);
      }
      ResolveKeysErrStays(res, order);
    } else {
      assert order[..k] == order;
    }
  }

  lemma ResolveKeysErrStays(res: Resolver, order: seq<OrderItem>)
    requires order != [] && ResolveKeys(res, order[..|order| - 1]).Err?
    ensures ResolveKeys(res, order) == ResolveKeys(res, order[..|order| - 1])
  {
  }

  /** applyOrder: no rows, nothing to do; otherwise the keys are resolved,
      and several keys go through the exchange sort on the whole table,
      a single key through the stable comparator sort. */
  function OrderBy(res: Resolver, t: Table, order: seq<OrderItem>): Result<Table>
    requires order != []
  {
    if t == [] then Ok(t)
    else
      var keys :- ResolveKeys(res, order);
      if |keys| >= 2 then Ok(OrderRange(t, keys, 0, 0, |t| - 1))
      else Ok(SortByKey(t, keys[0]))
  }

  /** ORDER BY fails only on a key that does not resolve, and otherwise
      returns a permutation of the rows. */
  lemma OrderByPermutes(res: Resolver, t: Table, order: seq<OrderItem>)
    requires order != []
    ensures OrderBy(res, t, order).Err? <==> t != [] && ResolveKeys(res, order).Err?
    ensures OrderBy(res, t, order).Ok? ==>
              |OrderBy(res, t, order).value| == |t| && multiset(OrderBy(res, t, order).value) == multiset(t)
  {
    if t != [] && ResolveKeys(res, order).Ok? {
      var keys := ResolveKeys(res, order).value;
      if |keys| >= 2 {
        var r := OrderRange(t, keys, 0, 0, |t| - 1);
        OrderRangePermutes(t, keys, 0, 0, |t| - 1);
        assert t[0..|t|] == t && r[0..|t|] == r;
      }
    }
  }

  /** When the values under every key are totally ordered, ORDER BY leaves
      the rows ordered key by key: by the first key, rows equal on it by
      the second, and so on. */
  lemma OrderBySorts(res: Resolver, t: Table, order: seq<OrderItem>, vss: seq<set<Value>>)
    requires order != [] && t != [] && ResolveKeys(res, order).Ok?
    requires KeysOrdered(t, ResolveKeys(res, order).value, vss)
    ensures OrderBy(res, t, order).Ok?
    ensures LexSorted(OrderBy(res, t, order).value, ResolveKeys(res, order).value, 0, 0, |t| - 1)
  {
    var keys := ResolveKeys(res, order).value;
    if |keys| >= 2 {
      OrderRangeSorts(t, keys, 0, 0, |t| - 1, vss);
    } else {
      SortByKeySorts(t, keys[0], vss[0]);
      LastKeySorted(SortByKey(t, keys[0]), keys, 0, |t| - 1);
    }
  }

  // ---------------------------------------------------------------------
  // ORDER BY on several keys as core.php writes it

  function AsWrittenKeys(order: seq<OrderItem>): (keys: seq<SortKey>)
    ensures |keys| == |order| && forall i :: 0 <= i < |order| ==> keys[i] == AsWrittenKey(order[i])
  {
    seq(|order|, i requires 0 <= i < |order| => AsWrittenKey(order[i]))
  }

  /** applyOrder as written: several keys sort on the columns as typed,
      without resolving them, and even when there are no rows. */
  function OrderByAsWritten(res: Resolver, t: Table, order: seq<OrderItem>): Result<Table>
    requires order != []
  {
    if |order| >= 2 then Ok(OrderRange(t, AsWrittenKeys(order), 0, 0, |t| - 1))
    else if t == [] then Ok(t)
    else
      var c :- ToColumnNameWithPrefix(res, order[0].text);
      Ok(SortByKey(t, SortKey(c, order[0].desc)))
  }

  /** Keys under which every row of a range reads null leave the range as
      it is. */
  lemma {:induction false} NullKeysKeepRows(t: Table, keys: seq<SortKey>, idx: nat, lo: int, hi: int)
    requires 0 <= lo <= hi + 1 <= |t|
    requires forall k, i :: idx <= k < |keys| && lo <= i <= hi ==> At(t[i], keys[k]) == Null
    ensures OrderRange(t, keys, idx, lo, hi) == t
    decreases |keys| - idx, 2, 0
  {
    if idx < |keys| {
      var key := keys[idx];
      assert Sorted(t, key, lo, hi) by {
        OutOfOrderAsymmetric(Null, Null, key.desc);
      }
      ExchangeSortKeepsSorted(t, key, lo, lo, hi);
      if idx + 1 < |keys| && lo <= hi {
        NullRunsKeepRows(t, keys, idx, hi, lo, lo + 1);
        assert At(t[lo], key) == Null;
      }
    }
  }

  lemma {:induction false} NullRunsKeepRows(t: Table, keys: seq<SortKey>, idx: nat, hi: int, start: int, a: int)
    requires idx < |keys| && 0 <= start < a <= hi + 1 <= |t|
    requires forall k, i :: idx <= k < |keys| && start <= i <= hi ==> At(t[i], keys[k]) == Null
    ensures Runs(t, keys, idx, hi, start, a - 1, Null, a) == t
    decreases |keys| - idx, 1, hi - a + 1
  {
    if a > hi {
      if a - 1 > start {
        NullKeysKeepRows(t, keys, idx + 1, start, a - 1);
      }
    } else {
      assert At(t[a], keys[idx]) == Null;
      NullRunsKeepRows(t, keys, idx, hi, start, a + 1);
    }
  }

  /** On loaded rows, whose every column is `table.column`, an ORDER BY of
      two or more bare column names changes nothing. */
  lemma AsWrittenOrderKeepsRows(res: Resolver, t: Table, order: seq<OrderItem>)
    requires |order| >= 2 && AllQualified(t)
    requires forall i :: 0 <= i < |order| ==> !HasDot(order[i].text)
    ensures OrderByAsWritten(res, t, order) == Ok(t)
  {
    var keys := AsWrittenKeys(order);
    forall k, i | 0 <= k < |keys| && 0 <= i <= |t| - 1 ensures At(t[i], keys[k]) == Null {
      AsWrittenKeyReadsNull(t, order[k]);
    }
    NullKeysKeepRows(t, keys, 0, 0, |t| - 1);
  }

  /** A row of `users` as loaded: its age and id under their qualified names. */
  function UserRow(age: int, id: int): (r: Row)
    ensures r.cols == [("users.age", Int(age)), ("users.id", Int(id))]
  {
    Plain([("users.age", Int(age)), ("users.id", Int(id))])
  }

  /** Two rows of `users`, and `ORDER BY age DESC, id` against an index
      that knows both short names. */
  const ExampleRows: Table := [UserRow(25, 1), UserRow(40, 2)]
  const ExampleResolver: Resolver := Resolver({"users"}, [], map["age" := ["users.age"], "id" := ["users.id"]])
  const ExampleOrder: seq<OrderItem> := [OrderItem("age", true), OrderItem("id", false)]
  const ExampleKeys: seq<SortKey> := [SortKey("users.age", true), SortKey("users.id", false)]

  lemma ExampleNamesResolve()
    ensures ToColumnNameWithPrefix(ExampleResolver, "age") == Ok("users.age")
    ensures ToColumnNameWithPrefix(ExampleResolver, "id") == Ok("users.id")
  {
    assert !HasDot("age") && !HasDot("id") by {
      NoDotMeansIndexAtEnd("age");
      NoDotMeansIndexAtEnd("id");
    }
  }

  lemma ExampleFirstKeyResolves()
    ensures ResolveKeys(ExampleResolver, ExampleOrder[..1]) == Ok([SortKey("users.age", true)])
  {
    var order := ExampleOrder;
    var res := ExampleResolver;
    ExampleNamesResolve();
    assert ResolveKeys(res, order[..0]) == Ok([]);
    ResolveKeysStep(res, order, 0);
    assert [] + [SortKey("users.age", true)] == [SortKey("users.age", true)];
  }

  lemma ExampleResolves()
    ensures ResolveKeys(ExampleResolver, ExampleOrder) == Ok(ExampleKeys)
  {
    var order := ExampleOrder;
    var res := ExampleResolver;
    var first := SortKey("users.age", true);
    ExampleNamesResolve();
    ExampleFirstKeyResolves();
    assert ResolveKeys(res, order[..2]) == Ok(ExampleKeys) by {
      ResolveKeysStep(res, order, 1);
      assert [first] + [SortKey("users.id", false)] == ExampleKeys;
    }
    assert order[..2] == order;
  }

  lemma ExampleValues()
    ensures At(ExampleRows[0], ExampleKeys[0]) == Int(25) && At(ExampleRows[1], ExampleKeys[0]) == Int(40)
    ensures At(ExampleRows[0], ExampleKeys[1]) == Int(1) && At(ExampleRows[1], ExampleKeys[1]) == Int(2)
  {
    assert IndexOf(ExampleRows[0].cols, "users.age") == 0;
    assert IndexOf(ExampleRows[1].cols, "users.age") == 0;
    assert IndexOf(ExampleRows[0].cols, "users.id") == 1;
    assert IndexOf(ExampleRows[1].cols, "users.id") == 1;
  }

  lemma ExampleKeysOrdered(vss: seq<set<Value>>)
    requires vss == [{Int(25), Int(40)}, {Int(1), Int(2)}]
    ensures KeysOrdered(ExampleRows, ExampleKeys, vss)
  {
    ExampleValues();
    IntsTotallyOrdered(vss[0]);
    IntsTotallyOrdered(vss[1]);
  }

  lemma ExampleDots()
    ensures HasDot("users.age") && HasDot("users.id")
    ensures !HasDot("age") && !HasDot("id")
  {
    DotAt("users.age", 5);
    DotAt("users.id", 5);
    NoDotMeansIndexAtEnd("age");
    NoDotMeansIndexAtEnd("id");
  }

  lemma UserRowQualified(age: int, id: int)
    ensures forall j :: 0 <= j < |UserRow(age, id).cols| ==> HasDot(UserRow(age, id).cols[j].0)
  {
    ExampleDots();
  }

  lemma ExampleQualified()
    ensures AllQualified(ExampleRows)
  {
    UserRowQualified(25, 1);
    UserRowQualified(40, 2);
  }

  lemma ExampleOrderBare()
    ensures forall i :: 0 <= i < |ExampleOrder| ==> !HasDot(ExampleOrder[i].text)
  {
    ExampleDots();
  }

  lemma ExampleAsWrittenKeeps()
    ensures OrderByAsWritten(ExampleResolver, ExampleRows, ExampleOrder) == Ok(ExampleRows)
  {
    ExampleQualified();
    ExampleOrderBare();
    AsWrittenOrderKeepsRows(ExampleResolver, ExampleRows, ExampleOrder);
  }

  lemma ExampleOutOfOrder()
    ensures !LexSorted(ExampleRows, ExampleKeys, 0, 0, 1)
  {
    ExampleValues();
    assert !LexInOrder(ExampleRows[0], ExampleRows[1], ExampleKeys, 0);
  }

  lemma ExampleCorrectedSorts()
    ensures OrderBy(ExampleResolver, ExampleRows, ExampleOrder).Ok?
    ensures LexSorted(OrderBy(ExampleResolver, ExampleRows, ExampleOrder).value, ExampleKeys, 0, 0, 1)
  {
    ExampleResolves();
    var vss: seq<set<Value>> := [{Int(25), Int(40)}, {Int(1), Int(2)}];
    ExampleKeysOrdered(vss);
    OrderBySorts(ExampleResolver, ExampleRows, ExampleOrder, vss);
  }

  /** The counterexample: as written the rows stay as they are, 25 before
      40, which is out of order on the resolved key; with the keys resolved
      they come out ordered. */
  lemma AsWrittenOrderCounterexample()
    ensures OrderByAsWritten(ExampleResolver, ExampleRows, ExampleOrder) == Ok(ExampleRows)
    ensures ResolveKeys(ExampleResolver, ExampleOrder) == Ok(ExampleKeys)
    ensures !LexSorted(ExampleRows, ExampleKeys, 0, 0, 1)
    ensures OrderBy(ExampleResolver, ExampleRows, ExampleOrder).Ok?
    ensures LexSorted(OrderBy(ExampleResolver, ExampleRows, ExampleOrder).value, ExampleKeys, 0, 0, 1)
  {
    ExampleAsWrittenKeeps();
    ExampleResolves();
    ExampleOutOfOrder();
    ExampleCorrectedSorts();
  }

  // ---------------------------------------------------------------------
  // The whole SELECT

  /** The clauses that drop and group rows, each when present: WHERE,
      GROUP BY and HAVING, in that order. */
  function Filters(ctx: Ctx, q: Statement, t: Table): Result<Table>
  {
    var t1 :- if q.where != [] then Where(ctx, q.where, t) else Ok(t);
    var t2 :- if q.group != [] then GroupBy(ctx, q.group, t1) else Ok(t1);
    if q.having != [] then Where(ctx, q.having, t2) else Ok(t2)
  }

  /** ORDER BY and LIMIT, each when present. */
  function Arrange(res: Resolver, q: Statement, t: Table): Result<Table>
  {
    var t4 :- if q.order != [] then OrderBy(res, t, q.order) else Ok(t);
    Ok(if q.limit.Some? then Limit(t4, q.limit.value.0, q.limit.value.1) else t4)
  }

  /** The clauses between FROM and SELECT. */
  function Clauses(ctx: Ctx, q: Statement, t: Table): Result<Table>
  {
    var t3 :- Filters(ctx, q, t);
    Arrange(ctx.res, q, t3)
  }

  /** handleSelect after the SELECT aliases are registered: FROM when
      present, the clauses, then SELECT. The engine's state afterwards: the
      working table is the result and the index has been rebuilt from its
      first row. */
  function SelectQuery(providers: Providers, ca: map<string, Item>, st: Joined, q: Statement): Result<Joined>
  {
    var st1 :- if q.from != [] then From(providers, ca, st, q.from) else Ok(st);
    var ctx := Ctx(ResolverOf(providers, st1), ca);
    var t5 :- Clauses(ctx, q, st1.table);
    var t6 :- Select(ctx, q.select, t5);
    Ok(st1.(table := t6, fullNames := SelectMapping(st1.fullNames, q.select, t5, t6)))
  }

  /** A new engine: no rows, no aliases, an empty index. */
  const Fresh: Joined := Joined([], [], [], map[])

  /** removeColumnPrefixIfPossible on the result rows. */
  function StripAll(res: Resolver, t: Table): (r: Table)
    ensures |r| == |t|
  {
    seq(|t|, i requires 0 <= i < |t| => Row(StripRow(res, t[i].cols), t[i].children))
  }

  lemma StripAllNext(res: Resolver, t: Table, i: nat)
    requires i < |t|
    ensures StripAll(res, t[..i + 1]) == StripAll(res, t[..i]) + [Row(StripRow(res, t[i].cols), t[i].children)]
  {
    assert forall k :: 0 <= k < i ==> t[..i + 1][k] == t[..i][k];
  }

  /** execute() on a SELECT: a new engine runs the statement and the rows
      lose their prefixes where the short name is unambiguous. */
  function Run(providers: Providers, q: Statement): Result<Table>
  {
    var st :- SelectQuery(providers, SelectAliases(map[], q.select), Fresh, q);
    Ok(StripAll(ResolverOf(providers, st), st.table))
  }
}
