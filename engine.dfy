/** The SuperSql engine: one object per statement, holding the working
    table, the FROM alias maps, the short-name index, the SELECT aliases
    and the row count, whose private methods overwrite the working table
    stage by stage, as core.php does. Each method is proved against the
    stage function that states what it computes. Three stages run the
    corrected behaviour of the Findings in README.md rather than the code
    as written: a table prefix is resolved by ToTableAliasIfPossible
    (also for `t.*`), NOT IN reads its list, and ORDER BY resolves every
    key. The as-written behaviour is modelled beside each of them
    (ToTableAliasIfPossibleAsWritten, NotInAsWritten, OrderByAsWritten). */
module Engine {
  import opened Wrappers
  import opened Strings
  import opened Values
  import opened Assoc
  import opened Rows
  import opened Names
  import opened Expr
  import opened Relational
  import opened Grouping
  import opened Stages
  import opened Ordering
  import opened Pipeline

  class SuperSql {
    /** The host's table providers (`self::$more_tables`), already called. */
    const providers: Providers
    var table: Table
    var aliases: seq<(string, string)>       // from_table_alias_to_full_name
    var tableToAlias: seq<(string, string)>  // from_table_name_to_alias
    var fullNames: map<string, seq<string>>  // full_column_names
    var columnAlias: map<string, Item>       // column_alias
    var total: nat

    /** The part of the state the FROM, WHERE, ORDER and SELECT stages act on. */
    function State(): Joined
      reads this
    {
      Joined(table, aliases, tableToAlias, fullNames)
    }

    /** What name resolution reads. */
    function Res(): (r: Resolver)
      reads this`aliases, this`fullNames
      ensures r == ResolverOf(providers, State())
    {
      Resolver(providers.Keys, aliases, fullNames)
    }

    /** What the evaluator reads. */
    function Context(): Ctx
      reads this`aliases, this`fullNames, this`columnAlias
    {
      Ctx(Res(), columnAlias)
    }

    constructor(providers: Providers)
      ensures this.providers == providers
      ensures State() == Fresh && columnAlias == map[] && total == 0
    {
      this.providers := providers;
      table := [];
      aliases := [];
      tableToAlias := [];
      fullNames := map[];
      columnAlias := map[];
      total := 0;
    }

    /** getColumnsForSelect: every aliased SELECT entry is registered
        under its alias, later entries overwriting earlier ones. */
    method GetColumnsForSelect(select: seq<Item>)
      modifies this`columnAlias
      ensures columnAlias == SelectAliases(old(columnAlias), select)
    {
      var i := 0;
      while i < |select|
        invariant 0 <= i <= |select|
        invariant columnAlias == SelectAliases(old(columnAlias), select[..i])
      {
        assert select[..i + 1][..i] == select[..i];
        if select[i].alias.Some? {
          columnAlias := columnAlias[select[i].alias.value := select[i]];
        }
        i := i + 1;
      }
      assert select[..|select|] == select;
    }

    /** The renaming loop of loadTableRows on one row: each original key,
        in order, is written back under `prefix.lower(key)` and unset. */
    static method QualifyKeys(prefix: string, raw: seq<(string, Value)>) returns (row: seq<(string, Value)>)
      ensures Plain(row) == LoadedRow(prefix, raw)
    {
      row := raw;
      var j := 0;
      while j < |raw|
        invariant 0 <= j <= |raw|
        invariant row == QualifyUpTo(prefix, raw, j)
      {
        QualifyUpToNext(prefix, raw, j);
        row := QualifyStep(prefix, row, raw[j]);
        j := j + 1;
      }
    }

    /** loadTableRows after the provider has been called: every row's keys
        renamed with the table's first alias, or its name, as prefix. */
    method LoadTableRows(name: string) returns (r: Result<Table>)
      ensures r == LoadTable(Res(), providers, name)
    {
      if name !in providers {
        return Err(UnknownTable(name));
      }
      var prefix := LoadPrefix(Res(), name);
      var raws := providers[name];
      var rows: Table := [];
      var i := 0;
      while i < |raws|
        invariant 0 <= i <= |raws|
        invariant rows == LoadedRows(prefix, raws[..i])
      {
        LoadedRowsSnoc(prefix, raws, i);
        var row := QualifyKeys(prefix, raws[i]);
        rows := rows + [Plain(row)];
        i := i + 1;
      }
      assert raws[..i] == raws;
      return Ok(rows);
    }

    /** constructColumnNameMapping(reset(t)): rebuilt from the first row's
        keys unless there is no first row or it is empty. */
    method ConstructColumnNameMapping(t: Table)
      modifies this`fullNames
      ensures fullNames == Mapping(old(fullNames), t)
    {
      if t == [] || IsEmptyRow(t[0]) {
        return;
      }
      var keys := Rows.Names(t[0]);
      var collection: map<string, seq<string>> := map[];
      var i := 0;
      while i < |keys|
        invariant 0 <= i <= |keys|
        invariant collection == ColumnIndex(keys[..i])
      {
        var column := keys[i];
        assert ColumnIndex(keys[..i + 1]) == AddColumn(collection, column) by {
          assert keys[..i + 1][..i] == keys[..i];
        }
        if HasDot(column) {
          var col := Short(column);
          if col !in collection {
            collection := collection[col := []];
          }
          var lc := Lower(col);
          collection := collection[lc := (if lc in collection then collection[lc] else []) + [Lower(column)]];
        }
        i := i + 1;
      }
      assert keys[..|keys|] == keys;
      fullNames := collection;
    }

    /** outerJoin: an empty incoming table changes nothing, an empty working
        table is replaced by it, otherwise every row of the working table is
        merged with every incoming row, in that order, and the merged rows
        whose ON condition is `true` (all of them without a condition)
        become the working table. A condition that fails to evaluate is the
        error, and the working table is then left as it was. */
    method OuterJoin(incoming: Table, cond: seq<Node>) returns (err: Option<Error>)
      modifies this`table
      ensures var r := Relational.OuterJoin(Context(), old(table), incoming, cond);
              && (r.Ok? ==> err.None? && table == r.value)
              && (r.Err? ==> err == Some(r.error) && table == old(table))
    {
      var r := JoinTables(Context(), table, incoming, cond);
      if r.Err? {
        return Some(r.error);
      }
      table := r.value;
      return None;
    }

    /** The nested loops of outerJoin on the tables themselves. */
    static method JoinTables(ctx: Ctx, A: Table, B: Table, cond: seq<Node>) returns (r: Result<Table>)
      ensures r == Relational.OuterJoin(ctx, A, B, cond)
    {
      if B == [] {
        return Ok(A);
      }
      if A == [] {
        return Ok(B);
      }
      var result: Table := [];
      ghost var pairs: Table := [];
      KeptSoFarStart(ctx, cond);
      var a := 0;
      while a < |A|
        invariant 0 <= a <= |A|
        invariant pairs == Cross(A[..a], B) && KeptSoFar(ctx, cond, pairs, result)
      {
        CrossStep(A, B, a);
        var e;
        result, e := JoinRow(ctx, cond, A[a], B, pairs, result);
        pairs := pairs + MergeEach(A[a], B);
        if e.Some? {
          JoinFailsIn(ctx, cond, A, B, a);
          return Err(e.value);
        }
        a := a + 1;
      }
      assert A[..|A|] == A;
      KeptSoFarDone(ctx, cond, A, B, result);
      return Ok(result);
    }

    /** The inner loop of outerJoin: one accumulator row merged with each
        incoming row in turn, each merge kept when its condition is `true`
        (always without a condition). */
    static method JoinRow(ctx: Ctx, cond: seq<Node>, x: Row, B: Table, ghost pairs: Table, result: Table)
      returns (out: Table, err: Option<Error>)
      requires KeptSoFar(ctx, cond, pairs, result)
      ensures err.None? ==> KeptSoFar(ctx, cond, pairs + MergeEach(x, B), out)
      ensures err.Some? ==> cond != [] && Evaluations(ctx, cond, pairs + MergeEach(x, B)) == Err(err.value)
    {
      out := result;
      var b := 0;
      assert B[..0] == [] && pairs + [] == pairs;
      while b < |B|
        invariant 0 <= b <= |B|
        invariant KeptSoFar(ctx, cond, pairs + MergeEach(x, B[..b]), out)
      {
        var row := MergeRows(x, B[b]);
        var keep := true;
        if cond != [] {
          var v := Eval(ctx, cond, row);
          if v.Err? {
            JoinRowFails(ctx, cond, x, B, pairs, b);
            return out, Some(v.error);
          }
          keep := JoinKeeps(v.value);
        }
        KeptSoFarMerge(ctx, cond, x, B, pairs, b, out);
        if keep {
          out := out + [row];
        }
        b := b + 1;
      }
      assert B[..|B|] == B;
      return out, None;
    }

    /** applyFrom: each FROM entry registers its alias in both maps; once a
        table has been joined and the working table is empty the loop stops;
        otherwise the entry's table is loaded, joined under its ON condition,
        and the index is rebuilt from the first joined row. */
    method ApplyFrom(from: seq<FromItem>) returns (err: Option<Error>)
      modifies this`table, this`aliases, this`tableToAlias, this`fullNames
      ensures var r := Stages.From(providers, columnAlias, old(State()), from);
              && (r.Ok? ==> err.None? && State() == r.value)
              && (r.Err? ==> err == Some(r.error))
    {
      var loaded := false;
      var i := 0;
      while i < |from|
        invariant 0 <= i <= |from|
        invariant Stages.From(providers, columnAlias, old(State()), from) == FromRest(providers, columnAlias, State(), from[i..], loaded)
      {
        var it := from[i];
        ghost var before := State();
        RegisterAlias(it);
        if loaded && table == [] {
          FromRestStops(providers, columnAlias, before, from, i);
          return None;
        }
        var rows := LoadTableRows(it.table);
        if rows.Err? {
          FromRestLoadFails(providers, columnAlias, before, from, i, loaded);
          return Some(rows.error);
        }
        err := OuterJoin(rows.value, it.on);
        if err.Some? {
          FromRestJoinFails(providers, columnAlias, before, from, i, loaded, rows.value);
          return;
        }
        FromRestNext(providers, columnAlias, before, from, i, loaded, rows.value, table);
        ConstructColumnNameMapping(table);
        loaded := true;
        i := i + 1;
      }
      assert from[i..] == [];
      return None;
    }

    /** The alias bookkeeping of one FROM entry: its alias, when it has one,
        is recorded against the table name in both directions. */
    method RegisterAlias(it: FromItem)
      modifies this`aliases, this`tableToAlias
      ensures State() == Register(old(State()), it)
    {
      if it.alias.Some? {
        aliases := Put(aliases, it.alias.value, it.table);
        tableToAlias := Put(tableToAlias, it.table, it.alias.value);
      }
    }

    /** applyWhere: the rows whose condition is not `false`, in order and
        renumbered; the first row whose condition fails is the error, and
        the working table is then left as it was. */
    method ApplyWhere(cond: seq<Node>) returns (err: Option<Error>)
      modifies this`table
      ensures var r := Relational.Where(Context(), cond, old(table));
              && (r.Ok? ==> err.None? && table == r.value)
              && (r.Err? ==> err == Some(r.error) && table == old(table))
    {
      var r := WhereRows(Context(), cond, table);
      if r.Err? {
        return Some(r.error);
      }
      table := r.value;
      return None;
    }

    /** The loop of applyWhere on the rows themselves. */
    static method WhereRows(ctx: Ctx, cond: seq<Node>, t: Table) returns (r: Result<Table>)
      ensures r == Relational.Where(ctx, cond, t)
    {
      var kept: Table := [];
      WhereSoFarStart(ctx, cond, t);
      var i := 0;
      while i < |t|
        invariant 0 <= i <= |t| && WhereSoFar(ctx, cond, t[..i], kept)
      {
        var v := Eval(ctx, cond, t[i]);
        if v.Err? {
          WhereFailsAt(ctx, cond, t, i, kept);
          return Err(v.error);
        }
        WhereSoFarNext(ctx, cond, t, i, kept);
        if WhereKeeps(v.value) {
          kept := kept + [t[i]];
        }
        i := i + 1;
      }
      WhereSoFarDone(ctx, cond, t, kept);
      return Ok(kept);
    }

    /** applyOrder, corrected: no rows, nothing to do; otherwise every key
        is resolved to the column it reads, and several keys go through the
        exchange sort on the whole table, a single key through the stable
        sort. An unresolvable key is the error, and the table is then left
        as it was. core.php resolves only a single key; with several it
        reads the keys as typed (Pipeline.OrderByAsWritten). */
    method ApplyOrder(order: seq<OrderItem>) returns (err: Option<Error>)
      requires order != []
      modifies this`table
      ensures var r := OrderBy(Res(), old(table), order);
              && (r.Ok? ==> err.None? && table == r.value)
              && (r.Err? ==> err == Some(r.error) && table == old(table))
    {
      if table == [] {
        return None;
      }
      var keys := ResolveAll(Res(), order);
      if keys.Err? {
        return Some(keys.error);
      }
      if |keys.value| >= 2 {
        SortRange(keys.value, 0, 0, |table| - 1);
      } else {
        table := SortByKey(table, keys.value[0]);
      }
      return None;
    }

    /** toColumnNameWithPrefix on each ORDER BY entry, left to right. */
    static method ResolveAll(res: Resolver, order: seq<OrderItem>) returns (r: Result<seq<SortKey>>)
      ensures r == ResolveKeys(res, order)
    {
      var keys: seq<SortKey> := [];
      var j := 0;
      assert order[..0] == [];
      while j < |order|
        invariant 0 <= j <= |order|
        invariant ResolveKeys(res, order[..j]) == Ok(keys)
      {
        ResolveKeysStep(res, order, j);
        var c := ToColumnNameWithPrefix(res, order[j].text);
        if c.Err? {
          ResolveKeysPrefixErr(res, order, j + 1);
          return Err(c.error);
        }
        keys := keys + [SortKey(c.value, order[j].desc)];
        j := j + 1;
      }
      assert order[..j] == order;
      return Ok(keys);
    }

    /** recursiveApplyOneOrder(keys, idx, lo, hi): the exchange sort of
        rows lo..hi on key idx, then every run of more than one row with
        equal values under that key sorted on the keys after it. */
    method SortRange(keys: seq<SortKey>, idx: nat, lo: int, hi: int)
      requires 0 <= lo && hi < |table|
      modifies this`table
      ensures table == OrderRange(old(table), keys, idx, lo, hi)
      decreases |keys| - idx, 2
    {
      if idx >= |keys| {
        return;
      }
      ExchangeSortRange(keys[idx], lo, hi);
      if idx + 1 == |keys| || lo > hi {
        return;
      }
      RefineRuns(keys, idx, lo, hi);
    }

    /** The run-detection loop after the exchange sort on key idx: each
        maximal run of rows holding the same value under the key, when it
        has more than one row, is sorted on the next key. */
    method RefineRuns(keys: seq<SortKey>, idx: nat, lo: int, hi: int)
      requires idx + 1 < |keys| && 0 <= lo <= hi < |table|
      modifies this`table
      ensures table == Runs(old(table), keys, idx, hi, lo, lo, At(old(table)[lo], keys[idx]), lo + 1)
      decreases |keys| - idx, 1
    {
      var key := keys[idx];
      var start, finish := lo, lo;
      var prev := At(table[lo], key);
      var a := lo + 1;
      while a <= hi
        invariant lo < a <= hi + 1 <= |table| && lo <= start <= finish == a - 1
        invariant Runs(table, keys, idx, hi, start, finish, prev, a)
                  == Runs(old(table), keys, idx, hi, lo, lo, At(old(table)[lo], key), lo + 1)
      {
        var value := At(table[a], key);
        if prev == value {
          RunsSame(table, keys, idx, hi, start, finish, prev, a);
          finish := a;
        } else {
          RunsNew(table, keys, idx, hi, start, finish, prev, a);
          RefineRun(keys, idx, start, finish);
          start, finish, prev := a, a, value;
        }
        a := a + 1;
      }
      RunsEnd(table, keys, idx, hi, start, finish, prev, a);
      RefineRun(keys, idx, start, finish);
    }

    /** `if ($finish > $start)`: a run of several rows is sorted on the
        next key. */
    method RefineRun(keys: seq<SortKey>, idx: nat, start: int, finish: int)
      requires idx < |keys| && 0 <= start <= finish < |table|
      modifies this`table
      ensures table == Refine(old(table), keys, idx, start, finish)
      decreases |keys| - idx, 0
    {
      if finish > start {
        SortRange(keys, idx + 1, start, finish);
      }
    }

    /** The two nested loops of recursiveApplyOneOrder: row a swapped with
        every later row b of the range it is out of order with. */
    method ExchangeSortRange(key: SortKey, lo: int, hi: int)
      requires 0 <= lo && hi < |table|
      modifies this`table
      ensures table == ExchangeSort(old(table), key, lo, hi)
    {
      var a := lo;
      while a < hi
        invariant lo <= a && hi < |table|
        invariant ExchangeSort(table, key, a, hi) == ExchangeSort(old(table), key, lo, hi)
      {
        ExchangeSortNext(table, key, a, hi);
        ExchangeRowRange(key, a, hi);
        a := a + 1;
      }
    }

    /** The inner loop: row a compared with each row b after it up to hi. */
    method ExchangeRowRange(key: SortKey, a: int, hi: int)
      requires 0 <= a < hi < |table|
      modifies this`table
      ensures table == ExchangeRow(old(table), key, a, a + 1, hi)
    {
      var b := a + 1;
      while b <= hi
        invariant a < b <= hi + 1 <= |table|
        invariant ExchangeRow(table, key, a, b, hi) == ExchangeRow(old(table), key, a, a + 1, hi)
      {
        ExchangeRowNext(table, key, a, b, hi);
        CompareAndSwap(key, a, b);
        b := b + 1;
      }
    }

    /** One comparison of the exchange sort: rows a and b swapped when
        `$x > $y` (`$x < $y` for DESC). */
    method CompareAndSwap(key: SortKey, a: int, b: int)
      requires 0 <= a < b < |table|
      modifies this`table
      ensures table == Exchange(old(table), key, a, b)
    {
      if OutOfOrder(At(table[a], key), At(table[b], key), key.desc) {
        var tmp := table[a];
        table := table[a := table[b]];
        table := table[b := tmp];
      }
    }

    /** applyLimit: array_slice from the offset, at most the row count. */
    method ApplyLimit(offset: string, count: string)
      modifies this`table
      ensures table == Limit(old(table), offset, count)
    {
      table := Limit(table, offset, count);
    }

    /** applySelect: a lone aggregate over no rows gives one row holding 0
        and leaves the index alone; a lone aggregate otherwise runs over one
        parent row whose 'children' are all the rows; every row is then
        projected and the index is rebuilt from the first result row. */
    method ApplySelect(items: seq<Item>) returns (err: Option<Error>)
      modifies this`table, this`fullNames
      ensures var r := Select(old(Context()), items, old(table));
              && (r.Ok? ==> err.None? && table == r.value
                            && fullNames == SelectMapping(old(fullNames), items, old(table), r.value))
              && (r.Err? ==> err == Some(r.error) && fullNames == old(fullNames))
    {
      if AggregateOnly(items) && table == [] {
        table := [Plain([(ColumnName(items[0]), Int(0))])];
        return None;
      }
      if AggregateOnly(items) {
        table := [Row([], Children(table))];
      }
      var r := ProjectRows(Context(), items, table);
      if r.Err? {
        return Some(r.error);
      }
      ConstructColumnNameMapping(r.value);
      table := r.value;
      return None;
    }

    /** The loop over rows of applySelect. */
    static method ProjectRows(ctx: Ctx, items: seq<Item>, t: Table) returns (r: Result<Table>)
      ensures r == Project(ctx, items, t)
    {
      var out: Table := [];
      var i := 0;
      assert t[..0] == [];
      while i < |t|
        invariant 0 <= i <= |t|
        invariant Project(ctx, items, t[..i]) == Ok(out)
      {
        ProjectStep(ctx, items, t, i);
        var row := SelectColumns(ctx, items, t[i]);
        if row.Err? {
          ProjectPrefixErr(ctx, items, t, i + 1);
          return Err(row.error);
        }
        out := out + [row.value];
        i := i + 1;
      }
      assert t[..i] == t;
      return Ok(out);
    }

    /** The loop over SELECT entries for one row, left to right; the first
        failing entry decides the row's error. */
    static method SelectColumns(ctx: Ctx, items: seq<Item>, row: Row) returns (r: Result<Row>)
      ensures r == SelectRow(ctx, items, row)
    {
      var cols := EmptyRow;
      var j := 0;
      assert items[..0] == [];
      while j < |items|
        invariant 0 <= j <= |items|
        invariant SelectRow(ctx, items[..j], row) == Ok(cols)
      {
        SelectRowStep(ctx, items, j, row);
        var next := SelectEntry(ctx, cols, items[j], row);
        if next.Err? {
          SelectRowPrefixErr(ctx, items, j + 1, row);
          return next;
        }
        cols := next.value;
        j := j + 1;
      }
      assert items[..j] == items;
      return Ok(cols);
    }

    /** One SELECT entry applied to the columns built so far: `*` merges
        the row, `t.*` the columns under t's prefix, any other entry sets
        its column. The prefix of `t.*` is the corrected one, so an
        unaliased table's columns are found. */
    static method SelectEntry(ctx: Ctx, cols: Row, item: Item, row: Row) returns (r: Result<Row>)
      ensures r == SelectItem(ctx, cols, item, row)
    {
      if IsStar(item) {
        if HasDot(item.text) {
          var p := ToTableAliasIfPossible(ctx.res, Prefix(item.text));
          if p.Err? {
            return Err(p.error);
          }
          var under := ColumnsWithPrefix(row.cols, p.value);
          return Ok(MergeRows(cols, Plain(under)));
        }
        return Ok(MergeRows(cols, row));
      }
      var v := EvalItem(ctx, item.expr, row);
      if v.Err? {
        return Err(v.error);
      }
      return Ok(Row(Put(cols.cols, ColumnName(item), v.value), cols.children));
    }

    /** The columns of a row whose name starts with `prefix.`, in order. */
    static method ColumnsWithPrefix(cols: seq<(string, Value)>, prefix: string) returns (r: seq<(string, Value)>)
      ensures r == ColumnsUnder(cols, prefix)
    {
      r := [];
      var i := 0;
      assert cols[..0] == [];
      while i < |cols|
        invariant 0 <= i <= |cols|
        invariant r == ColumnsUnder(cols[..i], prefix)
      {
        ColumnsUnderNext(cols, prefix, i);
        if StartsWith(cols[i].0, prefix + ".") {
          r := r + [cols[i]];
        }
        i := i + 1;
      }
      assert cols[..i] == cols;
    }

    /** applyGroupBy: the rows grouped level by level into a tree, which is
        then flattened. A group value or column that fails is the error,
        and the table is then left as it was. */
    method ApplyGroupBy(items: seq<Item>) returns (err: Option<Error>)
      modifies this`table
      ensures var r := GroupBy(Context(), items, old(table));
              && (r.Ok? ==> err.None? && table == r.value)
              && (r.Err? ==> err == Some(r.error) && table == old(table))
    {
      var g := GroupRows(Context(), items, table, 0);
      if g.Err? {
        return Some(g.error);
      }
      table := FlattenGroups(g.value);
      return None;
    }

    /** recursiveApplyOneGroupBy(items, rows, index). */
    static method GroupRows(ctx: Ctx, items: seq<Item>, rows: Table, index: nat) returns (r: Result<Table>)
      requires index <= |items|
      ensures r == GroupLevel(ctx, items, rows, index)
      decreases |items| - index, 0
    {
      if index >= |items| || rows == [] {
        return Ok(rows);
      }
      var bs := BucketRows(ctx, items, rows, index);
      if bs.Err? {
        return Err(bs.error);
      }
      GroupLevelBucketed(ctx, items, rows, index, bs.value);
      var col := ToColumnNameWithPrefix(ctx.res, items[index].text);
      if col.Err? {
        return Err(col.error);
      }
      var nodes := LevelNodes(col.value, bs.value);
      if index + 1 < |items| {
        r := SubGroups(ctx, items, col.value, bs.value, nodes, index + 1);
      } else {
        r := Ok(nodes);
      }
    }

    /** The bucketing loop: each row's group value evaluated and the row
        filed under its key (`$new[$value][] = $row`), its bucket first
        emptied when array_key_exists refuses the value. */
    static method BucketRows(ctx: Ctx, items: seq<Item>, rows: Table, index: nat) returns (r: Result<Buckets>)
      requires index < |items|
      ensures r.Ok? ==> Bucketed(ctx, [items[index].expr], rows[..|rows|], r.value)
      ensures r.Err? ==> GroupLevel(ctx, items, rows, index) == Err(r.error)
    {
      var c := [items[index].expr];
      var bs: Buckets := [];
      BucketedStart(ctx, c, rows);
      var i := 0;
      while i < |rows|
        invariant 0 <= i <= |rows| && Bucketed(ctx, c, rows[..i], bs)
      {
        var v := Eval(ctx, c, rows[i]);
        if v.Err? {
          GroupLevelFails(ctx, items, rows, index, i, bs);
          return Err(v.error);
        }
        BucketedNext(ctx, c, rows, i, bs);
        bs := AddToBucket(bs, KeyOf(v.value), rows[i], RefusedKey(v.value));
        i := i + 1;
      }
      return Ok(bs);
    }

    /** The loop building `[$column_name => $key, 'children' => $rows]`,
        one node per bucket in bucket order. */
    static method LevelNodes(col: string, bs: Buckets) returns (nodes: Table)
      ensures nodes == Nodes(col, bs)
    {
      nodes := [];
      var j := 0;
      while j < |bs|
        invariant 0 <= j <= |bs| && |nodes| == j
        invariant forall k :: 0 <= k < j ==> nodes[k] == Row([(col, KeyValue(bs[k].0))], Children(bs[k].1))
      {
        nodes := nodes + [Row([(col, KeyValue(bs[j].0))], Children(bs[j].1))];
        j := j + 1;
      }
    }

    /** The loop that replaces each node's 'children' by their grouping on
        the next item, node by node in place. */
    static method SubGroups(ctx: Ctx, items: seq<Item>, col: string, bs: Buckets, nodes: Table, level: nat)
      returns (r: Result<Table>)
      requires level < |items| && nodes == Nodes(col, bs)
      ensures r == Descend(ctx, items, col, bs, level)
      decreases |items| - level, 1
    {
      var result := nodes;
      var j := 0;
      assert bs[0..] == bs && result[..0] == [];
      PrependNothing(Descend(ctx, items, col, bs, level));
      while j < |bs|
        invariant 0 <= j <= |bs| && |result| == |bs|
        invariant forall k :: j <= k < |bs| ==> result[k] == nodes[k]
        invariant Descend(ctx, items, col, bs, level) == Prepend(result[..j], Descend(ctx, items, col, bs[j..], level))
      {
        DescendNext(ctx, items, col, bs, level, j);
        var sub := GroupRows(ctx, items, result[j].children.rows, level);
        if sub.Err? {
          return Err(sub.error);
        }
        ghost var node := Row([(col, KeyValue(bs[j].0))], Children(sub.value));
        PrependTwice(result[..j], node, Descend(ctx, items, col, bs[j + 1..], level));
        result := result[j := Row(result[j].cols, Children(sub.value))];
        assert result[..j + 1] == result[..j] + [node];
        j := j + 1;
      }
      assert result[..j] == result && bs[j..] == [];
      assert Descend(ctx, items, col, [], level) == Ok([]);
      assert result + [] == result;
      return Ok(result);
    }

    /** recursiveFlattenGroupBy: node by node until one without 'children'. */
    static method FlattenGroups(rows: Table) returns (flat: Table)
      ensures flat == Flatten(rows)
      decreases rows
    {
      flat := [];
      var i := 0;
      assert rows[0..] == rows;
      while i < |rows|
        invariant 0 <= i <= |rows|
        invariant Flatten(rows) == flat + Flatten(rows[i..])
      {
        var row := rows[i];
        if row.children.NoChildren? {
          FlattenStops(rows, i);
          assert flat + [] == flat;
          return;
        }
        FlattenNext(rows, i);
        var sub := FlattenGroups(row.children.rows);
        ghost var part := if sub != [] then MergeEach(Row(row.cols, NoChildren), sub) else [row];
        ConcatAssoc(flat, part, Flatten(rows[i + 1..]));
        if sub != [] {
          flat := AppendMerged(flat, Row(row.cols, NoChildren), sub);
        } else {
          flat := flat + [row];
        }
        i := i + 1;
      }
      assert rows[i..] == [];
    }

    /** `foreach ($child_rows as $child_row) $new[] = array_merge($row, $child_row)`. */
    static method AppendMerged(flat: Table, head: Row, sub: Table) returns (r: Table)
      ensures r == flat + MergeEach(head, sub)
    {
      r := flat;
      var k := 0;
      assert sub[..0] == [];
      while k < |sub|
        invariant 0 <= k <= |sub|
        invariant r == flat + MergeEach(head, sub[..k])
      {
        MergeEachNext(head, sub, k);
        r := r + [MergeRows(head, sub[k])];
        k := k + 1;
      }
      assert sub[..k] == sub;
    }

    /** applyHaving is applyWhere on the HAVING condition. */
    method ApplyHaving(cond: seq<Node>) returns (err: Option<Error>)
      modifies this`table
      ensures var r := Relational.Where(Context(), cond, old(table));
              && (r.Ok? ==> err.None? && table == r.value)
              && (r.Err? ==> err == Some(r.error) && table == old(table))
    {
      err := ApplyWhere(cond);
    }

    /** handleSelect: the SELECT aliases are registered, then FROM, WHERE,
        GROUP BY, HAVING, ORDER BY and LIMIT run when present, then SELECT;
        the row count is recorded and the working table returned. */
    method HandleSelect(q: Statement) returns (r: Result<Table>)
      modifies this`table, this`aliases, this`tableToAlias, this`fullNames, this`columnAlias, this`total
      ensures columnAlias == SelectAliases(old(columnAlias), q.select)
      ensures var s := SelectQuery(providers, columnAlias, old(State()), q);
              && (s.Ok? ==> r == Ok(table) && State() == s.value && total == |table|)
              && (s.Err? ==> r == Err(s.error))
    {
      GetColumnsForSelect(q.select);
      var e: Option<Error> := None;
      if q.from != [] {
        e := ApplyFrom(q.from);
        if e.Some? {
          return Err(e.value);
        }
      }
      e := ApplyClauses(q);
      if e.Some? {
        return Err(e.value);
      }
      e := ApplySelect(q.select);
      if e.Some? {
        return Err(e.value);
      }
      total := |table|;
      return Ok(table);
    }

    /** The part of handleSelect between FROM and SELECT. */
    method ApplyClauses(q: Statement) returns (err: Option<Error>)
      modifies this`table
      ensures var r := Clauses(Context(), q, old(table));
              && (r.Ok? ==> err.None? && table == r.value)
              && (r.Err? ==> err == Some(r.error))
    {
      err := ApplyFilters(q);
      if err.Some? {
        return;
      }
      err := ApplyArrange(q);
    }

    /** WHERE, GROUP BY and HAVING, each when present. */
    method ApplyFilters(q: Statement) returns (err: Option<Error>)
      modifies this`table
      ensures var r := Filters(Context(), q, old(table));
              && (r.Ok? ==> err.None? && table == r.value)
              && (r.Err? ==> err == Some(r.error))
    {
      err := None;
      if q.where != [] {
        err := ApplyWhere(q.where);
        if err.Some? {
          return;
        }
      }
      if q.group != [] {
        err := ApplyGroupBy(q.group);
        if err.Some? {
          return;
        }
      }
      if q.having != [] {
        err := ApplyHaving(q.having);
      }
    }

    /** ORDER BY and LIMIT, each when present. */
    method ApplyArrange(q: Statement) returns (err: Option<Error>)
      modifies this`table
      ensures var r := Arrange(Res(), q, old(table));
              && (r.Ok? ==> err.None? && table == r.value)
              && (r.Err? ==> err == Some(r.error))
    {
      err := None;
      if q.order != [] {
        err := ApplyOrder(q.order);
        if err.Some? {
          return;
        }
      }
      if q.limit.Some? {
        ApplyLimit(q.limit.value.0, q.limit.value.1);
      }
    }

    /** removeColumnPrefixIfPossible: every row with its columns renamed by
        removeColumnPrefixForRow, its 'children' kept. */
    method RemoveColumnPrefixIfPossible(rows: Table) returns (out: Table)
      ensures out == StripAll(Res(), rows)
    {
      out := StripRows(Res(), rows);
    }

    /** The loop of removeColumnPrefixIfPossible under a fixed index. */
    static method StripRows(res: Resolver, rows: Table) returns (out: Table)
      ensures out == StripAll(res, rows)
    {
      out := [];
      var i := 0;
      assert rows[..0] == [];
      while i < |rows|
        invariant 0 <= i <= |rows| && out == StripAll(res, rows[..i])
      {
        StripAllNext(res, rows, i);
        var cols := RemoveColumnPrefixForRow(res, rows[i].cols);
        out := out + [Row(cols, rows[i].children)];
        i := i + 1;
      }
      assert rows[..i] == rows;
    }

    /** removeColumnPrefixForRow: each column written under its short name
        when that name is unambiguous, under its full name otherwise. */
    static method RemoveColumnPrefixForRow(res: Resolver, cols: seq<(string, Value)>) returns (r: seq<(string, Value)>)
      ensures r == StripRow(res, cols)
    {
      r := [];
      var i := 0;
      assert cols[..0] == [];
      while i < |cols|
        invariant 0 <= i <= |cols| && r == StripRow(res, cols[..i])
      {
        StripRowNext(res, cols, i);
        r := Put(r, StrippedName(res, cols[i].0), cols[i].1);
        i := i + 1;
      }
      assert cols[..i] == cols;
    }

    /** execute() on a SELECT: a new engine runs it and the result rows
        lose their table prefixes where the short name is unambiguous. */
    static method Execute(providers: Providers, q: Statement) returns (r: Result<Table>)
      ensures r == Run(providers, q)
    {
      var engine := new SuperSql(providers);
      var t := engine.HandleSelect(q);
      if t.Err? {
        return Err(t.error);
      }
      var rows := engine.RemoveColumnPrefixIfPossible(t.value);
      return Ok(rows);
    }
  }
}
