/** The pipeline stages that the engine's methods carry out, as functions
    of the state they read: loading and qualifying a table, the FROM fold,
    the short-name index rebuild, and the SELECT projection. */
module Stages {
  import opened Wrappers
  import opened Strings
  import opened Values
  import opened Assoc
  import opened Rows
  import opened Names
  import opened Expr
  import opened Relational

  // ---------------------------------------------------------------------
  // Loading a table (the post-load part of loadTableRows)

  /** The rows each registered table's provider yields, with their own
      column names. */
  type Providers = map<string, seq<seq<(string, Value)>>>

  /** The renaming loop after its first j steps over the row's original
      entries: `$row[$prefix . '.' . strtolower($key3)] = $col;
      unset($row[$key3]);`. */
  function QualifyUpTo(prefix: string, raw: seq<(string, Value)>, j: nat): seq<(string, Value)>
    requires j <= |raw|
  {
    if j == 0 then raw else QualifyStep(prefix, QualifyUpTo(prefix, raw, j - 1), raw[j - 1])
  }

  /** One more step of the renaming loop. */
  lemma QualifyUpToNext(prefix: string, raw: seq<(string, Value)>, j: nat)
    requires j < |raw|
    ensures QualifyUpTo(prefix, raw, j + 1) == QualifyStep(prefix, QualifyUpTo(prefix, raw, j), raw[j])
  {
  }

  /** On a well-keyed row the loop renames the entries one by one. */
  lemma {:induction false} QualifyUpToRenames(prefix: string, raw: seq<(string, Value)>, j: nat)
    requires WellKeyed(raw) && j <= |raw|
    ensures QualifyUpTo(prefix, raw, j) == raw[j..] + Qualified(prefix, raw[..j])
  {
    if j == 0 {
      assert raw[0..] == raw && raw[..0] == [];
    } else {
      var before := raw[j - 1..] + Qualified(prefix, raw[..j - 1]);
      assert QualifyUpTo(prefix, raw, j - 1) == before by {
        QualifyUpToRenames(prefix, raw, j - 1);
      }
      assert QualifyUpTo(prefix, raw, j) == QualifyStep(prefix, before, raw[j - 1]);
      QualifyStepInvariant(prefix, raw, j - 1);
    }
  }

  /** A provider row once loaded: every key renamed, no 'children'. */
  function LoadedRow(prefix: string, raw: seq<(string, Value)>): Row
  {
    Plain(QualifyUpTo(prefix, raw, |raw|))
  }

  /** Loading keeps each value and gives key k the name `prefix.lower(k)`,
      in the same position. */
  lemma LoadedRowQualified(prefix: string, raw: seq<(string, Value)>)
    requires WellKeyed(raw)
    ensures LoadedRow(prefix, raw) == Plain(Qualified(prefix, raw))
    ensures forall i :: 0 <= i < |raw| ==>
      LoadedRow(prefix, raw).cols[i] == (prefix + "." + Lower(raw[i].0), raw[i].1)
  {
    QualifyUpToRenames(prefix, raw, |raw|);
    assert raw[|raw|..] == [] && raw[..|raw|] == raw;
  }

  /** Every provider row loaded, in provider order. */
  function LoadedRows(prefix: string, raws: seq<seq<(string, Value)>>): (r: Table)
    ensures |r| == |raws|
  {
    if raws == [] then []
    else LoadedRows(prefix, raws[..|raws| - 1]) + [LoadedRow(prefix, raws[|raws| - 1])]
  }

  lemma LoadedRowsSnoc(prefix: string, raws: seq<seq<(string, Value)>>, i: nat)
    requires i < |raws|
    ensures LoadedRows(prefix, raws[..i + 1]) == LoadedRows(prefix, raws[..i]) + [LoadedRow(prefix, raws[i])]
  {
    PrefixOfPrefix(raws, i + 1, i);
  }

  /** Row i of the loaded table is provider row i, loaded. */
  lemma {:induction false} LoadedRowsAt(prefix: string, raws: seq<seq<(string, Value)>>, i: nat)
    requires i < |raws|
    ensures LoadedRows(prefix, raws)[i] == LoadedRow(prefix, raws[i])
  {
    var n := |raws| - 1;
    if i < n {
      assert LoadedRows(prefix, raws[..n])[i] == LoadedRow(prefix, raws[i]) by {
        LoadedRowsAt(prefix, raws[..n], i);
        assert raws[..n][i] == raws[i];
      }
    }
  }

  /** loadTableRows: an unregistered table is an error; otherwise the
      provider's rows, renamed with the table's first alias or its name. */
  function LoadTable(res: Resolver, providers: Providers, name: string): (r: Result<Table>)
    ensures r.Err? <==> name !in providers
    ensures r.Err? ==> r.error == UnknownTable(name)
    ensures r.Ok? ==> |r.value| == |providers[name]|
  {
    if name !in providers then Err(UnknownTable(name))
    else Ok(LoadedRows(LoadPrefix(res, name), providers[name]))
  }

  /** A single table whose provider rows have lower-case, dot-free,
      distinct keys comes back unchanged once loaded, indexed from any of
      its rows and stripped: the prefix disappears again. */
  lemma LoadThenStrip(res: Resolver, providers: Providers, name: string, i: nat)
    requires name in providers && i < |providers[name]| && !HasDot(LoadPrefix(res, name))
    requires var raw := providers[name][i];
             WellKeyed(raw) && forall j :: 0 <= j < |raw| ==> IsLower(raw[j].0)
    requires res.fullNames == ColumnIndex(Rows.Names(LoadTable(res, providers, name).value[i]))
    ensures StripRow(res, LoadTable(res, providers, name).value[i].cols) == providers[name][i]
  {
    var prefix := LoadPrefix(res, name);
    var raw := providers[name][i];
    var q := Qualified(prefix, raw);
    assert LoadTable(res, providers, name).value[i] == Plain(q) by {
      LoadedRowsAt(prefix, providers[name], i);
      LoadedRowQualified(prefix, raw);
    }
    QualifyThenStrip(res, prefix, raw);
  }

  // ---------------------------------------------------------------------
  // The short-name index (constructColumnNameMapping(reset($table)))

  /** The index after a rebuild from a table's first row: no rows, or an
      empty first row, keep the index as it was. */
  function Mapping(fullNames: map<string, seq<string>>, t: Table): (m: map<string, seq<string>>)
    ensures t != [] && !IsEmptyRow(t[0]) ==> forall c :: c in m <==> ShortNameOccurs(Rows.Names(t[0]), c)
    ensures t != [] && !IsEmptyRow(t[0]) ==> forall c :: c in m ==> m[c] == FullNamesOf(Rows.Names(t[0]), c)
    ensures t == [] || IsEmptyRow(t[0]) ==> m == fullNames
  {
    if t == [] || IsEmptyRow(t[0]) then fullNames
    else
      ColumnIndexSpec(Rows.Names(t[0]));
      ColumnIndex(Rows.Names(t[0]))
  }

  // ---------------------------------------------------------------------
  // FROM (applyFrom)

  /** One FROM entry: the table, its alias, its ON condition (empty when
      there is none). */
  datatype FromItem = FromItem(table: string, alias: Option<string>, on: seq<Node>)

  /** What applyFrom changes: the working table, both alias maps and the
      short-name index. */
  datatype Joined = Joined(
    table: Table,
    aliases: seq<(string, string)>,       // from_table_alias_to_full_name
    tableToAlias: seq<(string, string)>,  // from_table_name_to_alias
    fullNames: map<string, seq<string>>)

  function ResolverOf(providers: Providers, st: Joined): Resolver
  {
    Resolver(providers.Keys, st.aliases, st.fullNames)
  }

  /** An aliased entry registers its alias in both directions. */
  function Register(st: Joined, it: FromItem): (r: Joined)
    ensures r.table == st.table && r.fullNames == st.fullNames
    ensures it.alias.None? ==> r == st
    ensures it.alias.Some? ==> Find(r.aliases, it.alias.value) == Some(it.table)
                               && Find(r.tableToAlias, it.table) == Some(it.alias.value)
  {
    match it.alias
    case None => st
    case Some(a) =>
      PutSpec(st.aliases, a, it.table);
      PutSpec(st.tableToAlias, it.table, a);
      st.(aliases := Put(st.aliases, a, it.table), tableToAlias := Put(st.tableToAlias, it.table, a))
  }

  /** The FROM loop from a given entry on. `loaded` says whether a table
      has already been joined: once one has and the working table is
      empty, the loop stops right after registering the next alias. */
  function FromRest(providers: Providers, columnAlias: map<string, Item>, st: Joined, from: seq<FromItem>, loaded: bool): (r: Result<Joined>)
    decreases |from|
  {
    if from == [] then Ok(st)
    else
      var it := from[0];
      var st1 := Register(st, it);
      if loaded && st1.table == [] then Ok(st1)
      else
        var rows :- LoadTable(ResolverOf(providers, st1), providers, it.table);
        var t :- OuterJoin(Ctx(ResolverOf(providers, st1), columnAlias), st1.table, rows, it.on);
        FromRest(providers, columnAlias, st1.(table := t, fullNames := Mapping(st1.fullNames, t)), from[1..], true)
  }

  function From(providers: Providers, columnAlias: map<string, Item>, st: Joined, from: seq<FromItem>): Result<Joined>
  {
    FromRest(providers, columnAlias, st, from, false)
  }

  // The FROM loop, one entry at a time

  /** After a join the working table is empty: the entry's alias is
      registered and the loop ends. */
  lemma FromRestStops(providers: Providers, columnAlias: map<string, Item>, st: Joined, from: seq<FromItem>, i: nat)
    requires i < |from| && st.table == []
    ensures FromRest(providers, columnAlias, st, from[i..], true) == Ok(Register(st, from[i]))
  {
    assert from[i..][0] == from[i];
  }

  /** An entry whose table has no provider ends the loop with that error. */
  lemma FromRestLoadFails(providers: Providers, columnAlias: map<string, Item>, st: Joined, from: seq<FromItem>, i: nat, loaded: bool)
    requires i < |from| && !(loaded && st.table == []) && from[i].table !in providers
    ensures FromRest(providers, columnAlias, st, from[i..], loaded) == Err(UnknownTable(from[i].table))
  {
    assert from[i..][0] == from[i];
  }

  /** An entry whose join fails ends the loop with the join's error. */
  lemma FromRestJoinFails(providers: Providers, columnAlias: map<string, Item>, st: Joined, from: seq<FromItem>, i: nat, loaded: bool, rows: Table)
    requires i < |from| && !(loaded && st.table == [])
    requires var st1 := Register(st, from[i]);
             && LoadTable(ResolverOf(providers, st1), providers, from[i].table) == Ok(rows)
             && OuterJoin(Ctx(ResolverOf(providers, st1), columnAlias), st1.table, rows, from[i].on).Err?
    ensures var st1 := Register(st, from[i]);
            FromRest(providers, columnAlias, st, from[i..], loaded)
              == Err(OuterJoin(Ctx(ResolverOf(providers, st1), columnAlias), st1.table, rows, from[i].on).error)
  {
    assert from[i..][0] == from[i];
  }

  /** An entry whose table loads and joins: the loop goes on from the
      joined table, with the index rebuilt from its first row. */
  lemma FromRestNext(providers: Providers, columnAlias: map<string, Item>, st: Joined, from: seq<FromItem>, i: nat, loaded: bool, rows: Table, t: Table)
    requires i < |from| && !(loaded && st.table == [])
    requires var st1 := Register(st, from[i]);
             && LoadTable(ResolverOf(providers, st1), providers, from[i].table) == Ok(rows)
             && OuterJoin(Ctx(ResolverOf(providers, st1), columnAlias), st1.table, rows, from[i].on) == Ok(t)
    ensures var st1 := Register(st, from[i]);
            FromRest(providers, columnAlias, st, from[i..], loaded)
              == FromRest(providers, columnAlias, st1.(table := t, fullNames := Mapping(st1.fullNames, t)), from[i + 1..], true)
  {
    assert from[i..][0] == from[i] && from[i..][1..] == from[i + 1..];
  }

  /** A FROM with one table on a fresh engine yields that table's loaded
      rows, with the index rebuilt from the first one. */
  lemma FromOneTable(providers: Providers, columnAlias: map<string, Item>, st: Joined, it: FromItem)
    requires st.table == []
    requires it.table in providers
    ensures var st1 := Register(st, it);
            var rows := LoadTable(ResolverOf(providers, st1), providers, it.table).value;
            From(providers, columnAlias, st, [it]) == Ok(st1.(table := rows, fullNames := Mapping(st1.fullNames, rows)))
  {
    var st1 := Register(st, it);
    var rows := LoadTable(ResolverOf(providers, st1), providers, it.table).value;
    var ctx := Ctx(ResolverOf(providers, st1), columnAlias);
    assert OuterJoin(ctx, st1.table, rows, it.on) == Ok(rows);
    var st2 := st1.(table := rows, fullNames := Mapping(st1.fullNames, rows));
    assert [it][1..] == [];
    assert FromRest(providers, columnAlias, st2, [], true) == Ok(st2);
    assert LoadTable(ResolverOf(providers, st1), providers, it.table).Ok?;
    assert FromRest(providers, columnAlias, st, [it], false) == FromRest(providers, columnAlias, st2, [it][1..], true);
  }

  /** Tables are loaded in FROM order: an unregistered first table is the
      error. */
  lemma FromUnknownTable(providers: Providers, columnAlias: map<string, Item>, st: Joined, from: seq<FromItem>)
    requires from != [] && from[0].table !in providers
    ensures From(providers, columnAlias, st, from) == Err(UnknownTable(from[0].table))
  {
    var st1 := Register(st, from[0]);
    assert LoadTable(ResolverOf(providers, st1), providers, from[0].table) == Err(UnknownTable(from[0].table));
  }

  /** Once the joined table is empty nothing more is loaded: only the next
      entry's alias is registered, and a later table that does not exist
      raises no error. */
  lemma FromStopsWhenEmpty(providers: Providers, columnAlias: map<string, Item>, st: Joined, from: seq<FromItem>)
    requires st.table == []
    ensures FromRest(providers, columnAlias, st, from, true) == Ok(if from == [] then st else Register(st, from[0]))
  {
  }

  /** Two tables whose first is not empty: their join under the second
      entry's ON condition. */
  lemma FromTwoTables(providers: Providers, columnAlias: map<string, Item>, st: Joined, a: FromItem, b: FromItem)
    requires st.table == [] && a.table in providers && b.table in providers
    requires providers[a.table] != []
    ensures var st1 := Register(st, a);
            var ra := LoadTable(ResolverOf(providers, st1), providers, a.table).value;
            var st2 := Register(st1.(table := ra, fullNames := Mapping(st1.fullNames, ra)), b);
            var rb := LoadTable(ResolverOf(providers, st2), providers, b.table).value;
            var j := OuterJoin(Ctx(ResolverOf(providers, st2), columnAlias), ra, rb, b.on);
            From(providers, columnAlias, st, [a, b])
              == (if j.Err? then Err(j.error) else Ok(st2.(table := j.value, fullNames := Mapping(st2.fullNames, j.value))))
  {
    var st1 := Register(st, a);
    var ra := LoadTable(ResolverOf(providers, st1), providers, a.table).value;
    var ctx1 := Ctx(ResolverOf(providers, st1), columnAlias);
    assert OuterJoin(ctx1, st1.table, ra, a.on) == Ok(ra);
    var s1 := st1.(table := ra, fullNames := Mapping(st1.fullNames, ra));
    assert [a, b][1..] == [b];
    assert LoadTable(ResolverOf(providers, st1), providers, a.table).Ok?;
    assert From(providers, columnAlias, st, [a, b]) == FromRest(providers, columnAlias, s1, [b], true);
    var st2 := Register(s1, b);
    assert st2.table == ra != [];
    assert LoadTable(ResolverOf(providers, st2), providers, b.table).Ok?;
    var rb := LoadTable(ResolverOf(providers, st2), providers, b.table).value;
    var j := OuterJoin(Ctx(ResolverOf(providers, st2), columnAlias), ra, rb, b.on);
    assert [b][1..] == [];
    if j.Ok? {
      var st3 := st2.(table := j.value, fullNames := Mapping(st2.fullNames, j.value));
      assert FromRest(providers, columnAlias, st3, [], true) == Ok(st3);
      assert FromRest(providers, columnAlias, s1, [b], true) == FromRest(providers, columnAlias, st3, [b][1..], true);
    }
  }

  // ---------------------------------------------------------------------
  // SELECT aliases (getColumnsForSelect)

  /** The aliases a SELECT list declares. */
  function AliasNames(items: seq<Item>): set<string>
  {
    set i | 0 <= i < |items| && items[i].alias.Some? :: items[i].alias.value
  }

  /** column_alias after the SELECT list is registered, entry by entry:
      every declared alias maps to its entry. */
  function SelectAliases(m: map<string, Item>, items: seq<Item>): (r: map<string, Item>)
    ensures r.Keys == m.Keys + AliasNames(items)
  {
    if items == [] then m
    else
      var n := |items| - 1;
      var r := SelectAliases(m, items[..n]);
      assert AliasNames(items) == AliasNames(items[..n]) + (if items[n].alias.Some? then {items[n].alias.value} else {}) by {
        forall a | a in AliasNames(items) ensures a in AliasNames(items[..n]) || (items[n].alias == Some(a)) {
          var i :| 0 <= i < |items| && items[i].alias == Some(a);
          if i < n { assert items[..n][i] == items[i]; }
        }
        forall a | a in AliasNames(items[..n]) ensures a in AliasNames(items) {
          var i :| 0 <= i < n && items[..n][i].alias == Some(a);
          assert items[i] == items[..n][i];
        }
      }
      match items[n].alias
      case Some(a) => r[a := items[n]]
      case None => r
  }

  /** A repeated alias ends up naming its last entry. */
  lemma {:induction false} SelectAliasesLastWins(m: map<string, Item>, items: seq<Item>, i: nat)
    requires i < |items| && items[i].alias.Some?
    requires forall j :: i < j < |items| ==> items[j].alias != items[i].alias
    ensures items[i].alias.value in SelectAliases(m, items)
    ensures SelectAliases(m, items)[items[i].alias.value] == items[i]
  {
    var n := |items| - 1;
    if i < n {
      assert items[..n][i] == items[i];
      forall j | i < j < n ensures items[..n][j].alias != items[..n][i].alias {
        assert items[..n][j] == items[j];
      }
      SelectAliasesLastWins(m, items[..n], i);
    }
  }

  /** An alias the list does not declare keeps its entry. */
  lemma {:induction false} SelectAliasesKeeps(m: map<string, Item>, items: seq<Item>, a: string)
    requires a in m && a !in AliasNames(items)
    ensures SelectAliases(m, items)[a] == m[a]
  {
    if items != [] {
      var n := |items| - 1;
      assert a !in AliasNames(items[..n]);
      assert items[n].alias != Some(a);
      SelectAliasesKeeps(m, items[..n], a);
    }
  }

  // ---------------------------------------------------------------------
  // SELECT (applySelect)

  predicate StartsWith(s: string, p: string)
  {
    |p| <= |s| && s[..|p|] == p
  }

  /** The columns of a row under one table's prefix (`t.*`). */
  function ColumnsUnder(cols: seq<(string, Value)>, prefix: string): (r: seq<(string, Value)>)
    ensures |r| <= |cols|
    ensures forall i :: 0 <= i < |r| ==> r[i] in cols && StartsWith(r[i].0, prefix + ".")
  {
    if cols == [] then []
    else
      var n := |cols| - 1;
      ColumnsUnder(cols[..n], prefix) + (if StartsWith(cols[n].0, prefix + ".") then [cols[n]] else [])
  }

  lemma ColumnsUnderNext(cols: seq<(string, Value)>, prefix: string, i: nat)
    requires i < |cols|
    ensures ColumnsUnder(cols[..i + 1], prefix)
              == ColumnsUnder(cols[..i], prefix) + (if StartsWith(cols[i].0, prefix + ".") then [cols[i]] else [])
  {
    assert cols[..i + 1][..i] == cols[..i];
  }

  /** A colref whose text holds a `*`. */
  predicate IsStar(item: Item)
  {
    item.expr.ColRef? && '*' in item.text
  }

  /** One SELECT entry added to the result row built so far: `*` merges the
      whole row ('children' included), `t.*` the columns under t's prefix,
      any other entry its value under its name. */
  function SelectItem(ctx: Ctx, acc: Row, item: Item, row: Row): Result<Row>
  {
    if IsStar(item) then
      if HasDot(item.text) then
        var p :- ToTableAliasIfPossible(ctx.res, Prefix(item.text));
        Ok(MergeRows(acc, Plain(ColumnsUnder(row.cols, p))))
      else Ok(MergeRows(acc, row))
    else
      var v :- EvalItem(ctx, item.expr, row);
      Ok(Row(Put(acc.cols, ColumnName(item), v), acc.children))
  }

  /** The result row of one input row, entries left to right. */
  function SelectRow(ctx: Ctx, items: seq<Item>, row: Row): Result<Row>
  {
    if items == [] then Ok(EmptyRow)
    else
      var n := |items| - 1;
      var acc :- SelectRow(ctx, items[..n], row);
      SelectItem(ctx, acc, items[n], row)
  }

  /** Every input row projected, in order; the first failing row decides
      the error. */
  function Project(ctx: Ctx, items: seq<Item>, t: Table): (r: Result<Table>)
    ensures r.Ok? ==> |r.value| == |t|
  {
    if t == [] then Ok([])
    else
      var n := |t| - 1;
      var front :- Project(ctx, items, t[..n]);
      var row :- SelectRow(ctx, items, t[n]);
      Ok(front + [row])
  }

  /** The loop over SELECT entries one entry further. */
  lemma SelectRowStep(ctx: Ctx, items: seq<Item>, j: nat, row: Row)
    requires j < |items|
    ensures var acc := SelectRow(ctx, items[..j], row);
            SelectRow(ctx, items[..j + 1], row) == if acc.Err? then acc else SelectItem(ctx, acc.value, items[j], row)
  {
    assert items[..j + 1][..j] == items[..j];
  }

  /** The first failing entry decides the row's error. */
  lemma {:induction false} SelectRowPrefixErr(ctx: Ctx, items: seq<Item>, k: nat, row: Row)
    requires k <= |items| && SelectRow(ctx, items[..k], row).Err?
    ensures SelectRow(ctx, items, row) == SelectRow(ctx, items[..k], row)
    decreases |items| - k
  {
    if k < |items| {
      var n := |items| - 1;
      assert SelectRow(ctx, items[..n], row) == SelectRow(ctx, items[..k], row) by {
        PrefixOfPrefix(items, n, k);
        SelectRowPrefixErr(ctx, items[..n], k, row);
      }
      SelectRowErrStays(ctx, items, row);
    } else {
      assert items[..k] == items;
    }
  }

  /** An error before the last entry is the row's error. */
  lemma SelectRowErrStays(ctx: Ctx, items: seq<Item>, row: Row)
    requires items != [] && SelectRow(ctx, items[..|items| - 1], row).Err?
    ensures SelectRow(ctx, items, row) == SelectRow(ctx, items[..|items| - 1], row)
  {
  }

  /** The loop over rows one row further. */
  lemma ProjectStep(ctx: Ctx, items: seq<Item>, t: Table, i: nat)
    requires i < |t|
    ensures var front := Project(ctx, items, t[..i]);
            var row := SelectRow(ctx, items, t[i]);
            Project(ctx, items, t[..i + 1])
              == if front.Err? then front else if row.Err? then Err(row.error) else Ok(front.value + [row.value])
  {
    assert t[..i + 1][..i] == t[..i];
  }

  /** The first failing row decides the projection's error. */
  lemma {:induction false} ProjectPrefixErr(ctx: Ctx, items: seq<Item>, t: Table, k: nat)
    requires k <= |t| && Project(ctx, items, t[..k]).Err?
    ensures Project(ctx, items, t) == Project(ctx, items, t[..k])
    decreases |t| - k
  {
    if k < |t| {
      var n := |t| - 1;
      assert Project(ctx, items, t[..n]) == Project(ctx, items, t[..k]) by {
        PrefixOfPrefix(t, n, k);
        ProjectPrefixErr(ctx, items, t[..n], k);
      }
      ProjectErrStays(ctx, items, t);
    } else {
      assert t[..k] == t;
    }
  }

  /** An error before the last row is the projection's error. */
  lemma ProjectErrStays(ctx: Ctx, items: seq<Item>, t: Table)
    requires t != [] && Project(ctx, items, t[..|t| - 1]).Err?
    ensures Project(ctx, items, t) == Project(ctx, items, t[..|t| - 1])
  {
  }

  /** A SELECT list that is a single aggregate. */
  predicate AggregateOnly(items: seq<Item>)
  {
    |items| == 1 && items[0].expr.Aggregate?
  }

  /** applySelect's result table: a lone aggregate over no rows gives one
      row holding 0; a lone aggregate otherwise runs over one parent row
      whose 'children' are all the rows. */
  function Select(ctx: Ctx, items: seq<Item>, t: Table): (r: Result<Table>)
    ensures AggregateOnly(items) && r.Ok? ==> |r.value| == 1
    ensures !AggregateOnly(items) && r.Ok? ==> |r.value| == |t|
  {
    if AggregateOnly(items) && t == [] then Ok([Plain([(ColumnName(items[0]), Int(0))])])
    else if AggregateOnly(items) then Project(ctx, items, [Row([], Children(t))])
    else Project(ctx, items, t)
  }

  /** Whether applySelect rebuilds the index (all but the lone aggregate
      over no rows). */
  function SelectMapping(fullNames: map<string, seq<string>>, items: seq<Item>, t: Table, r: Table): map<string, seq<string>>
  {
    if AggregateOnly(items) && t == [] then fullNames else Mapping(fullNames, r)
  }

  /** `SELECT *` gives every row back unchanged. */
  lemma {:induction false} SelectStarKeepsRows(ctx: Ctx, star: Item, t: Table)
    requires star.expr.ColRef? && star.text == "*"
    requires forall i :: 0 <= i < |t| ==> UniqueKeys(t[i].cols)
    ensures Select(ctx, [star], t) == Ok(t)
  {
    assert !AggregateOnly([star]);
    assert IsStar(star) by {
      assert star.text[0] == '*';
    }
    if t != [] {
      var n := |t| - 1;
      SelectStarKeepsRows(ctx, star, t[..n]);
      assert [star][..0] == [];
      MergeIntoEmpty(t[n].cols);
      assert SelectRow(ctx, [star], t[n]) == Ok(MergeRows(EmptyRow, t[n]));
      assert t[..n] + [t[n]] == t;
    }
  }

  /** Distinct result names. */
  predicate DistinctNames(items: seq<Item>)
  {
    forall i, j :: 0 <= i < j < |items| ==> ColumnName(items[i]) != ColumnName(items[j])
  }

  /** A SELECT list without `*` and with distinct names gives, for each
      row, exactly one column per entry, in SELECT order, each holding the
      entry's value on that row. */
  lemma {:induction false} SelectRowColumns(ctx: Ctx, items: seq<Item>, row: Row)
    requires forall j :: 0 <= j < |items| ==> !IsStar(items[j])
    requires DistinctNames(items)
    requires SelectRow(ctx, items, row).Ok?
    ensures var r := SelectRow(ctx, items, row).value;
            && r.children.NoChildren?
            && |r.cols| == |items|
            && forall j :: 0 <= j < |items| ==>
                 r.cols[j].0 == ColumnName(items[j]) && EvalItem(ctx, items[j].expr, row) == Ok(r.cols[j].1)
  {
    if items != [] {
      var n := |items| - 1;
      DistinctInit(items);
      SelectRowColumns(ctx, items[..n], row);
      SelectRowLast(ctx, items, row);
      ColumnsSnoc(ctx, items, row, SelectRow(ctx, items[..n], row).value, SelectRow(ctx, items, row).value);
    }
  }

  /** The column facts of SelectRowColumns carry over when the last entry's
      column is appended. */
  lemma ColumnsSnoc(ctx: Ctx, items: seq<Item>, row: Row, acc: Row, r: Row)
    requires items != []
    requires var n := |items| - 1;
             && acc.children.NoChildren? && |acc.cols| == n
             && forall j :: 0 <= j < n ==>
                  acc.cols[j].0 == ColumnName(items[..n][j]) && EvalItem(ctx, items[..n][j].expr, row) == Ok(acc.cols[j].1)
    requires var n := |items| - 1;
             && EvalItem(ctx, items[n].expr, row).Ok?
             && r == Row(acc.cols + [(ColumnName(items[n]), EvalItem(ctx, items[n].expr, row).value)], acc.children)
    ensures && r.children.NoChildren?
            && |r.cols| == |items|
            && forall j :: 0 <= j < |items| ==>
                 r.cols[j].0 == ColumnName(items[j]) && EvalItem(ctx, items[j].expr, row) == Ok(r.cols[j].1)
  {
    var n := |items| - 1;
    forall j | 0 <= j < |items|
      ensures r.cols[j].0 == ColumnName(items[j]) && EvalItem(ctx, items[j].expr, row) == Ok(r.cols[j].1)
    {
      if j < n {
        assert items[..n][j] == items[j];
      }
    }
  }

  /** The entries before the last keep distinct names and no `*`. */
  lemma DistinctInit(items: seq<Item>)
    requires items != [] && DistinctNames(items)
    requires forall j :: 0 <= j < |items| ==> !IsStar(items[j])
    ensures var init := items[..|items| - 1];
            && DistinctNames(init)
            && (forall j :: 0 <= j < |init| ==> !IsStar(init[j]))
            && forall j :: 0 <= j < |init| ==> init[j] == items[j]
  {
    var init := items[..|items| - 1];
    forall i, j | 0 <= i < j < |init| ensures ColumnName(init[i]) != ColumnName(init[j]) {
      assert init[i] == items[i] && init[j] == items[j];
    }
  }

  /** The last SELECT entry, when it is not a `*`, is evaluated on the row
      and appended under its name when the name is new. */
  lemma SelectRowLast(ctx: Ctx, items: seq<Item>, row: Row)
    requires items != [] && !IsStar(items[|items| - 1]) && DistinctNames(items)
    requires SelectRow(ctx, items, row).Ok?
    requires var acc := SelectRow(ctx, items[..|items| - 1], row).value;
             && |acc.cols| == |items| - 1
             && forall j :: 0 <= j < |acc.cols| ==> acc.cols[j].0 == ColumnName(items[j])
    ensures var n := |items| - 1;
            var acc := SelectRow(ctx, items[..n], row).value;
            && EvalItem(ctx, items[n].expr, row).Ok?
            && SelectRow(ctx, items, row).value
                 == Row(acc.cols + [(ColumnName(items[n]), EvalItem(ctx, items[n].expr, row).value)], acc.children)
  {
    var acc := SelectRow(ctx, items[..|items| - 1], row).value;
    var name := ColumnName(items[|items| - 1]);
    assert !Has(acc.cols, name) by {
      IndexOfUnique(acc.cols, name, |acc.cols|);
    }
  }
}
