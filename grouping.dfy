/** GROUP BY: rows are bucketed by the PHP array key their group value
    turns into, level by level, into a tree of group nodes; the tree is then
    flattened into one row per innermost group. */
module Grouping {
  import opened Wrappers
  import opened Values
  import opened Assoc
  import opened Rows
  import opened Names
  import opened Expr
  import opened Relational

  // ---------------------------------------------------------------------
  // Buckets

  /** `$new`: the group keys in the order they were first seen, each with
      its rows in input order. */
  type Buckets = seq<(Key, Table)>

  function BucketKeys(bs: Buckets): (r: seq<Key>)
    ensures |r| == |bs| && forall j :: 0 <= j < |bs| ==> r[j] == bs[j].0
  {
    if bs == [] then [] else [bs[0].0] + BucketKeys(bs[1..])
  }

  /** The rows filed under key k (none when k has no bucket). */
  function Members(bs: Buckets, k: Key): Table
  {
    if bs == [] then [] else if bs[0].0 == k then bs[0].1 else Members(bs[1..], k)
  }

  /** All rows in all buckets, counted with repetition. */
  function BucketsBag(bs: Buckets): multiset<Row>
  {
    if bs == [] then multiset{} else multiset(bs[0].1) + BucketsBag(bs[1..])
  }

  predicate NonEmptyBuckets(bs: Buckets)
  {
    forall j :: 0 <= j < |bs| ==> bs[j].1 != []
  }

  /** `if(!array_key_exists($value,$new)) $new[$value] = []; $new[$value][] = $row;`:
      the row joins its key's bucket, or opens a new bucket at the end.
      When array_key_exists refused the value (restart), the key's bucket
      starts over from this row, keeping its place. */
  function AddToBucket(bs: Buckets, k: Key, row: Row, restart: bool): Buckets
  {
    if bs == [] then [(k, [row])]
    else if bs[0].0 == k then [(k, (if restart then [] else bs[0].1) + [row])] + bs[1..]
    else [bs[0]] + AddToBucket(bs[1..], k, row, restart)
  }

  /** Filing a row opens a bucket for its key at the end when the key is
      new, and leaves the keys alone otherwise; no bucket becomes empty. */
  lemma {:induction false} AddToBucketKeys(bs: Buckets, k: Key, row: Row, restart: bool)
    ensures var r := AddToBucket(bs, k, row, restart);
      BucketKeys(r) == if k in BucketKeys(bs) then BucketKeys(bs) else BucketKeys(bs) + [k]
    ensures NonEmptyBuckets(bs) ==> NonEmptyBuckets(AddToBucket(bs, k, row, restart))
  {
    if bs != [] && bs[0].0 != k {
      var rest := AddToBucket(bs[1..], k, row, restart);
      AddToBucketKeys(bs[1..], k, row, restart);
      assert BucketKeys(bs) == [bs[0].0] + BucketKeys(bs[1..]);
      assert ([bs[0]] + rest)[1..] == rest;
    }
  }

  /** The row is filed under its own key and nowhere else; a restart
      drops the rows filed under that key before it. */
  lemma {:induction false} AddToBucketMembers(bs: Buckets, k: Key, row: Row, restart: bool, k': Key)
    ensures Members(AddToBucket(bs, k, row, restart), k') ==
      if k' == k then (if restart then [] else Members(bs, k)) + [row] else Members(bs, k')
  {
    if bs != [] && bs[0].0 != k {
      AddToBucketMembers(bs[1..], k, row, restart, k');
      assert ([bs[0]] + AddToBucket(bs[1..], k, row, restart))[1..] == AddToBucket(bs[1..], k, row, restart);
    }
  }

  /** Filing a row adds that row to the buckets and, without a restart,
      nothing else is lost. */
  lemma {:induction false} AddToBucketBag(bs: Buckets, k: Key, row: Row, restart: bool)
    ensures BucketsBag(AddToBucket(bs, k, row, restart)) <= BucketsBag(bs) + multiset{row}
    ensures !restart ==> BucketsBag(AddToBucket(bs, k, row, restart)) == BucketsBag(bs) + multiset{row}
  {
    if bs != [] && bs[0].0 != k {
      AddToBucketBag(bs[1..], k, row, restart);
      assert ([bs[0]] + AddToBucket(bs[1..], k, row, restart))[1..] == AddToBucket(bs[1..], k, row, restart);
    } else if bs != [] {
      var b := (if restart then [] else bs[0].1) + [row];
      assert ([(k, b)] + bs[1..])[1..] == bs[1..];
      assert multiset(b) <= multiset(bs[0].1) + multiset{row};
    }
  }

  /** The distinct keys in the order they first occur. */
  function FirstSeen(keys: seq<Key>): (r: seq<Key>)
    ensures forall k :: k in r <==> k in keys
    ensures forall i, j :: 0 <= i < j < |r| ==> r[i] != r[j]
  {
    if keys == [] then []
    else
      var n := |keys| - 1;
      var p := FirstSeen(keys[..n]);
      assert keys == keys[..n] + [keys[n]];
      if keys[n] in p then p else p + [keys[n]]
  }

  /** Whether no row after row i with key k restarts k's bucket. */
  predicate Survives(keys: seq<Key>, restarts: seq<bool>, k: Key, i: nat)
    requires |restarts| == |keys|
  {
    forall j :: i < j < |keys| && keys[j] == k ==> !restarts[j]
  }

  /** Which rows the bucket of k holds at the end: the rows with key k that
      no later row with key k restarted. */
  function Marks(keys: seq<Key>, restarts: seq<bool>, k: Key): (r: seq<bool>)
    requires |restarts| == |keys|
    ensures |r| == |keys|
    ensures forall i :: 0 <= i < |keys| ==> r[i] == (keys[i] == k && Survives(keys, restarts, k, i))
  {
    seq(|keys|, i requires 0 <= i < |keys| => keys[i] == k && Survives(keys, restarts, k, i))
  }

  /** The bucketing loop of recursiveApplyOneGroupBy over rows whose keys,
      and whether array_key_exists refused them, are already computed. */
  function Group(rows: Table, keys: seq<Key>, restarts: seq<bool>): Buckets
    requires |keys| == |rows| && |restarts| == |rows|
  {
    if rows == [] then []
    else
      var n := |rows| - 1;
      AddToBucket(Group(rows[..n], keys[..n], restarts[..n]), keys[n], rows[n], restarts[n])
  }

  /** The buckets come in first-seen order of their keys, each holds exactly
      the rows with its key that no later restart of that key dropped, in
      input order, and none is empty. Together they hold some of the rows,
      and every row once when no row restarts its bucket. */
  lemma {:induction false} GroupSpec(rows: Table, keys: seq<Key>, restarts: seq<bool>)
    requires |keys| == |rows| && |restarts| == |rows|
    ensures BucketKeys(Group(rows, keys, restarts)) == FirstSeen(keys)
    ensures forall k :: Members(Group(rows, keys, restarts), k) == Filter(rows, Marks(keys, restarts, k))
    ensures NonEmptyBuckets(Group(rows, keys, restarts))
    ensures BucketsBag(Group(rows, keys, restarts)) <= multiset(rows)
    ensures (forall i :: 0 <= i < |rows| ==> !restarts[i]) ==> BucketsBag(Group(rows, keys, restarts)) == multiset(rows)
  {
    GroupKeys(rows, keys, restarts);
    forall k ensures Members(Group(rows, keys, restarts), k) == Filter(rows, Marks(keys, restarts, k)) {
      GroupMembers(rows, keys, restarts, k);
    }
    GroupNonEmpty(rows, keys, restarts);
    GroupBag(rows, keys, restarts);
  }

  lemma {:induction false} GroupKeys(rows: Table, keys: seq<Key>, restarts: seq<bool>)
    requires |keys| == |rows| && |restarts| == |rows|
    ensures BucketKeys(Group(rows, keys, restarts)) == FirstSeen(keys)
  {
    if rows != [] {
      var n := |rows| - 1;
      GroupKeys(rows[..n], keys[..n], restarts[..n]);
      AddToBucketKeys(Group(rows[..n], keys[..n], restarts[..n]), keys[n], rows[n], restarts[n]);
      assert keys[..n] == keys[..|keys| - 1];
    }
  }

  lemma {:induction false} GroupMembers(rows: Table, keys: seq<Key>, restarts: seq<bool>, k: Key)
    requires |keys| == |rows| && |restarts| == |rows|
    ensures Members(Group(rows, keys, restarts), k) == Filter(rows, Marks(keys, restarts, k))
  {
    if rows != [] {
      var n := |rows| - 1;
      var m := Marks(keys, restarts, k);
      GroupMembers(rows[..n], keys[..n], restarts[..n], k);
      AddToBucketMembers(Group(rows[..n], keys[..n], restarts[..n]), keys[n], rows[n], restarts[n], k);
      MarksSnoc(keys, restarts, k);
      assert Filter(rows, m) == Filter(rows[..n], m[..n]) + (if m[n] then [rows[n]] else []);
      if keys[n] == k && restarts[n] {
        FilterNone(rows[..n], m[..n]);
      }
    }
  }

  /** The marks of all rows against those of the rows before the last: the
      last row is marked when it has key k; when it restarts k's bucket no
      earlier row stays marked, and otherwise the earlier marks stand. */
  lemma MarksSnoc(keys: seq<Key>, restarts: seq<bool>, k: Key)
    requires |restarts| == |keys| > 0
    ensures var n := |keys| - 1;
            var m := Marks(keys, restarts, k);
            && m[n] == (keys[n] == k)
            && (keys[n] == k && restarts[n] ==> forall i :: 0 <= i < n ==> !m[..n][i])
            && (!(keys[n] == k && restarts[n]) ==> m[..n] == Marks(keys[..n], restarts[..n], k))
  {
    var n := |keys| - 1;
    var m := Marks(keys, restarts, k);
    if keys[n] == k && restarts[n] {
      forall i | 0 <= i < n ensures !m[..n][i] {
        assert !Survives(keys, restarts, k, i);
      }
    } else {
      forall i | 0 <= i < n
        ensures m[..n][i] == Marks(keys[..n], restarts[..n], k)[i]
      {
        SurvivesSnoc(keys, restarts, k, i);
      }
    }
  }

  lemma SurvivesSnoc(keys: seq<Key>, restarts: seq<bool>, k: Key, i: nat)
    requires |restarts| == |keys| && i < |keys| - 1
    ensures var n := |keys| - 1;
            Survives(keys, restarts, k, i) == (Survives(keys[..n], restarts[..n], k, i) && !(keys[n] == k && restarts[n]))
  {
    var n := |keys| - 1;
    if Survives(keys[..n], restarts[..n], k, i) && !(keys[n] == k && restarts[n]) {
      forall j | i < j < |keys| && keys[j] == k ensures !restarts[j] {
        if j < n {
          assert keys[..n][j] == keys[j] && restarts[..n][j] == restarts[j];
        }
      }
    }
  }

  /** Keeping no position keeps nothing. */
  lemma {:induction false} FilterNone<T>(xs: seq<T>, keep: seq<bool>)
    requires |keep| == |xs| && forall i :: 0 <= i < |xs| ==> !keep[i]
    ensures Filter(xs, keep) == []
  {
    if xs != [] {
      FilterNone(xs[..|xs| - 1], keep[..|xs| - 1]);
    }
  }

  lemma {:induction false} GroupNonEmpty(rows: Table, keys: seq<Key>, restarts: seq<bool>)
    requires |keys| == |rows| && |restarts| == |rows|
    ensures NonEmptyBuckets(Group(rows, keys, restarts))
  {
    if rows != [] {
      var n := |rows| - 1;
      GroupNonEmpty(rows[..n], keys[..n], restarts[..n]);
      AddToBucketKeys(Group(rows[..n], keys[..n], restarts[..n]), keys[n], rows[n], restarts[n]);
    }
  }

  lemma {:induction false} GroupBag(rows: Table, keys: seq<Key>, restarts: seq<bool>)
    requires |keys| == |rows| && |restarts| == |rows|
    ensures BucketsBag(Group(rows, keys, restarts)) <= multiset(rows)
    ensures (forall i :: 0 <= i < |rows| ==> !restarts[i]) ==> BucketsBag(Group(rows, keys, restarts)) == multiset(rows)
  {
    if rows != [] {
      var n := |rows| - 1;
      GroupBag(rows[..n], keys[..n], restarts[..n]);
      AddToBucketBag(Group(rows[..n], keys[..n], restarts[..n]), keys[n], rows[n], restarts[n]);
      LastSplit(rows);
    }
  }

  /** A non-empty sequence is its prefix and its last element. */
  lemma LastSplit<T>(s: seq<T>)
    requires s != []
    ensures multiset(s) == multiset(s[..|s| - 1]) + multiset{s[|s| - 1]}
  {
    assert s == s[..|s| - 1] + [s[|s| - 1]];
  }

  /** With distinct keys, a bucket's rows are the members of its key. */
  lemma {:induction false} MembersAt(bs: Buckets, j: nat)
    requires j < |bs|
    requires forall i, i' :: 0 <= i < i' < |bs| ==> bs[i].0 != bs[i'].0
    ensures Members(bs, bs[j].0) == bs[j].1
  {
    if j > 0 {
      MembersAt(bs[1..], j - 1);
    }
  }

  lemma {:induction false} InBucketsBag(bs: Buckets, j: nat, x: Row)
    requires j < |bs| && x in bs[j].1
    ensures x in BucketsBag(bs)
  {
    if j > 0 {
      InBucketsBag(bs[1..], j - 1, x);
    }
  }

  // ---------------------------------------------------------------------
  // The group tree

  /** One level's group nodes: `[$column_name => $key, 'children' => $rows]`. */
  function Nodes(col: string, bs: Buckets): (r: Table)
    ensures |r| == |bs|
    ensures forall j :: 0 <= j < |bs| ==> r[j] == Row([(col, KeyValue(bs[j].0))], Children(bs[j].1))
  {
    if bs == [] then [] else [Row([(col, KeyValue(bs[0].0))], Children(bs[0].1))] + Nodes(col, bs[1..])
  }

  /** The group keys of the rows, as PHP array keys. */
  function KeysOfValues(vs: seq<Value>): (r: seq<Key>)
    ensures |r| == |vs| && forall i :: 0 <= i < |vs| ==> r[i] == KeyOf(vs[i])
  {
    seq(|vs|, i requires 0 <= i < |vs| => KeyOf(vs[i]))
  }

  /** Which group values array_key_exists refuses, so that their row
      restarts its bucket. */
  function RestartsOfValues(vs: seq<Value>): (r: seq<bool>)
    ensures |r| == |vs| && forall i :: 0 <= i < |vs| ==> r[i] == RefusedKey(vs[i])
  {
    seq(|vs|, i requires 0 <= i < |vs| => RefusedKey(vs[i]))
  }

  /** The buckets of `$new` for rows with the given group values. */
  function GroupValues(rows: Table, vs: seq<Value>): Buckets
    requires |vs| == |rows|
  {
    Group(rows, KeysOfValues(vs), RestartsOfValues(vs))
  }

  /** Whether none of the row's group values from item `level` on is one
      that array_key_exists refuses. */
  predicate Keyable(ctx: Ctx, items: seq<Item>, level: nat, row: Row)
  {
    forall l :: level <= l < |items| ==>
      !(Eval(ctx, [items[l].expr], row).Ok? && RefusedKey(Eval(ctx, [items[l].expr], row).value))
  }

  /** recursiveApplyOneGroupBy: past the last item or on no rows the rows
      come back unchanged; otherwise the rows are bucketed by the item's
      value, the column is named, and each bucket is grouped by the next
      item. */
  function GroupLevel(ctx: Ctx, items: seq<Item>, rows: Table, index: nat): (r: Result<Table>)
    requires index <= |items|
    ensures index == |items| || rows == [] ==> r == Ok(rows)
    decreases |items| - index, 0, 0
  {
    if index >= |items| || rows == [] then Ok(rows)
    else
      var vs :- Evaluations(ctx, [items[index].expr], rows);
      var bs := GroupValues(rows, vs);
      var col :- ToColumnNameWithPrefix(ctx.res, items[index].text);
      if index + 1 < |items| then Descend(ctx, items, col, bs, index + 1)
      else Ok(Nodes(col, bs))
  }

  /** The nodes of one level with each bucket grouped by the next item, in
      node order. */
  function Descend(ctx: Ctx, items: seq<Item>, col: string, bs: Buckets, level: nat): (r: Result<Table>)
    requires level < |items|
    ensures r.Ok? ==> |r.value| == |bs|
    decreases |items| - level, 1, |bs|
  {
    if bs == [] then Ok([])
    else
      var sub :- GroupLevel(ctx, items, bs[0].1, level);
      var rest :- Descend(ctx, items, col, bs[1..], level);
      Ok([Row([(col, KeyValue(bs[0].0))], Children(sub))] + rest)
  }

  /** recursiveFlattenGroupBy: each node's column is merged into every
      flattened child; a node whose children flatten to nothing stays as it
      is; the first row without 'children' ends the level. */
  function Flatten(rows: Table): Table
    decreases rows
  {
    if rows == [] || rows[0].children.NoChildren? then []
    else
      var row := rows[0];
      var sub := Flatten(row.children.rows);
      (if sub != [] then MergeEach(Row(row.cols, NoChildren), sub) else [row]) + Flatten(rows[1..])
  }

  /** applyGroupBy. */
  function GroupBy(ctx: Ctx, items: seq<Item>, t: Table): (r: Result<Table>)
    ensures t == [] ==> r == Ok([])
  {
    var g :- GroupLevel(ctx, items, t, 0);
    Ok(Flatten(g))
  }

  // ---------------------------------------------------------------------
  // Shape of the tree

  /** d levels of group nodes, each with a non-empty 'children' table,
      above rows without one. */
  predicate Grouped(t: Table, d: nat)
    decreases d, |t|
  {
    t == []
    || (&& (if d == 0 then t[0].children.NoChildren?
            else t[0].children.Children? && t[0].children.rows != [] && Grouped(t[0].children.rows, d - 1))
        && Grouped(t[1..], d))
  }

  /** A table is zero levels deep exactly when no row has 'children'. */
  lemma {:induction false} GroupedZero(t: Table)
    ensures Grouped(t, 0) <==> forall x :: x in t ==> x.children.NoChildren?
  {
    if t != [] {
      GroupedZero(t[1..]);
      assert t == [t[0]] + t[1..];
    }
  }

  /** The rows at depth d below t, counted with repetition. */
  function LeafBag(t: Table, d: nat): multiset<Row>
    decreases d, |t|
  {
    if d == 0 then multiset(t)
    else if t == [] then multiset{}
    else (if t[0].children.Children? then LeafBag(t[0].children.rows, d - 1) else multiset{}) + LeafBag(t[1..], d)
  }

  lemma {:induction false} LeafBagAppend(a: Table, b: Table, d: nat)
    requires d > 0
    ensures LeafBag(a + b, d) == LeafBag(a, d) + LeafBag(b, d)
    decreases |a|
  {
    if a != [] {
      assert (a + b)[0] == a[0];
      assert (a + b)[1..] == a[1..] + b;
      LeafBagAppend(a[1..], b, d);
    } else {
      assert a + b == b;
    }
  }

  lemma {:induction false} GroupedAppend(a: Table, b: Table, d: nat)
    ensures Grouped(a + b, d) <==> Grouped(a, d) && Grouped(b, d)
    decreases |a|
  {
    if a != [] {
      assert (a + b)[0] == a[0];
      assert (a + b)[1..] == a[1..] + b;
      GroupedAppend(a[1..], b, d);
    } else {
      assert a + b == b;
    }
  }

  lemma {:induction false} NodesTree(col: string, bs: Buckets)
    requires NonEmptyBuckets(bs)
    requires forall j, x :: 0 <= j < |bs| && x in bs[j].1 ==> x.children.NoChildren?
    ensures Grouped(Nodes(col, bs), 1)
    ensures LeafBag(Nodes(col, bs), 1) == BucketsBag(bs)
  {
    if bs != [] {
      NodesTree(col, bs[1..]);
      GroupedZero(bs[0].1);
      assert Nodes(col, bs)[0].children.rows == bs[0].1;
      assert Nodes(col, bs)[1..] == Nodes(col, bs[1..]);
    }
  }

  /** Grouping plain rows gives non-empty buckets of plain rows drawn from
      the input, at least one when there are rows, holding every row once
      when no row restarts its bucket. */
  lemma PlainBuckets(rows: Table, keys: seq<Key>, restarts: seq<bool>)
    requires |keys| == |rows| && |restarts| == |rows| && Grouped(rows, 0)
    ensures var bs := Group(rows, keys, restarts);
            && NonEmptyBuckets(bs) && BucketsBag(bs) <= multiset(rows)
            && ((forall i :: 0 <= i < |rows| ==> !restarts[i]) ==> BucketsBag(bs) == multiset(rows))
            && (rows != [] ==> bs != [])
            && DrawnFrom(bs, rows)
  {
    var bs := Group(rows, keys, restarts);
    assert NonEmptyBuckets(bs) by { GroupNonEmpty(rows, keys, restarts); }
    assert BucketsBag(bs) <= multiset(rows)
           && ((forall i :: 0 <= i < |rows| ==> !restarts[i]) ==> BucketsBag(bs) == multiset(rows)) by {
      GroupBag(rows, keys, restarts);
    }
    BucketRowsFrom(bs, rows);
    if rows != [] {
      assert BucketKeys(bs) != [] by {
        GroupKeys(rows, keys, restarts);
        assert keys[0] in FirstSeen(keys);
      }
    }
  }

  /** Whether every bucket row is one of the plain rows `rows`. */
  predicate DrawnFrom(bs: Buckets, rows: Table)
  {
    forall j, x :: 0 <= j < |bs| && x in bs[j].1 ==> x in rows && x.children.NoChildren?
  }

  /** Buckets holding some of the plain rows hold only plain input rows. */
  lemma BucketRowsFrom(bs: Buckets, rows: Table)
    requires BucketsBag(bs) <= multiset(rows) && Grouped(rows, 0)
    ensures DrawnFrom(bs, rows)
  {
    GroupedZero(rows);
    forall j, x | 0 <= j < |bs| && x in bs[j].1 ensures x in rows {
      InBucketsBag(bs, j, x);
      assert x in multiset(rows);
    }
  }

  /** Grouping non-empty plain rows by the items from `index` on builds a
      tree |items| - index levels deep whose leaves are input rows; it
      holds every row once when no group value is one array_key_exists
      refuses. */
  lemma {:induction false} GroupTree(ctx: Ctx, items: seq<Item>, rows: Table, index: nat)
    requires index < |items| && rows != [] && Grouped(rows, 0)
    requires GroupLevel(ctx, items, rows, index).Ok?
    ensures var r := GroupLevel(ctx, items, rows, index).value;
            && r != [] && Grouped(r, |items| - index) && LeafBag(r, |items| - index) <= multiset(rows)
            && ((forall x :: x in rows ==> Keyable(ctx, items, index, x)) ==> LeafBag(r, |items| - index) == multiset(rows))
    decreases |items| - index, 1, 0
  {
    GroupLevelStep(ctx, items, rows, index);
    var vs := Evaluations(ctx, [items[index].expr], rows).value;
    var col := ToColumnNameWithPrefix(ctx.res, items[index].text).value;
    var keys := KeysOfValues(vs);
    var restarts := RestartsOfValues(vs);
    PlainBuckets(rows, keys, restarts);
    BucketsTree(ctx, items, rows, index, Group(rows, keys, restarts), col);
    if forall x :: x in rows ==> Keyable(ctx, items, index, x) {
      KeyableLevel(ctx, items, rows, index);
    }
  }

  /** The level built from non-empty buckets of plain input rows holds
      input rows only, and every row once when the buckets hold every row
      once and the rows have no refused value below this level. */
  lemma {:induction false} BucketsTree(ctx: Ctx, items: seq<Item>, rows: Table, index: nat, bs: Buckets, col: string)
    requires index < |items| && bs != [] && NonEmptyBuckets(bs) && BucketsBag(bs) <= multiset(rows)
    requires DrawnFrom(bs, rows)
    requires index + 1 < |items| ==> Descend(ctx, items, col, bs, index + 1).Ok?
    ensures var r := if index + 1 < |items| then Descend(ctx, items, col, bs, index + 1).value else Nodes(col, bs);
            && r != [] && Grouped(r, |items| - index) && LeafBag(r, |items| - index) <= multiset(rows)
            && (BucketsBag(bs) == multiset(rows) && (forall x :: x in rows ==> Keyable(ctx, items, index + 1, x))
                ==> LeafBag(r, |items| - index) == multiset(rows))
    decreases |items| - index, 0, 1
  {
    LevelTree(ctx, items, col, bs, index);
    if forall x :: x in rows ==> Keyable(ctx, items, index + 1, x) {
      KeyableBuckets(ctx, items, rows, index + 1, bs);
    }
  }

  /** Bucket rows drawn from rows without refused values have none. */
  lemma KeyableBuckets(ctx: Ctx, items: seq<Item>, rows: Table, level: nat, bs: Buckets)
    requires DrawnFrom(bs, rows)
    requires forall x :: x in rows ==> Keyable(ctx, items, level, x)
    ensures forall j, x :: 0 <= j < |bs| && x in bs[j].1 ==> Keyable(ctx, items, level, x)
  {
  }

  /** When no row's group values from item `index` on are refused, no row
      restarts a bucket at this level and every bucket's rows have no
      refused value below it. */
  lemma KeyableLevel(ctx: Ctx, items: seq<Item>, rows: Table, index: nat)
    requires index < |items| && Evaluations(ctx, [items[index].expr], rows).Ok?
    requires forall x :: x in rows ==> Keyable(ctx, items, index, x)
    ensures var vs := Evaluations(ctx, [items[index].expr], rows).value;
            forall i :: 0 <= i < |rows| ==> !RestartsOfValues(vs)[i]
    ensures forall x :: x in rows ==> Keyable(ctx, items, index + 1, x)
  {
    var vs := Evaluations(ctx, [items[index].expr], rows).value;
    forall i | 0 <= i < |rows| ensures !RestartsOfValues(vs)[i] {
      assert rows[i] in rows;
      assert Keyable(ctx, items, index, rows[i]);
    }
  }

  /** The level built from the buckets of one item: the nodes themselves at
      the last item, or the nodes with each bucket grouped further. */
  lemma {:induction false} LevelTree(ctx: Ctx, items: seq<Item>, col: string, bs: Buckets, index: nat)
    requires index < |items| && bs != [] && NonEmptyBuckets(bs)
    requires forall j, x :: 0 <= j < |bs| && x in bs[j].1 ==> x.children.NoChildren?
    requires index + 1 < |items| ==> Descend(ctx, items, col, bs, index + 1).Ok?
    ensures var r := if index + 1 < |items| then Descend(ctx, items, col, bs, index + 1).value else Nodes(col, bs);
            && r != [] && Grouped(r, |items| - index) && LeafBag(r, |items| - index) <= BucketsBag(bs)
            && ((forall j, x :: 0 <= j < |bs| && x in bs[j].1 ==> Keyable(ctx, items, index + 1, x)) ==>
                  LeafBag(r, |items| - index) == BucketsBag(bs))
    decreases |items| - index, 0, 0
  {
    if index + 1 < |items| {
      DescendTree(ctx, items, col, bs, index + 1);
    } else {
      NodesTree(col, bs);
    }
  }

  /** One level of GroupLevel on non-empty rows, unfolded. */
  lemma GroupLevelStep(ctx: Ctx, items: seq<Item>, rows: Table, index: nat)
    requires index < |items| && rows != []
    requires GroupLevel(ctx, items, rows, index).Ok?
    ensures Evaluations(ctx, [items[index].expr], rows).Ok?
    ensures ToColumnNameWithPrefix(ctx.res, items[index].text).Ok?
    ensures var bs := GroupValues(rows, Evaluations(ctx, [items[index].expr], rows).value);
            var col := ToColumnNameWithPrefix(ctx.res, items[index].text).value;
            var r := GroupLevel(ctx, items, rows, index);
            if index + 1 < |items| then r == Descend(ctx, items, col, bs, index + 1)
            else r == Ok(Nodes(col, bs))
  {
  }

  lemma {:induction false} DescendTree(ctx: Ctx, items: seq<Item>, col: string, bs: Buckets, level: nat)
    requires level < |items| && NonEmptyBuckets(bs)
    requires forall j, x :: 0 <= j < |bs| && x in bs[j].1 ==> x.children.NoChildren?
    requires Descend(ctx, items, col, bs, level).Ok?
    ensures var r := Descend(ctx, items, col, bs, level).value;
            && Grouped(r, |items| - level + 1) && LeafBag(r, |items| - level + 1) <= BucketsBag(bs)
            && ((forall j, x :: 0 <= j < |bs| && x in bs[j].1 ==> Keyable(ctx, items, level, x)) ==>
                  LeafBag(r, |items| - level + 1) == BucketsBag(bs))
    decreases |items| - level, 2, |bs|
  {
    if bs != [] {
      var d := |items| - level + 1;
      var sub := GroupLevel(ctx, items, bs[0].1, level).value;
      var rest := Descend(ctx, items, col, bs[1..], level).value;
      var r := Descend(ctx, items, col, bs, level).value;
      assert r == [Row([(col, KeyValue(bs[0].0))], Children(sub))] + rest;
      GroupedZero(bs[0].1);
      GroupTree(ctx, items, bs[0].1, level);
      DescendTree(ctx, items, col, bs[1..], level);
      assert r[1..] == rest;
      assert LeafBag(r, d) == LeafBag(sub, d - 1) + LeafBag(rest, d);
      if forall j, x :: 0 <= j < |bs| && x in bs[j].1 ==> Keyable(ctx, items, level, x) {
        forall j, x | 0 <= j < |bs[1..]| && x in bs[1..][j].1 ensures Keyable(ctx, items, level, x) {
          assert bs[1..][j] == bs[j + 1];
        }
        forall x | x in bs[0].1 ensures Keyable(ctx, items, level, x) {
        }
      }
    }
  }

  /** Flattening a tree whose leaves are plain groups keeps it as it is. */
  lemma {:induction false} FlattenLeafGroups(t: Table)
    requires Grouped(t, 1)
    ensures Flatten(t) == t
  {
    if t != [] {
      var c := t[0].children.rows;
      assert Flatten(c) == [];
      FlattenLeafGroups(t[1..]);
      assert [t[0]] + t[1..] == t;
    }
  }

  /** Merging a node's columns into flattened children keeps their
      'children'. */
  lemma {:induction false} MergeEachKeepsLeaves(a: Row, sub: Table)
    requires Grouped(sub, 1)
    ensures Grouped(MergeEach(a, sub), 1)
    ensures LeafBag(MergeEach(a, sub), 1) == LeafBag(sub, 1)
  {
    if sub != [] {
      var n := |sub| - 1;
      var front := MergeEach(a, sub[..n]);
      var last := MergeRows(a, sub[n]);
      assert MergeEach(a, sub) == front + [last];
      assert sub == sub[..n] + [sub[n]];
      GroupedAppend(sub[..n], [sub[n]], 1);
      assert last.children == sub[n].children;
      MergeEachKeepsLeaves(a, sub[..n]);
      assert LeafBag([last], 1) == LeafBag([sub[n]], 1);
      assert Grouped([last], 1);
      LeafBagAppend(front, [last], 1);
      LeafBagAppend(sub[..n], [sub[n]], 1);
      GroupedAppend(front, [last], 1);
    }
  }

  /** Flattening a tree d >= 1 levels deep leaves one level of groups
      holding the same leaf rows. */
  lemma {:induction false} FlattenTree(t: Table, d: nat)
    requires d >= 1 && Grouped(t, d)
    ensures Grouped(Flatten(t), 1)
    ensures LeafBag(Flatten(t), 1) == LeafBag(t, d)
    ensures t != [] ==> Flatten(t) != []
    decreases d, |t|, 1
  {
    if d == 1 {
      FlattenLeafGroups(t);
    } else if t != [] {
      FlattenCombine(t, d);
    }
  }

  /** The inductive step of FlattenTree: the first group's children
      flattened and merged with the group's columns, then the rest. */
  lemma {:induction false} FlattenCombine(t: Table, d: nat)
    requires d >= 2 && t != [] && Grouped(t, d)
    ensures Grouped(Flatten(t), 1) && LeafBag(Flatten(t), 1) == LeafBag(t, d) && Flatten(t) != []
    decreases d, |t|, 0
  {
    var c := t[0].children.rows;
    FlattenStep(t, d);
    FlattenTree(c, d - 1);
    FlattenTree(t[1..], d);
    var head := MergeEach(Row(t[0].cols, NoChildren), Flatten(c));
    MergeEachKeepsLeaves(Row(t[0].cols, NoChildren), Flatten(c));
    FlatJoin(head, Flatten(t[1..]), LeafBag(c, d - 1), LeafBag(t[1..], d));
  }

  /** One step of recursiveFlattenGroupBy on a grouped table: the first
      group's flattened children, then the flattened rest. */
  lemma FlattenStep(t: Table, d: nat)
    requires d >= 2 && t != [] && Grouped(t, d)
    ensures t[0].children.Children? && Grouped(t[0].children.rows, d - 1) && Grouped(t[1..], d)
    ensures LeafBag(t, d) == LeafBag(t[0].children.rows, d - 1) + LeafBag(t[1..], d)
    ensures Flatten(t[0].children.rows) != [] ==>
      Flatten(t) == MergeEach(Row(t[0].cols, NoChildren), Flatten(t[0].children.rows)) + Flatten(t[1..])
  {
  }

  /** Two flat grouped tables side by side stay flat and grouped, and their
      leaves add up. */
  lemma FlatJoin(head: Table, tail: Table, a: multiset<Row>, b: multiset<Row>)
    requires Grouped(head, 1) && LeafBag(head, 1) == a
    requires Grouped(tail, 1) && LeafBag(tail, 1) == b
    ensures Grouped(head + tail, 1) && LeafBag(head + tail, 1) == a + b
    ensures head != [] ==> head + tail != []
  {
    LeafBagAppend(head, tail, 1);
    GroupedAppend(head, tail, 1);
  }

  // ---------------------------------------------------------------------
  // What GROUP BY promises

  /** No row is duplicated: after GROUP BY on non-empty plain rows every
      result row is a group with a 'children' table, and those tables
      together hold input rows only, and every input row once when no
      group value is one that array_key_exists refuses (a boolean restarts
      its bucket and drops the rows filed before it). */
  lemma GroupByKeepsEveryRow(ctx: Ctx, items: seq<Item>, t: Table)
    requires items != [] && t != [] && Grouped(t, 0)
    requires GroupBy(ctx, items, t).Ok?
    ensures var r := GroupBy(ctx, items, t).value;
            && r != [] && Grouped(r, 1) && LeafBag(r, 1) <= multiset(t)
            && ((forall x :: x in t ==> Keyable(ctx, items, 0, x)) ==> LeafBag(r, 1) == multiset(t))
  {
    var g := GroupLevel(ctx, items, t, 0).value;
    assert g != [] && Grouped(g, |items|) && LeafBag(g, |items|) <= multiset(t)
           && ((forall x :: x in t ==> Keyable(ctx, items, 0, x)) ==> LeafBag(g, |items|) == multiset(t)) by {
      GroupTree(ctx, items, t, 0);
    }
    assert GroupBy(ctx, items, t).value == Flatten(g);
    FlattenTree(g, |items|);
  }

  /** One GROUP BY item: one row per distinct key in first-seen order,
      holding the key (as PHP stored it) under the resolved column name and,
      as 'children', exactly the rows with that key that no later row with
      a refused value of that key restarted, in input order. */
  lemma SingleGroupBy(ctx: Ctx, item: Item, t: Table)
    requires t != [] && Grouped(t, 0)
    requires GroupBy(ctx, [item], t).Ok?
    ensures Evaluations(ctx, [item.expr], t).Ok?
    ensures ToColumnNameWithPrefix(ctx.res, item.text).Ok?
    ensures var vs := Evaluations(ctx, [item.expr], t).value;
            var keys := KeysOfValues(vs);
            var restarts := RestartsOfValues(vs);
            var col := ToColumnNameWithPrefix(ctx.res, item.text).value;
            var r := GroupBy(ctx, [item], t).value;
            var ks := FirstSeen(keys);
            && |r| == |ks|
            && forall j :: 0 <= j < |r| ==>
                 r[j] == Row([(col, KeyValue(ks[j]))], Children(Filter(t, Marks(keys, restarts, ks[j]))))
  {
    GroupByOneLevel(ctx, item, t);
    var vs := Evaluations(ctx, [item.expr], t).value;
    NodesOfGroup(ToColumnNameWithPrefix(ctx.res, item.text).value, t, KeysOfValues(vs), RestartsOfValues(vs));
  }

  /** With one item, the flattened result is the level of group nodes. */
  lemma GroupByOneLevel(ctx: Ctx, item: Item, t: Table)
    requires t != [] && Grouped(t, 0)
    requires GroupBy(ctx, [item], t).Ok?
    ensures Evaluations(ctx, [item.expr], t).Ok?
    ensures ToColumnNameWithPrefix(ctx.res, item.text).Ok?
    ensures GroupBy(ctx, [item], t).value
              == Nodes(ToColumnNameWithPrefix(ctx.res, item.text).value,
                       GroupValues(t, Evaluations(ctx, [item.expr], t).value))
  {
    var vs := Evaluations(ctx, [item.expr], t).value;
    var col := ToColumnNameWithPrefix(ctx.res, item.text).value;
    var bs := GroupValues(t, vs);
    PlainBuckets(t, KeysOfValues(vs), RestartsOfValues(vs));
    NodesTree(col, bs);
    var g := GroupLevel(ctx, [item], t, 0).value;
    assert g == Nodes(col, bs);
    FlattenLeafGroups(g);
  }

  /** The group nodes of a table: one per distinct key in first-seen order,
      each holding exactly the rows with that key. */
  lemma NodesOfGroup(col: string, t: Table, keys: seq<Key>, restarts: seq<bool>)
    requires |keys| == |t| && |restarts| == |t|
    ensures var r := Nodes(col, Group(t, keys, restarts));
            var ks := FirstSeen(keys);
            && |r| == |ks|
            && forall j :: 0 <= j < |r| ==>
                 r[j] == Row([(col, KeyValue(ks[j]))], Children(Filter(t, Marks(keys, restarts, ks[j]))))
  {
    var bs := Group(t, keys, restarts);
    GroupSpec(t, keys, restarts);
    forall j | 0 <= j < |bs| ensures bs[j].1 == Filter(t, Marks(keys, restarts, bs[j].0)) {
      MembersAt(bs, j);
    }
  }

  // ---------------------------------------------------------------------
  // The loops of recursiveApplyOneGroupBy and recursiveFlattenGroupBy,
  // one step at a time

  /** The bucketing loop over the first rows: every group value so far
      evaluated, and each row filed under its value's key. */
  predicate Bucketed(ctx: Ctx, c: seq<Node>, rows: Table, bs: Buckets)
  {
    Evaluations(ctx, c, rows).Ok? && bs == GroupValues(rows, Evaluations(ctx, c, rows).value)
  }

  lemma BucketedStart(ctx: Ctx, c: seq<Node>, t: Table)
    ensures Bucketed(ctx, c, t[..0], [])
  {
    assert t[..0] == [];
  }

  lemma BucketedNext(ctx: Ctx, c: seq<Node>, t: Table, i: nat, bs: Buckets)
    requires i < |t| && Bucketed(ctx, c, t[..i], bs) && Eval(ctx, c, t[i]).Ok?
    ensures var v := Eval(ctx, c, t[i]).value;
            Bucketed(ctx, c, t[..i + 1], AddToBucket(bs, KeyOf(v), t[i], RefusedKey(v)))
  {
    var vs := Evaluations(ctx, c, t[..i]).value;
    var v := Eval(ctx, c, t[i]).value;
    assert t[..i + 1] == t[..i] + [t[i]];
    EvaluationsSnoc(ctx, c, t[..i], t[i]);
    var keys := KeysOfValues(vs + [v]);
    assert keys[..i] == KeysOfValues(vs);
    assert RestartsOfValues(vs + [v])[..i] == RestartsOfValues(vs);
    assert t[..i + 1][..i] == t[..i];
  }

  /** A group value that fails to evaluate is the level's error. */
  lemma GroupLevelFails(ctx: Ctx, items: seq<Item>, rows: Table, index: nat, i: nat, bs: Buckets)
    requires index < |items| && i < |rows|
    requires Bucketed(ctx, [items[index].expr], rows[..i], bs) && Eval(ctx, [items[index].expr], rows[i]).Err?
    ensures GroupLevel(ctx, items, rows, index) == Err(Eval(ctx, [items[index].expr], rows[i]).error)
  {
    EvaluationsErrAt(ctx, [items[index].expr], rows, i);
  }

  /** Once every row is filed: the column is named, and the buckets become
      the level's nodes, each grouped by the next item when there is one. */
  lemma GroupLevelBucketed(ctx: Ctx, items: seq<Item>, rows: Table, index: nat, bs: Buckets)
    requires index < |items| && rows != [] && Bucketed(ctx, [items[index].expr], rows[..|rows|], bs)
    ensures var col := ToColumnNameWithPrefix(ctx.res, items[index].text);
            GroupLevel(ctx, items, rows, index)
              == if col.Err? then Err(col.error)
                 else if index + 1 < |items| then Descend(ctx, items, col.value, bs, index + 1)
                 else Ok(Nodes(col.value, bs))
  {
    assert rows[..|rows|] == rows;
  }

  /** Nodes put in front of a result that did not fail. */
  function Prepend(front: Table, r: Result<Table>): Result<Table>
  {
    if r.Err? then r else Ok(front + r.value)
  }

  /** The subgrouping loop at node j: the node's rows grouped by the next
      item become its 'children'. */
  lemma DescendNext(ctx: Ctx, items: seq<Item>, col: string, bs: Buckets, level: nat, j: nat)
    requires level < |items| && j < |bs|
    ensures var sub := GroupLevel(ctx, items, bs[j].1, level);
            Descend(ctx, items, col, bs[j..], level)
              == if sub.Err? then Err(sub.error)
                 else Prepend([Row([(col, KeyValue(bs[j].0))], Children(sub.value))], Descend(ctx, items, col, bs[j + 1..], level))
  {
    assert bs[j..][0] == bs[j] && bs[j..][1..] == bs[j + 1..];
  }

  lemma PrependNothing(r: Result<Table>)
    ensures Prepend([], r) == r
  {
    if r.Ok? {
      assert [] + r.value == r.value;
    }
  }

  lemma PrependTwice(front: Table, node: Row, r: Result<Table>)
    ensures Prepend(front, Prepend([node], r)) == Prepend(front + [node], r)
  {
    if r.Ok? {
      assert front + ([node] + r.value) == front + [node] + r.value;
    }
  }

  lemma ConcatAssoc<T>(a: seq<T>, b: seq<T>, c: seq<T>)
    ensures a + (b + c) == a + b + c
  {
  }

  /** A row without 'children' ends the flattening loop. */
  lemma FlattenStops(rows: Table, i: nat)
    requires i < |rows| && rows[i].children.NoChildren?
    ensures Flatten(rows[i..]) == []
  {
    assert rows[i..][0] == rows[i];
  }

  /** A node contributes its column merged into each flattened child, or
      itself when its children flatten to nothing. */
  lemma FlattenNext(rows: Table, i: nat)
    requires i < |rows| && rows[i].children.Children?
    ensures var sub := Flatten(rows[i].children.rows);
            Flatten(rows[i..])
              == (if sub != [] then MergeEach(Row(rows[i].cols, NoChildren), sub) else [rows[i]]) + Flatten(rows[i + 1..])
  {
    assert rows[i..][0] == rows[i] && rows[i..][1..] == rows[i + 1..];
  }
}
