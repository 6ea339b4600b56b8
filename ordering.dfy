/** ORDER BY: what the engine's exchange sort, its run-by-run refinement on
    later keys, and the single-key `uasort` promise about the rows. */
module Ordering {
  import opened Strings
  import opened Values
  import opened Assoc
  import opened Rows

  /** One ORDER BY entry: the expression as written and its direction. */
  datatype OrderItem = OrderItem(text: string, desc: bool)

  /** A sort key once the column it reads is fixed. */
  datatype SortKey = SortKey(col: string, desc: bool)

  /** The swap condition of the exchange sort (`$x > $y`, or `$x < $y`
      for DESC), which is also what the `uasort` comparator returns. */
  predicate OutOfOrder(x: Value, y: Value, desc: bool)
  {
    if desc then Compare(x, y) < 0 else Compare(x, y) > 0
  }

  /** A row's value under a key (null when the row lacks the column). */
  function At(row: Row, key: SortKey): Value
  {
    Get(row, key.col)
  }

  /** Two values that are out of order are distinct, and the other way
      round they are in order. */
  lemma OutOfOrderAsymmetric(x: Value, y: Value, desc: bool)
    ensures OutOfOrder(x, y, desc) ==> !OutOfOrder(y, x, desc) && x != y
    ensures !OutOfOrder(x, x, desc)
  {
    CompareAntisymmetric(x, y);
    CompareAntisymmetric(x, x);
  }

  // ---------------------------------------------------------------------
  // When the loose comparison orders a column

  /** Values on which the loose comparison is a total order: transitive,
      and reporting equality only for identical values. */
  predicate TotalOrder(vs: set<Value>)
  {
    && (forall a, b {:trigger TiesEqual(a, b)} :: a in vs && b in vs ==> TiesEqual(a, b))
    && (forall a, b, c {:trigger Chains(a, b, c)} :: a in vs && b in vs && c in vs ==> Chains(a, b, c))
  }

  /** The comparison reports a tie only for identical values. */
  predicate TiesEqual(a: Value, b: Value)
  {
    Compare(a, b) == 0 ==> a == b
  }

  /** a <= b and b <= c give a <= c. */
  predicate Chains(a: Value, b: Value, c: Value)
  {
    Compare(a, b) <= 0 && Compare(b, c) <= 0 ==> Compare(a, c) <= 0
  }

  /** Integer columns are totally ordered. */
  lemma IntsTotallyOrdered(vs: set<Value>)
    requires forall v :: v in vs ==> v.Int?
    ensures TotalOrder(vs)
  {
    forall a, b, c | a in vs && b in vs && c in vs ensures Chains(a, b, c) {
      if Compare(a, b) <= 0 && Compare(b, c) <= 0 {
        CompareTransitiveOnInts(a, b, c);
      }
    }
    assert forall a, b | a in vs && b in vs :: TiesEqual(a, b);
  }

  /** So are columns of non-numeric strings. */
  lemma TextTotallyOrdered(vs: set<Value>)
    requires forall v :: v in vs ==> v.Str? && !IsNumeric(v.s)
    ensures TotalOrder(vs)
  {
    forall a, b, c | a in vs && b in vs && c in vs ensures Chains(a, b, c) {
      if Compare(a, b) <= 0 && Compare(b, c) <= 0 {
        CompareTransitiveOnText(a, b, c);
      }
    }
    assert forall a, b | a in vs && b in vs :: TiesEqual(a, b);
  }

  /** Not out of order, in either direction, is transitive on such values. */
  lemma InOrderTransitive(vs: set<Value>, x: Value, y: Value, z: Value, desc: bool)
    requires TotalOrder(vs) && x in vs && y in vs && z in vs
    requires !OutOfOrder(x, y, desc) && !OutOfOrder(y, z, desc)
    ensures !OutOfOrder(x, z, desc)
  {
    if desc {
      CompareAntisymmetric(x, y);
      CompareAntisymmetric(y, z);
      CompareAntisymmetric(x, z);
      assert Chains(z, y, x);
    } else {
      assert Chains(x, y, z);
    }
  }

  /** ... and antisymmetric. */
  lemma InOrderAntisymmetric(vs: set<Value>, x: Value, y: Value, desc: bool)
    requires TotalOrder(vs) && x in vs && y in vs
    requires !OutOfOrder(x, y, desc) && !OutOfOrder(y, x, desc)
    ensures x == y
  {
    CompareAntisymmetric(x, y);
    assert TiesEqual(x, y);
  }

  /** A column's values in every row of a table. */
  predicate ValuesIn(t: Table, key: SortKey, vs: set<Value>)
  {
    forall i :: 0 <= i < |t| ==> At(t[i], key) in vs
  }

  /** The values a table holds under a key. */
  function ColumnValues(t: Table, key: SortKey): (vs: set<Value>)
    ensures ValuesIn(t, key, vs)
  {
    set i | 0 <= i < |t| :: At(t[i], key)
  }

  // ---------------------------------------------------------------------
  // Sorting a range in place

  /** The rows of [from, to] permuted, every other row where it was. */
  predicate SameRange(a: Table, b: Table, lo: int, hi: int)
  {
    && 0 <= lo <= hi + 1 <= |a| == |b|
    && (forall i :: 0 <= i < |a| && (i < lo || i > hi) ==> a[i] == b[i])
    && multiset(a[lo..hi + 1]) == multiset(b[lo..hi + 1])
  }

  lemma SameRangeReflexive(a: Table, lo: int, hi: int)
    requires 0 <= lo <= hi + 1 <= |a|
    ensures SameRange(a, a, lo, hi)
  {
  }

  lemma SameRangeTransitive(a: Table, b: Table, c: Table, lo: int, hi: int)
    requires SameRange(a, b, lo, hi) && SameRange(b, c, lo, hi)
    ensures SameRange(a, c, lo, hi)
  {
  }

  function Swap(t: Table, i: nat, j: nat): (r: Table)
    requires i < |t| && j < |t|
    ensures |r| == |t|
  {
    t[i := t[j]][j := t[i]]
  }

  /** `swap($this->table[$a], $this->table[$b])` inside the range permutes
      the range. */
  lemma SwapInRange(t: Table, i: nat, j: nat, lo: int, hi: int)
    requires 0 <= lo <= i <= hi < |t| && lo <= j <= hi
    ensures SameRange(t, Swap(t, i, j), lo, hi)
  {
    var s := t[lo..hi + 1];
    var r := Swap(t, i, j);
    assert r[lo..hi + 1] == s[i - lo := t[j]][j - lo := t[i]];
  }

  /** A permutation of a sub-range is a permutation of any range around it. */
  lemma {:induction false} SameRangeWiden(a: Table, b: Table, s: int, f: int, lo: int, hi: int)
    requires SameRange(a, b, s, f) && 0 <= lo <= s && f <= hi < |a|
    ensures SameRange(a, b, lo, hi)
  {
    assert a[lo..hi + 1] == a[lo..s] + a[s..f + 1] + a[f + 1..hi + 1];
    assert b[lo..hi + 1] == b[lo..s] + b[s..f + 1] + b[f + 1..hi + 1];
    assert a[lo..s] == b[lo..s];
    assert a[f + 1..hi + 1] == b[f + 1..hi + 1];
  }

  /** Every row of a permuted range is one of the range's old rows. */
  lemma SameRangeMember(a: Table, b: Table, lo: int, hi: int, i: int) returns (j: int)
    requires SameRange(a, b, lo, hi) && lo <= i <= hi
    ensures lo <= j <= hi && b[i] == a[j]
  {
    assert b[i] == b[lo..hi + 1][i - lo];
    assert b[i] in multiset(a[lo..hi + 1]);
    var k :| 0 <= k < |a[lo..hi + 1]| && a[lo..hi + 1][k] == b[i];
    j := lo + k;
  }

  /** A permutation keeps every value a column holds. */
  lemma SameRangeValuesIn(a: Table, b: Table, lo: int, hi: int, key: SortKey, vs: set<Value>)
    requires SameRange(a, b, lo, hi) && ValuesIn(a, key, vs)
    ensures ValuesIn(b, key, vs)
  {
    forall i | 0 <= i < |b| ensures At(b[i], key) in vs {
      if lo <= i <= hi {
        var j := SameRangeMember(a, b, lo, hi, i);
      }
    }
  }

  /** Permuting a run of rows that agree on a key leaves the key's value at
      every position as it was. */
  lemma RunKeepsKey(a: Table, b: Table, s: int, f: int, key: SortKey)
    requires SameRange(a, b, s, f)
    requires forall i :: s <= i <= f ==> At(a[i], key) == At(a[s], key)
    ensures forall i :: 0 <= i < |a| ==> At(b[i], key) == At(a[i], key)
  {
    forall i | s <= i <= f ensures At(b[i], key) == At(a[i], key) {
      var j := SameRangeMember(a, b, s, f, i);
    }
  }

  /** No two rows of [from, to] out of order under the key. */
  predicate Sorted(t: Table, key: SortKey, lo: int, hi: int)
  {
    forall i, j :: 0 <= lo <= i < j <= hi < |t| ==> !OutOfOrder(At(t[i], key), At(t[j], key), key.desc)
  }

  /** The exchange sort's outer invariant: every row before position a is
      in order with every later row of the range. */
  predicate Placed(t: Table, key: SortKey, lo: int, a: int, hi: int)
  {
    forall i, j :: 0 <= lo <= i < a && i < j <= hi < |t| ==> !OutOfOrder(At(t[i], key), At(t[j], key), key.desc)
  }

  /** Its inner invariant: row a is in order with the rows in (a, b). */
  predicate HeadPlaced(t: Table, key: SortKey, a: int, b: int)
  {
    forall j :: 0 <= a < j < b && j < |t| ==> !OutOfOrder(At(t[a], key), At(t[j], key), key.desc)
  }

  /** Both invariants of the exchange sort while row a is compared with
      row b, on totally ordered values. */
  predicate InnerInvariant(t: Table, key: SortKey, vs: set<Value>, lo: int, a: int, b: int, hi: int)
  {
    && 0 <= lo <= a < b <= hi + 1 <= |t|
    && TotalOrder(vs) && ValuesIn(t, key, vs)
    && Placed(t, key, lo, a, hi) && HeadPlaced(t, key, a, b)
  }

  /** One comparison of the inner loop: swapping rows a and b when they are
      out of order keeps both invariants and extends the inner one to b. */
  lemma ExchangeStep(t: Table, key: SortKey, vs: set<Value>, lo: int, a: int, b: int, hi: int)
    requires InnerInvariant(t, key, vs, lo, a, b, hi) && b <= hi
    ensures InnerInvariant(Exchange(t, key, a, b), key, vs, lo, a, b + 1, hi)
  {
    if OutOfOrder(At(t[a], key), At(t[b], key), key.desc) {
      SwapKeepsPlaced(t, key, lo, a, b, hi);
      SwapExtendsHead(t, key, vs, a, b);
      SwapKeepsValues(t, key, vs, a, b);
    }
  }

  lemma SwapKeepsPlaced(t: Table, key: SortKey, lo: int, a: int, b: int, hi: int)
    requires 0 <= lo <= a < b <= hi < |t|
    requires Placed(t, key, lo, a, hi)
    ensures Placed(Swap(t, a, b), key, lo, a, hi)
  {
    var r := Swap(t, a, b);
    forall i, j | 0 <= lo <= i < a && i < j <= hi < |r|
      ensures !OutOfOrder(At(r[i], key), At(r[j], key), key.desc)
    {
      assert r[i] == t[i];
      if j == a {
        assert r[j] == t[b];
      } else if j == b {
        assert r[j] == t[a];
      } else {
        assert r[j] == t[j];
      }
    }
  }

  lemma SwapExtendsHead(t: Table, key: SortKey, vs: set<Value>, a: int, b: int)
    requires 0 <= a < b < |t|
    requires TotalOrder(vs) && ValuesIn(t, key, vs)
    requires HeadPlaced(t, key, a, b) && OutOfOrder(At(t[a], key), At(t[b], key), key.desc)
    ensures HeadPlaced(Swap(t, a, b), key, a, b + 1)
  {
    var r := Swap(t, a, b);
    var x, y := At(t[a], key), At(t[b], key);
    assert At(r[a], key) == y && At(r[b], key) == x;
    OutOfOrderAsymmetric(x, y, key.desc);
    forall j | 0 <= a < j < b + 1 && j < |r| ensures !OutOfOrder(y, At(r[j], key), key.desc) {
      if j < b {
        assert r[j] == t[j];
        InOrderTransitive(vs, y, x, At(t[j], key), key.desc);
      }
    }
  }

  lemma SwapKeepsValues(t: Table, key: SortKey, vs: set<Value>, a: int, b: int)
    requires 0 <= a < |t| && 0 <= b < |t| && ValuesIn(t, key, vs)
    ensures ValuesIn(Swap(t, a, b), key, vs)
  {
    var r := Swap(t, a, b);
    forall i | 0 <= i < |r| ensures At(r[i], key) in vs {
      if i != a && i != b { assert r[i] == t[i]; }
    }
  }

  // ---------------------------------------------------------------------
  // Several keys: rows are ordered key by key

  /** Row r may come before row s under keys[idx..]: the first key on which
      their values differ has them in order. */
  predicate LexInOrder(r: Row, s: Row, keys: seq<SortKey>, idx: nat)
    decreases |keys| - idx
  {
    idx >= |keys| ||
    (var x, y := At(r, keys[idx]), At(s, keys[idx]);
     if x == y then LexInOrder(r, s, keys, idx + 1) else !OutOfOrder(x, y, keys[idx].desc))
  }

  predicate LexSorted(t: Table, keys: seq<SortKey>, idx: nat, lo: int, hi: int)
  {
    forall i, j :: 0 <= lo <= i < j <= hi < |t| ==> LexInOrder(t[i], t[j], keys, idx)
  }

  /** Every key's values in the table totally ordered, vss[k] holding key k's. */
  predicate KeysOrdered(t: Table, keys: seq<SortKey>, vss: seq<set<Value>>)
  {
    |vss| == |keys| && forall k :: 0 <= k < |keys| ==> TotalOrder(vss[k]) && ValuesIn(t, keys[k], vss[k])
  }

  lemma KeysOrderedPermuted(a: Table, b: Table, lo: int, hi: int, keys: seq<SortKey>, vss: seq<set<Value>>)
    requires SameRange(a, b, lo, hi) && KeysOrdered(a, keys, vss)
    ensures KeysOrdered(b, keys, vss)
  {
    forall k | 0 <= k < |keys| ensures ValuesIn(b, keys[k], vss[k]) {
      SameRangeValuesIn(a, b, lo, hi, keys[k], vss[k]);
    }
  }

  /** The run loop's invariant: among the rows before `start`, any two that
      agree on key idx are in order under the later keys. */
  predicate RunsDone(t: Table, keys: seq<SortKey>, idx: nat, lo: int, start: int)
    requires idx < |keys|
  {
    forall i, j :: 0 <= lo <= i < j < start <= |t| && At(t[i], keys[idx]) == At(t[j], keys[idx])
      ==> LexInOrder(t[i], t[j], keys, idx + 1)
  }

  /** In a range sorted on a totally ordered key, equal values sit side by
      side: rows on both sides of a change of value differ. */
  lemma {:induction false} RunsAreContiguous(t: Table, key: SortKey, vs: set<Value>, lo: int, hi: int, s: int, i: int, j: int)
    requires Sorted(t, key, lo, hi) && TotalOrder(vs) && ValuesIn(t, key, vs)
    requires 0 <= lo <= i < s <= j <= hi < |t|
    requires At(t[s - 1], key) != At(t[s], key)
    ensures At(t[i], key) != At(t[j], key)
  {
    var xi, xp, xs, xj := At(t[i], key), At(t[s - 1], key), At(t[s], key), At(t[j], key);
    assert !OutOfOrder(xp, xs, key.desc);
    if i < s - 1 {
      assert !OutOfOrder(xi, xp, key.desc);
    }
    if s < j {
      assert !OutOfOrder(xs, xj, key.desc);
    }
    assert xi == xj ==> !OutOfOrder(xj, xp, key.desc);
    assert xi == xj ==> !OutOfOrder(xs, xi, key.desc);
    if xi == xj {
      InOrderTransitive(vs, xs, xi, xp, key.desc);
      InOrderAntisymmetric(vs, xp, xs, key.desc);
    }
  }

  /** A finished run [s, f] joins the done rows: the rows before it are
      untouched, it is ordered on the later keys, and no row before it
      shares its value. */
  lemma {:induction false} RunJoins(before: Table, t: Table, keys: seq<SortKey>, idx: nat, vss: seq<set<Value>>, lo: int, s: int, f: int, hi: int)
    requires idx < |keys| && KeysOrdered(t, keys, vss)
    requires 0 <= lo <= s <= f <= hi < |t| == |before|
    requires forall i :: 0 <= i < s ==> t[i] == before[i]
    requires RunsDone(before, keys, idx, lo, s)
    requires Sorted(t, keys[idx], lo, hi)
    requires s > lo ==> At(t[s - 1], keys[idx]) != At(t[s], keys[idx])
    requires LexSorted(t, keys, idx + 1, s, f)
    ensures RunsDone(t, keys, idx, lo, f + 1)
  {
    var key := keys[idx];
    forall i, j | 0 <= lo <= i < j < f + 1 <= |t| && At(t[i], key) == At(t[j], key)
      ensures LexInOrder(t[i], t[j], keys, idx + 1)
    {
      if j < s {
        assert t[i] == before[i] && t[j] == before[j];
      } else if i < s {
        RunsAreContiguous(t, key, vss[idx], lo, hi, s, i, j);
      }
    }
  }

  /** Sorted on key idx, and rows agreeing on it ordered on the later keys:
      the range is ordered key by key from idx on. */
  lemma {:induction false} RunsDoneSorted(t: Table, keys: seq<SortKey>, idx: nat, lo: int, hi: int)
    requires idx < |keys| && 0 <= lo && hi < |t|
    requires Sorted(t, keys[idx], lo, hi) && RunsDone(t, keys, idx, lo, hi + 1)
    ensures LexSorted(t, keys, idx, lo, hi)
  {
    forall i, j | 0 <= lo <= i < j <= hi < |t| ensures LexInOrder(t[i], t[j], keys, idx) {
      assert !OutOfOrder(At(t[i], keys[idx]), At(t[j], keys[idx]), keys[idx].desc);
    }
  }

  /** Key idx sorted is all there is to it when idx is the last key. */
  lemma LastKeySorted(t: Table, keys: seq<SortKey>, lo: int, hi: int)
    requires |keys| > 0 && Sorted(t, keys[|keys| - 1], lo, hi)
    ensures LexSorted(t, keys, |keys| - 1, lo, hi)
  {
    var idx := |keys| - 1;
    forall i, j | 0 <= lo <= i < j <= hi < |t| ensures LexInOrder(t[i], t[j], keys, idx) {
      assert !OutOfOrder(At(t[i], keys[idx]), At(t[j], keys[idx]), keys[idx].desc);
    }
  }

  /** Ordering key by key from idx sorts the range on key idx. */
  lemma LexSortedOnFirst(t: Table, keys: seq<SortKey>, idx: nat, lo: int, hi: int)
    requires idx < |keys| && LexSorted(t, keys, idx, lo, hi)
    ensures Sorted(t, keys[idx], lo, hi)
  {
    forall i, j | 0 <= lo <= i < j <= hi < |t|
      ensures !OutOfOrder(At(t[i], keys[idx]), At(t[j], keys[idx]), keys[idx].desc)
    {
      assert LexInOrder(t[i], t[j], keys, idx);
      OutOfOrderAsymmetric(At(t[i], keys[idx]), At(t[j], keys[idx]), keys[idx].desc);
    }
  }

  // ---------------------------------------------------------------------
  // The exchange sort and the run refinement as functions of the rows

  /** One comparison: rows a and b swapped when out of order. */
  function Exchange(t: Table, key: SortKey, a: int, b: int): (r: Table)
    requires 0 <= a < b < |t|
    ensures |r| == |t|
  {
    if OutOfOrder(At(t[a], key), At(t[b], key), key.desc) then Swap(t, a, b) else t
  }

  /** The inner loop of recursiveApplyOneOrder from position b on: row a
      is compared with each later row of the range and swapped with it when
      the two are out of order. */
  function ExchangeRow(t: Table, key: SortKey, a: int, b: int, hi: int): (r: Table)
    requires 0 <= a < b <= hi + 1 <= |t|
    ensures |r| == |t|
    decreases hi - b + 1
  {
    if b > hi then t else ExchangeRow(Exchange(t, key, a, b), key, a, b + 1, hi)
  }

  /** The outer loop from position a on (`for ($a = $from; $a < $to; $a++)`). */
  function ExchangeSort(t: Table, key: SortKey, a: int, hi: int): (r: Table)
    requires 0 <= a && hi < |t|
    ensures |r| == |t|
    decreases hi - a
  {
    if a >= hi then t else ExchangeSort(ExchangeRow(t, key, a, a + 1, hi), key, a + 1, hi)
  }

  /** recursiveApplyOneOrder($struct, idx, from, to): sort [from, to] on
      key idx, then re-sort every run of rows with identical values under
      key idx on the later keys. */
  function OrderRange(t: Table, keys: seq<SortKey>, idx: nat, lo: int, hi: int): (r: Table)
    requires 0 <= lo && hi < |t|
    ensures |r| == |t|
    decreases |keys| - idx, 2, 0
  {
    if idx >= |keys| then t
    else
      var t1 := ExchangeSort(t, keys[idx], lo, hi);
      if idx + 1 == |keys| || lo > hi then t1
      else Runs(t1, keys, idx, hi, lo, lo, At(t1[lo], keys[idx]), lo + 1)
  }

  /** The run-detection loop from position a on: [start, finish] is the
      current run, all of whose rows hold `prev` under key idx. */
  function Runs(t: Table, keys: seq<SortKey>, idx: nat, hi: int, start: int, finish: int, prev: Value, a: int): (r: Table)
    requires idx < |keys| && 0 <= start <= finish == a - 1 && a <= hi + 1 <= |t|
    ensures |r| == |t|
    decreases |keys| - idx, 1, hi - a + 1
  {
    if a > hi then Refine(t, keys, idx, start, finish)
    else
      var value := At(t[a], keys[idx]);
      if prev == value then Runs(t, keys, idx, hi, start, a, prev, a + 1)
      else Runs(Refine(t, keys, idx, start, finish), keys, idx, hi, a, a, value, a + 1)
  }

  /** A finished run [start, finish] of more than one row is re-sorted on
      the next key. */
  function Refine(t: Table, keys: seq<SortKey>, idx: nat, start: int, finish: int): (r: Table)
    requires idx < |keys| && 0 <= start <= finish < |t|
    ensures |r| == |t|
    decreases |keys| - idx, 0, 0
  {
    if finish > start then OrderRange(t, keys, idx + 1, start, finish) else t
  }

  // One step of each loop, for the methods that run them in place

  lemma ExchangeRowNext(t: Table, key: SortKey, a: int, b: int, hi: int)
    requires 0 <= a < b <= hi < |t|
    ensures ExchangeRow(t, key, a, b, hi) == ExchangeRow(Exchange(t, key, a, b), key, a, b + 1, hi)
  {
  }

  lemma ExchangeSortNext(t: Table, key: SortKey, a: int, hi: int)
    requires 0 <= a < hi < |t|
    ensures ExchangeSort(t, key, a, hi) == ExchangeSort(ExchangeRow(t, key, a, a + 1, hi), key, a + 1, hi)
  {
  }

  lemma RunsSame(t: Table, keys: seq<SortKey>, idx: nat, hi: int, start: int, finish: int, prev: Value, a: int)
    requires idx < |keys| && 0 <= start <= finish == a - 1 && a <= hi < |t|
    requires At(t[a], keys[idx]) == prev
    ensures Runs(t, keys, idx, hi, start, finish, prev, a) == Runs(t, keys, idx, hi, start, a, prev, a + 1)
  {
  }

  lemma RunsNew(t: Table, keys: seq<SortKey>, idx: nat, hi: int, start: int, finish: int, prev: Value, a: int)
    requires idx < |keys| && 0 <= start <= finish == a - 1 && a <= hi < |t|
    requires At(t[a], keys[idx]) != prev
    ensures Runs(t, keys, idx, hi, start, finish, prev, a)
              == Runs(Refine(t, keys, idx, start, finish), keys, idx, hi, a, a, At(t[a], keys[idx]), a + 1)
  {
  }

  lemma RunsEnd(t: Table, keys: seq<SortKey>, idx: nat, hi: int, start: int, finish: int, prev: Value, a: int)
    requires idx < |keys| && 0 <= start <= finish == a - 1 && a == hi + 1 <= |t|
    ensures Runs(t, keys, idx, hi, start, finish, prev, a) == Refine(t, keys, idx, start, finish)
  {
  }

  /** The inner loop permutes [a, to]. */
  lemma {:induction false} ExchangeRowPermutes(t: Table, key: SortKey, a: int, b: int, hi: int)
    requires 0 <= a < b <= hi + 1 <= |t|
    ensures SameRange(t, ExchangeRow(t, key, a, b, hi), a, hi)
    decreases hi - b + 1, 1
  {
    if b <= hi {
      ExchangeRowPermutesStep(t, key, a, b, hi);
    } else {
      SameRangeReflexive(t, a, hi);
    }
  }

  lemma {:induction false} ExchangeRowPermutesStep(t: Table, key: SortKey, a: int, b: int, hi: int)
    requires 0 <= a < b <= hi < |t|
    ensures SameRange(t, ExchangeRow(t, key, a, b, hi), a, hi)
    decreases hi - b + 1, 0
  {
    var t' := Exchange(t, key, a, b);
    ExchangePermutes(t, key, a, b, hi);
    ExchangeRowPermutes(t', key, a, b + 1, hi);
    ExchangeRowNext(t, key, a, b, hi);
    SameRangeTransitive(t, t', ExchangeRow(t', key, a, b + 1, hi), a, hi);
  }

  /** One comparison permutes [a, to]. */
  lemma ExchangePermutes(t: Table, key: SortKey, a: int, b: int, hi: int)
    requires 0 <= a < b <= hi < |t|
    ensures SameRange(t, Exchange(t, key, a, b), a, hi)
  {
    if OutOfOrder(At(t[a], key), At(t[b], key), key.desc) {
      SwapInRange(t, a, b, a, hi);
    } else {
      SameRangeReflexive(t, a, hi);
    }
  }

  /** The exchange sort permutes the range. */
  lemma {:induction false} ExchangeSortPermutes(t: Table, key: SortKey, lo: int, a: int, hi: int)
    requires 0 <= lo <= a && hi < |t| && lo <= hi + 1
    ensures SameRange(t, ExchangeSort(t, key, a, hi), lo, hi)
    decreases hi - a
  {
    if a < hi {
      var t' := ExchangeRow(t, key, a, a + 1, hi);
      ExchangeRowPermutes(t, key, a, a + 1, hi);
      SameRangeWiden(t, t', a, hi, lo, hi);
      ExchangeSortPermutes(t', key, lo, a + 1, hi);
    }
  }

  /** With totally ordered values the inner loop places row a. */
  lemma {:induction false} ExchangeRowPlaces(t: Table, key: SortKey, vs: set<Value>, lo: int, a: int, b: int, hi: int)
    requires InnerInvariant(t, key, vs, lo, a, b, hi)
    ensures Placed(ExchangeRow(t, key, a, b, hi), key, lo, a + 1, hi)
    ensures ValuesIn(ExchangeRow(t, key, a, b, hi), key, vs)
    decreases hi - b + 1, 1
  {
    if b <= hi {
      ExchangeRowPlacesStep(t, key, vs, lo, a, b, hi);
    } else {
      HeadPlacedExtends(t, key, lo, a, hi);
    }
  }

  /** One comparison of the inner loop, then the rest of it. */
  lemma {:induction false} ExchangeRowPlacesStep(t: Table, key: SortKey, vs: set<Value>, lo: int, a: int, b: int, hi: int)
    requires InnerInvariant(t, key, vs, lo, a, b, hi) && b <= hi
    ensures Placed(ExchangeRow(t, key, a, b, hi), key, lo, a + 1, hi)
    ensures ValuesIn(ExchangeRow(t, key, a, b, hi), key, vs)
    decreases hi - b + 1, 0
  {
    ExchangeStep(t, key, vs, lo, a, b, hi);
    ExchangeRowNext(t, key, a, b, hi);
    ExchangeRowPlaces(Exchange(t, key, a, b), key, vs, lo, a, b + 1, hi);
  }

  /** Row a in order with every later row of the range extends Placed. */
  lemma HeadPlacedExtends(t: Table, key: SortKey, lo: int, a: int, hi: int)
    requires 0 <= lo <= a <= hi < |t|
    requires Placed(t, key, lo, a, hi) && HeadPlaced(t, key, a, hi + 1)
    ensures Placed(t, key, lo, a + 1, hi)
  {
    forall i, j | 0 <= lo <= i < a + 1 && i < j <= hi < |t|
      ensures !OutOfOrder(At(t[i], key), At(t[j], key), key.desc)
    {
      if i == a {
        assert !OutOfOrder(At(t[a], key), At(t[j], key), key.desc);
      }
    }
  }

  /** ... and the exchange sort sorts the range. */
  lemma {:induction false} ExchangeSortSorts(t: Table, key: SortKey, vs: set<Value>, lo: int, a: int, hi: int)
    requires 0 <= lo <= a && hi < |t|
    requires TotalOrder(vs) && ValuesIn(t, key, vs) && Placed(t, key, lo, a, hi)
    ensures Sorted(ExchangeSort(t, key, a, hi), key, lo, hi)
    decreases hi - a
  {
    if a < hi {
      var t' := ExchangeRow(t, key, a, a + 1, hi);
      assert ExchangeSort(t, key, a, hi) == ExchangeSort(t', key, a + 1, hi);
      ExchangeRowPlaces(t, key, vs, lo, a, a + 1, hi);
      ExchangeSortSorts(t', key, vs, lo, a + 1, hi);
      assert Sorted(ExchangeSort(t', key, a + 1, hi), key, lo, hi);
    } else {
      assert ExchangeSort(t, key, a, hi) == t;
      PlacedSorted(t, key, lo, a, hi);
    }
  }

  /** Once every row from lo up to the last is placed, the range is sorted. */
  lemma PlacedSorted(t: Table, key: SortKey, lo: int, a: int, hi: int)
    requires hi <= a && Placed(t, key, lo, a, hi)
    ensures Sorted(t, key, lo, hi)
  {
    forall i, j | 0 <= lo <= i < j <= hi < |t|
      ensures !OutOfOrder(At(t[i], key), At(t[j], key), key.desc)
    {
      assert i < a;
    }
  }

  /** Rows already in order are never swapped. */
  lemma {:induction false} ExchangeRowKeepsSorted(t: Table, key: SortKey, lo: int, a: int, b: int, hi: int)
    requires 0 <= lo <= a < b <= hi + 1 <= |t| && Sorted(t, key, lo, hi)
    ensures ExchangeRow(t, key, a, b, hi) == t
    decreases hi - b + 1
  {
    if b <= hi {
      assert !OutOfOrder(At(t[a], key), At(t[b], key), key.desc);
      assert Exchange(t, key, a, b) == t;
      assert ExchangeRow(t, key, a, b, hi) == ExchangeRow(t, key, a, b + 1, hi);
      ExchangeRowKeepsSorted(t, key, lo, a, b + 1, hi);
    }
  }

  lemma {:induction false} ExchangeSortKeepsSorted(t: Table, key: SortKey, lo: int, a: int, hi: int)
    requires 0 <= lo <= a && hi < |t| && Sorted(t, key, lo, hi)
    ensures ExchangeSort(t, key, a, hi) == t
    decreases hi - a
  {
    if a < hi {
      ExchangeRowKeepsSorted(t, key, lo, a, a + 1, hi);
      ExchangeSortKeepsSorted(t, key, lo, a + 1, hi);
    }
  }

  /** Whatever the values, the ORDER BY of a range only permutes it, and
      leaves the values under key idx at every position as sorted on it. */
  lemma {:induction false} OrderRangePermutes(t: Table, keys: seq<SortKey>, idx: nat, lo: int, hi: int)
    requires 0 <= lo <= hi + 1 <= |t|
    ensures SameRange(t, OrderRange(t, keys, idx, lo, hi), lo, hi)
    decreases |keys| - idx, 2, 0
  {
    if idx >= |keys| {
      SameRangeReflexive(t, lo, hi);
    } else {
      var t1 := ExchangeSort(t, keys[idx], lo, hi);
      ExchangeSortPermutes(t, keys[idx], lo, lo, hi);
      if idx + 1 < |keys| && lo <= hi {
        var r := Runs(t1, keys, idx, hi, lo, lo, At(t1[lo], keys[idx]), lo + 1);
        assert SameRange(t1, r, lo, hi) by {
          RunsPermutes(t1, keys, idx, hi, lo, lo, At(t1[lo], keys[idx]), lo + 1);
        }
        SameRangeTransitive(t, t1, r, lo, hi);
        assert OrderRange(t, keys, idx, lo, hi) == r;
      } else {
        assert OrderRange(t, keys, idx, lo, hi) == t1;
      }
    }
  }

  /** The run loop permutes [start, to] and keeps every value under key
      idx where it was, since each re-sorted run holds a single value. */
  lemma {:induction false} RunsPermutes(t: Table, keys: seq<SortKey>, idx: nat, hi: int, start: int, finish: int, prev: Value, a: int)
    requires idx < |keys| && 0 <= start <= finish == a - 1 && a <= hi + 1 <= |t|
    requires forall i :: start <= i < a ==> At(t[i], keys[idx]) == prev
    ensures SameRange(t, Runs(t, keys, idx, hi, start, finish, prev, a), start, hi)
    ensures forall i :: 0 <= i < |t| ==> At(Runs(t, keys, idx, hi, start, finish, prev, a)[i], keys[idx]) == At(t[i], keys[idx])
    decreases |keys| - idx, 1, hi - a + 1, 1
  {
    if a > hi {
      RunsEnd(t, keys, idx, hi, start, finish, prev, a);
      RefinePermutes(t, keys, idx, start, finish);
      SameRangeWiden(t, Refine(t, keys, idx, start, finish), start, finish, start, hi);
    } else if At(t[a], keys[idx]) == prev {
      RunsSame(t, keys, idx, hi, start, finish, prev, a);
      RunsPermutes(t, keys, idx, hi, start, a, prev, a + 1);
    } else {
      RunsPermutesNew(t, keys, idx, hi, start, finish, prev, a);
    }
  }

  /** A new value at row a: the run before it is re-sorted, then the loop
      goes on with a run that starts at a. */
  lemma {:induction false} RunsPermutesNew(t: Table, keys: seq<SortKey>, idx: nat, hi: int, start: int, finish: int, prev: Value, a: int)
    requires idx < |keys| && 0 <= start <= finish == a - 1 && a <= hi < |t|
    requires forall i :: start <= i < a ==> At(t[i], keys[idx]) == prev
    requires At(t[a], keys[idx]) != prev
    ensures SameRange(t, Runs(t, keys, idx, hi, start, finish, prev, a), start, hi)
    ensures forall i :: 0 <= i < |t| ==> At(Runs(t, keys, idx, hi, start, finish, prev, a)[i], keys[idx]) == At(t[i], keys[idx])
    decreases |keys| - idx, 1, hi - a + 1, 0
  {
    var value := At(t[a], keys[idx]);
    var t' := Refine(t, keys, idx, start, finish);
    RefinePermutes(t, keys, idx, start, finish);
    SameRangeWiden(t, t', start, finish, start, hi);
    assert t'[a] == t[a];
    RunsPermutes(t', keys, idx, hi, a, a, value, a + 1);
    RunsNew(t, keys, idx, hi, start, finish, prev, a);
    var r := Runs(t', keys, idx, hi, a, a, value, a + 1);
    SameRangeWiden(t', r, a, hi, start, hi);
    SameRangeTransitive(t, t', r, start, hi);
    SameValuesTransitive(t, t', r, keys[idx]);
  }

  /** Keeping every value under a key where it was composes. */
  lemma SameValuesTransitive(t: Table, t': Table, r: Table, key: SortKey)
    requires |t| == |t'| == |r|
    requires forall i :: 0 <= i < |t| ==> At(t'[i], key) == At(t[i], key)
    requires forall i :: 0 <= i < |t'| ==> At(r[i], key) == At(t'[i], key)
    ensures forall i :: 0 <= i < |t| ==> At(r[i], key) == At(t[i], key)
  {
  }

  /** Re-sorting a run of equal values permutes it and keeps every value
      under key idx where it was. */
  lemma RefinePermutes(t: Table, keys: seq<SortKey>, idx: nat, start: int, finish: int)
    requires idx < |keys| && 0 <= start <= finish < |t|
    requires forall i :: start <= i <= finish ==> At(t[i], keys[idx]) == At(t[start], keys[idx])
    ensures SameRange(t, Refine(t, keys, idx, start, finish), start, finish)
    ensures forall i :: 0 <= i < |t| ==> At(Refine(t, keys, idx, start, finish)[i], keys[idx]) == At(t[i], keys[idx])
    decreases |keys| - idx, 0, 0
  {
    var r := Refine(t, keys, idx, start, finish);
    if finish > start {
      OrderRangePermutes(t, keys, idx + 1, start, finish);
    } else {
      SameRangeReflexive(t, start, finish);
    }
    RunKeepsKey(t, r, start, finish, keys[idx]);
  }

  /** ORDER BY on several keys: when every key's values are totally
      ordered, the range comes out ordered key by key. */
  lemma {:induction false} OrderRangeSorts(t: Table, keys: seq<SortKey>, idx: nat, lo: int, hi: int, vss: seq<set<Value>>)
    requires 0 <= lo <= hi + 1 <= |t| && idx < |keys|
    requires KeysOrdered(t, keys, vss)
    ensures LexSorted(OrderRange(t, keys, idx, lo, hi), keys, idx, lo, hi)
    decreases |keys| - idx, 2, 0
  {
    var key := keys[idx];
    var t1 := ExchangeSort(t, key, lo, hi);
    ExchangeSortSorts(t, key, vss[idx], lo, lo, hi);
    ExchangeSortPermutes(t, key, lo, lo, hi);
    KeysOrderedPermuted(t, t1, lo, hi, keys, vss);
    if idx + 1 == |keys| {
      LastKeySorted(t1, keys, lo, hi);
    } else if lo <= hi {
      RunsSorts(t1, keys, idx, hi, lo, lo, At(t1[lo], key), lo + 1, lo, vss);
    }
  }

  /** The run loop's state at row a, with the rows sorted on key idx: the
      current run [start, a) holds `prev`, starts at a change of value, and
      the runs before it are done. */
  predicate RunsInvariant(t: Table, keys: seq<SortKey>, idx: nat, hi: int, start: int, prev: Value, a: int, lo: int, vss: seq<set<Value>>)
  {
    && idx < |keys| && 0 <= lo <= start < a <= hi + 1 <= |t|
    && KeysOrdered(t, keys, vss) && Sorted(t, keys[idx], lo, hi)
    && (forall i :: start <= i < a ==> At(t[i], keys[idx]) == prev)
    && (start > lo ==> At(t[start - 1], keys[idx]) != At(t[start], keys[idx]))
    && RunsDone(t, keys, idx, lo, start)
  }

  /** The run loop, given the rows sorted on key idx: the runs finished so
      far are ordered on the later keys, and so is every later run. */
  lemma {:induction false} RunsSorts(t: Table, keys: seq<SortKey>, idx: nat, hi: int, start: int, finish: int, prev: Value, a: int, lo: int, vss: seq<set<Value>>)
    requires RunsInvariant(t, keys, idx, hi, start, prev, a, lo, vss) && finish == a - 1
    ensures LexSorted(Runs(t, keys, idx, hi, start, finish, prev, a), keys, idx, lo, hi)
    decreases |keys| - idx, 1, hi - a + 1, 1
  {
    if a > hi {
      RunsEnd(t, keys, idx, hi, start, finish, prev, a);
      LastRunSorts(t, keys, idx, hi, start, finish, prev, a, lo, vss);
    } else if At(t[a], keys[idx]) == prev {
      RunsSame(t, keys, idx, hi, start, finish, prev, a);
      RunsSorts(t, keys, idx, hi, start, a, prev, a + 1, lo, vss);
    } else {
      RunsSortsNew(t, keys, idx, hi, start, finish, prev, a, lo, vss);
    }
  }

  /** A new value at row a: the finished run joins the done rows and the
      loop goes on from a. */
  lemma {:induction false} RunsSortsNew(t: Table, keys: seq<SortKey>, idx: nat, hi: int, start: int, finish: int, prev: Value, a: int, lo: int, vss: seq<set<Value>>)
    requires RunsInvariant(t, keys, idx, hi, start, prev, a, lo, vss) && finish == a - 1
    requires a <= hi && At(t[a], keys[idx]) != prev
    ensures LexSorted(Runs(t, keys, idx, hi, start, finish, prev, a), keys, idx, lo, hi)
    decreases |keys| - idx, 1, hi - a + 1, 0
  {
    var t' := Refine(t, keys, idx, start, finish);
    NextRunStarts(t, keys, idx, hi, start, finish, prev, a, lo, vss);
    RunsNew(t, keys, idx, hi, start, finish, prev, a);
    RunsSorts(t', keys, idx, hi, a, a, At(t[a], keys[idx]), a + 1, lo, vss);
  }

  /** The last run re-sorted, the range is ordered key by key. */
  lemma LastRunSorts(t: Table, keys: seq<SortKey>, idx: nat, hi: int, start: int, finish: int, prev: Value, a: int, lo: int, vss: seq<set<Value>>)
    requires RunsInvariant(t, keys, idx, hi, start, prev, a, lo, vss) && finish == a - 1 && a == hi + 1
    ensures LexSorted(Refine(t, keys, idx, start, finish), keys, idx, lo, hi)
    decreases |keys| - idx, 0, 1
  {
    var t' := Refine(t, keys, idx, start, finish);
    RunStepFacts(t, keys, idx, lo, start, finish, hi, vss);
    RunJoins(t, t', keys, idx, vss, lo, start, finish, hi);
    RunsDoneSorted(t', keys, idx, lo, hi);
  }

  /** A run that ends before the range does, re-sorted, leaves the loop's
      invariant holding for the run that starts right after it. */
  lemma NextRunStarts(t: Table, keys: seq<SortKey>, idx: nat, hi: int, start: int, finish: int, prev: Value, a: int, lo: int, vss: seq<set<Value>>)
    requires RunsInvariant(t, keys, idx, hi, start, prev, a, lo, vss) && finish == a - 1
    requires a <= hi && At(t[a], keys[idx]) != prev
    ensures RunsInvariant(Refine(t, keys, idx, start, finish), keys, idx, hi, a, At(t[a], keys[idx]), a + 1, lo, vss)
    decreases |keys| - idx, 0, 1
  {
    var t' := Refine(t, keys, idx, start, finish);
    var key := keys[idx];
    assert && |t'| == |t| && KeysOrdered(t', keys, vss) && Sorted(t', key, lo, hi)
           && RunsDone(t', keys, idx, lo, a)
           && At(t'[a], key) == At(t[a], key) && At(t'[a - 1], key) != At(t[a], key) by {
      RunStepFacts(t, keys, idx, lo, start, finish, hi, vss);
      RunJoins(t, t', keys, idx, vss, lo, start, finish, hi);
    }
    RunStarts(t', keys, idx, hi, a, At(t[a], keys[idx]), lo, vss);
  }

  /** A run of one row at a, after a change of value, over done rows. */
  lemma RunStarts(t: Table, keys: seq<SortKey>, idx: nat, hi: int, a: int, v: Value, lo: int, vss: seq<set<Value>>)
    requires idx < |keys| && 0 <= lo < a <= hi < |t|
    requires KeysOrdered(t, keys, vss) && Sorted(t, keys[idx], lo, hi) && RunsDone(t, keys, idx, lo, a)
    requires At(t[a], keys[idx]) == v && At(t[a - 1], keys[idx]) != v
    ensures RunsInvariant(t, keys, idx, hi, a, v, a + 1, lo, vss)
  {
  }

  /** What re-sorting the run [start, finish] on the later keys keeps. */
  lemma RunStepFacts(t: Table, keys: seq<SortKey>, idx: nat, lo: int, start: int, finish: int, hi: int, vss: seq<set<Value>>)
    requires idx < |keys| && 0 <= lo <= start <= finish <= hi < |t|
    requires KeysOrdered(t, keys, vss) && Sorted(t, keys[idx], lo, hi)
    requires forall i :: start <= i <= finish ==> At(t[i], keys[idx]) == At(t[start], keys[idx])
    ensures var t' := Refine(t, keys, idx, start, finish);
            && SameRange(t, t', start, finish)
            && KeysOrdered(t', keys, vss)
            && Sorted(t', keys[idx], lo, hi)
            && LexSorted(t', keys, idx + 1, start, finish)
            && (forall i :: 0 <= i < |t| ==> At(t'[i], keys[idx]) == At(t[i], keys[idx]))
    decreases |keys| - idx, 0, 0
  {
    var t' := Refine(t, keys, idx, start, finish);
    if finish > start {
      OrderRangePermutes(t, keys, idx + 1, start, finish);
      RunKeepsKey(t, t', start, finish, keys[idx]);
      KeysOrderedPermuted(t, t', start, finish, keys, vss);
      if idx + 1 < |keys| {
        OrderRangeSorts(t, keys, idx + 1, start, finish, vss);
      } else {
        assert forall i, j :: 0 <= start <= i < j <= finish < |t'| ==> LexInOrder(t'[i], t'[j], keys, idx + 1);
      }
    }
  }

  // ---------------------------------------------------------------------
  // One key: `uasort` with a boolean comparator

  /** Stable insertion of a row into a list: it goes after every row it is
      not out of order with, counting from the back. */
  function Insert(x: Row, s: Table, key: SortKey): (r: Table)
    ensures multiset(r) == multiset(s) + multiset{x}
    ensures |r| == |s| + 1
  {
    if s == [] then [x]
    else
      var n := |s| - 1;
      if OutOfOrder(At(s[n], key), At(x, key), key.desc) then
        assert s == s[..n] + [s[n]];
        Insert(x, s[..n], key) + [s[n]]
      else s + [x]
  }

  /** The order PHP's stable sort leaves the rows in, given the comparator
      `$x[$sort_by] > $y[$sort_by]` (or `<` for DESC). */
  function SortByKey(t: Table, key: SortKey): (r: Table)
    ensures multiset(r) == multiset(t)
    ensures |r| == |t|
  {
    if t == [] then []
    else
      var n := |t| - 1;
      assert t == t[..n] + [t[n]];
      Insert(t[n], SortByKey(t[..n], key), key)
  }

  /** Every row of an insertion is the inserted row or one of the list's. */
  lemma {:induction false} InsertMember(x: Row, s: Table, key: SortKey, k: int) returns (m: int)
    requires 0 <= k <= |s|
    ensures Insert(x, s, key)[k] == x || (0 <= m < |s| && Insert(x, s, key)[k] == s[m])
  {
    var r := Insert(x, s, key);
    m := 0;
    if r[k] != x {
      assert r[k] in multiset(r);
      assert r[k] in multiset(s);
      var i :| 0 <= i < |s| && s[i] == r[k];
      m := i;
    }
  }

  /** Sorted on a prefix of a sorted list. */
  lemma SortedPrefix(s: Table, key: SortKey, n: int)
    requires 0 <= n <= |s| && Sorted(s, key, 0, |s| - 1)
    ensures Sorted(s[..n], key, 0, n - 1)
  {
    var init := s[..n];
    forall i, j | 0 <= i < j <= n - 1 < |init|
      ensures !OutOfOrder(At(init[i], key), At(init[j], key), key.desc)
    {
      assert init[i] == s[i] && init[j] == s[j];
    }
  }

  lemma ValuesInPrefix(s: Table, key: SortKey, vs: set<Value>, n: int)
    requires 0 <= n <= |s| && ValuesIn(s, key, vs)
    ensures ValuesIn(s[..n], key, vs)
  {
    forall i | 0 <= i < n ensures At(s[..n][i], key) in vs { assert s[..n][i] == s[i]; }
  }

  /** Inserting into a sorted list of ordered values keeps it sorted. */
  lemma {:induction false} InsertSorted(x: Row, s: Table, key: SortKey, vs: set<Value>)
    requires TotalOrder(vs) && ValuesIn(s, key, vs) && At(x, key) in vs
    requires Sorted(s, key, 0, |s| - 1)
    ensures Sorted(Insert(x, s, key), key, 0, |s|)
    decreases |s|, 1
  {
    if s != [] {
      var n := |s| - 1;
      if OutOfOrder(At(s[n], key), At(x, key), key.desc) {
        InsertBehind(x, s, key, vs);
      } else {
        InsertAtEnd(x, s, key, vs);
      }
    }
  }

  lemma {:induction false} InsertBehind(x: Row, s: Table, key: SortKey, vs: set<Value>)
    requires TotalOrder(vs) && ValuesIn(s, key, vs) && At(x, key) in vs
    requires Sorted(s, key, 0, |s| - 1) && s != []
    requires OutOfOrder(At(s[|s| - 1], key), At(x, key), key.desc)
    ensures Sorted(Insert(x, s, key), key, 0, |s|)
    decreases |s|, 0
  {
    var n := |s| - 1;
    var last := s[n];
    var init := s[..n];
    var xv, lv := At(x, key), At(last, key);
    ValuesInPrefix(s, key, vs, n);
    SortedPrefix(s, key, n);
    InsertSorted(x, init, key, vs);
    var mid := Insert(x, init, key);
    var r := mid + [last];
    assert Insert(x, s, key) == r;
    OutOfOrderAsymmetric(lv, xv, key.desc);
    forall k | 0 <= k < |mid| ensures !OutOfOrder(At(mid[k], key), lv, key.desc) {
      var m := InsertMember(x, init, key, k);
      if mid[k] != x {
        assert init[m] == s[m];
      }
    }
    forall i, j | 0 <= i < j <= |s| < |r| ensures !OutOfOrder(At(r[i], key), At(r[j], key), key.desc) {
      if j == |s| {
        assert r[i] == mid[i] && r[j] == last;
      } else {
        assert r[i] == mid[i] && r[j] == mid[j];
      }
    }
  }

  lemma {:induction false} InsertAtEnd(x: Row, s: Table, key: SortKey, vs: set<Value>)
    requires TotalOrder(vs) && ValuesIn(s, key, vs) && At(x, key) in vs
    requires Sorted(s, key, 0, |s| - 1) && s != []
    requires !OutOfOrder(At(s[|s| - 1], key), At(x, key), key.desc)
    ensures Sorted(Insert(x, s, key), key, 0, |s|)
  {
    var n := |s| - 1;
    var lv := At(s[n], key);
    var r := s + [x];
    assert Insert(x, s, key) == r;
    forall i, j | 0 <= i < j <= |s| < |r| ensures !OutOfOrder(At(r[i], key), At(r[j], key), key.desc) {
      if j == |s| {
        assert r[i] == s[i] && r[j] == x;
        if i < n {
          InOrderTransitive(vs, At(s[i], key), lv, At(x, key), key.desc);
        }
      } else {
        assert r[i] == s[i] && r[j] == s[j];
      }
    }
  }

  /** uasort: the rows come out permuted and, when the key's values are
      totally ordered, sorted on it. */
  lemma {:induction false} SortByKeySorts(t: Table, key: SortKey, vs: set<Value>)
    requires TotalOrder(vs) && ValuesIn(t, key, vs)
    ensures Sorted(SortByKey(t, key), key, 0, |t| - 1)
    ensures ValuesIn(SortByKey(t, key), key, vs)
  {
    if t != [] {
      var n := |t| - 1;
      var init := t[..n];
      ValuesInPrefix(t, key, vs, n);
      SortByKeySorts(init, key, vs);
      var sorted := SortByKey(init, key);
      assert SortByKey(t, key) == Insert(t[n], sorted, key);
      assert |sorted| == n;
      InsertSorted(t[n], sorted, key, vs);
      var r := Insert(t[n], sorted, key);
      forall i | 0 <= i < |r| ensures At(r[i], key) in vs {
        var m := InsertMember(t[n], sorted, key, i);
      }
    }
  }

  /** Rows already in order stay where they are. */
  lemma {:induction false} SortByKeyKeepsSorted(t: Table, key: SortKey)
    requires Sorted(t, key, 0, |t| - 1)
    ensures SortByKey(t, key) == t
  {
    if t != [] {
      var n := |t| - 1;
      var init := t[..n];
      SortedPrefix(t, key, n);
      SortByKeyKeepsSorted(init, key);
      if n > 0 {
        assert init[n - 1] == t[n - 1];
        assert !OutOfOrder(At(t[n - 1], key), At(t[n], key), key.desc);
      }
      InsertAtTail(t[n], init, key);
      assert init + [t[n]] == t;
    }
  }

  /** A row in order with the last one goes to the end. */
  lemma InsertAtTail(x: Row, s: Table, key: SortKey)
    requires s != [] ==> !OutOfOrder(At(s[|s| - 1], key), At(x, key), key.desc)
    ensures Insert(x, s, key) == s + [x]
  {
  }

  // ---------------------------------------------------------------------
  // The sort key of a multi-key ORDER BY, as written

  /** The as-written multi-key path reads `$row[$base_expr]`: the column
      name exactly as typed. */
  function AsWrittenKey(item: OrderItem): (k: SortKey)
    ensures k.col == item.text && k.desc == item.desc
  {
    SortKey(item.text, item.desc)
  }

  /** Rows whose every column is qualified (`table.column`), as loaded rows
      are. */
  predicate AllQualified(t: Table)
  {
    forall i, j :: 0 <= i < |t| && 0 <= j < |t[i].cols| ==> HasDot(t[i].cols[j].0)
  }

  /** With a bare column name as typed, every row reads null, so no two rows
      are ever out of order and the exchange sort swaps nothing. */
  lemma AsWrittenKeyReadsNull(t: Table, item: OrderItem)
    requires AllQualified(t) && !HasDot(item.text)
    ensures forall i :: 0 <= i < |t| ==> At(t[i], AsWrittenKey(item)) == Null
    ensures Sorted(t, AsWrittenKey(item), 0, |t| - 1)
  {
    var key := AsWrittenKey(item);
    forall i | 0 <= i < |t| ensures At(t[i], key) == Null {
      var cols := t[i].cols;
      forall j | 0 <= j < |cols| ensures cols[j].0 != item.text {
        assert HasDot(cols[j].0);
      }
      IndexOfUnique(cols, item.text, |cols|);
      GetFinds(cols, item.text);
    }
    OutOfOrderAsymmetric(Null, Null, item.desc);
  }

  /** The concrete case: two rows of `users` and `ORDER BY age DESC, id` as
      written leave 25 before 40, although the resolved column has them out
      of order. */
  lemma AsWrittenExample()
    ensures var t := [Plain([("users.age", Int(25))]), Plain([("users.age", Int(40))])];
            var key := AsWrittenKey(OrderItem("age", true));
            Sorted(t, key, 0, 1) && OutOfOrder(At(t[0], SortKey("users.age", true)), At(t[1], SortKey("users.age", true)), true)
  {
    var t := [Plain([("users.age", Int(25))]), Plain([("users.age", Int(40))])];
    assert Sorted(t, AsWrittenKey(OrderItem("age", true)), 0, 1) by {
      ExampleNames();
      assert AllQualified(t);
      AsWrittenKeyReadsNull(t, OrderItem("age", true));
    }
    assert At(t[0], SortKey("users.age", true)) == Int(25) by {
      assert IndexOf(t[0].cols, "users.age") == 0;
    }
    assert At(t[1], SortKey("users.age", true)) == Int(40) by {
      assert IndexOf(t[1].cols, "users.age") == 0;
    }
  }

  lemma ExampleNames()
    ensures HasDot("users.age") && !HasDot("age")
  {
    DotAt("users.age", 5);
    NoDotMeansIndexAtEnd("age");
  }
}
