/** PHP arrays with string keys, as ordered lists of (key, value) entries:
    lookup, `$a[$k] = $v` (overwrite in place, or append), `unset($a[$k])`,
    `array_merge` and `array_search`. */
module Assoc {
  import opened Wrappers

  function KeysOf<V>(a: seq<(string, V)>): (r: seq<string>)
    ensures |r| == |a|
    ensures forall i :: 0 <= i < |a| ==> r[i] == a[i].0
  {
    if a == [] then [] else [a[0].0] + KeysOf(a[1..])
  }

  predicate UniqueKeys<V>(a: seq<(string, V)>)
  {
    forall i, j :: 0 <= i < j < |a| ==> a[i].0 != a[j].0
  }

  /** Position of the first entry with key k, |a| when there is none. */
  function IndexOf<V>(a: seq<(string, V)>, k: string): (r: nat)
    ensures r <= |a|
    ensures r < |a| ==> a[r].0 == k
    ensures forall i :: 0 <= i < r ==> a[i].0 != k
  {
    if a == [] then 0 else if a[0].0 == k then 0 else 1 + IndexOf(a[1..], k)
  }

  /** array_key_exists. */
  predicate Has<V>(a: seq<(string, V)>, k: string)
  {
    IndexOf(a, k) < |a|
  }

  lemma HasIff<V>(a: seq<(string, V)>, k: string)
    ensures Has(a, k) <==> k in KeysOf(a)
  {
    if k in KeysOf(a) {
      var i :| 0 <= i < |a| && KeysOf(a)[i] == k;
    }
  }

  function Find<V>(a: seq<(string, V)>, k: string): Option<V>
  {
    var i := IndexOf(a, k);
    if i < |a| then Some(a[i].1) else None
  }

  /** `$a[$k] = $v`: an existing key keeps its place and takes the new value,
      a new key goes to the end. */
  function Put<V>(a: seq<(string, V)>, k: string, v: V): seq<(string, V)>
  {
    var i := IndexOf(a, k);
    if i < |a| then a[i := (k, v)] else a + [(k, v)]
  }

  /** After `$a[$k] = $v`, k holds v and every other key what it held; an
      existing key keeps its place and a new one goes to the end, so keys
      stay distinct. */
  lemma PutSpec<V>(a: seq<(string, V)>, k: string, v: V)
    ensures var r := Put(a, k, v);
            && Find(r, k) == Some(v)
            && (forall k' :: k' != k ==> Find(r, k') == Find(a, k'))
            && (UniqueKeys(a) ==> UniqueKeys(r))
            && (Has(a, k) ==> |r| == |a| && KeysOf(r) == KeysOf(a))
            && (!Has(a, k) ==> r == a + [(k, v)])
  {
    var i := IndexOf(a, k);
    if i < |a| {
      assert KeysOf(a[i := (k, v)]) == KeysOf(a);
      PutKeepsOthers(a, i, k, v);
    } else {
      AppendKeepsOthers(a, k, v);
    }
  }

  /** The first-occurrence characterisation determines IndexOf. */
  lemma IndexOfUnique<V>(a: seq<(string, V)>, k: string, r: nat)
    requires r <= |a| && (r < |a| ==> a[r].0 == k)
    requires forall i :: 0 <= i < r ==> a[i].0 != k
    ensures IndexOf(a, k) == r
  {
  }

  lemma PutKeepsOthers<V>(a: seq<(string, V)>, i: nat, k: string, v: V)
    requires i < |a| && a[i].0 == k
    ensures forall k' :: k' != k ==> Find(a[i := (k, v)], k') == Find(a, k')
  {
    var r := a[i := (k, v)];
    forall k' | k' != k
      ensures Find(r, k') == Find(a, k')
    {
      IndexOfUnique(r, k', IndexOf(a, k'));
    }
  }

  lemma AppendKeepsOthers<V>(a: seq<(string, V)>, k: string, v: V)
    requires !Has(a, k)
    ensures forall k' :: k' != k ==> Find(a + [(k, v)], k') == Find(a, k')
    ensures Find(a + [(k, v)], k) == Some(v)
  {
    var r := a + [(k, v)];
    forall k' | k' != k
      ensures Find(r, k') == Find(a, k')
    {
      if Has(a, k') {
        IndexOfUnique(r, k', IndexOf(a, k'));
      } else {
        IndexOfUnique(r, k', |r|);
      }
    }
    IndexOfUnique(r, k, |a|);
  }

  /** `unset($a[$k])`. */
  function Del<V>(a: seq<(string, V)>, k: string): (r: seq<(string, V)>)
    ensures !Has(a, k) ==> r == a
    ensures Has(a, k) ==> r == a[..IndexOf(a, k)] + a[IndexOf(a, k) + 1..]
  {
    var i := IndexOf(a, k);
    if i < |a| then a[..i] + a[i + 1..] else a
  }

  /** `array_merge($a, $b)` for string keys: every entry of b is written
      into a in order, so b wins on a shared key and a's order comes first. */
  function Merge<V>(a: seq<(string, V)>, b: seq<(string, V)>): (r: seq<(string, V)>)
    ensures UniqueKeys(a) ==> UniqueKeys(r)
    decreases |b|
  {
    if b == [] then a else Merge(Put(a, b[0].0, b[0].1), b[1..])
  }

  /** A merged entry comes from the right operand when it has the key, from
      the left one otherwise. */
  lemma {:induction false} MergeFind<V>(a: seq<(string, V)>, b: seq<(string, V)>, k: string)
    requires UniqueKeys(b)
    ensures Find(Merge(a, b), k) == (if Has(b, k) then Find(b, k) else Find(a, k))
    decreases |b|
  {
    if b != [] {
      var tl := b[1..];
      var a' := Put(a, b[0].0, b[0].1);
      PutSpec(a, b[0].0, b[0].1);
      assert UniqueKeys(tl);
      assert Merge(a, b) == Merge(a', tl);
      MergeFind(a', tl, k);
      FindCons(b, k);
      if k == b[0].0 {
        assert forall j :: 0 <= j < |tl| ==> tl[j].0 != k by {
          forall j | 0 <= j < |tl| ensures tl[j].0 != k {
            assert tl[j] == b[j + 1];
          }
        }
        IndexOfUnique(tl, k, |tl|);
      }
    }
  }

  /** Lookup in a non-empty list: its head, or the rest. */
  lemma FindCons<V>(b: seq<(string, V)>, k: string)
    requires b != []
    ensures Has(b, k) <==> b[0].0 == k || Has(b[1..], k)
    ensures Find(b, k) == if b[0].0 == k then Some(b[0].1) else Find(b[1..], k)
  {
  }

  /** Merging into nothing copies a list whose keys are distinct. */
  lemma {:induction false} MergeIntoEmpty<V>(b: seq<(string, V)>)
    requires UniqueKeys(b)
    ensures Merge([], b) == b
  {
    MergeOntoPrefix(b, 0);
  }

  lemma {:induction false} MergeOntoPrefix<V>(b: seq<(string, V)>, n: nat)
    requires UniqueKeys(b) && n <= |b|
    ensures Merge(b[..n], b[n..]) == b
    decreases |b| - n
  {
    if n < |b| {
      IndexOfUnique(b[..n], b[n].0, n);
      assert b[..n] + [(b[n].0, b[n].1)] == b[..n + 1];
      assert b[n..][1..] == b[n + 1..];
      MergeOntoPrefix(b, n + 1);
    } else {
      assert b[..n] == b;
    }
  }

  /** `array_search($v, $a)`: the key of the first entry holding v. */
  function SearchValue<V(==)>(a: seq<(string, V)>, v: V): (r: Option<string>)
    ensures r.Some? <==> exists i :: 0 <= i < |a| && a[i].1 == v
    ensures r.Some? ==> exists i :: (0 <= i < |a| && a[i] == (r.value, v)
                                     && forall j :: 0 <= j < i ==> a[j].1 != v)
  {
    if a == [] then None
    else if a[0].1 == v then Some(a[0].0)
    else
      var r := SearchValue(a[1..], v);
      SearchValueStep(a, v, r);
      r
  }

  lemma SearchValueStep<V>(a: seq<(string, V)>, v: V, r: Option<string>)
    requires a != [] && a[0].1 != v
    requires r.Some? <==> exists i :: 0 <= i < |a| - 1 && a[1..][i].1 == v
    requires r.Some? ==> exists i :: (0 <= i < |a| - 1 && a[1..][i] == (r.value, v)
                                      && forall j :: 0 <= j < i ==> a[1..][j].1 != v)
    ensures r.Some? <==> exists i :: 0 <= i < |a| && a[i].1 == v
    ensures r.Some? ==> exists i :: (0 <= i < |a| && a[i] == (r.value, v)
                                     && forall j :: 0 <= j < i ==> a[j].1 != v)
  {
    if r.Some? {
      var i :| 0 <= i < |a| - 1 && a[1..][i] == (r.value, v) && forall j :: 0 <= j < i ==> a[1..][j].1 != v;
      assert a[i + 1] == (r.value, v);
      assert forall j :: 0 <= j < i + 1 ==> a[j].1 != v by {
        forall j | 0 <= j < i + 1 ensures a[j].1 != v {
          if j > 0 { assert a[j] == a[1..][j - 1]; }
        }
      }
    } else {
      forall i | 0 <= i < |a| ensures a[i].1 != v {
        if i > 0 { assert a[i] == a[1..][i - 1]; }
      }
    }
  }
}
