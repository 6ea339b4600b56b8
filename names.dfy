/** Table qualification and column name resolution. Every loaded column is
    renamed to `prefix.lower(name)`, where the prefix is the table's alias
    or its name; `full_column_names` indexes the full names by their short
    part; references are resolved against that index, and result rows lose
    their prefix wherever the short name is unambiguous. */
module Names {
  import opened Wrappers
  import opened Strings
  import opened Values
  import opened Assoc
  import opened Rows

  /** What name resolution reads from the engine. */
  datatype Resolver = Resolver(
    tables: set<string>,                  // table names a provider is registered for
    aliases: seq<(string, string)>,       // FROM aliases, alias -> table name, in order
    fullNames: map<string, seq<string>>)  // short column name -> full column names

  /** getTableAlias: the first alias registered for a table. */
  function TableAlias(r: Resolver, table: string): Option<string>
  {
    SearchValue(r.aliases, table)
  }

  /** The prefix a table's columns receive when it is loaded: its first
      alias, or its own name when it has none. */
  function LoadPrefix(r: Resolver, table: string): string
  {
    match TableAlias(r, table)
    case Some(a) => a
    case None => table
  }

  predicate IsAlias(r: Resolver, name: string)
  {
    Has(r.aliases, name)
  }

  /** toTableAliasIfPossible: a table name or an alias, turned into the
      prefix the columns carry. */
  function ToTableAliasIfPossible(r: Resolver, prefix: string): (res: Result<string>)
    ensures res.Err? <==> prefix !in r.tables && !IsAlias(r, prefix)
    ensures res.Err? ==> res.error == UnknownTableOrAlias(prefix)
  {
    if prefix !in r.tables && !IsAlias(r, prefix) then Err(UnknownTableOrAlias(prefix))
    else if prefix in r.tables then Ok(LoadPrefix(r, prefix))
    else Ok(prefix)
  }

  /** The same, as core.php writes it: an unaliased table name yields
      array_search's `false`, which reads as the empty string when it is
      concatenated with '.'. */
  function ToTableAliasIfPossibleAsWritten(r: Resolver, prefix: string): (res: Result<string>)
    ensures res.Err? <==> prefix !in r.tables && !IsAlias(r, prefix)
  {
    if prefix !in r.tables && !IsAlias(r, prefix) then Err(UnknownTableOrAlias(prefix))
    else if prefix in r.tables then
      (match TableAlias(r, prefix) case Some(a) => Ok(a) case None => Ok(""))
    else Ok(prefix)
  }

  /** A table name resolves to the prefix its columns were loaded with, and
      so does an alias that is the first one registered for its table. */
  lemma TablePrefixResolves(r: Resolver, prefix: string)
    requires prefix in r.tables || IsAlias(r, prefix)
    ensures prefix in r.tables ==> ToTableAliasIfPossible(r, prefix) == Ok(LoadPrefix(r, prefix))
    ensures prefix !in r.tables && TableAlias(r, Find(r.aliases, prefix).value) == Some(prefix)
            ==> ToTableAliasIfPossible(r, prefix) == Ok(LoadPrefix(r, Find(r.aliases, prefix).value))
  {
  }

  /** For a table without an alias the version in core.php yields the empty
      prefix instead of the table name, so `user.id` becomes `.id`. */
  lemma UnaliasedTablePrefixLost(r: Resolver, table: string)
    requires table in r.tables && TableAlias(r, table).None?
    ensures ToTableAliasIfPossibleAsWritten(r, table) == Ok("")
    ensures ToTableAliasIfPossible(r, table) == Ok(table)
    ensures table != "" ==> ToTableAliasIfPossibleAsWritten(r, table) != ToTableAliasIfPossible(r, table)
  {
  }

  /** toColumnNameWithPrefix: `*` stays, a dotted name has its prefix
      resolved, a short name must have exactly one full name. */
  function ToColumnNameWithPrefix(r: Resolver, name: string): (res: Result<string>)
    ensures name == "*" ==> res == Ok("*")
    ensures name != "*" && HasDot(name) ==>
      res == (var t :- ToTableAliasIfPossible(r, Prefix(name)); Ok(t + "." + Short(name)))
    ensures name != "*" && !HasDot(name) ==>
      && (res == Err(UnknownColumn(name)) <==> name !in r.fullNames)
      && (res == Err(AmbiguousColumn(name)) <==> name in r.fullNames && |r.fullNames[name]| > 1)
      && (res.Ok? <==> name in r.fullNames && |r.fullNames[name]| <= 1)
      && (res.Ok? && |r.fullNames[name]| == 1 ==> res.value == r.fullNames[name][0])
  {
    if name == "*" then Ok(name)
    else if HasDot(name) then
      var t :- ToTableAliasIfPossible(r, Prefix(name));
      Ok(t + "." + Short(name))
    else if name !in r.fullNames then Err(UnknownColumn(name))
    else if |r.fullNames[name]| > 1 then Err(AmbiguousColumn(name))
    // An empty list (see AddColumn) makes PHP read index 0 as null.
    else if r.fullNames[name] == [] then Ok("")
    else Ok(r.fullNames[name][0])
  }

  // ---------------------------------------------------------------------
  // The short-name index (constructColumnNameMapping)

  /** Adds one key of a row to the index: a dotted key is listed, lowered,
      under its lowered short name. A short name that is not lower case also
      gets an empty entry of its own, as `$collection[$col] = []` does. */
  function AddColumn(m: map<string, seq<string>>, column: string): map<string, seq<string>>
  {
    if !HasDot(column) then m
    else
      var col := Short(column);
      var m1 := if col in m then m else m[col := []];
      var lc := Lower(col);
      m1[lc := (if lc in m1 then m1[lc] else []) + [Lower(column)]]
  }

  /** The index built from a row's keys, in order. */
  function ColumnIndex(keys: seq<string>): map<string, seq<string>>
  {
    if keys == [] then map[] else AddColumn(ColumnIndex(keys[..|keys| - 1]), keys[|keys| - 1])
  }

  /** The full names, lowered, of the dotted keys whose lowered short name is c. */
  function FullNamesOf(keys: seq<string>, c: string): (r: seq<string>)
    ensures |r| <= |keys|
  {
    if keys == [] then []
    else
      var k := keys[|keys| - 1];
      FullNamesOf(keys[..|keys| - 1], c) + (if HasDot(k) && Lower(Short(k)) == c then [Lower(k)] else [])
  }

  predicate ShortNameOccurs(keys: seq<string>, c: string)
  {
    exists i :: 0 <= i < |keys| && HasDot(keys[i]) && (Short(keys[i]) == c || Lower(Short(keys[i])) == c)
  }

  /** The index has an entry exactly for the short names of the dotted keys,
      and lists under each one exactly the full names that end in it, in
      the order of the keys. */
  lemma ColumnIndexSpec(keys: seq<string>)
    ensures forall c :: c in ColumnIndex(keys) <==> ShortNameOccurs(keys, c)
    ensures forall c :: c in ColumnIndex(keys) ==> ColumnIndex(keys)[c] == FullNamesOf(keys, c)
  {
    forall c ensures (c in ColumnIndex(keys) <==> ShortNameOccurs(keys, c))
                     && (c in ColumnIndex(keys) ==> ColumnIndex(keys)[c] == FullNamesOf(keys, c)) {
      ColumnIndexAt(keys, c);
    }
  }

  lemma {:induction false} ColumnIndexAt(keys: seq<string>, c: string)
    ensures c in ColumnIndex(keys) <==> ShortNameOccurs(keys, c)
    ensures c in ColumnIndex(keys) ==> ColumnIndex(keys)[c] == FullNamesOf(keys, c)
  {
    if keys != [] {
      var init := keys[..|keys| - 1];
      var k := keys[|keys| - 1];
      assert keys == init + [k];
      ColumnIndexAt(init, c);
      ShortNameOccursSnoc(init, k, c);
      var idx0 := ColumnIndex(init);
      assert ColumnIndex(keys) == AddColumn(idx0, k);
      if HasDot(k) {
        var col := Short(k);
        var lc := Lower(col);
        var m1 := if col in idx0 then idx0 else idx0[col := []];
        assert ColumnIndex(keys) == m1[lc := (if lc in m1 then m1[lc] else []) + [Lower(k)]];
        if c == lc {
          if lc !in idx0 {
            NotOccursNoFullNames(init, lc);
          }
          assert FullNamesOf(keys, c) == FullNamesOf(init, c) + [Lower(k)];
        } else if c == col {
          assert FullNamesOf(keys, c) == FullNamesOf(init, c) + [];
          if col !in idx0 {
            LowerIsLower(col);
            assert !IsLower(c);
            NoLoweredShortName(init, c);
          }
        } else {
          assert FullNamesOf(keys, c) == FullNamesOf(init, c) + [];
        }
      } else {
        assert FullNamesOf(keys, c) == FullNamesOf(init, c) + [];
      }
    }
  }

  lemma {:induction false} NotOccursNoFullNames(keys: seq<string>, c: string)
    requires !ShortNameOccurs(keys, c)
    ensures FullNamesOf(keys, c) == []
  {
    if keys != [] {
      var init := keys[..|keys| - 1];
      var k := keys[|keys| - 1];
      ShortNameOccursSnoc(init, k, c);
      assert keys == init + [k];
      NotOccursNoFullNames(init, c);
    }
  }

  lemma ShortNameOccursSnoc(init: seq<string>, k: string, c: string)
    ensures ShortNameOccurs(init + [k], c) <==>
      ShortNameOccurs(init, c) || (HasDot(k) && (Short(k) == c || Lower(Short(k)) == c))
  {
    var keys := init + [k];
    if ShortNameOccurs(keys, c) {
      var i :| 0 <= i < |keys| && HasDot(keys[i]) && (Short(keys[i]) == c || Lower(Short(keys[i])) == c);
      if i < |init| {
        assert init[i] == keys[i];
      }
    }
    if ShortNameOccurs(init, c) {
      var i :| 0 <= i < |init| && HasDot(init[i]) && (Short(init[i]) == c || Lower(Short(init[i])) == c);
      assert keys[i] == init[i];
    }
    if HasDot(k) && (Short(k) == c || Lower(Short(k)) == c) {
      assert keys[|init|] == k;
    }
  }

  /** A name that is not lower case collects no full names. */
  lemma {:induction false} NoLoweredShortName(keys: seq<string>, c: string)
    requires !IsLower(c)
    ensures FullNamesOf(keys, c) == []
  {
    if keys != [] {
      var k := keys[|keys| - 1];
      NoLoweredShortName(keys[..|keys| - 1], c);
      if HasDot(k) {
        LowerIsLower(Short(k));
      }
    }
  }

  /** isColumnNameUnique. */
  predicate IsColumnNameUnique(r: Resolver, col: string)
  {
    col !in r.fullNames || |r.fullNames[col]| < 2
  }

  // ---------------------------------------------------------------------
  // Stripping prefixes from result rows (removeColumnPrefixForRow)

  /** The name a result column is given: a dot-free name is kept; a dotted
      one loses its prefix exactly when its short name is unique, and
      otherwise keeps the two parts explode gives it. */
  function StrippedName(r: Resolver, name: string): (s: string)
    ensures !HasDot(name) ==> s == name
    ensures HasDot(name) ==> (s == Short(name) <==> IsColumnNameUnique(r, Short(name)))
    ensures HasDot(name) && s != Short(name) ==> HasDot(s) && Prefix(s) == Prefix(name) && Short(s) == Short(name)
  {
    if !HasDot(name) then name
    else if IsColumnNameUnique(r, Short(name)) then Short(name)
    else
      SplitQualified(Prefix(name), Short(name));
      Prefix(name) + "." + Short(name)
  }

  /** Against the index of a row with lower-case keys, a dotted result
      column loses its prefix exactly when at most one key ends in its
      short name: exactly when the short name, resolved on its own, is
      not ambiguous. */
  lemma StrippedNameByIndex(r: Resolver, keys: seq<string>, name: string)
    requires r.fullNames == ColumnIndex(keys) && AllLower(keys) && HasDot(name)
    ensures StrippedName(r, name) == Short(name) <==> |FullNamesOf(keys, Short(name))| <= 1
    ensures Short(name) != "*" ==>
      (StrippedName(r, name) == Short(name) <==> ToColumnNameWithPrefix(r, Short(name)) != Err(AmbiguousColumn(Short(name))))
  {
    var c := Short(name);
    ColumnIndexSpec(keys);
    if c !in r.fullNames {
      NotOccursNoFullNames(keys, c);
    }
    if c != "*" {
      ResolveShortName(r, keys, c);
    }
  }

  /** removeColumnPrefixForRow: each entry is written under its stripped
      name, in order (a later entry overwrites an earlier one of the same
      stripped name). */
  function StripRow(r: Resolver, cols: seq<(string, Value)>): seq<(string, Value)>
  {
    if cols == [] then []
    else
      var last := cols[|cols| - 1];
      Put(StripRow(r, cols[..|cols| - 1]), StrippedName(r, last.0), last.1)
  }

  lemma StripRowNext(r: Resolver, cols: seq<(string, Value)>, i: nat)
    requires i < |cols|
    ensures StripRow(r, cols[..i + 1]) == Put(StripRow(r, cols[..i]), StrippedName(r, cols[i].0), cols[i].1)
  {
    assert cols[..i + 1][..i] == cols[..i];
  }

  function Renamed(r: Resolver, cols: seq<(string, Value)>): (res: seq<(string, Value)>)
    ensures |res| == |cols|
    ensures forall i :: 0 <= i < |cols| ==> res[i] == (StrippedName(r, cols[i].0), cols[i].1)
  {
    if cols == [] then [] else Renamed(r, cols[..|cols| - 1]) + [(StrippedName(r, cols[|cols| - 1].0), cols[|cols| - 1].1)]
  }

  /** When no two columns strip to the same name, stripping renames every
      column in place and keeps every value. */
  lemma {:induction false} StripRowRenames(r: Resolver, cols: seq<(string, Value)>)
    requires UniqueKeys(Renamed(r, cols))
    ensures StripRow(r, cols) == Renamed(r, cols)
  {
    if cols != [] {
      var init := cols[..|cols| - 1];
      var name := StrippedName(r, cols[|cols| - 1].0);
      assert Renamed(r, cols) == Renamed(r, init) + [(name, cols[|cols| - 1].1)];
      assert UniqueKeys(Renamed(r, init)) by {
        var ri := Renamed(r, init);
        forall i, j | 0 <= i < j < |ri| ensures ri[i].0 != ri[j].0 {
          assert ri[i] == Renamed(r, cols)[i] && ri[j] == Renamed(r, cols)[j];
        }
      }
      StripRowRenames(r, init);
      IndexOfUnique(Renamed(r, init), name, |init|);
    }
  }

  // ---------------------------------------------------------------------
  // Qualification (the key-renaming loop of loadTableRows)

  /** The qualified name of a provider column. */
  function Qualify(prefix: string, key: string): string
  {
    prefix + "." + Lower(key)
  }

  /** A provider row as it looks after loading: every key `k` renamed to
      `prefix.lower(k)`, values and order kept. */
  function Qualified(prefix: string, raw: seq<(string, Value)>): (r: seq<(string, Value)>)
    ensures |r| == |raw|
    ensures forall i :: 0 <= i < |raw| ==> r[i] == (Qualify(prefix, raw[i].0), raw[i].1)
  {
    if raw == [] then [] else Qualified(prefix, raw[..|raw| - 1]) + [(Qualify(prefix, raw[|raw| - 1].0), raw[|raw| - 1].1)]
  }

  /** Provider keys the renaming loop handles without losing a column: no
      dots, and no two equal once lowered. */
  predicate WellKeyed(raw: seq<(string, Value)>)
  {
    && (forall i :: 0 <= i < |raw| ==> !HasDot(raw[i].0))
    && (forall i, j :: 0 <= i < j < |raw| ==> Lower(raw[i].0) != Lower(raw[j].0))
  }

  lemma QualifyHasDot(prefix: string, key: string)
    ensures HasDot(Qualify(prefix, key))
  {
    var s := Qualify(prefix, key);
    assert s[|prefix|] == '.';
  }

  lemma QualifyInjective(prefix: string, a: string, b: string)
    requires Qualify(prefix, a) == Qualify(prefix, b)
    ensures Lower(a) == Lower(b)
  {
    assert Lower(a) == Qualify(prefix, a)[|prefix| + 1..];
    assert Lower(b) == Qualify(prefix, b)[|prefix| + 1..];
  }

  /** Splitting a qualified name recovers the prefix and the lowered key. */
  lemma QualifySplits(prefix: string, key: string)
    requires !HasDot(prefix) && !HasDot(key)
    ensures HasDot(Qualify(prefix, key))
    ensures Prefix(Qualify(prefix, key)) == prefix && Short(Qualify(prefix, key)) == Lower(key)
  {
    LowerKeepsDots(key);
    SplitQualified(prefix, Lower(key));
  }

  lemma LowerKeepsDots(s: string)
    ensures HasDot(Lower(s)) == HasDot(s)
  {
    if HasDot(s) {
      assert Lower(s)[IndexOfDot(s)] == '.';
    } else {
      NoDotMeansIndexAtEnd(s);
      forall i | 0 <= i < |s| ensures Lower(s)[i] != '.' {
        assert s[i] != '.';
      }
      NoDotMeansIndexAtEnd(Lower(s));
    }
  }

  /** One step of the loop: `$row[prefix.'.'.lower(k)] = $v; unset($row[k]);`. */
  function QualifyStep(prefix: string, row: seq<(string, Value)>, entry: (string, Value)): seq<(string, Value)>
  {
    Del(Put(row, Qualify(prefix, entry.0), entry.1), entry.0)
  }

  /** After the first i steps over a well-keyed row, the untouched keys come
      first and the renamed ones follow in order. */
  lemma QualifyStepInvariant(prefix: string, raw: seq<(string, Value)>, i: nat)
    requires WellKeyed(raw) && i < |raw|
    ensures QualifyStep(prefix, raw[i..] + Qualified(prefix, raw[..i]), raw[i])
            == raw[i + 1..] + Qualified(prefix, raw[..i + 1])
  {
    var row := raw[i..] + Qualified(prefix, raw[..i]);
    var q := Qualified(prefix, raw[..i]);
    var nk := Qualify(prefix, raw[i].0);
    forall j | 0 <= j < |row| ensures row[j].0 != nk {
      if j < |raw| - i {
        assert row[j] == raw[i + j];
        QualifyHasDot(prefix, raw[i].0);
      } else {
        var m := j - (|raw| - i);
        assert row[j] == q[m] == (Qualify(prefix, raw[m].0), raw[m].1);
        if row[j].0 == nk {
          QualifyInjective(prefix, raw[m].0, raw[i].0);
        }
      }
    }
    IndexOfUnique(row, nk, |row|);
    var put := row + [(nk, raw[i].1)];
    IndexOfUnique(put, raw[i].0, 0);
    assert Del(put, raw[i].0) == put[1..];
    assert raw[..i + 1][..i] == raw[..i];
  }

  // ---------------------------------------------------------------------
  // What the index means for resolution and stripping

  lemma ShortOfLowerIsLower(k: string)
    requires IsLower(k) && HasDot(k)
    ensures IsLower(Short(k))
  {
    var rest := k[IndexOfDot(k) + 1..];
    forall i | 0 <= i < |Short(k)| ensures !('A' <= Short(k)[i] <= 'Z') {
      assert Short(k)[i] == rest[i] == k[IndexOfDot(k) + 1 + i];
    }
  }

  predicate AllLower(keys: seq<string>)
  {
    forall i :: 0 <= i < |keys| ==> IsLower(keys[i])
  }

  /** Over lower-case keys, the full names listed under c are exactly the
      dotted keys whose short name is c. */
  lemma {:induction false} FullNamesOfLower(keys: seq<string>, c: string)
    requires AllLower(keys)
    ensures forall n :: n in FullNamesOf(keys, c) <==> n in keys && HasDot(n) && Short(n) == c
    ensures ShortNameOccurs(keys, c) <==> FullNamesOf(keys, c) != []
  {
    if keys != [] {
      var init := keys[..|keys| - 1];
      var k := keys[|keys| - 1];
      assert keys == init + [k];
      assert AllLower(init) by {
        forall i | 0 <= i < |init| ensures IsLower(init[i]) {
          assert init[i] == keys[i];
        }
      }
      FullNamesOfLower(init, c);
      ShortNameOccursSnoc(init, k, c);
      LowerIsLower(k);
      if HasDot(k) {
        ShortOfLowerIsLower(k);
        LowerIsLower(Short(k));
      }
      assert FullNamesOf(keys, c) == FullNamesOf(init, c) + (if HasDot(k) && Lower(Short(k)) == c then [Lower(k)] else []);
    }
  }

  /** Resolving a short name against the index of a row with lower-case
      keys: unknown when no key ends in it, ambiguous when two or more do,
      and otherwise the one key that does. */
  lemma ResolveShortName(r: Resolver, keys: seq<string>, c: string)
    requires r.fullNames == ColumnIndex(keys) && AllLower(keys)
    requires c != "*" && !HasDot(c)
    ensures ToColumnNameWithPrefix(r, c) == Err(UnknownColumn(c)) <==> FullNamesOf(keys, c) == []
    ensures ToColumnNameWithPrefix(r, c) == Err(AmbiguousColumn(c)) <==> |FullNamesOf(keys, c)| > 1
    ensures ToColumnNameWithPrefix(r, c).Ok? ==>
      var n := ToColumnNameWithPrefix(r, c).value;
      FullNamesOf(keys, c) == [n] && n in keys && HasDot(n) && Short(n) == c
  {
    ColumnIndexSpec(keys);
    FullNamesOfLower(keys, c);
    if ToColumnNameWithPrefix(r, c).Ok? {
      var fs := FullNamesOf(keys, c);
      assert fs[0] in fs;
    }
  }

  lemma {:induction false} QualifiedKeys(prefix: string, raw: seq<(string, Value)>)
    requires raw != []
    ensures KeysOf(Qualified(prefix, raw))
      == KeysOf(Qualified(prefix, raw[..|raw| - 1])) + [Qualify(prefix, raw[|raw| - 1].0)]
  {
    var a := KeysOf(Qualified(prefix, raw));
    var b := KeysOf(Qualified(prefix, raw[..|raw| - 1])) + [Qualify(prefix, raw[|raw| - 1].0)];
    assert |a| == |b|;
    forall i | 0 <= i < |a| ensures a[i] == b[i] {
      if i < |raw| - 1 {
        assert raw[..|raw| - 1][i] == raw[i];
      }
    }
  }

  /** In the index of a qualified well-keyed row, no short name has more
      than one full name. */
  lemma {:induction false} QualifiedNamesUnique(prefix: string, raw: seq<(string, Value)>, c: string)
    requires WellKeyed(raw) && !HasDot(prefix)
    ensures |FullNamesOf(KeysOf(Qualified(prefix, raw)), c)| <= 1
    ensures (forall j :: 0 <= j < |raw| ==> Lower(raw[j].0) != c)
            ==> FullNamesOf(KeysOf(Qualified(prefix, raw)), c) == []
  {
    if raw != [] {
      var init := raw[..|raw| - 1];
      var last := raw[|raw| - 1];
      WellKeyedFront(raw);
      QualifiedNamesUnique(prefix, init, c);
      FullNamesNext(prefix, raw, c);
    }
  }

  /** Qualifying one more dot-free key adds its full name to the names of
      its own lowered short name and to no other. */
  lemma FullNamesNext(prefix: string, raw: seq<(string, Value)>, c: string)
    requires raw != [] && !HasDot(prefix) && !HasDot(raw[|raw| - 1].0)
    ensures var key := raw[|raw| - 1].0;
            FullNamesOf(KeysOf(Qualified(prefix, raw)), c)
              == FullNamesOf(KeysOf(Qualified(prefix, raw[..|raw| - 1])), c)
                 + (if Lower(key) == c then [Lower(Qualify(prefix, key))] else [])
  {
    var last := raw[|raw| - 1];
    QualifiedKeys(prefix, raw);
    var q := Qualify(prefix, last.0);
    QualifySplits(prefix, last.0);
    LowerIsLower(last.0);
    var keys0 := KeysOf(Qualified(prefix, raw[..|raw| - 1]));
    assert KeysOf(Qualified(prefix, raw)) == keys0 + [q];
    assert (keys0 + [q])[..|keys0|] == keys0;
  }

  /** Dropping the last key of a well-keyed row leaves it well keyed, and
      no key before the last lowers to the same name. */
  lemma WellKeyedFront(raw: seq<(string, Value)>)
    requires raw != [] && WellKeyed(raw)
    ensures WellKeyed(raw[..|raw| - 1]) && !HasDot(raw[|raw| - 1].0)
    ensures forall j :: 0 <= j < |raw| - 1 ==> Lower(raw[j].0) != Lower(raw[|raw| - 1].0)
  {
    var init := raw[..|raw| - 1];
    forall i | 0 <= i < |init| ensures init[i] == raw[i] {}
  }

  /** Qualifying a provider row whose keys are lower case, dot-free and
      distinct, indexing it, then stripping it gives the row back: with a
      single table every short name is unique. */
  lemma QualifyThenStrip(r: Resolver, prefix: string, raw: seq<(string, Value)>)
    requires WellKeyed(raw) && !HasDot(prefix)
    requires forall i :: 0 <= i < |raw| ==> IsLower(raw[i].0)
    requires r.fullNames == ColumnIndex(KeysOf(Qualified(prefix, raw)))
    ensures StripRow(r, Qualified(prefix, raw)) == raw
  {
    var q := Qualified(prefix, raw);
    forall i | 0 <= i < |raw| ensures Renamed(r, q)[i] == raw[i] {
      StripQualifiedColumn(r, prefix, raw, i);
    }
    assert Renamed(r, q) == raw;
    assert UniqueKeys(raw) by {
      forall i, j | 0 <= i < j < |raw| ensures raw[i].0 != raw[j].0 {
        assert Lower(raw[i].0) != Lower(raw[j].0);
      }
    }
    StripRowRenames(r, q);
  }

  lemma StripQualifiedColumn(r: Resolver, prefix: string, raw: seq<(string, Value)>, i: nat)
    requires WellKeyed(raw) && !HasDot(prefix) && i < |raw|
    requires IsLower(raw[i].0)
    requires r.fullNames == ColumnIndex(KeysOf(Qualified(prefix, raw)))
    ensures StrippedName(r, Qualify(prefix, raw[i].0)) == raw[i].0
  {
    var keys := KeysOf(Qualified(prefix, raw));
    var c := Lower(raw[i].0);
    ColumnIndexAt(keys, c);
    QualifySplits(prefix, raw[i].0);
    LowerIsLower(raw[i].0);
    QualifiedNamesUnique(prefix, raw, c);
    assert IsColumnNameUnique(r, c);
  }
}
