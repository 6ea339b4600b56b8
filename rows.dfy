/** Rows of the working table. A PHP row is an array from column names to
    scalars; the group engine adds one more key, 'children', whose value is a
    nested table. Here the scalar columns are an ordered entry list and the
    'children' entry is a separate field. */
module Rows {
  import opened Wrappers
  import opened Values
  import opened Assoc

  /** The 'children' entry: absent, or a nested table. */
  datatype Children = NoChildren | Children(rows: seq<Row>)

  datatype Row = Row(cols: seq<(string, Value)>, children: Children)

  type Table = seq<Row>

  const ChildrenKey: string := "children"

  /** A row straight from a provider: scalar columns only. */
  function Plain(cols: seq<(string, Value)>): Row
  {
    Row(cols, NoChildren)
  }

  /** `$row[$name]`: a missing column reads as null. */
  function Get(row: Row, name: string): Value
  {
    Lookup(row.cols, name)
  }

  /** The value of the first entry named `name`, null when there is none. */
  function Lookup(cols: seq<(string, Value)>, name: string): Value
  {
    if cols == [] then Null else if cols[0].0 == name then cols[0].1 else Lookup(cols[1..], name)
  }

  /** A present column reads as the value stored under it, an absent one
      as null. */
  lemma {:induction false} GetFinds(cols: seq<(string, Value)>, name: string)
    ensures Has(cols, name) ==> Find(cols, name) == Some(Lookup(cols, name))
    ensures !Has(cols, name) ==> Lookup(cols, name) == Null
  {
    if cols != [] && cols[0].0 != name {
      GetFinds(cols[1..], name);
    }
  }

  /** array_key_exists on a row. */
  predicate HasKey(row: Row, name: string)
  {
    Has(row.cols, name) || (name == ChildrenKey && row.children.Children?)
  }

  /** count($row): the number of keys, 'children' included. */
  function KeyCount(row: Row): nat
  {
    |row.cols| + (if row.children.Children? then 1 else 0)
  }

  /** empty($row). */
  predicate IsEmptyRow(row: Row)
  {
    row.cols == [] && row.children.NoChildren?
  }

  /** array_merge($a, $b) on two rows: b's columns win, and b's 'children'
      entry replaces a's when b has one. */
  function MergeRows(a: Row, b: Row): (r: Row)
    ensures r.children == (if b.children.Children? then b.children else a.children)
  {
    Row(Merge(a.cols, b.cols), if b.children.Children? then b.children else a.children)
  }

  /** Reading a merged row: a column of b wins over the same column of a,
      and the merged row has no duplicate column when a has none. */
  lemma MergeRowsGet(a: Row, b: Row)
    ensures UniqueKeys(a.cols) ==> UniqueKeys(MergeRows(a, b).cols)
    ensures UniqueKeys(b.cols) ==>
      forall k :: Get(MergeRows(a, b), k) == (if Has(b.cols, k) then Get(b, k) else Get(a, k))
  {
    if UniqueKeys(b.cols) {
      forall k ensures Get(MergeRows(a, b), k) == (if Has(b.cols, k) then Get(b, k) else Get(a, k)) {
        MergeFind(a.cols, b.cols, k);
        GetFinds(MergeRows(a, b).cols, k);
        GetFinds(a.cols, k);
        GetFinds(b.cols, k);
      }
    }
  }

  /** The scalar columns of a row, as `foreach ($row as $k => $v)` would
      see them when the row carries no 'children'. */
  function Names(row: Row): seq<string>
  {
    KeysOf(row.cols)
  }
}
