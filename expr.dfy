/** The expression evaluator: getColumnValue on one parsed node,
    evaluateExpression on a node list, applyComparision, applyBetweenAnd and
    the aggregate folds. The parser's token lists are kept as sequences of
    nodes, because the evaluator reads them positionally (the first
    `and`/`or` token splits a list, `x between a and b` is recognised at
    positions 1 and 3). Numbers are integers. */
module Expr {
  import opened Wrappers
  import opened Strings
  import opened Values
  import opened Assoc
  import opened Rows
  import opened Names

  datatype AggFunc = Count | Sum | Max | Min | Avg | OtherAggregate(name: string)

  /** One parsed node; the constructor is its expr_type. */
  datatype Node =
    | ColRef(name: string)                          // colref: a column, `*` or `t.*`
    | Const(text: string)                           // const, as written (quotes included)
    | AliasRef(name: string)                        // alias
    | Bracket(sub: seq<Node>)                       // bracket_expression
    | Expression(sub: seq<Node>)                    // expression
    | Function(fname: string, args: seq<Node>)      // function
    | Aggregate(agg: AggFunc, arg: Option<string>)  // aggregate_function, with the name of its first argument
    | Operator(op: string)                          // operator or reserved word
    | InList(items: seq<Node>)                      // in-list

  /** A SELECT list entry: its node, its base_expr text, its alias. */
  datatype Item = Item(expr: Node, text: string, alias: Option<string>)

  /** getColumnName: the alias when there is one, the text otherwise. */
  function ColumnName(item: Item): string
  {
    match item.alias
    case Some(a) => a
    case None => item.text
  }

  /** What the evaluator reads from the engine: the resolver and the
      SELECT aliases (column_alias). */
  datatype Ctx = Ctx(res: Resolver, columnAlias: map<string, Item>)

  function AggName(agg: AggFunc): string
  {
    match agg
    case Count => "count"
    case Sum => "sum"
    case Max => "max"
    case Min => "min"
    case Avg => "avg"
    case OtherAggregate(name) => Lower(name)
  }

  /** strtolower($struct['base_expr']) where the evaluator compares it with
      a keyword (`and`, `or`, `between`, `in`). Only operator and
      reserved-word nodes can spell a keyword: a constant keeps its quotes,
      a bracket starts with '(', and the parser reads a bare `and`, `or`,
      `between` or `in` as an operator; "" stands for every other node. */
  function Token(n: Node): string
  {
    if n.Operator? then Lower(n.op) else ""
  }

  predicate IsConnective(n: Node)
  {
    Token(n) == "and" || Token(n) == "or"
  }

  /** The position of the first `and`/`or` token, |s| when there is none. */
  function FirstConnective(s: seq<Node>): (a: nat)
    ensures a <= |s|
    ensures a < |s| ==> IsConnective(s[a])
    ensures forall j :: 0 <= j < a ==> !IsConnective(s[j])
  {
    if s == [] then 0 else if IsConnective(s[0]) then 0 else 1 + FirstConnective(s[1..])
  }

  /** The characterisation determines FirstConnective. */
  lemma FirstConnectiveIs(s: seq<Node>, a: nat)
    requires a <= |s| && (a < |s| ==> IsConnective(s[a]))
    requires forall j :: 0 <= j < a ==> !IsConnective(s[j])
    ensures FirstConnective(s) == a
  {
  }

  predicate IsBetween(s: seq<Node>)
  {
    |s| >= 5 && Token(s[1]) == "between" && Token(s[3]) == "and"
  }

  /** An alias a column reference sees through: one for an expression, a
      bracketed expression or a function. */
  predicate IsTransparent(n: Node)
  {
    n.Expression? || n.Bracket? || n.Function?
  }

  const Comparators: set<string> := {">", "<", ">=", "<=", "=", "!=", "<>"}
  const ArithmeticOps: set<string> := {"+", "-", "*", "/"}

  /** A string operand of a comparison is lowered first. */
  function LowerValue(v: Value): Value
  {
    if v.Str? then Str(Lower(v.s)) else v
  }

  /** applyComparision, once both operands are known. */
  predicate ApplyComparison(op: string, left: Value, right: Value)
  {
    var c := Compare(LowerValue(left), LowerValue(right));
    if op == "=" then c == 0
    else if op == ">" then c > 0
    else if op == "<" then c < 0
    else if op == ">=" then c >= 0
    else if op == "<=" then c <= 0
    else c != 0
  }

  /** applyBetweenAnd, once the three operands are known (no lowering). */
  predicate ApplyBetween(v: Value, from: Value, to: Value)
  {
    Compare(v, from) >= 0 && Compare(v, to) <= 0
  }

  /** a·b, written as repeated addition of a, |b| times, so that its
      meaning is only unfolded where a proof asks for it;
      ProductIsMultiplication shows it is the product. */
  function Product(a: int, b: int): int
    decreases if b < 0 then -b else b
  {
    if b == 0 then 0
    else if b > 0 then Product(a, b - 1) + a
    else Product(a, b + 1) - a
  }

  /** a div b on naturals, by repeated subtraction. */
  function NatQuot(a: nat, b: nat): nat
    requires b > 0
    decreases a
  {
    if a < b then 0 else 1 + NatQuot(a - b, b)
  }

  /** Integer division rounding toward zero. */
  function Quot(a: int, b: int): int
    requires b != 0
  {
    var q: int := NatQuot(if a >= 0 then a else -a, if b > 0 then b else -b);
    if (a >= 0) == (b > 0) then q else -q
  }

  /** The four arithmetic operators on floatval'd operands; dividing by a
      zero (empty) operand gives 0. */
  function Arithmetic(op: string, left: Value, right: Value): Value
  {
    var l, r := ToNumber(left), ToNumber(right);
    if op == "+" then Int(l + r)
    else if op == "-" then Int(l - r)
    else if op == "*" then Int(Product(l, r))
    else if r == 0 then Int(0)
    else Int(Quot(l, r))
  }

  /** The `$mapping` lookup of IS [NOT]: an unknown word reads as null. */
  function IsConstant(text: string): Value
  {
    if text == "true" then Bool(true)
    else if text == "false" then Bool(false)
    else Null
  }

  /** in_array with loose comparison. */
  predicate InArray(needle: Value, items: seq<Value>)
  {
    exists i :: 0 <= i < |items| && LooseEquals(needle, items[i])
  }

  /** The needle of [NOT] IN: strtolower of the value's string form. */
  function InNeedle(v: Value): Value
  {
    Str(Lower(ToStr(v)))
  }

  const EmptyRow: Row := Row([], NoChildren)

  // ---------------------------------------------------------------------
  // Aggregates (aggregateFuncCount, ...Sum, ...Max, ...Min, ...Avg)

  function ChildRows(row: Row): seq<Row>
  {
    if row.children.Children? then row.children.rows else []
  }

  /** Σ floatval($child[$param]) over the rows. */
  function SumOver(rows: seq<Row>, param: string): int
  {
    if rows == [] then 0 else SumOver(rows[..|rows| - 1], param) + ToNumber(Get(rows[|rows| - 1], param))
  }

  /** The running maximum, from the given start, of `if ($max < $v) $max = $v`. */
  function MaxOver(rows: seq<Row>, param: string, start: int): int
  {
    if rows == [] then start
    else
      var m := MaxOver(rows[..|rows| - 1], param, start);
      var v := ToNumber(Get(rows[|rows| - 1], param));
      if m < v then v else m
  }

  function MinOver(rows: seq<Row>, param: string, start: int): int
  {
    if rows == [] then start
    else
      var m := MinOver(rows[..|rows| - 1], param, start);
      var v := ToNumber(Get(rows[|rows| - 1], param));
      if m > v then v else m
  }

  /** An aggregate over a parent row: when the parent has the column
      itself, its value (COUNT gives 1); otherwise a fold over its
      children. COUNT and AVG divide by count($parent_row), the number of
      keys of the parent row. The parameter always holds a dot, or is `*`
      or empty, so it is never the 'children' key. */
  function AggregateValue(agg: AggFunc, row: Row, param: string): Result<Value>
  {
    var own := Has(row.cols, param);
    match agg
    case Count => Ok(Int(if own then 1 else KeyCount(row)))
    case Sum => Ok(if own then Get(row, param) else Int(SumOver(ChildRows(row), param)))
    case Max => Ok(if own then Get(row, param) else Int(MaxOver(ChildRows(row), param, PHP_INT_MIN)))
    case Min => Ok(if own then Get(row, param) else Int(MinOver(ChildRows(row), param, PHP_INT_MAX)))
    case Avg =>
      if own then Ok(Get(row, param))
      else if KeyCount(row) == 0 then Err(DivisionByZero)
      else Ok(Int(Quot(SumOver(ChildRows(row), param), KeyCount(row))))
    case OtherAggregate(name) => Err(UnknownFunction(name))
  }

  // ---------------------------------------------------------------------
  // Scalar functions

  function Implode(params: seq<Value>): string
  {
    if params == [] then "" else Implode(params[..|params| - 1]) + ToStr(params[|params| - 1])
  }

  /** `$this->{'func' . ucwords($name)}(count($params) > 1 ? $params : reset($params))`
      for the functions that do not read the clock or format floats. A
      single argument arrives bare, not in a list: implode then has no
      list to join and gives null (PHP 7). No argument at all is a missing
      parameter. IF, SUBSTR and REPLACE read positions 0 to 2 only; a missing
      third argument reads as null, which SUBSTR reads as length 0 and
      REPLACE as the empty replacement. */
  function ScalarFunction(fname: string, params: seq<Value>): Result<Value>
  {
    var name := Lower(fname);
    if name == "concat" then
      (if |params| > 1 then Ok(Str(Implode(params)))
       else if |params| == 1 then Ok(Null)
       else Err(BadArguments(name)))
    else if name == "abs" then
      (if |params| == 1 then
         var x := ToNumber(params[0]);
         Ok(Int(if x < 0 then -x else x))
       else Err(BadArguments(name)))
    else if name == "if" then
      (if |params| >= 2 then
         Ok(if Truthy(params[0]) then params[1] else if |params| >= 3 then params[2] else Null)
       else Err(BadArguments(name)))
    else if name == "substr" then
      (if |params| >= 2 then
         var part := Substr(ToStr(params[0]), ToNumber(params[1]), ToNumber(if |params| >= 3 then params[2] else Null));
         Ok(if part.Some? then Str(part.value) else Bool(false))
       else Err(BadArguments(name)))
    else if name == "replace" then
      (if |params| >= 2 then
         Ok(Str(IReplace(ToStr(params[0]), ToStr(params[1]), ToStr(if |params| >= 3 then params[2] else Null))))
       else Err(BadArguments(name)))
    else if name in {"round", "floor", "now", "current_timestamp", "date", "time",
                     "from_unixtime", "unix_timestamp", "year", "month"} then
      Err(FunctionNotModelled(name))
    else Err(UnknownFunction(name))
  }

  // ---------------------------------------------------------------------
  // The evaluator

  /** Enough alias expansions for any chain of aliases that does not loop. */
  function AliasFuel(ctx: Ctx): nat
  {
    |ctx.columnAlias| + 1
  }

  /** getColumnValue. `fuel` bounds how many aliases may be expanded on one
      path; running out means the aliases refer to each other in a cycle,
      where PHP recurses without end. */
  function EvalNode(ctx: Ctx, n: Node, row: Row, fuel: nat): Result<Value>
    decreases fuel, n, 2
  {
    match n
    case Bracket(sub) => EvalChain(ctx, sub, row, fuel)
    case Expression(sub) => EvalChain(ctx, sub, row, fuel)
    case Function(fname, args) => EvalFunction(ctx, fname, args, row, fuel)
    case AliasRef(name) =>
      if name !in ctx.columnAlias then Err(UnknownAlias(name))
      else if fuel == 0 then Err(AliasCycle)
      else EvalNode(ctx, ctx.columnAlias[name].expr, row, fuel - 1)
    case _ => EvalLeaf(ctx, n, row, fuel)
  }

  /** A function call: its arguments left to right, then the function. */
  function EvalFunction(ctx: Ctx, fname: string, args: seq<Node>, row: Row, fuel: nat): Result<Value>
    decreases fuel, args, 3
  {
    var params :- EvalEach(ctx, args, row, fuel);
    ScalarFunction(fname, params)
  }

  /** getColumnValue on a node without a sub-list: an aggregate over the
      row's children, a column (read through a SELECT alias of an
      expression, a bracketed expression or a function), a constant. An
      operator or an in-list is not a value. */
  function EvalLeaf(ctx: Ctx, n: Node, row: Row, fuel: nat): Result<Value>
    decreases fuel, n, 1
  {
    match n
    case Aggregate(agg, arg) =>
      var param :- (match arg case None => Ok("") case Some(a) => ToColumnNameWithPrefix(ctx.res, a));
      AggregateValue(agg, row, param)
    case ColRef(name) =>
      if name in ctx.columnAlias && IsTransparent(ctx.columnAlias[name].expr) then
        if fuel == 0 then Err(AliasCycle) else EvalNode(ctx, ctx.columnAlias[name].expr, row, fuel - 1)
      else
        var column :- ToColumnNameWithPrefix(ctx.res, name);
        if Has(row.cols, column) then Ok(Get(row, column)) else Err(UnknownColumn(column))
    case Const(text) => Ok(Str(TrimQuotes(text)))
    case _ => Err(UnsupportedExpression)
  }

  /** Each node on its own, left to right; the first error wins. */
  function EvalEach(ctx: Ctx, ns: seq<Node>, row: Row, fuel: nat): (r: Result<seq<Value>>)
    ensures r.Ok? ==> |r.value| == |ns|
    decreases fuel, ns, 2
  {
    if ns == [] then Ok([])
    else
      var v :- EvalNode(ctx, ns[0], row, fuel);
      var vs :- EvalEach(ctx, ns[1..], row, fuel);
      Ok([v] + vs)
  }

  predicate IsNotInList(s: seq<Node>)
  {
    |s| >= 4 && s[1].Operator? && Lower(s[1].op) == "not" && Token(s[2]) == "in" && s[3].InList?
  }

  /** Which case of evaluateExpression a node list falls under, tried in
      the order core.php tries them. */
  datatype Shape =
    | Single | BetweenForm | ConnectiveAt(a: nat) | ComparisonForm | ArithmeticForm
    | IsForm | IsNotForm | InForm | NotInForm | Unrecognised

  function ShapeOf(s: seq<Node>): (r: Shape)
    ensures r.Single? <==> |s| == 1
    ensures r.BetweenForm? ==> IsBetween(s)
    ensures r.ConnectiveAt? ==> r.a == FirstConnective(s) < |s|
    ensures r.ComparisonForm? || r.ArithmeticForm? || r.IsForm? || r.InForm? ==> |s| >= 3 && s[1].Operator?
    ensures r.IsNotForm? ==> |s| >= 4 && s[1].Operator? && s[2].Operator? && s[3].Const?
    ensures r.IsForm? ==> s[2].Const?
    ensures r.InForm? ==> s[2].InList?
    ensures r.NotInForm? ==> IsNotInList(s)
  {
    if |s| == 1 then Single
    else if IsBetween(s) then BetweenForm
    else if FirstConnective(s) < |s| then ConnectiveAt(FirstConnective(s))
    else if |s| >= 3 && s[1].Operator? && s[1].op in Comparators then ComparisonForm
    else if |s| >= 3 && s[1].Operator? && s[1].op in ArithmeticOps then ArithmeticForm
    else if |s| >= 3 && s[1].Operator? && Lower(s[1].op) == "is" && s[2].Const? then IsForm
    else if |s| >= 4 && s[1].Operator? && s[2].Operator? && Lower(s[1].op) == "is"
            && Lower(s[2].op) == "not" && s[3].Const? then IsNotForm
    else if |s| >= 3 && s[1].Operator? && Lower(s[1].op) == "in" && s[2].InList? then InForm
    else if IsNotInList(s) then NotInForm
    else Unrecognised
  }

  /** evaluateExpression on a node list. */
  function EvalChain(ctx: Ctx, s: seq<Node>, row: Row, fuel: nat): Result<Value>
    decreases fuel, s, 1
  {
    match ShapeOf(s)
    case Single => EvalNode(ctx, s[0], row, fuel)
    case BetweenForm => EvalBetween(ctx, s, row, fuel)
    case ConnectiveAt(a) => EvalConnective(ctx, s, a, row, fuel)
    case ComparisonForm => EvalComparison(ctx, s, row, fuel)
    case ArithmeticForm => EvalArithmetic(ctx, s, row, fuel)
    case IsForm => EvalIs(ctx, s, 2, row, fuel)
    case IsNotForm =>
      var r :- EvalIs(ctx, s, 3, row, fuel);
      Ok(Bool(!r.b))
    case InForm => EvalIn(ctx, s, 2, row, fuel)
    case NotInForm =>
      var r :- EvalIn(ctx, s, 3, row, fuel);
      Ok(Bool(!r.b))
    case Unrecognised => Err(UnsupportedExpression)
  }

  /** `v between from and to`, alone or followed by `and`/`or` and more. */
  function EvalBetween(ctx: Ctx, s: seq<Node>, row: Row, fuel: nat): Result<Value>
    requires IsBetween(s)
    decreases fuel, s, 0
  {
    var v :- EvalNode(ctx, s[0], row, fuel);
    var from :- EvalNode(ctx, s[2], row, fuel);
    var to :- EvalNode(ctx, s[4], row, fuel);
    var r1 := ApplyBetween(v, from, to);
    if |s| == 5 then Ok(Bool(r1))
    else if |s| >= 7 then
      var r2 :- EvalChain(ctx, s[6..], row, fuel);
      var op := Token(s[5]);
      if op == "and" then Ok(Bool(r1 && Truthy(r2)))
      else if op == "or" then Ok(Bool(r1 || Truthy(r2)))
      else Err(UnknownOperator(op))
    else Err(UnsupportedExpression)
  }

  /** Both sides of the token at a, left first, combined as booleans. */
  function EvalConnective(ctx: Ctx, s: seq<Node>, a: nat, row: Row, fuel: nat): Result<Value>
    requires a < |s|
    decreases fuel, s, 0
  {
    var r1 :- EvalChain(ctx, s[..a], row, fuel);
    var r2 :- EvalChain(ctx, s[a + 1..], row, fuel);
    Ok(Bool(if Token(s[a]) == "and" then Truthy(r1) && Truthy(r2) else Truthy(r1) || Truthy(r2)))
  }

  /** `s[0] op s[2]` for a comparison operator. */
  function EvalComparison(ctx: Ctx, s: seq<Node>, row: Row, fuel: nat): (r: Result<Value>)
    requires |s| >= 3 && s[1].Operator?
    ensures r.Ok? ==> r.value.Bool?
    decreases fuel, s, 0
  {
    var left :- EvalNode(ctx, s[0], row, fuel);
    var right :- EvalNode(ctx, s[2], row, fuel);
    Ok(Bool(ApplyComparison(s[1].op, left, right)))
  }

  /** `s[0] op rest`: the first node alone against the rest of the list. */
  function EvalArithmetic(ctx: Ctx, s: seq<Node>, row: Row, fuel: nat): (r: Result<Value>)
    requires |s| >= 3 && s[1].Operator?
    ensures r.Ok? ==> r.value.Int?
    decreases fuel, s, 0
  {
    var left :- EvalNode(ctx, s[0], row, fuel);
    var right :- EvalChain(ctx, s[2..], row, fuel);
    Ok(Arithmetic(s[1].op, left, right))
  }

  /** `s[0] is s[k]`, with the constant at position k read through the
      true/false/null mapping. */
  function EvalIs(ctx: Ctx, s: seq<Node>, k: nat, row: Row, fuel: nat): (r: Result<Value>)
    requires 0 < k < |s| && s[k].Const?
    ensures r.Ok? ==> r.value.Bool?
    decreases fuel, s, 0
  {
    var left :- EvalNode(ctx, s[0], row, fuel);
    Ok(Bool(LooseEquals(left, IsConstant(s[k].text))))
  }

  /** `s[0] in s[k]`: the list's items are evaluated against an empty row. */
  function EvalIn(ctx: Ctx, s: seq<Node>, k: nat, row: Row, fuel: nat): (r: Result<Value>)
    requires 0 < k < |s| && s[k].InList?
    ensures r.Ok? ==> r.value.Bool?
    decreases fuel, s, 0
  {
    var left :- EvalNode(ctx, s[0], row, fuel);
    var vs :- EvalEach(ctx, s[k].items, EmptyRow, fuel);
    Ok(Bool(InArray(InNeedle(left), vs)))
  }

  /** The NOT IN branch as core.php writes it: the list is read from the
      `in` token, which has no sub-tree, so it is always empty. */
  function NotInAsWritten(ctx: Ctx, s: seq<Node>, row: Row, fuel: nat): Result<Value>
    requires IsNotInList(s)
  {
    var left :- EvalNode(ctx, s[0], row, fuel);
    var items: seq<Value> := [];
    Ok(Bool(!InArray(InNeedle(left), items)))
  }

  /** A condition as the pipeline evaluates it. */
  function Eval(ctx: Ctx, cond: seq<Node>, row: Row): Result<Value>
  {
    EvalChain(ctx, cond, row, AliasFuel(ctx))
  }

  /** A single node as the pipeline evaluates it. */
  function EvalItem(ctx: Ctx, n: Node, row: Row): Result<Value>
  {
    EvalNode(ctx, n, row, AliasFuel(ctx))
  }
}
