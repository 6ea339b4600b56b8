/** What the evaluator does, stated over all inputs where possible and on
    small concrete statements where the point is how a list is grouped. */
module ExprProps {
  import opened Wrappers
  import opened Strings
  import opened Values
  import opened Assoc
  import opened Rows
  import opened Names
  import opened Expr

  // ---------------------------------------------------------------------
  // Which case a list falls under, and what that case computes

  lemma NoConnectiveOperator(op: string)
    requires IsLower(op) && op != "and" && op != "or"
    ensures Lower(op) == op && !IsConnective(Operator(op))
  {
    LowerIsLower(op);
  }

  lemma ComparisonShape(x: Node, op: string, y: Node)
    requires op in Comparators && IsLower(op) && !IsConnective(x) && !IsConnective(y)
    ensures ShapeOf([x, Operator(op), y]) == ComparisonForm
  {
    NoConnectiveOperator(op);
    FirstConnectiveIs([x, Operator(op), y], 3);
  }

  lemma ArithmeticShape(s: seq<Node>)
    requires |s| >= 3 && s[1].Operator? && s[1].op in ArithmeticOps && IsLower(s[1].op)
    requires FirstConnective(s) == |s|
    ensures ShapeOf(s) == ArithmeticForm
  {
    NoConnectiveOperator(s[1].op);
  }

  lemma IsShape(x: Node, c: string)
    requires !IsConnective(x) && !IsConnective(Const(c))
    ensures ShapeOf([x, Operator("is"), Const(c)]) == IsForm
  {
    var s := [x, Operator("is"), Const(c)];
    NoConnectiveOperator("is");
    FirstConnectiveIs(s, 3);
    assert !IsBetween(s);
    assert "is" !in Comparators && "is" !in ArithmeticOps;
  }

  lemma IsNotShape(x: Node, c: string)
    requires !IsConnective(x) && !IsConnective(Const(c))
    ensures ShapeOf([x, Operator("is"), Operator("not"), Const(c)]) == IsNotForm
  {
    var s := [x, Operator("is"), Operator("not"), Const(c)];
    NoConnectiveOperator("is");
    NoConnectiveOperator("not");
    FirstConnectiveIs(s, 4);
    assert !IsBetween(s);
    assert "is" !in Comparators && "is" !in ArithmeticOps;
  }

  lemma InShape(x: Node, items: seq<Node>)
    requires !IsConnective(x)
    ensures ShapeOf([x, Operator("in"), InList(items)]) == InForm
  {
    var s := [x, Operator("in"), InList(items)];
    NoConnectiveOperator("in");
    FirstConnectiveIs(s, 3);
    assert !IsBetween(s);
    assert "in" !in Comparators && "in" !in ArithmeticOps && "in" != "is";
  }

  lemma NotInShape(x: Node, items: seq<Node>)
    requires !IsConnective(x)
    ensures ShapeOf([x, Operator("not"), Operator("in"), InList(items)]) == NotInForm
  {
    var s := [x, Operator("not"), Operator("in"), InList(items)];
    NoConnectiveOperator("in");
    NoConnectiveOperator("not");
    FirstConnectiveIs(s, 4);
    assert !IsBetween(s);
    assert "not" !in Comparators && "not" !in ArithmeticOps && "not" != "is" && "not" != "in";
    assert IsNotInList(s);
  }

  lemma EvalSingle(ctx: Ctx, x: Node, row: Row, fuel: nat)
    ensures EvalChain(ctx, [x], row, fuel) == EvalNode(ctx, x, row, fuel)
  {
  }

  lemma ChainComparison(ctx: Ctx, s: seq<Node>, row: Row, fuel: nat)
    requires ShapeOf(s) == ComparisonForm
    ensures EvalChain(ctx, s, row, fuel) == EvalComparison(ctx, s, row, fuel)
  {
  }

  lemma ChainArithmetic(ctx: Ctx, s: seq<Node>, row: Row, fuel: nat)
    requires ShapeOf(s) == ArithmeticForm
    ensures EvalChain(ctx, s, row, fuel) == EvalArithmetic(ctx, s, row, fuel)
  {
  }

  lemma ChainConnective(ctx: Ctx, s: seq<Node>, a: nat, row: Row, fuel: nat)
    requires ShapeOf(s) == ConnectiveAt(a)
    ensures EvalChain(ctx, s, row, fuel) == EvalConnective(ctx, s, a, row, fuel)
  {
  }

  lemma ChainIsNot(ctx: Ctx, s: seq<Node>, row: Row, fuel: nat)
    requires ShapeOf(s) == IsNotForm
    ensures EvalChain(ctx, s, row, fuel) ==
      (var r :- EvalIs(ctx, s, 3, row, fuel); Ok(Bool(!r.b)))
  {
  }

  lemma ChainNotIn(ctx: Ctx, s: seq<Node>, row: Row, fuel: nat)
    requires ShapeOf(s) == NotInForm
    ensures EvalChain(ctx, s, row, fuel) ==
      (var r :- EvalIn(ctx, s, 3, row, fuel); Ok(Bool(!r.b)))
  {
  }

  /** A list of one comparison between two literals. */
  lemma ConstComparison(ctx: Ctx, x: string, op: string, y: string, row: Row, fuel: nat)
    requires op in Comparators && IsLower(op) && !IsConnective(Const(x)) && !IsConnective(Const(y))
    ensures EvalChain(ctx, [Const(x), Operator(op), Const(y)], row, fuel)
            == Ok(Bool(ApplyComparison(op, Str(TrimQuotes(x)), Str(TrimQuotes(y)))))
  {
    var s := [Const(x), Operator(op), Const(y)];
    ComparisonShape(Const(x), op, Const(y));
    ChainComparison(ctx, s, row, fuel);
    EvalConst(ctx, x, row, fuel);
    EvalConst(ctx, y, row, fuel);
  }

  /** `x op y`, once both operands have values, is the comparison operator
      applied to those values. */
  lemma ComparisonValues(ctx: Ctx, s: seq<Node>, v: Value, w: Value, row: Row, fuel: nat)
    requires ShapeOf(s) == ComparisonForm
    requires EvalNode(ctx, s[0], row, fuel) == Ok(v) && EvalNode(ctx, s[2], row, fuel) == Ok(w)
    ensures EvalChain(ctx, s, row, fuel) == Ok(Bool(ApplyComparison(s[1].op, v, w)))
  {
    ChainComparison(ctx, s, row, fuel);
  }

  /** `x is c`, once x has the value v: `true` holds exactly for a truthy v,
      `false` exactly for a falsy one, and `null`, like every other word,
      exactly for null, false, 0 and the empty string (PHP 7's `v == null`). */
  lemma IsValues(ctx: Ctx, x: Node, c: string, v: Value, row: Row, fuel: nat)
    requires !IsConnective(x) && !IsConnective(Const(c))
    requires EvalNode(ctx, x, row, fuel) == Ok(v)
    ensures
      var r := EvalChain(ctx, [x, Operator("is"), Const(c)], row, fuel);
      && (c == "true" ==> r == Ok(Bool(Truthy(v))))
      && (c == "false" ==> r == Ok(Bool(!Truthy(v))))
      && (c != "true" && c != "false" ==>
            r == Ok(Bool(v == Null || v == Bool(false) || v == Int(0) || v == Str(""))))
  {
    IsShape(x, c);
  }

  /** A list holding an `and`/`or` token, other than `x between a and b ...`,
      splits at the FIRST such token: both sides are evaluated, left first,
      and combined as booleans. */
  lemma AndOrSplitsAtFirst(ctx: Ctx, s: seq<Node>, a: nat, row: Row, fuel: nat)
    requires |s| != 1 && !IsBetween(s)
    requires a < |s| && IsConnective(s[a])
    requires forall j :: 0 <= j < a ==> !IsConnective(s[j])
    ensures EvalChain(ctx, s, row, fuel) ==
      (var r1 :- EvalChain(ctx, s[..a], row, fuel);
       var r2 :- EvalChain(ctx, s[a + 1..], row, fuel);
       Ok(Bool(if Token(s[a]) == "and" then Truthy(r1) && Truthy(r2) else Truthy(r1) || Truthy(r2))))
  {
    FirstConnectiveIs(s, a);
    ChainConnective(ctx, s, a, row, fuel);
  }

  /** Because of the first-token split, `p and q or r` is read as
      `p and (q or r)`, where SQL precedence would read `(p and q) or r`:
      with p and r true and q false it is false. Here the list is p, the
      `and` at position a, q, the `or` at position b, then r; neither p nor
      q holds `and`, `or` or `between`. */
  lemma AndOrGroupsToTheRight(ctx: Ctx, s: seq<Node>, a: nat, b: nat, v1: Value, v2: Value, v3: Value,
                              row: Row, fuel: nat)
    requires 0 < a && a + 1 < b < |s|
    requires s[a] == Operator("and") && s[b] == Operator("or")
    requires forall j :: 0 <= j < b && j != a ==> !IsConnective(s[j]) && Token(s[j]) != "between"
    requires EvalChain(ctx, s[..a], row, fuel) == Ok(v1)
    requires EvalChain(ctx, s[a + 1..b], row, fuel) == Ok(v2)
    requires EvalChain(ctx, s[b + 1..], row, fuel) == Ok(v3)
    ensures EvalChain(ctx, s, row, fuel) == Ok(Bool(Truthy(v1) && (Truthy(v2) || Truthy(v3))))
  {
    AndOrLayout(s, a, b);
    ConnectiveValues(ctx, s[a + 1..], b - a - 1, v2, v3, row, fuel);
    ConnectiveValues(ctx, s, a, v1, Bool(Truthy(v2) || Truthy(v3)), row, fuel);
  }

  /** The list facts AndOrGroupsToTheRight splits on. */
  lemma AndOrLayout(s: seq<Node>, a: nat, b: nat)
    requires 0 < a && a + 1 < b < |s|
    requires s[a] == Operator("and") && s[b] == Operator("or")
    requires forall j :: 0 <= j < b && j != a ==> !IsConnective(s[j]) && Token(s[j]) != "between"
    ensures Token(s[a]) == "and" && Token(s[b]) == "or" && IsConnective(s[a])
    ensures |s| != 1 && !IsBetween(s) && forall j :: 0 <= j < a ==> !IsConnective(s[j])
    ensures var rest := s[a + 1..];
      && |rest| != 1 && !IsBetween(rest) && rest[b - a - 1] == s[b] && IsConnective(rest[b - a - 1])
      && (forall j :: 0 <= j < b - a - 1 ==> !IsConnective(rest[j]))
      && rest[..b - a - 1] == s[a + 1..b] && rest[b - a..] == s[b + 1..]
  {
    LowerIsLower("and");
    LowerIsLower("or");
    var rest := s[a + 1..];
    assert forall j :: 0 <= j < b - a - 1 ==> rest[j] == s[a + 1 + j];
    assert rest[1] == s[a + 2];
  }

  /** Joining two evaluated sides at the first connective. */
  lemma ConnectiveValues(ctx: Ctx, s: seq<Node>, a: nat, v1: Value, v2: Value, row: Row, fuel: nat)
    requires |s| != 1 && !IsBetween(s)
    requires a < |s| && IsConnective(s[a])
    requires forall j :: 0 <= j < a ==> !IsConnective(s[j])
    requires EvalChain(ctx, s[..a], row, fuel) == Ok(v1)
    requires EvalChain(ctx, s[a + 1..], row, fuel) == Ok(v2)
    ensures EvalChain(ctx, s, row, fuel)
            == Ok(Bool(if Token(s[a]) == "and" then Truthy(v1) && Truthy(v2) else Truthy(v1) || Truthy(v2)))
  {
    AndOrSplitsAtFirst(ctx, s, a, row, fuel);
  }

  /** Arithmetic takes the first operand alone and the rest of the list as
      the second operand, so `x - y - z` is `x - (y - z)`. */
  lemma ArithmeticGroupsToTheRight(ctx: Ctx, s: seq<Node>, vx: Value, vy: Value, vz: Value, row: Row, fuel: nat)
    requires TwoSubtractions(s)
    requires EvalNode(ctx, s[0], row, fuel) == Ok(vx)
    requires EvalNode(ctx, s[2], row, fuel) == Ok(vy)
    requires EvalNode(ctx, s[4], row, fuel) == Ok(vz)
    ensures EvalChain(ctx, s, row, fuel) == Ok(Int(ToNumber(vx) - (ToNumber(vy) - ToNumber(vz))))
  {
    SubtractTail(ctx, s, vy, vz, row, fuel);
    SubtractFromFirst(ctx, s, vx, vy, vz, row, fuel);
  }

  /** `x - y - z`: five nodes, three operands that are not connectives
      separated by two minus operators. */
  predicate TwoSubtractions(s: seq<Node>)
  {
    && |s| == 5 && s[1] == Operator("-") && s[3] == Operator("-")
    && !IsConnective(s[0]) && !IsConnective(s[2]) && !IsConnective(s[4])
  }

  /** The rest of `x - y - z` is the arithmetic list `y - z`. */
  lemma SubtractTail(ctx: Ctx, s: seq<Node>, vy: Value, vz: Value, row: Row, fuel: nat)
    requires TwoSubtractions(s)
    requires EvalNode(ctx, s[2], row, fuel) == Ok(vy)
    requires EvalNode(ctx, s[4], row, fuel) == Ok(vz)
    ensures ShapeOf(s) == ArithmeticForm
    ensures EvalChain(ctx, s[2..], row, fuel) == Ok(Int(ToNumber(vy) - ToNumber(vz)))
  {
    SubtractionShapes(s);
    Subtraction(ctx, s[2..], vy, vz, row, fuel);
  }

  lemma SubtractionShapes(s: seq<Node>)
    requires TwoSubtractions(s)
    ensures ShapeOf(s) == ArithmeticForm && ShapeOf(s[2..]) == ArithmeticForm
    ensures |s[2..]| == 3 && s[2..][0] == s[2] && s[2..][1] == Operator("-") && s[2..][2] == s[4]
  {
    var tail := s[2..];
    NoConnectiveOperator("-");
    FirstConnectiveIs(tail, 3);
    ArithmeticShape(tail);
    FirstConnectiveIs(s, 5);
    ArithmeticShape(s);
  }

  lemma SubtractFromFirst(ctx: Ctx, s: seq<Node>, vx: Value, vy: Value, vz: Value, row: Row, fuel: nat)
    requires ShapeOf(s) == ArithmeticForm && s[1] == Operator("-")
    requires EvalNode(ctx, s[0], row, fuel) == Ok(vx)
    requires EvalChain(ctx, s[2..], row, fuel) == Ok(Int(ToNumber(vy) - ToNumber(vz)))
    ensures EvalChain(ctx, s, row, fuel) == Ok(Int(ToNumber(vx) - (ToNumber(vy) - ToNumber(vz))))
  {
    ArithmeticValues(ctx, s, vx, Int(ToNumber(vy) - ToNumber(vz)), row, fuel);
  }

  /** An arithmetic list once its first operand and its rest are evaluated. */
  lemma ArithmeticValues(ctx: Ctx, s: seq<Node>, v: Value, w: Value, row: Row, fuel: nat)
    requires ShapeOf(s) == ArithmeticForm
    requires EvalNode(ctx, s[0], row, fuel) == Ok(v)
    requires EvalChain(ctx, s[2..], row, fuel) == Ok(w)
    ensures EvalChain(ctx, s, row, fuel) == Ok(Arithmetic(s[1].op, v, w))
  {
    ChainArithmetic(ctx, s, row, fuel);
  }

  /** One subtraction: the first operand alone, minus the (single) rest. */
  lemma Subtraction(ctx: Ctx, s: seq<Node>, vy: Value, vz: Value, row: Row, fuel: nat)
    requires ShapeOf(s) == ArithmeticForm && |s| == 3 && s[1] == Operator("-")
    requires EvalNode(ctx, s[0], row, fuel) == Ok(vy)
    requires EvalNode(ctx, s[2], row, fuel) == Ok(vz)
    ensures EvalChain(ctx, s, row, fuel) == Ok(Int(ToNumber(vy) - ToNumber(vz)))
  {
    assert s[2..] == [s[2]];
    EvalSingle(ctx, s[2], row, fuel);
    ArithmeticValues(ctx, s, vy, vz, row, fuel);
  }

  /** Dividing by an operand that reads as zero gives 0 instead of failing. */
  lemma DivisionByZeroIsZero(ctx: Ctx, s: seq<Node>, row: Row, fuel: nat)
    requires |s| >= 3 && s[1] == Operator("/") && FirstConnective(s) == |s|
    requires EvalNode(ctx, s[0], row, fuel).Ok?
    requires EvalChain(ctx, s[2..], row, fuel).Ok? && ToNumber(EvalChain(ctx, s[2..], row, fuel).value) == 0
    ensures EvalChain(ctx, s, row, fuel) == Ok(Int(0))
  {
    ArithmeticShape(s);
    ChainArithmetic(ctx, s, row, fuel);
  }

  /** A comparison only sees its string operands lowered: lowering them
      beforehand changes nothing. */
  lemma ComparisonIgnoresCase(op: string, left: Value, right: Value)
    ensures ApplyComparison(op, left, right) == ApplyComparison(op, LowerValue(left), LowerValue(right))
  {
    if left.Str? {
      LowerIsLower(left.s);
    }
    if right.Str? {
      LowerIsLower(right.s);
    }
  }

  /** So 'NAM' = 'nam' holds. */
  lemma ComparisonCaseExample()
    ensures ApplyComparison("=", Str("NAM"), Str("nam"))
  {
    assert Lower("NAM") == "nam";
  }

  /** BETWEEN does not lower its operands: 'B' is not between 'a' and 'c',
      although 'B' >= 'a' and 'B' <= 'c' both hold. */
  lemma BetweenIsCaseSensitive()
    ensures !ApplyBetween(Str("B"), Str("a"), Str("c"))
    ensures ApplyComparison(">=", Str("B"), Str("a")) && ApplyComparison("<=", Str("B"), Str("c"))
  {
    assert !IsNumeric("B") && !IsNumeric("a") && !IsNumeric("c") && !IsNumeric("b");
    assert Lower("B") == "b";
    LowerIsLower("a");
    LowerIsLower("c");
    assert CompareText("B", "a") == -1;
  }

  /** A list of five or more nodes with `between` at position 1 and `and`
      at position 3 takes the BETWEEN branch; that `and` does not split it. */
  lemma BetweenShape(s: seq<Node>)
    requires IsBetween(s)
    ensures ShapeOf(s) == BetweenForm
  {
  }

  /** `v between from and to` on its own: both bounds inclusive, the
      operands compared as they are, without lowering. */
  lemma BetweenFive(ctx: Ctx, s: seq<Node>, v: Value, from: Value, to: Value, row: Row, fuel: nat)
    requires IsBetween(s) && |s| == 5
    requires EvalNode(ctx, s[0], row, fuel) == Ok(v)
    requires EvalNode(ctx, s[2], row, fuel) == Ok(from)
    requires EvalNode(ctx, s[4], row, fuel) == Ok(to)
    ensures EvalChain(ctx, s, row, fuel) == Ok(Bool(Compare(v, from) >= 0 && Compare(v, to) <= 0))
  {
    BetweenShape(s);
  }

  /** Six nodes, a BETWEEN with a dangling token: the operands are read,
      then the list is rejected. */
  lemma BetweenSix(ctx: Ctx, s: seq<Node>, v: Value, from: Value, to: Value, row: Row, fuel: nat)
    requires IsBetween(s) && |s| == 6
    requires EvalNode(ctx, s[0], row, fuel) == Ok(v)
    requires EvalNode(ctx, s[2], row, fuel) == Ok(from)
    requires EvalNode(ctx, s[4], row, fuel) == Ok(to)
    ensures EvalChain(ctx, s, row, fuel) == Err(UnsupportedExpression)
  {
    BetweenShape(s);
  }

  /** Seven nodes or more: the BETWEEN result is combined with the value of
      the list after position 5 by the token at position 5; any other
      token is an unknown operator, and an error in the rest is the error. */
  lemma BetweenLonger(ctx: Ctx, s: seq<Node>, v: Value, from: Value, to: Value, row: Row, fuel: nat)
    requires IsBetween(s) && |s| >= 7
    requires EvalNode(ctx, s[0], row, fuel) == Ok(v)
    requires EvalNode(ctx, s[2], row, fuel) == Ok(from)
    requires EvalNode(ctx, s[4], row, fuel) == Ok(to)
    ensures EvalChain(ctx, s[6..], row, fuel).Err? ==> EvalChain(ctx, s, row, fuel) == EvalChain(ctx, s[6..], row, fuel)
    ensures EvalChain(ctx, s[6..], row, fuel).Ok? ==>
      var r1 := Compare(v, from) >= 0 && Compare(v, to) <= 0;
      var r2 := Truthy(EvalChain(ctx, s[6..], row, fuel).value);
      EvalChain(ctx, s, row, fuel) ==
        if Token(s[5]) == "and" then Ok(Bool(r1 && r2))
        else if Token(s[5]) == "or" then Ok(Bool(r1 || r2))
        else Err(UnknownOperator(Token(s[5])))
  {
    BetweenShape(s);
  }

  /** The operands are read left to right, and the first that fails is the
      error of the whole list. */
  lemma BetweenOperandFails(ctx: Ctx, s: seq<Node>, row: Row, fuel: nat)
    requires IsBetween(s)
    ensures EvalNode(ctx, s[0], row, fuel).Err? ==> EvalChain(ctx, s, row, fuel) == Err(EvalNode(ctx, s[0], row, fuel).error)
    ensures EvalNode(ctx, s[0], row, fuel).Ok? && EvalNode(ctx, s[2], row, fuel).Err? ==>
      EvalChain(ctx, s, row, fuel) == Err(EvalNode(ctx, s[2], row, fuel).error)
    ensures EvalNode(ctx, s[0], row, fuel).Ok? && EvalNode(ctx, s[2], row, fuel).Ok? && EvalNode(ctx, s[4], row, fuel).Err? ==>
      EvalChain(ctx, s, row, fuel) == Err(EvalNode(ctx, s[4], row, fuel).error)
  {
    BetweenShape(s);
  }

  /** `x is not c` is the negation of `x is c`. */
  lemma IsNotNegatesIs(ctx: Ctx, x: Node, c: string, row: Row, fuel: nat)
    requires !IsConnective(x) && !IsConnective(Const(c))
    ensures
      var isC := EvalChain(ctx, [x, Operator("is"), Const(c)], row, fuel);
      var isNotC := EvalChain(ctx, [x, Operator("is"), Operator("not"), Const(c)], row, fuel);
      && (isC.Ok? <==> isNotC.Ok?)
      && (isC.Ok? ==> isC.value.Bool? && isNotC == Ok(Bool(!isC.value.b)))
  {
    IsShape(x, c);
    IsNotShape(x, c);
    ChainIsNot(ctx, [x, Operator("is"), Operator("not"), Const(c)], row, fuel);
  }

  /** `x not in (...)` is the negation of `x in (...)`. */
  lemma NotInNegatesIn(ctx: Ctx, x: Node, items: seq<Node>, row: Row, fuel: nat)
    requires !IsConnective(x)
    ensures
      var inL := EvalChain(ctx, [x, Operator("in"), InList(items)], row, fuel);
      var notInL := EvalChain(ctx, [x, Operator("not"), Operator("in"), InList(items)], row, fuel);
      && (inL.Ok? <==> notInL.Ok?)
      && (inL.Ok? ==> inL.value.Bool? && notInL == Ok(Bool(!inL.value.b)))
  {
    InShape(x, items);
    NotInShape(x, items);
    ChainNotIn(ctx, [x, Operator("not"), Operator("in"), InList(items)], row, fuel);
  }

  /** As written, NOT IN holds whenever its left side evaluates at all. */
  lemma NotInAsWrittenAlwaysHolds(ctx: Ctx, s: seq<Node>, row: Row, fuel: nat)
    requires IsNotInList(s) && EvalNode(ctx, s[0], row, fuel).Ok?
    ensures NotInAsWritten(ctx, s, row, fuel) == Ok(Bool(true))
  {
  }

  /** `x not in (items)` once x and the items are evaluated. */
  lemma NotInValues(ctx: Ctx, s: seq<Node>, v: Value, vs: seq<Value>, row: Row, fuel: nat)
    requires ShapeOf(s) == NotInForm
    requires EvalNode(ctx, s[0], row, fuel) == Ok(v)
    requires EvalEach(ctx, s[3].items, EmptyRow, fuel) == Ok(vs)
    ensures EvalChain(ctx, s, row, fuel) == Ok(Bool(!InArray(InNeedle(v), vs)))
  {
    ChainNotIn(ctx, s, row, fuel);
  }

  /** A constant evaluates to its text without the quotes. */
  lemma EvalConst(ctx: Ctx, t: string, row: Row, fuel: nat)
    ensures EvalNode(ctx, Const(t), row, fuel) == Ok(Str(TrimQuotes(t)))
  {
  }

  /** A column reference that is not a SELECT alias of an expression reads
      the row under its resolved name: a name that does not resolve fails
      as resolution does, a resolved name the row lacks is an unknown
      column, and otherwise the value is the one stored under that name. */
  lemma EvalColumn(ctx: Ctx, name: string, row: Row, fuel: nat)
    requires !(name in ctx.columnAlias && IsTransparent(ctx.columnAlias[name].expr))
    ensures var c := ToColumnNameWithPrefix(ctx.res, name);
      var r := EvalNode(ctx, ColRef(name), row, fuel);
      && (c.Err? ==> r == Err(c.error))
      && (c.Ok? ==> (r.Ok? <==> Has(row.cols, c.value)))
      && (c.Ok? && !Has(row.cols, c.value) ==> r == Err(UnknownColumn(c.value)))
      && (c.Ok? && r.Ok? ==> Find(row.cols, c.value) == Some(r.value))
  {
    var c := ToColumnNameWithPrefix(ctx.res, name);
    if c.Ok? {
      GetFinds(row.cols, c.value);
    }
  }

  /** A column named as a SELECT alias of an expression, a bracketed
      expression or a function reads that expression, one expansion
      fewer left; a name that is no alias at all is an unknown alias. */
  lemma EvalThroughAlias(ctx: Ctx, name: string, row: Row, fuel: nat)
    requires fuel > 0
    ensures name in ctx.columnAlias && IsTransparent(ctx.columnAlias[name].expr) ==>
      EvalNode(ctx, ColRef(name), row, fuel) == EvalNode(ctx, ctx.columnAlias[name].expr, row, fuel - 1)
    ensures name in ctx.columnAlias ==>
      EvalNode(ctx, AliasRef(name), row, fuel) == EvalNode(ctx, ctx.columnAlias[name].expr, row, fuel - 1)
    ensures name !in ctx.columnAlias ==> EvalNode(ctx, AliasRef(name), row, fuel) == Err(UnknownAlias(name))
  {
  }

  /** An alias defined as itself never yields a value: expanding it
      spends all the fuel, where PHP recurses without end. */
  lemma {:induction false} SelfAliasCycles(ctx: Ctx, name: string, row: Row, fuel: nat)
    requires name in ctx.columnAlias && ctx.columnAlias[name].expr == AliasRef(name)
    ensures EvalNode(ctx, AliasRef(name), row, fuel) == Err(AliasCycle)
    decreases fuel
  {
    if fuel > 0 {
      SelfAliasCycles(ctx, name, row, fuel - 1);
    }
  }

  lemma QuotedA(ctx: Ctx, row: Row, fuel: nat)
    ensures EvalNode(ctx, Const("'a'"), row, fuel) == Ok(Str("a"))
    ensures !IsConnective(Const("'a'"))
  {
    TrimQuotedLiteral("a");
    assert "'" + "a" + "'" == "'a'";
    EvalConst(ctx, "'a'", row, fuel);
    LowerIsLower("'a'");
  }

  lemma EvalEachOne(ctx: Ctx, x: Node, v: Value, row: Row, fuel: nat)
    requires EvalNode(ctx, x, row, fuel) == Ok(v)
    ensures EvalEach(ctx, [x], row, fuel) == Ok([v])
  {
    assert [x][1..] == [];
    assert EvalEach(ctx, [], row, fuel) == Ok([]);
    assert [v] + [] == [v];
  }

  lemma NeedleAIsListed()
    ensures InArray(InNeedle(Str("a")), [Str("a")])
  {
    LowerIsLower("a");
    CompareAntisymmetric(Str("a"), Str("a"));
    assert LooseEquals(InNeedle(Str("a")), [Str("a")][0]);
  }

  /** So `'a' not in ('a')` is true as written, and false as intended. */
  lemma NotInExample(ctx: Ctx, row: Row, fuel: nat)
    ensures
      var s := [Const("'a'"), Operator("not"), Operator("in"), InList([Const("'a'")])];
      && NotInAsWritten(ctx, s, row, fuel) == Ok(Bool(true))
      && EvalChain(ctx, s, row, fuel) == Ok(Bool(false))
  {
    var a := Const("'a'");
    var s := [a, Operator("not"), Operator("in"), InList([a])];
    QuotedA(ctx, row, fuel);
    QuotedA(ctx, EmptyRow, fuel);
    NotInShape(a, [a]);
    EvalEachOne(ctx, a, Str("a"), EmptyRow, fuel);
    NotInValues(ctx, s, Str("a"), [Str("a")], row, fuel);
    NeedleAIsListed();
    NotInAsWrittenAlwaysHolds(ctx, s, row, fuel);
  }

  // ---------------------------------------------------------------------
  // Aggregates

  /** SUM over the children of a parent is additive. */
  lemma {:induction false} SumOverAppend(a: seq<Row>, b: seq<Row>, param: string)
    ensures SumOver(a + b, param) == SumOver(a, param) + SumOver(b, param)
    decreases |b|
  {
    if b != [] {
      var b0 := b[..|b| - 1];
      assert (a + b)[..|a + b| - 1] == a + b0;
      SumOverAppend(a, b0, param);
    } else {
      assert a + b == a;
    }
  }

  /** MAX: at least its start and every child's value, and equal to one of them. */
  lemma {:induction false} MaxOverBounds(rows: seq<Row>, param: string, start: int)
    ensures MaxOver(rows, param, start) >= start
    ensures forall i :: 0 <= i < |rows| ==> MaxOver(rows, param, start) >= ToNumber(Get(rows[i], param))
    ensures MaxOver(rows, param, start) == start
            || exists i :: 0 <= i < |rows| && MaxOver(rows, param, start) == ToNumber(Get(rows[i], param))
  {
    if rows != [] {
      var init := rows[..|rows| - 1];
      MaxOverBounds(init, param, start);
      forall i | 0 <= i < |rows| ensures MaxOver(rows, param, start) >= ToNumber(Get(rows[i], param)) {
        if i < |init| {
          assert rows[i] == init[i];
        }
      }
      if MaxOver(rows, param, start) != start && MaxOver(rows, param, start) == MaxOver(init, param, start) {
        var i :| 0 <= i < |init| && MaxOver(init, param, start) == ToNumber(Get(init[i], param));
        assert rows[i] == init[i];
      }
    }
  }

  /** MIN: at most its start and every child's value, and equal to one of them. */
  lemma {:induction false} MinOverBounds(rows: seq<Row>, param: string, start: int)
    ensures MinOver(rows, param, start) <= start
    ensures forall i :: 0 <= i < |rows| ==> MinOver(rows, param, start) <= ToNumber(Get(rows[i], param))
    ensures MinOver(rows, param, start) == start
            || exists i :: 0 <= i < |rows| && MinOver(rows, param, start) == ToNumber(Get(rows[i], param))
  {
    if rows != [] {
      var init := rows[..|rows| - 1];
      MinOverBounds(init, param, start);
      forall i | 0 <= i < |rows| ensures MinOver(rows, param, start) <= ToNumber(Get(rows[i], param)) {
        if i < |init| {
          assert rows[i] == init[i];
        }
      }
      if MinOver(rows, param, start) != start && MinOver(rows, param, start) == MinOver(init, param, start) {
        var i :| 0 <= i < |init| && MinOver(init, param, start) == ToNumber(Get(init[i], param));
        assert rows[i] == init[i];
      }
    }
  }

  /** COUNT counts keys of the parent row, not children: over the row that
      wraps a whole table for a lone aggregate it is 1, and over a group
      row (its key column and its children) it is 2, whatever the number of
      rows inside. */
  lemma CountCountsParentKeys(t: seq<Row>, col: string, key: Value)
    requires col != "*"
    ensures AggregateValue(Count, Row([], Children(t)), "*") == Ok(Int(1))
    ensures AggregateValue(Count, Row([(col, key)], Children(t)), "*") == Ok(Int(2))
  {
    assert IndexOf([(col, key)], "*") == 1;
  }

  /** AVG divides the children's sum by that same key count. */
  lemma AvgOverWrappedTable(t: seq<Row>, param: string)
    requires param != ""
    ensures AggregateValue(Avg, Row([], Children(t)), param) == Ok(Int(SumOver(t, param)))
  {
    var x := SumOver(t, param);
    NatQuotByOne(if x >= 0 then x else -x);
  }

  lemma {:induction false} NatQuotByOne(a: nat)
    ensures NatQuot(a, 1) == a
  {
    if a > 0 {
      NatQuotByOne(a - 1);
    }
  }

  // ---------------------------------------------------------------------
  // The arithmetic written out

  /** Product is multiplication. */
  lemma {:induction false} ProductIsMultiplication(a: int, b: int)
    ensures Product(a, b) == a * b
    decreases if b < 0 then -b else b
  {
    if b > 0 {
      ProductIsMultiplication(a, b - 1);
      assert a * b == a * (b - 1) + a;
    } else if b < 0 {
      ProductIsMultiplication(a, b + 1);
      assert a * b == a * (b + 1) - a;
    }
  }

  /** NatQuot is division on naturals: the quotient q with
      q·b <= a < q·b + b. */
  lemma {:induction false} NatQuotIsDivision(a: nat, b: nat)
    requires b > 0
    ensures NatQuot(a, b) * b <= a < NatQuot(a, b) * b + b
    decreases a
  {
    if a >= b {
      NatQuotIsDivision(a - b, b);
      var q := NatQuot(a - b, b);
      assert (q + 1) * b == q * b + b;
    }
  }

  /** Quot rounds toward zero: it is the quotient of the magnitudes, with
      the sign of the product of the signs, so that |Quot(a, b)·b| <= |a|
      and the remainder a - Quot(a, b)·b has the sign of a. */
  lemma QuotRoundsTowardZero(a: int, b: int)
    requires b != 0
    ensures var q := Quot(a, b);
      && (if (a >= 0) == (b > 0) then q >= 0 else q <= 0)
      && (if a >= 0 then 0 <= a - q * b < (if b > 0 then b else -b)
          else -(if b > 0 then b else -b) < a - q * b <= 0)
  {
    var m, n := if a >= 0 then a else -a, if b > 0 then b else -b;
    NatQuotIsDivision(m, n);
  }

  // ---------------------------------------------------------------------
  // Scalar functions (funcConcat, funcAbs, funcIf)

  /** implode('', ...) of two lists side by side is the two texts side by side. */
  lemma {:induction false} ImplodeAppend(a: seq<Value>, b: seq<Value>)
    ensures Implode(a + b) == Implode(a) + Implode(b)
    decreases |b|
  {
    if b == [] {
      assert a + b == a;
    } else {
      var init := b[..|b| - 1];
      assert (a + b)[..|a + b| - 1] == a + init;
      assert (a + b)[|a + b| - 1] == b[|b| - 1];
      ImplodeAppend(a, init);
    }
  }

  /** The text of a single value. */
  lemma ImplodeOne(x: Value)
    ensures Implode([x]) == ToStr(x)
  {
    assert [x][..0] == [];
  }

  /** CONCAT of two or more arguments is their texts joined without a
      separator: split anywhere, it is the texts of the two parts. */
  lemma ConcatJoins(fname: string, params: seq<Value>, k: nat)
    requires Lower(fname) == "concat" && 0 < k < |params|
    ensures ScalarFunction(fname, params) == Ok(Str(Implode(params[..k]) + Implode(params[k..])))
  {
    assert params == params[..k] + params[k..];
    ImplodeAppend(params[..k], params[k..]);
  }

  /** CONCAT(x, y) is the text of x followed by the text of y. */
  lemma ConcatOfTwo(fname: string, x: Value, y: Value)
    requires Lower(fname) == "concat"
    ensures ScalarFunction(fname, [x, y]) == Ok(Str(ToStr(x) + ToStr(y)))
  {
    ConcatJoins(fname, [x, y], 1);
    assert [x, y][..1] == [x] && [x, y][1..] == [y];
    ImplodeOne(x);
    ImplodeOne(y);
  }

  /** CONCAT of one argument gets that value bare and gives null; CONCAT
      of none is a missing parameter. */
  lemma ConcatOfOne(fname: string, x: Value)
    requires Lower(fname) == "concat"
    ensures ScalarFunction(fname, [x]) == Ok(Null)
    ensures ScalarFunction(fname, []) == Err(BadArguments("concat"))
  {
  }

  /** ABS of one argument is the magnitude of its number; without an
      argument it is a missing parameter. */
  lemma AbsOfOne(fname: string, x: Value)
    requires Lower(fname) == "abs"
    ensures ScalarFunction(fname, [x]).Ok? && ScalarFunction(fname, [x]).value.Int?
    ensures var n := ScalarFunction(fname, [x]).value.i;
      n >= 0 && (n == ToNumber(x) || n == -ToNumber(x))
    ensures ScalarFunction(fname, []) == Err(BadArguments("abs"))
  {
  }

  /** IF picks its second argument when the first is truthy, otherwise its
      third, or null when there is no third. */
  lemma IfSelects(fname: string, params: seq<Value>)
    requires Lower(fname) == "if" && |params| >= 2
    ensures Truthy(params[0]) ==> ScalarFunction(fname, params) == Ok(params[1])
    ensures !Truthy(params[0]) && |params| >= 3 ==> ScalarFunction(fname, params) == Ok(params[2])
    ensures !Truthy(params[0]) && |params| == 2 ==> ScalarFunction(fname, params) == Ok(Null)
  {
  }

  /** Arguments after the third are never read. */
  lemma IfIgnoresExtra(fname: string, params: seq<Value>, extra: seq<Value>)
    requires Lower(fname) == "if" && |params| >= 3
    ensures ScalarFunction(fname, params + extra) == ScalarFunction(fname, params)
  {
    var p := params + extra;
    assert p[0] == params[0] && p[1] == params[1] && p[2] == params[2];
  }

  /** SUBSTR(s, f[, l]) is PHP 7's substr on the text of s and the integers
      read from f and l (0 when l is missing), false where substr gives
      false; fewer than two arguments are refused. */
  lemma SubstrCall(fname: string, params: seq<Value>)
    requires Lower(fname) == "substr"
    ensures |params| < 2 ==> ScalarFunction(fname, params) == Err(BadArguments("substr"))
    ensures |params| >= 2 ==>
      var s := ToStr(params[0]);
      var l := if |params| >= 3 then ToNumber(params[2]) else 0;
      match Substr(s, ToNumber(params[1]), l)
      case Some(part) => ScalarFunction(fname, params) == Ok(Str(part))
      case None => ScalarFunction(fname, params) == Ok(Bool(false))
  {
  }

  /** SUBSTR of a text from a start inside it takes up to l characters from
      there; with the length left out it gives the empty text. */
  lemma SubstrWindow(fname: string, s: string, f: int, l: int)
    requires Lower(fname) == "substr" && 0 <= f <= |s| && l >= 0
    ensures ScalarFunction(fname, [Str(s), Int(f), Int(l)])
            == Ok(Str(s[f..if f + l > |s| then |s| else f + l]))
    ensures ScalarFunction(fname, [Str(s), Int(f)]) == Ok(Str(""))
  {
    SubstrForward(s, f, l);
    SubstrForward(s, f, 0);
    assert s[f..f] == "";
    SubstrCall(fname, [Str(s), Int(f)]);
  }

  /** REPLACE(s, x[, r]) replaces every occurrence of x in s, ignoring
      ASCII case, by r (the empty text when r is missing); fewer than two
      arguments are refused. */
  lemma ReplaceCall(fname: string, params: seq<Value>)
    requires Lower(fname) == "replace"
    ensures |params| < 2 ==> ScalarFunction(fname, params) == Err(BadArguments("replace"))
    ensures |params| >= 2 ==>
      var r := if |params| >= 3 then ToStr(params[2]) else "";
      ScalarFunction(fname, params) == Ok(Str(IReplace(ToStr(params[0]), ToStr(params[1]), r)))
  {
  }

  /** REPLACE leaves a text without the search word alone, and replaces the
      search word itself, in any case, whole. */
  lemma ReplaceMeaning(fname: string, s: string, x: string, r: string)
    requires Lower(fname) == "replace"
    ensures (forall i: nat :: i + |x| <= |s| ==> !MatchesAt(s, x, i)) ==>
              ScalarFunction(fname, [Str(s), Str(x), Str(r)]) == Ok(Str(s))
    ensures x != "" && Lower(s) == Lower(x) ==>
              ScalarFunction(fname, [Str(s), Str(x), Str(r)]) == Ok(Str(r))
  {
    if forall i: nat :: i + |x| <= |s| ==> !MatchesAt(s, x, i) {
      ReplaceWithoutMatch(s, x, r);
    }
    if x != "" && Lower(s) == Lower(x) {
      ReplaceWhole(x, s, r);
    }
  }
}
