/**
 Expressions and conditions (17_expr.c, 06_executor.c:319-579): flat pools of nodes whose
 edges are indices, evaluated over a row in three-valued logic.

 The parser allocates a node after its operands, so every edge points to a smaller index.
 A subquery is a parameter here: the list of values it returned.
 */
module Conditions {
  import opened Common
  import opened Values
  import opened LikePatterns

  const INT_MIN := -0x8000_0000
  const INT_MAX := 0x7FFF_FFFF

  datatype ArithOp = Add | Sub | Mul | Div | Mod

  datatype ExprNode =
    | Column(slot: int)
    | Literal(value: Value)
    | Negate(left: int)
    | Binary(op: ArithOp, left: int, right: int)

  datatype CondNode =
    | Compare(op: CompareOp, left: int, right: int, subquery: int)
    | Not(left: int)
    | And(left: int, right: int)
    | Or(left: int, right: int)

  datatype Condition = Condition(exprs: seq<ExprNode>, nodes: seq<CondNode>)

  /** The first column of each subquery's result. */
  type Subqueries = seq<seq<Value>>

  /** The slots of a row buffer; those past the columns a record filled hold whatever they held before. */
  predicate RowBuffer(row: seq<Value>) {
    |row| == MAX_COLS
  }

  /** A row in a row buffer whose other slots are NULL. */
  function Buffer(row: seq<Value>): (buffer: seq<Value>)
    requires |row| <= MAX_COLS
    ensures RowBuffer(buffer) && row <= buffer
  {
    row + seq(MAX_COLS - |row|, _ => Null(IntType))
  }

  datatype Error = ColumnNotFound | TypeMismatch | DivideByZero | OutOfRange

  /** What an expression comes to: a value, or the reason there is none. */
  type Outcome = Result<Value, Error>

  datatype TriState = False | True | Unknown

  // ---------- how pools are built ----------

  predicate ExprOk(pool: seq<ExprNode>, n: int)
    requires 0 <= n < |pool|
  {
    match pool[n]
    case Negate(left) => 0 <= left < n
    case Binary(_, left, right) => 0 <= left < n && 0 <= right < n
    case _ => true
  }

  predicate PoolOk(pool: seq<ExprNode>) {
    forall n :: 0 <= n < |pool| ==> ExprOk(pool, n)
  }

  predicate CondNodeOk(nodes: seq<CondNode>, n: int, subqueries: nat)
    requires 0 <= n < |nodes|
  {
    match nodes[n]
    case Compare(op, _, right, subquery) =>
      && subquery < subqueries
      && (op.Exists? || op.In? ==> subquery >= 0)
      && (subquery >= 0 ==> right < 0)
    case Not(left) => 0 <= left < n
    case And(left, right) => 0 <= left < n && 0 <= right < n
    case Or(left, right) => 0 <= left < n && 0 <= right < n
  }

  predicate ConditionOk(cond: Condition, subqueries: nat) {
    PoolOk(cond.exprs) && forall n :: 0 <= n < |cond.nodes| ==> CondNodeOk(cond.nodes, n, subqueries)
  }

  // ---------- arithmetic ----------

  function Abs(a: int): nat {
    if a < 0 then -a else a
  }

  /** C's integer division, which rounds toward zero. */
  function Quotient(a: int, b: int): int
    requires b != 0
  {
    if (a < 0) == (b < 0) then Abs(a) / Abs(b) else -(Abs(a) / Abs(b))
  }

  /** C's remainder, which takes the sign of its left operand. */
  function Remainder(a: int, b: int): int
    requires b != 0
  {
    if a < 0 then -(Abs(a) % Abs(b)) else Abs(a) % Abs(b)
  }

  function Checked(result: int): Outcome {
    if result < INT_MIN || result > INT_MAX then Err(OutOfRange) else Ok(Int(result))
  }

  function ApplyInts(op: ArithOp, left: Int32, right: Int32): Outcome {
    match op
    case Add => Checked(left + right)
    case Sub => Checked(left - right)
    case Mul => Checked(left * right)
    case Div =>
      if right == 0 then Err(DivideByZero)
      else if left == INT_MIN && right == -1 then Err(OutOfRange)
      else Checked(Quotient(left, right))
    case Mod =>
      if right == 0 then Err(DivideByZero)
      else if left == INT_MIN && right == -1 then Err(OutOfRange)
      else Checked(Remainder(left, right))
  }

  lemma DivideAbs(a: int, b: int)
    requires b != 0
    ensures Quotient(a, b) * b + Remainder(a, b) == a
    ensures Abs(Remainder(a, b)) < Abs(b)
  {
    var n, d := Abs(a), Abs(b);
    var q, r := n / d, n % d;
    assert n == q * d + r;
    if b > 0 {
      assert (-q) * b == -(q * d);
    } else {
      assert (-q) * b == q * d;
      assert q * b == -(q * d);
    }
  }

  /**
   / and % fail together, exactly on a zero divisor and on the one quotient too large for an
   int, and otherwise they are the division toward zero and its remainder.
   */
  lemma DivisionIsExact(left: Int32, right: Int32)
    ensures var q, r := ApplyInts(Div, left, right), ApplyInts(Mod, left, right);
            && (q.Err? <==> right == 0 || (left == INT_MIN && right == -1)) && (r.Err? <==> q.Err?)
            && (q.Ok? ==>
                  && q.value.Int? && r.value.Int?
                  && q.value.number * right + r.value.number == left
                  && Abs(r.value.number) < Abs(right)
                  && (r.value.number > 0 ==> left > 0) && (r.value.number < 0 ==> left < 0))
  {
    if right != 0 && (left != INT_MIN || right != -1) {
      DivideAbs(left, right);
      QuotientFits(left, right);
    }
  }

  lemma QuotientFits(left: Int32, right: Int32)
    requires right != 0 && (left != INT_MIN || right != -1)
    ensures INT_MIN <= Quotient(left, right) <= INT_MAX
  {
    QuotientBelow(Abs(left), Abs(right));
  }

  lemma QuotientBelow(n: nat, d: nat)
    requires d > 0
    ensures n / d <= n && (d >= 2 ==> 2 * (n / d) <= n)
  {
    var q := n / d;
    assert q * d <= n;
    if d >= 2 {
      assert q * 2 <= q * d;
    } else {
      assert q * d == q;
    }
  }

  // ---------- expressions ----------

  function Evaluate(pool: seq<ExprNode>, node: int, row: seq<Value>): Outcome
    requires PoolOk(pool) && RowBuffer(row)
    decreases node
  {
    if node < 0 || node >= |pool| then Err(ColumnNotFound)
    else
      assert ExprOk(pool, node);
      match pool[node]
      case Column(slot) => if slot < 0 || slot >= MAX_COLS then Err(ColumnNotFound) else Ok(row[slot])
      case Literal(value) => Ok(value)
      case Negate(child) =>
        var left := Evaluate(pool, child, row);
        if left.Err? || left.value.Null? then left
        else if !left.value.Int? then Err(TypeMismatch)
        else ApplyInts(Sub, 0, left.value.number)
      case Binary(op, l, r) =>
        var left := Evaluate(pool, l, row);
        if left.Err? then left
        else
          var right := Evaluate(pool, r, row);
          if right.Err? then right
          else if left.value.Null? then left
          else if right.value.Null? then right
          else if !left.value.Int? || !right.value.Int? then Err(TypeMismatch)
          else ApplyInts(op, left.value.number, right.value.number)
  }

  /** An int the exact result would be, or an error because an int cannot hold it. */
  predicate Exactly(out: Outcome, n: int) {
    if INT_MIN <= n <= INT_MAX then out == Ok(Int(n)) else out == Err(OutOfRange)
  }

  /** q and m are the quotient and remainder of x by y, the remainder on x's side of zero. */
  predicate Divides(x: int, y: int, q: int, m: int) {
    q * y + m == x && Abs(m) < Abs(y) && (m > 0 ==> x > 0) && (m < 0 ==> x < 0)
  }

  /** What an operator makes of two ints. */
  ghost predicate Applied(op: ArithOp, x: int, y: int, out: Outcome) {
    match op
    case Add => Exactly(out, x + y)
    case Sub => Exactly(out, x - y)
    case Mul => Exactly(out, x * y)
    case Div => if y == 0 then out == Err(DivideByZero) else exists q, m :: Divides(x, y, q, m) && Exactly(out, q)
    case Mod =>
      if y == 0 then out == Err(DivideByZero)
      else if x == INT_MIN && y == -1 then out == Err(OutOfRange)
      else exists q, m :: Divides(x, y, q, m) && Exactly(out, m)
  }

  lemma AppliesExactly(op: ArithOp, x: Int32, y: Int32)
    ensures Applied(op, x, y, ApplyInts(op, x, y))
  {
    hide Quotient, Remainder, Abs;
    if (op.Div? || op.Mod?) && y != 0 {
      DivideSides(x, y);
      if x != INT_MIN || y != -1 {
        QuotientFits(x, y);
        RemainderFits(x, y);
      } else {
        LargestQuotient();
      }
    }
  }

  lemma LargestQuotient()
    ensures Quotient(INT_MIN, -1) == 0x8000_0000
  {
  }

  lemma DivideSides(x: int, y: int)
    requires y != 0
    ensures Divides(x, y, Quotient(x, y), Remainder(x, y))
  {
    DivideAbs(x, y);
  }

  lemma RemainderFits(x: Int32, y: Int32)
    requires y != 0
    ensures INT_MIN <= Remainder(x, y) <= INT_MAX
  {
    DivideAbs(x, y);
  }

  /**
   What a binary node comes to: the first operand that fails decides, then the first that is NULL,
   and of two ints it is the operator's exact result, left operand first, or the reason there is none.
   */
  lemma BinaryIs(pool: seq<ExprNode>, node: nat, row: seq<Value>)
    requires PoolOk(pool) && RowBuffer(row) && node < |pool| && pool[node].Binary?
    ensures var Binary(op, l, r) := pool[node];
            var a, b, out := Evaluate(pool, l, row), Evaluate(pool, r, row), Evaluate(pool, node, row);
            if a.Err? then out == a
            else if b.Err? then out == b
            else if a.value.Null? || b.value.Null? then out.Ok? && out.value.Null?
            else if a.value.Int? && b.value.Int? then Applied(op, a.value.number, b.value.number, out)
            else out == Err(TypeMismatch)
  {
    hide Applied;
    assert ExprOk(pool, node);
    var Binary(op, l, r) := pool[node];
    var a, b := Evaluate(pool, l, row), Evaluate(pool, r, row);
    if a.Ok? && b.Ok? && a.value.Int? && b.value.Int? {
      AppliesExactly(op, a.value.number, b.value.number);
    }
  }

  /** A minus sign negates an int, except the one whose negative an int cannot hold. */
  lemma NegateIs(pool: seq<ExprNode>, node: nat, row: seq<Value>)
    requires PoolOk(pool) && RowBuffer(row) && node < |pool| && pool[node].Negate?
    ensures var a, out := Evaluate(pool, pool[node].left, row), Evaluate(pool, node, row);
            && (a.Err? || a.value.Null? ==> out == a)
            && (a.Ok? && a.value.Int? ==> out == if a.value.number == INT_MIN then Err(OutOfRange) else Ok(Int(-a.value.number)))
            && (a.Ok? && (a.value.Text? || a.value.Date?) ==> out == Err(TypeMismatch))
  {
    assert ExprOk(pool, node);
  }

  function ExprDeepest(pool: seq<ExprNode>, node: int): int
    requires PoolOk(pool)
    decreases node
  {
    if node < 0 || node >= |pool| then -1
    else
      assert ExprOk(pool, node);
      match pool[node]
      case Column(slot) => slot
      case Literal(_) => -1
      case Negate(left) => ExprDeepest(pool, left)
      case Binary(_, left, right) => Max(ExprDeepest(pool, left), ExprDeepest(pool, right))
  }

  function Max(a: int, b: int): int {
    if b > a then b else a
  }

  // ---------- comparisons ----------

  function TextOf(v: Value): Bytes {
    if v.Text? then v.text else []
  }

  function Tri(b: bool): TriState {
    if b then True else False
  }

  function ComparePredicate(value: Value, other: Value, op: CompareOp): TriState {
    if op.IsNull? then Tri(value.Null?)
    else if op.IsNotNull? then Tri(!value.Null?)
    else if value.Null? || other.Null? then Unknown
    else if TypeOf(value) != TypeOf(other) then Unknown
    else
      match op
      case Like => Tri(Matches(TextOf(value), TextOf(other)))
      case NotLike => Tri(!Matches(TextOf(value), TextOf(other)))
      case Eq => Tri(ValuesSame(value, other))
      case Ne => Tri(!ValuesSame(value, other))
      case Lt => Tri(CompareValues(value, other) < 0)
      case Lte => Tri(CompareValues(value, other) <= 0)
      case Gt => Tri(CompareValues(value, other) > 0)
      case Gte => Tri(CompareValues(value, other) >= 0)
      case _ => False
  }

  /** x IN (values): TRUE on a match; without one, a NULL on either side makes it UNKNOWN. */
  function ValueIn(value: Value, values: seq<Value>): TriState {
    if value.Null? then Unknown
    else if exists i :: 0 <= i < |values| && ComparePredicate(value, values[i], Eq) == True then True
    else if exists i :: 0 <= i < |values| && values[i].Null? then Unknown
    else False
  }

  /** valueInResult: one pass that stops at a match. */
  method ValueInResult(value: Value, values: seq<Value>) returns (answer: TriState)
    ensures answer == ValueIn(value, values)
  {
    if value.Null? {
      return Unknown;
    }
    var sawNull := false;
    for r := 0 to |values|
      invariant sawNull <==> exists i :: 0 <= i < r && values[i].Null?
      invariant forall i :: 0 <= i < r ==> ComparePredicate(value, values[i], Eq) != True
    {
      if values[r].Null? {
        sawNull := true;
      } else if ComparePredicate(value, values[r], Eq) == True {
        return True;
      }
    }
    answer := if sawNull then Unknown else False;
  }

  /** The OR of equalities that the parser makes of a list: x = a OR x = b OR ... */
  function AnyEqual(value: Value, values: seq<Value>): TriState
    requires values != []
  {
    var last := ComparePredicate(value, values[|values| - 1], Eq);
    if |values| == 1 then last else Disjunction(AnyEqual(value, values[..|values| - 1]), last)
  }

  /** Rewriting IN over a list into that OR is the definition of IN, NULLs included. */
  lemma {:induction false} InListIsOr(value: Value, values: seq<Value>)
    requires values != [] && forall i :: 0 <= i < |values| ==> TypeOf(values[i]) == TypeOf(value)
    ensures AnyEqual(value, values) == ValueIn(value, values)
  {
    var front, last := values[..|values| - 1], values[|values| - 1];
    if |values| > 1 {
      InListIsOr(value, front);
      assert forall i :: 0 <= i < |front| ==> front[i] == values[i];
    }
    assert last == values[|values| - 1];
  }

  // ---------- conditions ----------

  function Negation(a: TriState): TriState {
    match a
    case Unknown => Unknown
    case True => False
    case False => True
  }

  function Conjunction(a: TriState, b: TriState): TriState {
    if a == False || b == False then False else if a == Unknown || b == Unknown then Unknown else True
  }

  function Disjunction(a: TriState, b: TriState): TriState {
    if a == True || b == True then True else if a == Unknown || b == Unknown then Unknown else False
  }

  function EvaluateCompare(cond: Condition, node: int, subs: Subqueries, row: seq<Value>): TriState
    requires ConditionOk(cond, |subs|) && RowBuffer(row) && 0 <= node < |cond.nodes| && cond.nodes[node].Compare?
  {
    assert CondNodeOk(cond.nodes, node, |subs|);
    var Compare(op, l, r, subquery) := cond.nodes[node];
    if op.Exists? then Tri(subs[subquery] != [])
    else
      var left := Evaluate(cond.exprs, l, row);
      if left.Err? then Unknown
      else if op.IsNull? || op.IsNotNull? then ComparePredicate(left.value, left.value, op)
      else if op.In? then ValueIn(left.value, subs[subquery])
      else if subquery >= 0 then
        if subs[subquery] == [] then Unknown else ComparePredicate(left.value, subs[subquery][0], op)
      else
        var right := Evaluate(cond.exprs, r, row);
        if right.Err? then Unknown else ComparePredicate(left.value, right.value, op)
  }

  function EvaluateCondition(cond: Condition, node: int, subs: Subqueries, row: seq<Value>): TriState
    requires ConditionOk(cond, |subs|) && RowBuffer(row) && 0 <= node < |cond.nodes|
    decreases node
  {
    assert CondNodeOk(cond.nodes, node, |subs|);
    match cond.nodes[node]
    case Compare(_, _, _, _) => EvaluateCompare(cond, node, subs, row)
    case Not(left) => Negation(EvaluateCondition(cond, left, subs, row))
    case And(left, right) =>
      Conjunction(EvaluateCondition(cond, left, subs, row), EvaluateCondition(cond, right, subs, row))
    case Or(left, right) =>
      Disjunction(EvaluateCondition(cond, left, subs, row), EvaluateCondition(cond, right, subs, row))
  }

  // ---------- what the answers mean ----------

  /** Comparing values of one type goes by their order, and nothing is comparable with NULL. */
  lemma ComparesByValue(a: Value, b: Value)
    ensures Comparable(a, b) ==>
              && ComparePredicate(a, b, Eq) == Tri(a == b)
              && ComparePredicate(a, b, Lt) == Tri(Lower(a, b)) && ComparePredicate(a, b, Gt) == Tri(Lower(b, a))
              && ComparePredicate(a, b, Lte) == Tri(a == b || Lower(a, b)) && ComparePredicate(a, b, Gte) == Tri(a == b || Lower(b, a))
    ensures !Comparable(a, b) ==>
              forall op: CompareOp :: !op.IsNull? && !op.IsNotNull? ==> ComparePredicate(a, b, op) == Unknown
    ensures ComparePredicate(a, b, IsNull) == Tri(a.Null?)
  {
    hide Lower, Matches, CompareValues;
    if Comparable(a, b) {
      SameIsEqual(a, b);
      CompareIsLower(a, b);
    }
  }

  /** Each operator and its opposite, UNKNOWN together. */
  lemma Opposites(a: Value, b: Value)
    ensures ComparePredicate(a, b, Ne) == Negation(ComparePredicate(a, b, Eq))
    ensures ComparePredicate(a, b, NotLike) == Negation(ComparePredicate(a, b, Like))
    ensures ComparePredicate(a, b, IsNotNull) == Negation(ComparePredicate(a, b, IsNull))
    ensures ComparePredicate(a, b, Gte) == Negation(ComparePredicate(a, b, Lt))
    ensures ComparePredicate(a, b, Lte) == Negation(ComparePredicate(a, b, Gt))
    ensures Comparable(a, b) && a.Text? ==> (ComparePredicate(a, b, Like) == True <==> Matches(a.text, b.text))
  {
    hide Matches, CompareValues;
  }

  /** FALSE, UNKNOWN and TRUE as degrees of truth. */
  function Degree(t: TriState): int {
    match t case False => 0 case Unknown => 1 case True => 2
  }

  /** AND is the lesser degree, OR the greater, and NOT turns the scale round. */
  lemma ThreeValued(cond: Condition, node: nat, subs: Subqueries, row: seq<Value>)
    requires ConditionOk(cond, |subs|) && RowBuffer(row) && node < |cond.nodes| && CondNodeOk(cond.nodes, node, |subs|)
    ensures var d := Degree(EvaluateCondition(cond, node, subs, row));
            match cond.nodes[node]
            case Not(l) => d == 2 - Degree(EvaluateCondition(cond, l, subs, row))
            case And(l, r) =>
              var a, b := Degree(EvaluateCondition(cond, l, subs, row)), Degree(EvaluateCondition(cond, r, subs, row));
              d == if a < b then a else b
            case Or(l, r) => d == Max(Degree(EvaluateCondition(cond, l, subs, row)), Degree(EvaluateCondition(cond, r, subs, row)))
            case Compare(_, _, _, _) => true
  {
  }

  /** The condition in two-valued logic, once each unknown comparison has been guessed one way or the other. */
  ghost predicate Guessed(cond: Condition, node: int, subs: Subqueries, row: seq<Value>, guess: seq<bool>)
    requires ConditionOk(cond, |subs|) && RowBuffer(row) && 0 <= node < |cond.nodes| == |guess|
    decreases node
  {
    assert CondNodeOk(cond.nodes, node, |subs|);
    match cond.nodes[node]
    case Compare(_, _, _, _) =>
      var answer := EvaluateCompare(cond, node, subs, row);
      if answer == Unknown then guess[node] else answer == True
    case Not(left) => !Guessed(cond, left, subs, row, guess)
    case And(left, right) => Guessed(cond, left, subs, row, guess) && Guessed(cond, right, subs, row, guess)
    case Or(left, right) => Guessed(cond, left, subs, row, guess) || Guessed(cond, right, subs, row, guess)
  }

  /** TRUE and FALSE are certain: they hold in two-valued logic whatever the unknown comparisons were. */
  lemma {:induction false} KnownIsCertain(cond: Condition, node: int, subs: Subqueries, row: seq<Value>, guess: seq<bool>)
    requires ConditionOk(cond, |subs|) && RowBuffer(row) && 0 <= node < |cond.nodes| == |guess|
    ensures EvaluateCondition(cond, node, subs, row) == True ==> Guessed(cond, node, subs, row, guess)
    ensures EvaluateCondition(cond, node, subs, row) == False ==> !Guessed(cond, node, subs, row, guess)
    decreases node
  {
    hide EvaluateCompare;
    assert CondNodeOk(cond.nodes, node, |subs|);
    match cond.nodes[node]
    case Not(left) => KnownIsCertain(cond, left, subs, row, guess);
    case And(left, right) =>
      KnownIsCertain(cond, left, subs, row, guess);
      KnownIsCertain(cond, right, subs, row, guess);
    case Or(left, right) =>
      KnownIsCertain(cond, left, subs, row, guess);
      KnownIsCertain(cond, right, subs, row, guess);
    case Compare(_, _, _, _) =>
  }

  /** The value a subquery stands for in a comparison: the first of its rows, or NULL when it has none. */
  function Scalar(values: seq<Value>): Value {
    if values == [] then Null(IntType) else values[0]
  }

  lemma SubqueryCompares(cond: Condition, node: nat, subs: Subqueries, row: seq<Value>)
    requires ConditionOk(cond, |subs|) && RowBuffer(row) && node < |cond.nodes| && cond.nodes[node].Compare?
    requires var op := cond.nodes[node].op; cond.nodes[node].subquery >= 0 && !op.In? && !op.Exists? && !op.IsNull? && !op.IsNotNull?
    ensures CondNodeOk(cond.nodes, node, |subs|)
    ensures var left := Evaluate(cond.exprs, cond.nodes[node].left, row);
            EvaluateCondition(cond, node, subs, row)
            == if left.Err? then Unknown else ComparePredicate(left.value, Scalar(subs[cond.nodes[node].subquery]), cond.nodes[node].op)
  {
    assert CondNodeOk(cond.nodes, node, |subs|);
  }

  /** An operand that cannot be computed makes its comparison UNKNOWN, and the row is judged all the same. */
  lemma UncomputableIsUnknown(cond: Condition, node: nat, subs: Subqueries, row: seq<Value>)
    requires ConditionOk(cond, |subs|) && RowBuffer(row) && node < |cond.nodes| && cond.nodes[node].Compare?
    requires !cond.nodes[node].op.Exists?
    ensures var Compare(op, l, r, subquery) := cond.nodes[node];
            var single := op.IsNull? || op.IsNotNull? || subquery >= 0;
            (Evaluate(cond.exprs, l, row).Err? || (!single && Evaluate(cond.exprs, r, row).Err?)) ==>
              EvaluateCondition(cond, node, subs, row) == Unknown
  {
    assert CondNodeOk(cond.nodes, node, |subs|);
  }

  /** Alike but for the type a NULL carries. */
  ghost predicate AlikeRows(a: seq<Value>, b: seq<Value>) {
    |a| == |b| && forall c :: 0 <= c < |a| ==> Alike(a[c], b[c])
  }

  predicate Alike(a: Value, b: Value) {
    if a.Null? || b.Null? then a.Null? && b.Null? else a == b
  }

  predicate AlikeOutcomes(a: Outcome, b: Outcome) {
    if a.Ok? && b.Ok? then Alike(a.value, b.value) else a == b
  }

  lemma {:induction false} EvaluatesAlike(pool: seq<ExprNode>, node: int, a: seq<Value>, b: seq<Value>)
    requires PoolOk(pool) && RowBuffer(a) && RowBuffer(b) && AlikeRows(a, b)
    ensures AlikeOutcomes(Evaluate(pool, node, a), Evaluate(pool, node, b))
    decreases node
  {
    hide ApplyInts;
    if 0 <= node < |pool| {
      assert ExprOk(pool, node);
      match pool[node]
      case Negate(left) => EvaluatesAlike(pool, left, a, b);
      case Binary(_, left, right) =>
        EvaluatesAlike(pool, left, a, b);
        EvaluatesAlike(pool, right, a, b);
      case _ =>
    }
  }

  lemma ComparesAlike(a: Value, b: Value, x: Value, y: Value, op: CompareOp)
    requires Alike(a, b) && Alike(x, y)
    ensures ComparePredicate(a, x, op) == ComparePredicate(b, y, op)
  {
    hide Matches, CompareValues;
  }

  /** The type a record forgets of a NULL changes no verdict. */
  lemma {:induction false} VerdictIgnoresNullType(cond: Condition, node: int, subs: Subqueries, a: seq<Value>, b: seq<Value>)
    requires ConditionOk(cond, |subs|) && RowBuffer(a) && RowBuffer(b) && 0 <= node < |cond.nodes| && AlikeRows(a, b)
    ensures EvaluateCondition(cond, node, subs, a) == EvaluateCondition(cond, node, subs, b)
    decreases node
  {
    hide ComparePredicate, Evaluate;
    assert CondNodeOk(cond.nodes, node, |subs|);
    match cond.nodes[node]
    case Not(left) => VerdictIgnoresNullType(cond, left, subs, a, b);
    case And(left, right) =>
      VerdictIgnoresNullType(cond, left, subs, a, b);
      VerdictIgnoresNullType(cond, right, subs, a, b);
    case Or(left, right) =>
      VerdictIgnoresNullType(cond, left, subs, a, b);
      VerdictIgnoresNullType(cond, right, subs, a, b);
    case Compare(op, l, r, subquery) =>
      EvaluatesAlike(cond.exprs, l, a, b);
      EvaluatesAlike(cond.exprs, r, a, b);
      var x, y := Evaluate(cond.exprs, l, a), Evaluate(cond.exprs, l, b);
      forall v: Value, w: Value, o: CompareOp | x.Ok? && y.Ok? && Alike(v, w)
        ensures ComparePredicate(x.value, v, o) == ComparePredicate(y.value, w, o)
      {
        ComparesAlike(x.value, y.value, v, w, o);
      }
  }

  // ---------- how deep a condition reads ----------

  /** Two rows that a reader of columns 0 to `upto` cannot tell apart. */
  ghost predicate SameTo(a: seq<Value>, b: seq<Value>, upto: int)
    requires RowBuffer(a) && RowBuffer(b)
  {
    forall c :: 0 <= c < MAX_COLS && c <= upto ==> a[c] == b[c]
  }

  lemma {:induction false} ExprReadsOnlyTo(pool: seq<ExprNode>, node: int, a: seq<Value>, b: seq<Value>, upto: int)
    requires PoolOk(pool) && RowBuffer(a) && RowBuffer(b) && SameTo(a, b, upto) && ExprDeepest(pool, node) <= upto
    ensures Evaluate(pool, node, a) == Evaluate(pool, node, b)
    decreases node
  {
    if 0 <= node < |pool| {
      assert ExprOk(pool, node);
      match pool[node]
      case Negate(left) => ExprReadsOnlyTo(pool, left, a, b, upto);
      case Binary(_, left, right) =>
        ExprReadsOnlyTo(pool, left, a, b, upto);
        ExprReadsOnlyTo(pool, right, a, b, upto);
      case _ =>
    }
  }

  /** No comparison among the first n nodes reads a column past `upto`. */
  ghost predicate ReadsTo(cond: Condition, n: nat, upto: int)
    requires PoolOk(cond.exprs) && n <= |cond.nodes|
  {
    forall i :: 0 <= i < n && cond.nodes[i].Compare? ==>
      ExprDeepest(cond.exprs, cond.nodes[i].left) <= upto && ExprDeepest(cond.exprs, cond.nodes[i].right) <= upto
  }

  /** conditionDeepest: the least bound on what the comparisons read. */
  method ConditionDeepest(cond: Condition) returns (deepest: int)
    requires PoolOk(cond.exprs)
    ensures ReadsTo(cond, |cond.nodes|, deepest)
    ensures forall upto :: upto >= -1 && ReadsTo(cond, |cond.nodes|, upto) ==> deepest <= upto
  {
    deepest := -1;
    for i := 0 to |cond.nodes|
      invariant ReadsTo(cond, i, deepest)
      invariant forall upto :: upto >= -1 && ReadsTo(cond, |cond.nodes|, upto) ==> deepest <= upto
    {
      if cond.nodes[i].Compare? {
        var left := ExprDeepest(cond.exprs, cond.nodes[i].left);
        var right := ExprDeepest(cond.exprs, cond.nodes[i].right);
        if left > deepest {
          deepest := left;
        }
        if right > deepest {
          deepest := right;
        }
      }
    }
  }

  /** Nothing under this node reads a column past `upto`. */
  ghost predicate NodeReadsTo(cond: Condition, node: int, subqueries: nat, upto: int)
    requires ConditionOk(cond, subqueries) && 0 <= node < |cond.nodes|
    decreases node
  {
    assert CondNodeOk(cond.nodes, node, subqueries);
    match cond.nodes[node]
    case Compare(_, left, right, _) =>
      ExprDeepest(cond.exprs, left) <= upto && ExprDeepest(cond.exprs, right) <= upto
    case Not(left) => NodeReadsTo(cond, left, subqueries, upto)
    case And(left, right) => NodeReadsTo(cond, left, subqueries, upto) && NodeReadsTo(cond, right, subqueries, upto)
    case Or(left, right) => NodeReadsTo(cond, left, subqueries, upto) && NodeReadsTo(cond, right, subqueries, upto)
  }

  lemma {:induction false} NodeReadsOnlyTo(cond: Condition, node: int, subs: Subqueries,
                                           a: seq<Value>, b: seq<Value>, upto: int)
    requires ConditionOk(cond, |subs|) && RowBuffer(a) && RowBuffer(b) && 0 <= node < |cond.nodes|
    requires SameTo(a, b, upto) && NodeReadsTo(cond, node, |subs|, upto)
    ensures EvaluateCondition(cond, node, subs, a) == EvaluateCondition(cond, node, subs, b)
    decreases node
  {
    assert CondNodeOk(cond.nodes, node, |subs|);
    match cond.nodes[node]
    case Compare(_, left, right, _) =>
      ExprReadsOnlyTo(cond.exprs, left, a, b, upto);
      ExprReadsOnlyTo(cond.exprs, right, a, b, upto);
    case Not(left) => NodeReadsOnlyTo(cond, left, subs, a, b, upto);
    case And(left, right) =>
      NodeReadsOnlyTo(cond, left, subs, a, b, upto);
      NodeReadsOnlyTo(cond, right, subs, a, b, upto);
    case Or(left, right) =>
      NodeReadsOnlyTo(cond, left, subs, a, b, upto);
      NodeReadsOnlyTo(cond, right, subs, a, b, upto);
  }

  lemma {:induction false} PoolReadsNode(cond: Condition, node: int, subqueries: nat, upto: int)
    requires ConditionOk(cond, subqueries) && 0 <= node < |cond.nodes| && ReadsTo(cond, |cond.nodes|, upto)
    ensures NodeReadsTo(cond, node, subqueries, upto)
    decreases node
  {
    assert CondNodeOk(cond.nodes, node, subqueries);
    match cond.nodes[node]
    case Compare(_, _, _, _) =>
    case Not(left) => PoolReadsNode(cond, left, subqueries, upto);
    case And(left, right) =>
      PoolReadsNode(cond, left, subqueries, upto);
      PoolReadsNode(cond, right, subqueries, upto);
    case Or(left, right) =>
      PoolReadsNode(cond, left, subqueries, upto);
      PoolReadsNode(cond, right, subqueries, upto);
  }

  /** A row decoded no further than the deepest column gets the same verdict as the whole row. */
  lemma ConditionReadsOnlyTo(cond: Condition, node: int, subs: Subqueries, a: seq<Value>, b: seq<Value>, upto: int)
    requires ConditionOk(cond, |subs|) && RowBuffer(a) && RowBuffer(b) && 0 <= node < |cond.nodes|
    requires SameTo(a, b, upto) && ReadsTo(cond, |cond.nodes|, upto)
    ensures EvaluateCondition(cond, node, subs, a) == EvaluateCondition(cond, node, subs, b)
  {
    PoolReadsNode(cond, node, |subs|, upto);
    NodeReadsOnlyTo(cond, node, subs, a, b, upto);
  }

  // ---------- the AND spine ----------

  predicate IsColumn(pool: seq<ExprNode>, node: int) {
    0 <= node < |pool| && pool[node].Column?
  }

  predicate IsLiteral(pool: seq<ExprNode>, node: int) {
    0 <= node < |pool| && pool[node].Literal?
  }

  /** Whether likePrefix copies anything. */
  predicate HasPrefix(pattern: Bytes) {
    pattern != [] && LikePatterns.Literal(pattern[0])
  }

  /** Which it does exactly when the pattern's literal head is not empty. */
  lemma HasPrefixIs(pattern: Bytes, n: nat)
    requires LiteralHead(pattern, n)
    ensures n > 0 <==> HasPrefix(pattern)
  {
  }

  /** A comparison an index on one of `indexed` can narrow. */
  predicate Seekable(cond: Condition, node: int, indexed: set<int>)
    requires 0 <= node < |cond.nodes| && cond.nodes[node].Compare?
  {
    var Compare(op, l, r, _) := cond.nodes[node];
    && IsColumn(cond.exprs, l) && IsLiteral(cond.exprs, r)
    && cond.exprs[l].slot in indexed
    && (Indexable(op) || (op.Like? && HasPrefix(TextOf(cond.exprs[r].value))))
  }

  /** findIndexableLeaf: the first seekable comparison on the AND spine, or -1. */
  function FindIndexableLeaf(cond: Condition, node: int, indexed: set<int>, subqueries: nat): (leaf: int)
    requires ConditionOk(cond, subqueries) && 0 <= node < |cond.nodes|
    ensures -1 <= leaf <= node
    ensures leaf >= 0 ==> cond.nodes[leaf].Compare? && Seekable(cond, leaf, indexed)
    decreases node
  {
    assert CondNodeOk(cond.nodes, node, subqueries);
    match cond.nodes[node]
    case Compare(_, _, _, _) => if Seekable(cond, node, indexed) then node else -1
    case And(left, right) =>
      var leaf := FindIndexableLeaf(cond, left, indexed, subqueries);
      if leaf >= 0 then leaf else FindIndexableLeaf(cond, right, indexed, subqueries)
    case _ => -1
  }

  /** Node n is one of the parts that the ANDs above it put together. */
  ghost predicate OnSpine(cond: Condition, node: int, n: int, subqueries: nat)
    requires ConditionOk(cond, subqueries) && 0 <= node < |cond.nodes|
    decreases node
  {
    assert CondNodeOk(cond.nodes, node, subqueries);
    n == node ||
    match cond.nodes[node]
    case And(left, right) => OnSpine(cond, left, n, subqueries) || OnSpine(cond, right, n, subqueries)
    case _ => false
  }

  /** It finds one exactly when there is one. */
  lemma {:induction false} LeafFound(cond: Condition, node: int, indexed: set<int>, subqueries: nat)
    requires ConditionOk(cond, subqueries) && 0 <= node < |cond.nodes|
    ensures FindIndexableLeaf(cond, node, indexed, subqueries) >= 0
       <==> exists n :: 0 <= n < |cond.nodes| && OnSpine(cond, node, n, subqueries)
                        && cond.nodes[n].Compare? && Seekable(cond, n, indexed)
    ensures var leaf := FindIndexableLeaf(cond, node, indexed, subqueries);
            leaf >= 0 ==> OnSpine(cond, node, leaf, subqueries)
    decreases node
  {
    hide Seekable;
    assert CondNodeOk(cond.nodes, node, subqueries);
    match cond.nodes[node]
    case And(left, right) =>
      LeafFound(cond, left, indexed, subqueries);
      LeafFound(cond, right, indexed, subqueries);
      forall n | 0 <= n < |cond.nodes|
        ensures OnSpine(cond, node, n, subqueries)
           <==> n == node || OnSpine(cond, left, n, subqueries) || OnSpine(cond, right, n, subqueries)
      {
      }
    case _ => SpineOfOne(cond, node, subqueries);
  }

  /** A row the whole condition accepts is one the chosen comparison accepts. */
  lemma {:induction false} LeafNarrows(cond: Condition, node: int, indexed: set<int>, subs: Subqueries, row: seq<Value>)
    requires ConditionOk(cond, |subs|) && RowBuffer(row) && 0 <= node < |cond.nodes|
    requires EvaluateCondition(cond, node, subs, row) == True
    ensures var leaf := FindIndexableLeaf(cond, node, indexed, |subs|);
            leaf >= 0 ==> EvaluateCondition(cond, leaf, subs, row) == True
    decreases node
  {
    assert CondNodeOk(cond.nodes, node, |subs|);
    match cond.nodes[node]
    case And(left, right) =>
      LeafNarrows(cond, left, indexed, subs, row);
      LeafNarrows(cond, right, indexed, subs, row);
    case _ =>
  }

  /** What a seekable comparison being true says of the row's own value. */
  lemma SeekableIsComparison(cond: Condition, leaf: int, indexed: set<int>, subs: Subqueries, row: seq<Value>)
    requires ConditionOk(cond, |subs|) && RowBuffer(row) && 0 <= leaf < |cond.nodes|
    requires cond.nodes[leaf].Compare? && Seekable(cond, leaf, indexed)
    requires EvaluateCondition(cond, leaf, subs, row) == True
    ensures var Compare(op, l, r, _) := cond.nodes[leaf];
            var slot := cond.exprs[l].slot;
            0 <= slot < MAX_COLS && ComparePredicate(row[slot], cond.exprs[r].value, op) == True
  {
    assert CondNodeOk(cond.nodes, leaf, |subs|);
    assert ExprOk(cond.exprs, cond.nodes[leaf].left);
  }

  /** The equality a hash join is keyed on: its column in each table. */
  datatype EquiJoin = NoEquiJoin | EquiJoin(node: nat, probeSlot: nat, buildSlot: nat)

  function EquiJoinAt(cond: Condition, node: nat, split: nat): EquiJoin
    requires node < |cond.nodes| && cond.nodes[node].Compare?
  {
    var Compare(op, l, r, _) := cond.nodes[node];
    if !op.Eq? || !IsColumn(cond.exprs, l) || !IsColumn(cond.exprs, r) then NoEquiJoin
    else
      var left, right := cond.exprs[l].slot, cond.exprs[r].slot;
      if left < 0 || right < 0 then NoEquiJoin
      else if left < split <= right then EquiJoin(node, left, right - split)
      else if right < split <= left then EquiJoin(node, right, left - split)
      else NoEquiJoin
  }

  /** findEquiJoin: the first such equality on the AND spine. */
  function FindEquiJoin(cond: Condition, node: int, split: nat, subqueries: nat): EquiJoin
    requires ConditionOk(cond, subqueries) && 0 <= node < |cond.nodes|
    decreases node
  {
    assert CondNodeOk(cond.nodes, node, subqueries);
    match cond.nodes[node]
    case Compare(_, _, _, _) => EquiJoinAt(cond, node, split)
    case And(left, right) =>
      var found := FindEquiJoin(cond, left, split, subqueries);
      if found.EquiJoin? then found else FindEquiJoin(cond, right, split, subqueries)
    case _ => NoEquiJoin
  }

  /** An equality of two columns, one on either side of the split. */
  ghost predicate CrossEquality(cond: Condition, n: int, split: nat)
    requires 0 <= n < |cond.nodes|
  {
    && cond.nodes[n].Compare? && cond.nodes[n].op.Eq?
    && IsColumn(cond.exprs, cond.nodes[n].left) && IsColumn(cond.exprs, cond.nodes[n].right)
    && var a, b := cond.exprs[cond.nodes[n].left].slot, cond.exprs[cond.nodes[n].right].slot;
       0 <= a < split <= b || 0 <= b < split <= a
  }

  /** A key is found exactly when the spine has such an equality, and then it is that equality's columns. */
  lemma {:induction false} EquiJoinFound(cond: Condition, node: int, split: nat, subqueries: nat)
    requires ConditionOk(cond, subqueries) && 0 <= node < |cond.nodes|
    ensures FindEquiJoin(cond, node, split, subqueries).EquiJoin?
       <==> exists n :: 0 <= n < |cond.nodes| && OnSpine(cond, node, n, subqueries) && CrossEquality(cond, n, split)
    ensures var found := FindEquiJoin(cond, node, split, subqueries);
            found.EquiJoin? ==>
              && found.node < |cond.nodes| && OnSpine(cond, node, found.node, subqueries) && CrossEquality(cond, found.node, split)
              && {cond.exprs[cond.nodes[found.node].left].slot, cond.exprs[cond.nodes[found.node].right].slot}
                 == {found.probeSlot as int, split + found.buildSlot}
    decreases node
  {
    assert CondNodeOk(cond.nodes, node, subqueries);
    match cond.nodes[node]
    case And(left, right) =>
      EquiJoinFound(cond, left, split, subqueries);
      EquiJoinFound(cond, right, split, subqueries);
      forall n | 0 <= n < |cond.nodes|
        ensures OnSpine(cond, node, n, subqueries)
           <==> n == node || OnSpine(cond, left, n, subqueries) || OnSpine(cond, right, n, subqueries)
      {
      }
    case Compare(_, _, _, _) =>
      EquiJoinAtIs(cond, node, split);
      SpineOfOne(cond, node, subqueries);
    case _ => SpineOfOne(cond, node, subqueries);
  }

  lemma EquiJoinAtIs(cond: Condition, node: nat, split: nat)
    requires node < |cond.nodes| && cond.nodes[node].Compare?
    ensures var found := EquiJoinAt(cond, node, split);
            && (found.EquiJoin? <==> CrossEquality(cond, node, split))
            && (found.EquiJoin? ==>
                  && found.node == node
                  && {cond.exprs[cond.nodes[node].left].slot, cond.exprs[cond.nodes[node].right].slot}
                     == {found.probeSlot as int, split + found.buildSlot})
  {
  }

  lemma SpineOfOne(cond: Condition, node: int, subqueries: nat)
    requires ConditionOk(cond, subqueries) && 0 <= node < |cond.nodes| && !cond.nodes[node].And?
    ensures forall n :: OnSpine(cond, node, n, subqueries) <==> n == node
  {
  }

  /** A pair the whole condition accepts shares a key, and a key that is not NULL. */
  lemma {:induction false} EquiJoinNeeded(cond: Condition, node: int, split: nat, subs: Subqueries, row: seq<Value>)
    requires ConditionOk(cond, |subs|) && RowBuffer(row) && 0 <= node < |cond.nodes|
    requires EvaluateCondition(cond, node, subs, row) == True
    ensures var found := FindEquiJoin(cond, node, split, |subs|);
            found.EquiJoin? ==>
              && found.probeSlot < split && split + found.buildSlot < MAX_COLS
              && !row[found.probeSlot].Null? && row[found.probeSlot] == row[split + found.buildSlot]
    decreases node
  {
    assert CondNodeOk(cond.nodes, node, |subs|);
    match cond.nodes[node]
    case And(left, right) =>
      EquiJoinNeeded(cond, left, split, subs, row);
      EquiJoinNeeded(cond, right, split, subs, row);
    case Compare(op, l, r, _) =>
      if EquiJoinAt(cond, node, split).EquiJoin? {
        var a, b := Evaluate(cond.exprs, l, row).value, Evaluate(cond.exprs, r, row).value;
        SameIsEqual(a, b);
      }
    case _ =>
  }
}
