/** Sharding expressions: the tokenizer and the two-stack evaluator over uint32 that turn a
    partition key into a shard number (class ShardOperatorMgr). */
module ShardExpression {
  import opened Arithmetic
  import BitOperations
  import opened Words

  /** Outcomes of the two entry points.  Undefined stands for what C++ leaves undefined: division
      by zero, a shift by 32 or more, and top() or pop() of an empty stack. */
  datatype Result<+T> = Ok(value: T) | ComputeError | InputError | Undefined

  // ----- The nine operators

  datatype Op = Mod | Mul | Div | Add | Sub | Shl | Shr | And | Or

  function Symbol(op: Op): string {
    match op
    case Mod => "%"
    case Mul => "*"
    case Div => "/"
    case Add => "+"
    case Sub => "-"
    case Shl => "<<"
    case Shr => ">>"
    case And => "&"
    case Or => "|"
  }

  /** The priority table: a larger number binds less tightly. */
  function Priority(op: Op): int {
    match op
    case Mod | Mul | Div => 3
    case Add | Sub => 4
    case Shl | Shr => 5
    case And => 8
    case Or => 10
  }

  const PAREN_PRIORITY := 256

  function Quotient(a: u32, b: int): (q: u32)
    requires b > 0
  {
    QuotientShrinks(a, b);
    a / b
  }

  function Apply(op: Op, a: u32, b: u32): Result<u32> {
    match op
    case And => Ok(BitOperations.And(a, b))
    case Or => BitOperations.BytePowers(); BitOperations.OrFits(a, b, 32); Ok(BitOperations.Or(a, b))
    case Shr => if b >= 32 then Undefined else Ok(Quotient(a, Pow2(b)))
    case Shl => if b >= 32 then Undefined else Ok(a * Pow2(b) % TWO32)
    case Mod => if b == 0 then Undefined else Ok(a % b)
    case Add => Ok((a + b) % TWO32)
    case Sub => Ok((a - b) % TWO32)
    case Mul => Ok(a * b % TWO32)
    case Div => if b == 0 then Undefined else Ok(Quotient(a, b))
  }

  // ----- Tokens

  predicate IsDigit(c: char) {
    '0' <= c <= '9'
  }

  /** The value of a numeral, computed digit by digit in uint32. */
  function Decimal(s: string): u32 {
    if s == "" then 0
    else (Decimal(s[..|s| - 1]) * 10 + (s[|s| - 1] as int - '0' as int)) % TWO32
  }

  datatype Token = Number(value: u32) | Argument | Open | Close | Operator(op: Op) | Unsupported

  /** The case analysis of evaluate on one token. */
  function Classify(s: string): Token {
    if s == "" then Unsupported
    else if IsDigit(s[0]) then Number(Decimal(s))
    else if s == "$" then Argument
    else if s == "(" then Open
    else if s == ")" then Close
    else if s == "%" then Operator(Mod)
    else if s == "*" then Operator(Mul)
    else if s == "/" then Operator(Div)
    else if s == "+" then Operator(Add)
    else if s == "-" then Operator(Sub)
    else if s == "<<" then Operator(Shl)
    else if s == ">>" then Operator(Shr)
    else if s == "&" then Operator(And)
    else if s == "|" then Operator(Or)
    else Unsupported
  }

  // ----- The evaluator

  datatype Entry = Paren | Pending(op: Op)

  function EntryPriority(e: Entry): int {
    match e
    case Paren => PAREN_PRIORITY
    case Pending(op) => Priority(op)
  }

  /** The two stacks, tops last. */
  datatype Stacks = Stacks(data: seq<u32>, ops: seq<Entry>)

  /** _compute: the top operator consumes the two top data. */
  function Compute(s: Stacks): Result<Stacks> {
    var n, m := |s.data|, |s.ops|;
    if n < 2 || m == 0 || s.ops[m - 1].Paren? then ComputeError
    else match Apply(s.ops[m - 1].op, s.data[n - 2], s.data[n - 1])
      case Ok(v) => Ok(Stacks(s.data[..n - 2] + [v], s.ops[..m - 1]))
      case _ => Undefined
  }

  /** Compute for as long as the top operator's priority number is at most `limit`.  The three
      loops of evaluate have the limits of the incoming operator, of everything above a
      parenthesis, and of everything. */
  function Reduce(limit: int, s: Stacks): Result<Stacks>
    decreases |s.ops|
  {
    if s.ops == [] || limit < EntryPriority(s.ops[|s.ops| - 1]) then Ok(s)
    else match Compute(s)
      case Ok(t) => Reduce(limit, t)
      case ComputeError => ComputeError
      case InputError => InputError
      case Undefined => Undefined
  }

  function ReduceOutcome(limit: int, r: Result<Stacks>): Result<Stacks> {
    if r.Ok? then Reduce(limit, r.value) else r
  }

  function Step(token: Token, arg: u32, s: Stacks): Result<Stacks> {
    match token
    case Number(v) => Ok(s.(data := s.data + [v]))
    case Argument => Ok(s.(data := s.data + [arg]))
    case Open => Ok(s.(ops := s.ops + [Paren]))
    case Close =>
      var r := Reduce(PAREN_PRIORITY - 1, s);
      if !r.Ok? then r
      else if r.value.ops == [] then Undefined
      else Ok(r.value.(ops := r.value.ops[..|r.value.ops| - 1]))
    case Operator(op) =>
      var r := Reduce(Priority(op), s);
      if !r.Ok? then r else Ok(r.value.(ops := r.value.ops + [Pending(op)]))
    case Unsupported => ComputeError
  }

  function Run(tokens: seq<string>, arg: u32, s: Stacks): Result<Stacks>
    decreases |tokens|
  {
    if tokens == [] then Ok(s)
    else
      var r := Step(Classify(tokens[0]), arg, s);
      if r.Ok? then Run(tokens[1..], arg, r.value) else r
  }

  /** What evaluate returns. */
  function Evaluated(tokens: seq<string>, arg: u32): Result<u32> {
    if tokens == [] then InputError
    else match ReduceOutcome(PAREN_PRIORITY, Run(tokens, arg, Stacks([], [])))
      case Ok(s) => if s.data == [] then Undefined else Ok(s.data[|s.data| - 1])
      case ComputeError => ComputeError
      case InputError => InputError
      case Undefined => Undefined
  }

  // ----- Expressions

  datatype Expr = Lit(n: nat) | Arg | Group(e: Expr) | Bin(op: Op, l: Expr, r: Expr)

  /** The grammar of expressions, from the operator that binds least.  On each level the operators
      associate to the left: what stands to the right of one is of the next level. */
  predicate IsOr(e: Expr)
    decreases e, 5
  {
    IsAnd(e) || (e.Bin? && e.op == Or && IsOr(e.l) && IsAnd(e.r))
  }

  predicate IsAnd(e: Expr)
    decreases e, 4
  {
    IsShift(e) || (e.Bin? && e.op == And && IsAnd(e.l) && IsShift(e.r))
  }

  predicate IsShift(e: Expr)
    decreases e, 3
  {
    IsSum(e) || (e.Bin? && (e.op == Shl || e.op == Shr) && IsShift(e.l) && IsSum(e.r))
  }

  predicate IsSum(e: Expr)
    decreases e, 2
  {
    IsTerm(e) || (e.Bin? && (e.op == Add || e.op == Sub) && IsSum(e.l) && IsTerm(e.r))
  }

  predicate IsTerm(e: Expr)
    decreases e, 1
  {
    IsFactor(e) || (e.Bin? && (e.op == Mul || e.op == Div || e.op == Mod) && IsTerm(e.l) && IsFactor(e.r))
  }

  predicate IsFactor(e: Expr)
    decreases e, 0
  {
    e.Lit? || e.Arg? || (e.Group? && IsOr(e.e))
  }

  /** The expressions that split can read back: literals do not start with 0, and "|" is not lexed. */
  predicate Splittable(e: Expr) {
    match e
    case Lit(n) => n > 0
    case Arg => true
    case Group(b) => Splittable(b)
    case Bin(op, l, r) => op != Or && Splittable(l) && Splittable(r)
  }

  /** The value of an expression: every operator on uint32, undefined if any operation is. */
  function ValueOf(e: Expr, arg: u32): Result<u32> {
    match e
    case Lit(n) => Ok(n % TWO32)
    case Arg => Ok(arg)
    case Group(b) => ValueOf(b, arg)
    case Bin(op, l, r) =>
      match (ValueOf(l, arg), ValueOf(r, arg))
      case (Ok(a), Ok(b)) => Apply(op, a, b)
      case _ => Undefined
  }

  function Numeral(n: nat): string {
    if n < 10 then [Digit(n)] else Numeral(n / 10) + [Digit(n % 10)]
  }

  function Digit(d: nat): char
    requires d < 10
  {
    '0' + d as char
  }

  /** The text of an expression. */
  function Tokens(e: Expr): (ts: seq<string>)
    ensures ts != []
  {
    match e
    case Lit(n) => [Numeral(n)]
    case Arg => ["$"]
    case Group(b) => ["("] + Tokens(b) + [")"]
    case Bin(op, l, r) => Tokens(l) + [Symbol(op)] + Tokens(r)
  }

  /** What the operators compute on uint32, and where they are defined. */
  lemma SumsWrapAround(a: u32, b: u32)
    ensures Apply(Add, a, b) == Ok(if a + b < TWO32 then a + b else a + b - TWO32)
    ensures Apply(Sub, a, b) == Ok(if a >= b then a - b else a - b + TWO32)
  {
  }

  lemma ProductIsCut(a: u32, b: u32) returns (k: int)
    ensures Apply(Mul, a, b).Ok? && Apply(Mul, a, b).value + k * TWO32 == a * b
  {
    k := a * b / TWO32;
  }

  lemma QuotientAndRemainder(a: u32, b: u32)
    ensures Apply(Div, a, b).Ok? <==> b != 0
    ensures Apply(Mod, a, b).Ok? <==> b != 0
    ensures b != 0 ==> Apply(Div, a, b).value * b + Apply(Mod, a, b).value == a && Apply(Mod, a, b).value < b
  {
    if b != 0 {
      assert a / b * b + a % b == a;
    }
  }

  lemma ShiftsMoveBits(a: u32, b: u32) returns (k: int)
    ensures Apply(Shl, a, b).Ok? <==> b < 32
    ensures Apply(Shr, a, b).Ok? <==> b < 32
    ensures b < 32 ==> Apply(Shl, a, b).value + k * TWO32 == BitOperations.ShiftLeft(a, b)
    ensures b < 32 ==> Apply(Shr, a, b).value == BitOperations.ShiftRight(a, b)
  {
    hide BitOperations.ShiftRight, Pow2;
    var p := if b < 32 then Pow2(b) else 1;
    k := a * p / TWO32;
    assert a * p % TWO32 + k * TWO32 == a * p;
    if b < 32 {
      var q, r := a / p, a % p;
      assert a == q * p + r;
      QuotientAtLeast(a, p, 0);
      BitOperations.ShiftDrops(q, r, b);
    }
  }

  lemma BitwiseOperators(a: u32, b: u32, i: nat)
    ensures Apply(And, a, b).Ok? && Apply(Or, a, b).Ok?
    ensures BitOperations.Bit(Apply(And, a, b).value, i) <==> BitOperations.Bit(a, i) && BitOperations.Bit(b, i)
    ensures BitOperations.Bit(Apply(Or, a, b).value, i) <==> BitOperations.Bit(a, i) || BitOperations.Bit(b, i)
  {
    hide BitOperations.And, BitOperations.Or, BitOperations.Bit;
    BitOperations.AndBit(a, b, i);
    BitOperations.OrBit(a, b, i);
  }

  /** Where the outermost operator of an expression stands in the evaluator's table. */
  function Root(e: Expr): int {
    if e.Bin? then Priority(e.op) else 0
  }

  /** What is of one level is of every level that binds less. */
  lemma Levels(e: Expr)
    ensures IsFactor(e) ==> IsTerm(e)
    ensures IsTerm(e) ==> IsSum(e)
    ensures IsSum(e) ==> IsShift(e)
    ensures IsShift(e) ==> IsAnd(e)
    ensures IsAnd(e) ==> IsOr(e)
  {
  }

  /** May `e` stand to the left of op, or to the right of it, without parentheses? */
  predicate LeftFits(op: Op, e: Expr) {
    match op
    case Or => IsOr(e)
    case And => IsAnd(e)
    case Shl | Shr => IsShift(e)
    case Add | Sub => IsSum(e)
    case Mul | Div | Mod => IsTerm(e)
  }

  predicate RightFits(op: Op, e: Expr) {
    match op
    case Or => IsAnd(e)
    case And => IsShift(e)
    case Shl | Shr => IsSum(e)
    case Add | Sub => IsTerm(e)
    case Mul | Div | Mod => IsFactor(e)
  }

  lemma OperationIff(op: Op, l: Expr, r: Expr)
    ensures IsOr(Bin(op, l, r)) <==> LeftFits(op, l) && RightFits(op, r)
  {
    var e := Bin(op, l, r);
    Levels(e);
    assert !IsFactor(e);
    assert IsTerm(e) <==> (op == Mul || op == Div || op == Mod) && IsTerm(l) && IsFactor(r);
    assert IsSum(e) <==> IsTerm(e) || ((op == Add || op == Sub) && IsSum(l) && IsTerm(r));
    assert IsShift(e) <==> IsSum(e) || ((op == Shl || op == Shr) && IsShift(l) && IsSum(r));
    assert IsAnd(e) <==> IsShift(e) || (op == And && IsAnd(l) && IsShift(r));
  }

  lemma GroupIff(b: Expr)
    ensures IsFactor(Group(b)) <==> IsOr(b)
    ensures IsOr(Group(b)) <==> IsOr(b)
  {
    var e := Group(b);
    Levels(e);
    assert IsTerm(e) ==> IsFactor(e);
    assert IsSum(e) ==> IsTerm(e);
    assert IsShift(e) ==> IsSum(e);
    assert IsAnd(e) ==> IsShift(e);
  }

  /** On each level the evaluator's table has room for the operators of that level and no others. */
  lemma LevelsInTable(e: Expr)
    ensures IsFactor(e) ==> Root(e) == 0
    ensures IsTerm(e) ==> Root(e) <= Priority(Mul)
    ensures IsSum(e) ==> Root(e) <= Priority(Add)
    ensures IsShift(e) ==> Root(e) <= Priority(Shl)
    ensures IsAnd(e) ==> Root(e) <= Priority(And)
    ensures IsOr(e) ==> Root(e) <= Priority(Or)
  {
    assert IsFactor(e) ==> Root(e) == 0;
    assert IsTerm(e) ==> Root(e) <= Priority(Mul);
    assert IsSum(e) ==> Root(e) <= Priority(Add);
    assert IsShift(e) ==> Root(e) <= Priority(Shl);
    assert IsAnd(e) ==> Root(e) <= Priority(And);
  }

  lemma FitsInTable(op: Op, e: Expr)
    ensures LeftFits(op, e) ==> IsOr(e) && Root(e) <= Priority(op)
    ensures RightFits(op, e) ==> IsOr(e) && Root(e) < Priority(op)
  {
    hide IsOr, IsAnd, IsShift, IsSum, IsTerm, IsFactor, Root;
    Levels(e);
    LevelsInTable(e);
  }

  /** The table agrees with the grammar: operands bind as tightly as their side requires. */
  lemma OperandsFit(op: Op, l: Expr, r: Expr)
    requires IsOr(Bin(op, l, r))
    ensures IsOr(l) && IsOr(r) && Root(l) <= Priority(op) && Root(r) < Priority(op)
  {
    hide IsOr, LeftFits, RightFits, Root;
    OperationIff(op, l, r);
    FitsInTable(op, l);
    FitsInTable(op, r);
  }

  // ----- Texts of the grammar evaluate to their value

  lemma {:induction false} RunAppend(a: seq<string>, b: seq<string>, arg: u32, s: Stacks)
    ensures Run(a + b, arg, s) ==
            if Run(a, arg, s).Ok? then Run(b, arg, Run(a, arg, s).value) else Run(a, arg, s)
    decreases |a|
  {
    if a == [] {
      assert a + b == b;
    } else {
      assert (a + b)[1..] == a[1..] + b;
      var r := Step(Classify(a[0]), arg, s);
      if r.Ok? {
        RunAppend(a[1..], b, arg, r.value);
      }
    }
  }

  lemma RunOne(t: string, arg: u32, s: Stacks)
    ensures Run([t], arg, s) == Step(Classify(t), arg, s)
  {
  }

  lemma {:induction false} NumeralValue(n: nat)
    ensures Numeral(n) != "" && IsDigit(Numeral(n)[0])
    ensures n > 0 ==> Numeral(n)[0] != '0'
    ensures forall k :: 0 <= k < |Numeral(n)| ==> IsDigit(Numeral(n)[k])
    ensures Decimal(Numeral(n)) == n % TWO32
  {
    if n < 10 {
      assert Numeral(n)[..0] == "";
    } else {
      NumeralValue(n / 10);
      var s := Numeral(n / 10);
      assert (s + [Digit(n % 10)])[..|s|] == s;
      DigitStep(n);
    }
  }

  /** Multiplying by ten and adding a digit commutes with reduction modulo 2^32. */
  lemma DigitStep(n: nat)
    ensures (n / 10 % TWO32 * 10 + n % 10) % TWO32 == n % TWO32
  {
  }

  lemma ClassifySymbol(op: Op)
    ensures Classify(Symbol(op)) == Operator(op)
    ensures Classify("$") == Argument && Classify("(") == Open && Classify(")") == Close
  {
  }

  /** Nothing waits on the operator stack that binds at least as tightly as `limit`. */
  predicate Fenced(ops: seq<Entry>, limit: int) {
    ops == [] || limit < EntryPriority(ops[|ops| - 1])
  }

  /** The outcome of having pushed a value, then reduced. */
  function Pushed(v: Result<u32>, limit: int, s: Stacks): Result<Stacks> {
    match v
    case Ok(x) => Reduce(limit, s.(data := s.data + [x]))
    case _ => Undefined
  }

  lemma {:induction false} ValueIsOkOrUndefined(e: Expr, arg: u32)
    ensures ValueOf(e, arg).Ok? || ValueOf(e, arg).Undefined?
  {
    if e.Group? { ValueIsOkOrUndefined(e.e, arg); }
  }

  /** A parenthesised group acts like pushing its value. */
  lemma GroupPushes(e: Expr, arg: u32, s: Stacks, inner: Result<Stacks>)
    requires inner == Run(Tokens(e), arg, s.(ops := s.ops + [Paren]))
    requires ReduceOutcome(PAREN_PRIORITY - 1, inner) ==
             Pushed(ValueOf(e, arg), PAREN_PRIORITY - 1, s.(ops := s.ops + [Paren]))
    ensures Run(["("] + Tokens(e) + [")"], arg, s) ==
            match ValueOf(e, arg) case Ok(v) => Ok(s.(data := s.data + [v])) case _ => Undefined
  {
    var mid := s.(ops := s.ops + [Paren]);
    RunAppend(["("] + Tokens(e), [")"], arg, s);
    RunAppend(["("], Tokens(e), arg, s);
    RunOne("(", arg, s);
    if inner.Ok? {
      RunOne(")", arg, inner.value);
      if ValueOf(e, arg).Ok? {
        assert mid.ops[..|s.ops|] == s.ops;
      }
    }
  }

  /** With both operands on top, the pending operator computes and leaves its value. */
  lemma OperatorPushes(op: Op, a: u32, b: u32, s: Stacks, limit: int)
    requires limit >= Priority(op)
    ensures Reduce(limit, Stacks(s.data + [a] + [b], s.ops + [Pending(op)])) == Pushed(Apply(op, a, b), limit, s)
  {
    var full := Stacks(s.data + [a] + [b], s.ops + [Pending(op)]);
    assert full.data[..|s.data|] == s.data && full.ops[..|s.ops|] == s.ops;
    assert full.data[|s.data|] == a && full.data[|s.data| + 1] == b;
    assert Apply(op, a, b).Ok? || Apply(op, a, b).Undefined?;
  }

  /** After its left operand, an operator finds that operand's value on top and waits there. */
  lemma OperatorWaits(op: Op, left: seq<string>, v: Result<u32>, arg: u32, s: Stacks)
    requires v.Ok? || v.Undefined?
    requires Fenced(s.ops, Priority(op))
    requires ReduceOutcome(Priority(op), Run(left, arg, s)) == Pushed(v, Priority(op), s)
    ensures Run(left + [Symbol(op)], arg, s) ==
            match v case Ok(a) => Ok(Stacks(s.data + [a], s.ops + [Pending(op)])) case _ => Undefined
  {
    RunAppend(left, [Symbol(op)], arg, s);
    ClassifySymbol(op);
    if Run(left, arg, s).Ok? {
      RunOne(Symbol(op), arg, Run(left, arg, s).value);
    }
  }

  /** Running the tokens of an expression and then reducing with a limit its root cannot escape
      is the same as pushing its value and reducing: nothing below is touched. */
  lemma {:induction false} TreePushesValue(e: Expr, arg: u32, s: Stacks, limit: int)
    requires IsOr(e) && Fenced(s.ops, Root(e)) && limit >= Root(e)
    ensures ReduceOutcome(limit, Run(Tokens(e), arg, s)) == Pushed(ValueOf(e, arg), limit, s)
    decreases e
  {
    match e
    case Lit(n) =>
      NumeralValue(n);
      RunOne(Numeral(n), arg, s);
    case Arg =>
      ClassifySymbol(Add);
      RunOne("$", arg, s);
    case Group(b) =>
      var mid := s.(ops := s.ops + [Paren]);
      GroupIff(b);
      LevelsInTable(b);
      ValueIsOkOrUndefined(b, arg);
      TreePushesValue(b, arg, mid, PAREN_PRIORITY - 1);
      GroupPushes(b, arg, s, Run(Tokens(b), arg, mid));
    case Bin(op, l, r) =>
      OperandsFit(op, l, r);
      BinaryPushes(op, l, r, arg, s, limit);
  }

  lemma {:induction false} BinaryPushes(op: Op, l: Expr, r: Expr, arg: u32, s: Stacks, limit: int)
    requires IsOr(l) && IsOr(r) && Root(l) <= Priority(op) && Root(r) < Priority(op)
    requires Fenced(s.ops, Priority(op)) && limit >= Priority(op)
    ensures ReduceOutcome(limit, Run(Tokens(Bin(op, l, r)), arg, s)) == Pushed(ValueOf(Bin(op, l, r), arg), limit, s)
    decreases Bin(op, l, r), 0
  {
    hide IsOr, Run, Tokens, Apply;
    assert Tokens(Bin(op, l, r)) == Tokens(l) + [Symbol(op)] + Tokens(r) by { TokensOfBin(op, l, r); }
    ValueIsOkOrUndefined(l, arg);
    ValueIsOkOrUndefined(r, arg);
    TreePushesValue(l, arg, s, Priority(op));
    OperatorWaits(op, Tokens(l), ValueOf(l, arg), arg, s);
    RunAppend(Tokens(l) + [Symbol(op)], Tokens(r), arg, s);
    if ValueOf(l, arg).Ok? {
      var a := ValueOf(l, arg).value;
      TreePushesValue(r, arg, Stacks(s.data + [a], s.ops + [Pending(op)]), limit);
      if ValueOf(r, arg).Ok? {
        OperatorPushes(op, a, ValueOf(r, arg).value, s, limit);
      }
    }
  }

  lemma TokensOfBin(op: Op, l: Expr, r: Expr)
    ensures Tokens(Bin(op, l, r)) == Tokens(l) + [Symbol(op)] + Tokens(r)
  {
  }

  /** The evaluator computes the value of every text of the grammar, with exactly one datum and no
      operator left at the end. */
  lemma GrammarEvaluates(e: Expr, arg: u32)
    requires IsOr(e)
    ensures Evaluated(Tokens(e), arg) == ValueOf(e, arg)
    ensures ValueOf(e, arg).Ok? ==>
              ReduceOutcome(PAREN_PRIORITY, Run(Tokens(e), arg, Stacks([], [])))
              == Ok(Stacks([ValueOf(e, arg).value], []))
  {
    LevelsInTable(e);
    TreePushesValue(e, arg, Stacks([], []), PAREN_PRIORITY);
    ValueIsOkOrUndefined(e, arg);
    if ValueOf(e, arg).Ok? {
      assert [] + [ValueOf(e, arg).value] == [ValueOf(e, arg).value];
    }
  }

  // ----- Every tree of operators has a text

  /** The tree with parentheses only where the grammar requires them. */
  function Printed(e: Expr): Expr {
    match e
    case Lit(_) | Arg => e
    case Group(b) => Group(Printed(b))
    case Bin(op, l, r) =>
      var left, right := Printed(l), Printed(r);
      Bin(op, if LeftFits(op, left) then left else Group(left),
              if RightFits(op, right) then right else Group(right))
  }

  lemma GroupFits(op: Op, b: Expr)
    requires IsOr(b)
    ensures LeftFits(op, Group(b)) && RightFits(op, Group(b))
  {
    hide IsOr, IsAnd, IsShift, IsSum, IsTerm, IsFactor;
    GroupIff(b);
    Levels(Group(b));
  }

  lemma {:induction false} PrintedIsGrammatical(e: Expr, arg: u32)
    ensures IsOr(Printed(e)) && ValueOf(Printed(e), arg) == ValueOf(e, arg)
    ensures Splittable(e) ==> Splittable(Printed(e))
  {
    hide IsOr, LeftFits, RightFits, Apply;
    match e
    case Lit(_) | Arg =>
      AtomIsGrammatical(e);
    case Group(b) =>
      PrintedIsGrammatical(b, arg);
      GroupIff(Printed(b));
    case Bin(op, l, r) =>
      PrintedIsGrammatical(l, arg);
      PrintedIsGrammatical(r, arg);
      GroupFits(op, Printed(l));
      GroupFits(op, Printed(r));
      OperationIff(op, Printed(e).l, Printed(e).r);
  }

  lemma AtomIsGrammatical(e: Expr)
    requires e.Lit? || e.Arg?
    ensures IsOr(e)
  {
    Levels(e);
  }

  /** The evaluator computes the value of every tree from its minimally parenthesised tokens. */
  lemma PrintedTreeEvaluates(e: Expr, arg: u32)
    ensures Evaluated(Tokens(Printed(e)), arg) == ValueOf(e, arg)
  {
    PrintedIsGrammatical(e, arg);
    GrammarEvaluates(Printed(e), arg);
  }

  // ----- Texts outside of the grammar

  /** An operator without a right operand is an error. */
  lemma TrailingOperatorFails(e: Expr, op: Op, arg: u32)
    requires LeftFits(op, e) && ValueOf(e, arg).Ok?
    ensures Evaluated(Tokens(e) + [Symbol(op)], arg) == ComputeError
  {
    hide LeftFits, IsOr, Apply;
    FitsInTable(op, e);
    var empty, v := Stacks([], []), ValueOf(e, arg);
    TreePushesValue(e, arg, empty, Priority(op));
    OperatorWaits(op, Tokens(e), v, arg, empty);
    assert [] + [v.value] == [v.value] && [] + [Pending(op)] == [Pending(op)];
  }

  /** So is a parenthesis that is not closed. */
  lemma UnclosedFails(e: Expr, arg: u32)
    requires IsOr(e) && ValueOf(e, arg).Ok?
    ensures Evaluated(["("] + Tokens(e), arg) == ComputeError
  {
    hide IsOr, Apply;
    var empty, open, v := Stacks([], []), Stacks([], [Paren]), ValueOf(e, arg).value;
    LevelsInTable(e);
    RunAppend(["("], Tokens(e), arg, empty);
    RunOne("(", arg, empty);
    assert [] + [Paren] == [Paren];
    TreePushesValue(e, arg, open, PAREN_PRIORITY);
    assert [] + [v] == [v];
  }

  /** One that was not opened makes the source pop an empty stack. */
  lemma UnopenedIsUndefined(e: Expr, arg: u32)
    requires IsOr(e) && ValueOf(e, arg).Ok?
    ensures Evaluated(Tokens(e) + [")"], arg) == Undefined
  {
    hide IsOr, Apply;
    var empty, v := Stacks([], []), ValueOf(e, arg).value;
    LevelsInTable(e);
    TreePushesValue(e, arg, empty, PAREN_PRIORITY - 1);
    assert [] + [v] == [v];
    RunAppend(Tokens(e), [")"], arg, empty);
    RunOne(")", arg, Run(Tokens(e), arg, empty).value);
  }

  // ----- The tokenizer

  /** The tokens of one character. */
  predicate IsSingle(c: char) {
    || c == '(' || c == ')' || c == '&' || c == '%' || c == '$'
    || c == '+' || c == '-' || c == '*' || c == '/'
  }

  /** Length of the run of digits at the front. */
  function DigitRun(s: string): (k: nat)
    ensures k <= |s|
    ensures forall i :: 0 <= i < k ==> IsDigit(s[i])
    ensures k < |s| ==> !IsDigit(s[k])
  {
    if s == "" || !IsDigit(s[0]) then 0 else 1 + DigitRun(s[1..])
  }

  /** The length of the token at the front of a text that starts with none of the blanks; 0 if
      there is no token. */
  function LexemeLength(s: string): (k: nat)
    requires s != ""
    ensures k <= |s|
  {
    if IsSingle(s[0]) then 1
    else if s[0] == '<' || s[0] == '>' then if |s| > 1 && s[1] == s[0] then 2 else 0
    else if '1' <= s[0] <= '9' then DigitRun(s)
    else 0
  }

  /** What split returns. */
  function SplitOf(s: string): Result<seq<string>>
    decreases |s|
  {
    if s == "" then Ok([])
    else if s[0] == ' ' then SplitOf(s[1..])
    else
      var k := LexemeLength(s);
      if k == 0 then ComputeError else Prepend(s[..k], SplitOf(s[k..]))
  }

  function Prepend(t: string, r: Result<seq<string>>): Result<seq<string>> {
    if r.Ok? then Ok([t] + r.value) else r
  }

  /** The tokens of a text, with gap(i) blanks before the i-th. */
  function Spaced(tokens: seq<string>, gap: nat -> nat, i: nat): string
    decreases |tokens|
  {
    if tokens == [] then Blanks(gap(i))
    else Blanks(gap(i)) + tokens[0] + Spaced(tokens[1..], gap, i + 1)
  }

  function Blanks(n: nat): string {
    if n == 0 then "" else " " + Blanks(n - 1)
  }

  predicate IsNumeral(t: string) {
    t != "" && '1' <= t[0] <= '9' && forall k :: 0 <= k < |t| ==> IsDigit(t[k])
  }

  /** A token that split can produce. */
  predicate Lexeme(t: string) {
    IsNumeral(t) || t == "<<" || t == ">>" || (|t| == 1 && IsSingle(t[0]))
  }

  /** No two numerals stand next to each other. */
  predicate Separated(tokens: seq<string>) {
    && (forall i :: 0 <= i < |tokens| ==> Lexeme(tokens[i]))
    && (forall i :: 0 <= i < |tokens| - 1 ==> !(IsNumeral(tokens[i]) && IsNumeral(tokens[i + 1])))
  }

  lemma SplitSkipsBlank(s: string)
    requires s != "" && s[0] == ' '
    ensures SplitOf(s) == SplitOf(s[1..])
  {
  }

  lemma {:induction false} SplitSkipsBlanks(n: nat, s: string)
    ensures SplitOf(Blanks(n) + s) == SplitOf(s)
  {
    hide SplitOf;
    if n == 0 {
      assert Blanks(n) + s == s;
    } else {
      SplitSkipsBlanks(n - 1, s);
      assert (Blanks(n) + s)[0] == ' ' && (Blanks(n) + s)[1..] == Blanks(n - 1) + s;
      SplitSkipsBlank(Blanks(n) + s);
    }
  }

  lemma {:induction false} DigitRunOf(t: string, s: string)
    requires forall k :: 0 <= k < |t| ==> IsDigit(t[k])
    requires s == "" || !IsDigit(s[0])
    ensures DigitRun(t + s) == |t|
  {
    if t == "" {
      assert t + s == s;
    } else {
      DigitRunOf(t[1..], s);
      assert (t + s)[1..] == t[1..] + s;
    }
  }

  /** split reads one lexeme and goes on behind it. */
  lemma SplitReadsLexeme(t: string, s: string)
    requires Lexeme(t) && (IsNumeral(t) ==> s == "" || !IsDigit(s[0]))
    ensures SplitOf(t + s) == Prepend(t, SplitOf(s))
  {
    var all := t + s;
    assert all[0] == t[0];
    assert all[..|t|] == t && all[|t|..] == s;
    if IsNumeral(t) {
      DigitRunOf(t, s);
    }
  }

  lemma SymbolStart(t: string)
    requires Lexeme(t) && !IsNumeral(t)
    ensures t != "" && !IsDigit(t[0])
  {
    if t == "<<" {
      assert t[0] == '<';
    } else if t == ">>" {
      assert t[0] == '>';
    } else {
      assert IsSingle(t[0]);
    }
  }

  /** A numeral is not followed by a digit, whatever the spacing. */
  lemma EndsNumeral(tokens: seq<string>, gap: nat -> nat, i: nat)
    requires tokens != [] && Separated(tokens) && IsNumeral(tokens[0])
    ensures var rest := Spaced(tokens[1..], gap, i); rest == "" || !IsDigit(rest[0])
  {
    var later := tokens[1..];
    var rest := Spaced(later, gap, i);
    if gap(i) > 0 {
      assert Blanks(gap(i))[0] == ' ';
      assert rest[0] == ' ';
    } else if later == [] {
      assert rest == "";
    } else {
      assert later[0] == tokens[1] && Lexeme(tokens[1]) && !IsNumeral(tokens[1]);
      SymbolStart(tokens[1]);
      assert rest == later[0] + Spaced(later[1..], gap, i + 1);
      assert rest[0] == tokens[1][0];
    }
  }

  lemma SpacedParts(tokens: seq<string>, gap: nat -> nat, i: nat)
    ensures Spaced(tokens, gap, i) ==
            Blanks(gap(i)) + if tokens == [] then "" else tokens[0] + Spaced(tokens[1..], gap, i + 1)
  {
  }

  /** split recovers any separated token list from any spacing of it. */
  lemma {:induction false} SplitRecoversTokens(tokens: seq<string>, gap: nat -> nat, i: nat)
    requires Separated(tokens)
    ensures SplitOf(Spaced(tokens, gap, i)) == Ok(tokens)
    decreases |tokens|
  {
    assert tokens != [] ==> Separated(tokens[1..]) && Lexeme(tokens[0]);
    SplitOfNothing();
    hide SplitOf, Lexeme, IsNumeral, IsDigit, Separated, Spaced, Blanks;
    SpacedParts(tokens, gap, i);
    if tokens == [] {
      SplitSkipsBlanks(gap(i), "");
    } else {
      var rest := Spaced(tokens[1..], gap, i + 1);
      if IsNumeral(tokens[0]) {
        EndsNumeral(tokens, gap, i + 1);
      }
      SplitSkipsBlanks(gap(i), tokens[0] + rest);
      SplitReadsLexeme(tokens[0], rest);
      SplitRecoversTokens(tokens[1..], gap, i + 1);
      assert [tokens[0]] + tokens[1..] == tokens;
    }
  }

  lemma SplitOfNothing()
    ensures SplitOf("") == Ok([])
  {
  }

  /** The text without its blanks. */
  function Unblanked(s: string): string {
    if s == "" then "" else (if s[0] == ' ' then "" else [s[0]]) + Unblanked(s[1..])
  }

  function Concatenated(tokens: seq<string>): string {
    if tokens == [] then "" else tokens[0] + Concatenated(tokens[1..])
  }

  lemma {:induction false} UnblankedFront(t: string, s: string)
    requires ' ' !in t
    ensures Unblanked(t + s) == t + Unblanked(s)
  {
    if t == "" {
      assert t + s == s;
    } else {
      assert (t + s)[1..] == t[1..] + s && t == [t[0]] + t[1..];
      UnblankedFront(t[1..], s);
    }
  }

  lemma LexemeAtFront(s: string)
    requires s != "" && LexemeLength(s) > 0
    ensures var t := s[..LexemeLength(s)]; Lexeme(t) && ' ' !in t
  {
    var k := LexemeLength(s);
    var t := s[..k];
    assert t[0] == s[0];
    if k == 2 && (s[0] == '<' || s[0] == '>') {
      assert t == [s[0], s[0]];
    }
  }

  /** What split accepts it tears apart and no more: the tokens are tokens, and together they are the
      text without its blanks.  So a text with anything else in it is refused. */
  lemma {:induction false} SplitKeepsText(s: string)
    ensures SplitOf(s).Ok? || SplitOf(s) == ComputeError
    ensures SplitOf(s).Ok? ==>
              && (forall i :: 0 <= i < |SplitOf(s).value| ==> Lexeme(SplitOf(s).value[i]))
              && Concatenated(SplitOf(s).value) == Unblanked(s)
    decreases |s|
  {
    hide Lexeme, LexemeLength;
    if s != "" {
      var k := LexemeLength(s);
      if s[0] == ' ' {
        SplitKeepsText(s[1..]);
      } else if k > 0 {
        var t, rest := s[..k], s[k..];
        LexemeAtFront(s);
        SplitKeepsText(rest);
        assert s == t + rest;
        UnblankedFront(t, rest);
        if SplitOf(rest).Ok? {
          assert ([t] + SplitOf(rest).value)[1..] == SplitOf(rest).value;
        }
      }
    }
  }

  lemma SeparatedJoin(a: seq<string>, t: string, b: seq<string>)
    requires Separated(a) && Separated(b) && Lexeme(t) && !IsNumeral(t)
    ensures Separated(a + [t] + b)
  {
  }

  lemma {:induction false} TextIsSeparated(e: Expr)
    requires Splittable(e)
    ensures Separated(Tokens(e))
  {
    match e
    case Lit(n) =>
      NumeralValue(n);
    case Arg =>
    case Group(b) =>
      TextIsSeparated(b);
      GroupIsSeparated(Tokens(b));
    case Bin(op, l, r) =>
      TextIsSeparated(l);
      TextIsSeparated(r);
      SeparatedJoin(Tokens(l), Symbol(op), Tokens(r));
  }

  lemma GroupIsSeparated(tokens: seq<string>)
    requires Separated(tokens)
    ensures Separated(["("] + tokens + [")"])
  {
  }

  /** Write any expression of the grammar, space it any way, split it and evaluate the tokens: the result
      is the expression's value modulo 2^32 (or undefined if an operation of it is), never an error. */
  lemma PrintSplitEvaluate(e: Expr, gap: nat -> nat, arg: u32)
    requires IsOr(e) && Splittable(e)
    ensures SplitOf(Spaced(Tokens(e), gap, 0)) == Ok(Tokens(e))
    ensures Evaluated(SplitOf(Spaced(Tokens(e), gap, 0)).value, arg) == ValueOf(e, arg)
  {
    TextIsSeparated(e);
    SplitRecoversTokens(Tokens(e), gap, 0);
    GrammarEvaluates(e, arg);
  }

  // ----- The imperative code

  /** The digit loop of evaluate. */
  method ParseNumeral(str: string) returns (value: u32)
    ensures value == Decimal(str)
  {
    value := 0;
    var cur := 0;
    while cur < |str|
      invariant 0 <= cur <= |str| && value == Decimal(str[..cur])
    {
      assert str[..cur + 1][..cur] == str[..cur];
      value := (value * 10 + (str[cur] as int - '0' as int)) % TWO32;
      cur := cur + 1;
    }
    assert str[..cur] == str;
  }

  /** A loop of evaluate: compute while the top operator's priority number is at most `limit`. */
  method ReduceLoop(limit: int, start: Stacks) returns (r: Result<Stacks>)
    ensures r == Reduce(limit, start)
  {
    var data, ops := start.data, start.ops;
    while ops != [] && limit >= EntryPriority(ops[|ops| - 1])
      invariant Reduce(limit, Stacks(data, ops)) == Reduce(limit, start)
      decreases |ops|
    {
      var c := Compute(Stacks(data, ops));
      if !c.Ok? {
        return c;
      }
      data, ops := c.value.data, c.value.ops;
    }
    r := Ok(Stacks(data, ops));
  }

  function Failed(r: Result<Stacks>): Result<u32>
    requires !r.Ok?
  {
    match r
    case ComputeError => ComputeError
    case InputError => InputError
    case Undefined => Undefined
  }

  method Evaluate(expression: seq<string>, arg: u32) returns (r: Result<u32>)
    ensures r == Evaluated(expression, arg)
  {
    if expression == [] {
      return InputError;
    }
    var data: seq<u32>, ops: seq<Entry> := [], [];
    var idx := 0;
    while idx < |expression|
      invariant 0 <= idx <= |expression|
      invariant Run(expression, arg, Stacks([], [])) == Run(expression[idx..], arg, Stacks(data, ops))
    {
      var str := expression[idx];
      assert expression[idx..][1..] == expression[idx + 1..];
      match Classify(str) {
      case Number(_) =>
        var value := ParseNumeral(str);
        data := data + [value];
      case Argument =>
        data := data + [arg];
      case Open =>
        ops := ops + [Paren];
      case Close =>
        var c := ReduceLoop(PAREN_PRIORITY - 1, Stacks(data, ops));
        if !c.Ok? {
          return Failed(c);
        }
        if c.value.ops == [] {
          return Undefined;
        }
        data, ops := c.value.data, c.value.ops[..|c.value.ops| - 1];
      case Operator(op) =>
        var c := ReduceLoop(Priority(op), Stacks(data, ops));
        if !c.Ok? {
          return Failed(c);
        }
        data, ops := c.value.data, c.value.ops + [Pending(op)];
      case Unsupported =>
        return ComputeError;
      }
      idx := idx + 1;
    }
    assert expression[idx..] == [];
    var c := ReduceLoop(PAREN_PRIORITY, Stacks(data, ops));
    if !c.Ok? {
      return Failed(c);
    }
    if c.value.data == [] {
      return Undefined;
    }
    r := Ok(c.value.data[|c.value.data| - 1]);
  }

  /** One round of the tokenizer, in absolute positions: a token of length k is read at idx. */
  lemma ReadsToken(res: seq<string>, s: string, idx: nat, k: nat)
    requires idx < |s| && s[idx] != ' ' && 0 < k == LexemeLength(s[idx..])
    ensures Onto(res, SplitOf(s[idx..])) == Onto(res + [s[idx..idx + k]], SplitOf(s[idx + k..]))
  {
    assert s[idx..][..k] == s[idx..idx + k] && s[idx..][k..] == s[idx + k..];
    OntoPrepend(res, s[idx..idx + k], SplitOf(s[idx + k..]));
  }

  lemma NoToken(res: seq<string>, s: string, idx: nat)
    requires idx < |s| && s[idx] != ' ' && LexemeLength(s[idx..]) == 0
    ensures Onto(res, SplitOf(s[idx..])) == ComputeError
  {
  }

  lemma SkipsBlank(s: string, idx: nat)
    requires idx < |s| && s[idx] == ' '
    ensures SplitOf(s[idx..]) == SplitOf(s[idx + 1..])
  {
  }

  /** The token at position idx, found the way split does. */
  method NextToken(expression: string, idx: nat) returns (k: nat)
    requires idx < |expression|
    ensures k == LexemeLength(expression[idx..])
  {
    var c := expression[idx];
    if IsSingle(c) {
      k := 1;
    } else if c == '<' || c == '>' {
      k := if idx < |expression| - 1 && expression[idx + 1] == c then 2 else 0;
    } else if '1' <= c <= '9' {
      var cur := ScanDigits(expression, idx);
      k := cur - idx;
    } else {
      k := 0;
    }
  }

  /** The inner digit loop of split. */
  method ScanDigits(expression: string, idx: nat) returns (cur: nat)
    requires idx <= |expression|
    ensures idx <= cur <= |expression| && cur - idx == DigitRun(expression[idx..])
  {
    cur := idx;
    while cur < |expression| && IsDigit(expression[cur])
      invariant idx <= cur <= |expression|
      invariant forall k :: idx <= k < cur ==> IsDigit(expression[k])
    {
      cur := cur + 1;
    }
  }

  method Split(expression: string) returns (r: Result<seq<string>>)
    ensures r == SplitOf(expression)
  {
    hide SplitOf, LexemeLength, Onto;
    SplitOfNothing();
    var res: seq<string> := [];
    var len := |expression|;
    var idx := 0;
    assert expression[0..] == expression;
    OntoNothing(SplitOf(expression));
    while idx < len
      invariant 0 <= idx <= len
      invariant SplitOf(expression) == Onto(res, SplitOf(expression[idx..]))
      decreases len - idx
    {
      if expression[idx] == ' ' {
        SkipsBlank(expression, idx);
        idx := idx + 1;
      } else {
        var k := NextToken(expression, idx);
        if k == 0 {
          NoToken(res, expression, idx);
          return ComputeError;
        }
        ReadsToken(res, expression, idx, k);
        res := res + [expression[idx..idx + k]];
        idx := idx + k;
      }
    }
    assert expression[len..] == "";
    r := Ok(res);
  }

  /** Tokens found so far, then those of the rest. */
  ghost function Onto(res: seq<string>, r: Result<seq<string>>): Result<seq<string>> {
    if r.Ok? then Ok(res + r.value) else r
  }

  lemma OntoNothing(r: Result<seq<string>>)
    ensures Onto([], r) == r
    ensures forall res: seq<string> :: Onto(res, Ok([])) == Ok(res)
  {
    if r.Ok? {
      assert [] + r.value == r.value;
    }
    forall res: seq<string> ensures Onto(res, Ok([])) == Ok(res) {
      assert res + [] == res;
    }
  }

  lemma OntoPrepend(res: seq<string>, t: string, r: Result<seq<string>>)
    ensures Onto(res, Prepend(t, r)) == Onto(res + [t], r)
  {
    if r.Ok? {
      assert res + ([t] + r.value) == (res + [t]) + r.value;
    }
  }

}
