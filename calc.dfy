/** `safe_eval` of `calc.py`: the evaluator `eval_` over the syntax tree of an
    expression, with its whitelist of binary operators, unary operators, node
    kinds and math functions. Integer arithmetic follows Python; true division,
    floating point and the `math` functions are supplied by a `MathLib`. */
module Calc {

  import opened Wrappers

  /** The binary operators of Python's `ast`. */
  datatype BinaryOperator = Add | Sub | Mult | Div | Pow | Mod | FloorDiv
                    | MatMult | LShift | RShift | BitOr | BitXor | BitAnd

  /** The unary operators of Python's `ast`. */
  datatype UnaryOperator = UAdd | USub | Not | Invert

  /** A numeric constant: an `int`, or a `float`/`complex` known only by a handle. */
  datatype Number = IntNum(n: int) | OtherNum(handle: nat)

  /** A run-time value: an `int`, a `str`, or any other object (a `float`, a
      `complex`, what a math function returns) known only by a handle. */
  datatype Value = IntV(i: int) | StrV(s: string) | OtherV(handle: nat)

  /** What a call node calls: a plain name, or some other expression (an
      attribute such as `math.sin`, a subscript, ...) that has no `id`. */
  datatype Callee = Name(id: string) | NotName(kind: string)

  /** The syntax tree `ast.parse(expr, mode='eval').body`, as far as `eval_`
      tells nodes apart; `Other` is any other node kind, by its class name. */
  datatype Expr =
    | Num(n: Number)
    | Str(s: string)
    | BinOp(op: BinaryOperator, left: Expr, right: Expr)
    | UnaryOp(uop: UnaryOperator, operand: Expr)
    | Call(func: Callee, args: seq<Expr>)
    | Other(kind: string)

  /** The exceptions `eval_` raises: the whitelist rejections (`ValueError`),
      the `AttributeError` of a callee without `id`, the `TypeError` of a call
      without exactly one positional argument, `ZeroDivisionError`, and any
      exception raised by the math library or by an operand type mismatch. */
  datatype Error =
    | UnsupportedOperator(op: BinaryOperator)
    | UnsupportedUnaryOperator(uop: UnaryOperator)
    | UnsupportedFunction(name: string)
    | NotAllowed(kind: string)
    | NoFunctionName
    | ArgumentCount(given: nat)
    | ZeroDivision
    | Raised(message: string)

  /** The part of Python the evaluator leaves to the runtime: the names of the
      callables of the `math` module, and the results of the operations whose
      operands are not both `int` (or `str` for concatenation and repetition),
      of true division and of negative powers, of unary operators on non-`int`
      operands, and of math function calls. */
  datatype MathLib = MathLib(
    names: set<string>,
    binary: (BinaryOperator, Value, Value) -> Result<Value, string>,
    unary: (UnaryOperator, Value) -> Result<Value, string>,
    call: (string, Value) -> Result<Value, string>)

  /** `allowed_operators`. */
  const ALLOWED_OPERATORS: set<BinaryOperator> := {Add, Sub, Mult, Div, Pow, Mod, FloorDiv}

  /** The unary operators `eval_` accepts. */
  const ALLOWED_UNARY: set<UnaryOperator> := {USub, UAdd}

  // ---------------------------------------------------------------------------
  // Python's integer arithmetic

  /** Python's `a // b`: the quotient rounded towards negative infinity. */
  function FloorDivInt(a: int, b: int): int
    requires b != 0
  {
    if b > 0 || a % b == 0 then a / b else a / b - 1
  }

  /** Python's `a % b`: the remainder of the floor division. */
  function FloorModInt(a: int, b: int): int
    requires b != 0
  {
    a - b * FloorDivInt(a, b)
  }

  /** `divmod` in Python: the quotient and the remainder recompose `a`, and the
      remainder has the sign of the divisor and is smaller than it in size. */
  lemma FloorDivModSpec(a: int, b: int)
    requires b != 0
    ensures b * FloorDivInt(a, b) + FloorModInt(a, b) == a
    ensures b > 0 ==> 0 <= FloorModInt(a, b) < b
    ensures b < 0 ==> b < FloorModInt(a, b) <= 0
  {
    var q := a / b;
    var r := a % b;
    assert a == b * q + r && 0 <= r < if b > 0 then b else -b;
    if b < 0 && r != 0 {
      assert FloorModInt(a, b) == a - b * (q - 1);
      assert a - b * (q - 1) == r + b;
    }
  }

  /** Those properties determine the quotient: any `q` and `r` with them are
      `a // b` and `a % b`. */
  lemma FloorDivUnique(a: int, b: int, q: int, r: int)
    requires b != 0 && b * q + r == a
    requires b > 0 ==> 0 <= r < b
    requires b < 0 ==> b < r <= 0
    ensures q == FloorDivInt(a, b) && r == FloorModInt(a, b)
  {
    FloorDivModSpec(a, b);
    var q' := FloorDivInt(a, b);
    var r' := FloorModInt(a, b);
    assert b * (q - q') == r' - r;
    SmallMultipleIsZero(b, q - q', r' - r);
  }

  /** A multiple of a non-zero `b` smaller than `b` in size is zero. */
  lemma SmallMultipleIsZero(b: int, k: int, d: int)
    requires b != 0 && b * k == d
    requires b > 0 ==> -b < d < b
    requires b < 0 ==> b < d < -b
    ensures k == 0
  {
    if k >= 1 {
      if b > 0 { MulAtLeast(b, k); } else { MulAtMost(b, k); }
    } else if k <= -1 {
      assert b * k == (-b) * (-k);
      if b > 0 { MulAtMost(-b, -k); } else { MulAtLeast(-b, -k); }
    }
  }

  lemma MulAtLeast(b: int, k: int)
    requires b > 0 && k >= 1
    ensures b * k >= b
  {
    assert b * k == b + b * (k - 1);
  }

  lemma MulAtMost(b: int, k: int)
    requires b < 0 && k >= 1
    ensures b * k <= b
  {
    assert b * k == b + b * (k - 1);
  }

  /** Floor division differs from Dafny's Euclidean division on negative operands. */
  lemma FloorDivExamples()
    ensures FloorDivInt(-7, 2) == -4 && FloorModInt(-7, 2) == 1
    ensures FloorDivInt(7, -2) == -4 && FloorModInt(7, -2) == -1
    ensures FloorDivInt(-7, -2) == 3 && FloorModInt(-7, -2) == -1
  {
  }

  /** Python's `a ** n` for a non-negative integer exponent. */
  function Power(a: int, n: nat): int {
    if n == 0 then 1 else a * Power(a, n - 1)
  }

  /** `s * n` for a string: `n` copies of `s`, none for `n <= 0`. */
  function Repeat(s: string, n: int): (r: string)
    decreases if n < 0 then 0 else n
  {
    if n <= 0 then [] else s + Repeat(s, n - 1)
  }

  /** A result of the math library: its exceptions become `Raised`. */
  function FromLib(r: Result<Value, string>): Result<Value, Error> {
    match r
    case Ok(v) => Ok(v)
    case Err(msg) => Err(Raised(msg))
  }

  /** `allowed_operators[type(op)](a, b)` on evaluated operands: integer
      arithmetic with floor semantics, string concatenation and repetition,
      `ZeroDivisionError` for a zero divisor, the library for the rest. */
  function ApplyBinary(op: BinaryOperator, a: Value, b: Value, lib: MathLib): (r: Result<Value, Error>)
    requires op in ALLOWED_OPERATORS
    ensures r.Err? ==> r.error == ZeroDivision || r.error.Raised?
  {
    if a.IntV? && b.IntV? then
      var x := a.i;
      var y := b.i;
      match op
      case Add => Ok(IntV(x + y))
      case Sub => Ok(IntV(x - y))
      case Mult => Ok(IntV(x * y))
      case FloorDiv => if y == 0 then Err(ZeroDivision) else Ok(IntV(FloorDivInt(x, y)))
      case Mod => if y == 0 then Err(ZeroDivision) else Ok(IntV(FloorModInt(x, y)))
      case Pow =>
        if y >= 0 then Ok(IntV(Power(x, y)))
        else if x == 0 then Err(ZeroDivision)
        else FromLib(lib.binary(op, a, b))
      case Div => if y == 0 then Err(ZeroDivision) else FromLib(lib.binary(op, a, b))
      case _ => FromLib(lib.binary(op, a, b))
    else if op == Add && a.StrV? && b.StrV? then Ok(StrV(a.s + b.s))
    else if op == Mult && a.StrV? && b.IntV? then Ok(StrV(Repeat(a.s, b.i)))
    else if op == Mult && a.IntV? && b.StrV? then Ok(StrV(Repeat(b.s, a.i)))
    else FromLib(lib.binary(op, a, b))
  }

  /** A unary minus or plus on an evaluated operand. */
  function ApplyUnary(uop: UnaryOperator, v: Value, lib: MathLib): (r: Result<Value, Error>)
    requires uop in ALLOWED_UNARY
    ensures r.Err? ==> r.error.Raised?
  {
    if v.IntV? then Ok(IntV(if uop == USub then -v.i else v.i))
    else FromLib(lib.unary(uop, v))
  }

  /** The value of a numeric constant. */
  function NumValue(n: Number): Value {
    match n
    case IntNum(i) => IntV(i)
    case OtherNum(h) => OtherV(h)
  }

  /** The exceptions that the whitelist raises, as opposed to those of the
      arithmetic and the library. */
  predicate IsRejection(err: Error) {
    err.UnsupportedOperator? || err.UnsupportedUnaryOperator? || err.UnsupportedFunction?
    || err.NotAllowed? || err.NoFunctionName? || err.ArgumentCount?
  }

  /** Every node of `e` is one `eval_` accepts: constants, whitelisted binary
      operators, unary minus and plus, and calls of a whitelisted name with
      exactly one argument. */
  predicate Whitelisted(e: Expr, names: set<string>) {
    match e
    case Num(_) => true
    case Str(_) => true
    case BinOp(op, l, r) => op in ALLOWED_OPERATORS && Whitelisted(l, names) && Whitelisted(r, names)
    case UnaryOp(uop, x) => uop in ALLOWED_UNARY && Whitelisted(x, names)
    case Call(f, args) => f.Name? && f.id in names && |args| == 1 && Whitelisted(args[0], names)
    case Other(_) => false
  }

  /** `eval_(node)`. The operator and the callee are checked before the operands
      are evaluated, the argument count before the argument, and the left operand
      is evaluated before the right one. A value comes only from a tree that the
      whitelist accepts throughout, and a whitelist exception only from one that
      it does not. */
  function Eval(e: Expr, lib: MathLib): (r: Result<Value, Error>)
    ensures r.Ok? ==> Whitelisted(e, lib.names)
    ensures r.Err? && IsRejection(r.error) ==> !Whitelisted(e, lib.names)
  {
    match e
    case Num(n) => Ok(NumValue(n))
    case Str(s) => Ok(StrV(s))
    case BinOp(op, l, r) =>
      if op !in ALLOWED_OPERATORS then Err(UnsupportedOperator(op))
      else if Eval(l, lib).Err? then Eval(l, lib)
      else if Eval(r, lib).Err? then Eval(r, lib)
      else ApplyBinary(op, Eval(l, lib).value, Eval(r, lib).value, lib)
    case UnaryOp(uop, x) =>
      if uop !in ALLOWED_UNARY then Err(UnsupportedUnaryOperator(uop))
      else if Eval(x, lib).Err? then Eval(x, lib)
      else ApplyUnary(uop, Eval(x, lib).value, lib)
    case Call(f, args) =>
      if f.NotName? then Err(NoFunctionName)
      else if f.id !in lib.names then Err(UnsupportedFunction(f.id))
      else if |args| != 1 then Err(ArgumentCount(|args|))
      else if Eval(args[0], lib).Err? then Eval(args[0], lib)
      else FromLib(lib.call(f.id, Eval(args[0], lib).value))
    case Other(kind) => Err(NotAllowed(kind))
  }

  /** The operands of a node in the order the evaluator visits them. */
  function Operands(e: Expr): seq<Expr> {
    match e
    case BinOp(_, l, r) => [l, r]
    case UnaryOp(_, x) => [x]
    case Call(_, args) => if |args| == 1 then [args[0]] else []
    case _ => []
  }

  /** The node itself passes the whitelist, whatever its operands are. */
  predicate NodeAccepted(e: Expr, names: set<string>) {
    match e
    case BinOp(op, _, _) => op in ALLOWED_OPERATORS
    case UnaryOp(uop, _) => uop in ALLOWED_UNARY
    case Call(f, args) => f.Name? && f.id in names && |args| == 1
    case Other(_) => false
    case _ => true
  }

  /** A node the whitelist rejects fails with that rejection before any operand
      is evaluated: the error is fixed by the node's operator, callee or kind
      alone (`Unsupported operator: …`, `Not allowed expression type - …`, the
      `AttributeError` and the `TypeError`), and depends on the names of the
      library only. */
  lemma RejectedNode(e: Expr, lib: MathLib, lib': MathLib)
    requires !NodeAccepted(e, lib.names) && lib'.names == lib.names
    ensures Eval(e, lib).Err? && IsRejection(Eval(e, lib).error)
    ensures e.BinOp? ==> Eval(e, lib) == Err(UnsupportedOperator(e.op))
    ensures e.UnaryOp? ==> Eval(e, lib) == Err(UnsupportedUnaryOperator(e.uop))
    ensures e.Call? && e.func.NotName? ==> Eval(e, lib) == Err(NoFunctionName)
    ensures e.Call? && e.func.Name? && e.func.id !in lib.names ==> Eval(e, lib) == Err(UnsupportedFunction(e.func.id))
    ensures e.Call? && e.func.Name? && e.func.id in lib.names ==> Eval(e, lib) == Err(ArgumentCount(|e.args|))
    ensures e.Other? ==> Eval(e, lib) == Err(NotAllowed(e.kind))
    ensures Eval(e, lib') == Eval(e, lib)
  {
  }

  /** In an accepted node, the first operand that fails decides the result: its
      exception propagates, and later operands are not looked at. */
  lemma FirstFailingOperand(e: Expr, lib: MathLib, j: nat)
    requires NodeAccepted(e, lib.names)
    requires j < |Operands(e)| && Eval(Operands(e)[j], lib).Err?
    requires forall k :: 0 <= k < j ==> Eval(Operands(e)[k], lib).Ok?
    ensures Eval(e, lib) == Eval(Operands(e)[j], lib)
  {
    match e
    case BinOp(_, l, r) =>
      if j == 1 {
        assert Eval(Operands(e)[0], lib).Ok?;
      }
    case UnaryOp(_, _) =>
    case Call(_, _) =>
  }

  /** The integer-only fragment: integer constants, `+`, `-`, `*`, `//`, `%` and
      unary minus and plus. */
  predicate IntFragment(e: Expr) {
    match e
    case Num(n) => n.IntNum?
    case BinOp(op, l, r) => op in {Add, Sub, Mult, FloorDiv, Mod} && IntFragment(l) && IntFragment(r)
    case UnaryOp(uop, x) => uop in ALLOWED_UNARY && IntFragment(x)
    case _ => false
  }

  /** The value of an integer-only expression in Python's integer arithmetic, or
      `None` when it divides by zero somewhere. */
  function IntValue(e: Expr): Option<int>
    requires IntFragment(e)
  {
    match e
    case Num(n) => Some(n.n)
    case BinOp(op, l, r) =>
      var x := IntValue(l);
      var y := IntValue(r);
      if x.None? || y.None? then None
      else if op == Add then Some(x.value + y.value)
      else if op == Sub then Some(x.value - y.value)
      else if op == Mult then Some(x.value * y.value)
      else if y.value == 0 then None
      else if op == FloorDiv then Some(FloorDivInt(x.value, y.value))
      else Some(FloorModInt(x.value, y.value))
    case UnaryOp(uop, x) =>
      if IntValue(x).None? then None
      else if uop == USub then Some(-IntValue(x).value)
      else IntValue(x)
  }

  /** On the integer-only fragment the evaluator computes Python's integer
      arithmetic exactly, fails only with `ZeroDivisionError`, and does not
      consult the library at all. */
  lemma {:induction false} EvalIntFragment(e: Expr, lib: MathLib)
    requires IntFragment(e)
    ensures Eval(e, lib) == if IntValue(e).Some? then Ok(IntV(IntValue(e).value)) else Err(ZeroDivision)
  {
    match e
    case Num(_) =>
    case BinOp(op, l, r) =>
      EvalIntFragment(l, lib);
      EvalIntFragment(r, lib);
    case UnaryOp(uop, x) =>
      EvalIntFragment(x, lib);
  }

  /** `s * (a + b) == s * a + s * b`: repetitions add up. */
  lemma {:induction false} RepeatAdd(s: string, a: nat, b: nat)
    ensures Repeat(s, a + b) == Repeat(s, a) + Repeat(s, b)
  {
    if a > 0 {
      RepeatAdd(s, a - 1, b);
      assert Repeat(s, a + b) == s + Repeat(s, a - 1 + b);
    }
  }

  /** `s * n` has `n` times the length of `s`. */
  lemma {:induction false} RepeatLength(s: string, n: nat)
    ensures |Repeat(s, n)| == |s| * n
  {
    if n > 0 {
      RepeatLength(s, n - 1);
      assert |s| * n == |s| + |s| * (n - 1);
    }
  }
}
