/** A reference evaluator for the Java 1.0 expressions the snippets render: left to right, with
    exceptions, on mathematical values (The Java Language Specification 1.0, chapter 15). */
module JavaSemantics {
  import opened JavaInts
  import opened Options
  import opened Decimals
  import opened Ieee
  import opened Vals

  datatype Kind = ByteK | CharK | IntK | LongK

  datatype Value =
    | Num(kind: Kind, n: int)
    | Dbl(bits: Bits)
    | Bool(b: bool)
    | Text(s: string)
    | Null
    | Obj(cls: string, text: string)

  /** An evaluation completes normally with a value, or abruptly with an exception. `Stuck` is an
      expression the language has no meaning for. */
  datatype Outcome = Normal(v: Value) | Abrupt(cls: string) | Stuck

  datatype UnOp = Negate | Plus | Complement | Not
  datatype BinOp = Mul | Div | Rem | Add | Sub | Less | GreaterEq | EqualTo | NotEqual

  datatype Expr =
    | Lit(v: Value)
    | Var(x: string)
    | Unary(uop: UnOp, e: Expr)
    | Binary(op: BinOp, l: Expr, r: Expr)
    | ToNumber(kind: Kind, e: Expr)
    | ToText(e: Expr)
    | Cond(c: Expr, t: Expr, f: Expr)

  datatype Stmt =
    | Println(e: Expr)
    | Local(x: string, e: Expr, rest: Stmt)
    | Assign(x: string, e: Expr, rest: Stmt)

  type Env = map<string, Value>

  // ---- integers, section 4.2.1 ----

  function Width(k: Kind): nat {
    match k
    case ByteK => 8
    case CharK => 16
    case IntK => 32
    case LongK => 64
  }

  function Modulus(k: Kind): nat {
    match k
    case ByteK => 0x100
    case CharK => 0x1_0000
    case IntK => TWO_32
    case LongK => TWO_64
  }

  function Lowest(k: Kind): int {
    match k
    case ByteK => -0x80
    case CharK => 0
    case IntK => -TWO_31
    case LongK => -TWO_63
  }

  predicate InRange(k: Kind, n: int) {
    Lowest(k) <= n < Lowest(k) + Modulus(k)
  }

  /** The low-order bits of `x`: the one value of the kind that differs from it by a multiple of
      the modulus. */
  function Low(k: Kind, x: int): (r: int)
    ensures InRange(k, r)
  {
    var u := x % Modulus(k);
    if u < Lowest(k) + Modulus(k) then u else u - Modulus(k)
  }

  /** Section 15.16.2: the largest magnitude with |d * q| <= |n|, negative when the signs differ. */
  function Quotient(n: int, d: int): int
    requires d != 0
  {
    var q := Abs(n) / Abs(d);
    if (n < 0) != (d < 0) then -q else q
  }

  /** Section 15.16.3: the sign of the dividend, and a magnitude below the divisor's. */
  function Remainder(n: int, d: int): int
    requires d != 0
  {
    var r := Abs(n) % Abs(d);
    if n < 0 then -r else r
  }

  function Abs(x: int): (r: nat)
    ensures x != 0 ==> r > 0
  {
    if x < 0 then -x else x
  }

  /** Section 15.14.5: every one of the low `bits` binary digits inverted. */
  function InvertBits(u: nat, bits: nat): nat {
    if bits == 0 then 0 else 2 * InvertBits(u / 2, bits - 1) + (1 - u % 2)
  }

  /** Section 5.6.2: long if either operand is long, else int. */
  function Promoted(a: Kind, b: Kind): Kind {
    if a == LongK || b == LongK then LongK else IntK
  }

  function IntegerOp(op: BinOp, k: Kind, a: int, b: int): Outcome {
    match op
    case Mul => Normal(Num(k, Low(k, a * b)))
    case Add => Normal(Num(k, Low(k, a + b)))
    case Sub => Normal(Num(k, Low(k, a - b)))
    case Div =>
      if b == 0 then Abrupt("java.lang.ArithmeticException")
      else if a == Lowest(k) && b == -1 then Normal(Num(k, a))
      else Normal(Num(k, Quotient(a, b)))
    case Rem =>
      if b == 0 then Abrupt("java.lang.ArithmeticException")
      else Normal(Num(k, Remainder(a, b)))
    case _ => Stuck
  }

  // ---- the other operators ----

  function DoubleOp(op: BinOp, a: Extended, b: Extended): Outcome {
    match op
    case Less => Normal(Bool(Ieee.Less(a, b)))
    case GreaterEq => Normal(Bool(Ieee.GreaterEqual(a, b)))
    case EqualTo => Normal(Bool(Ieee.Equal(a, b)))
    case NotEqual => Normal(Bool(!Ieee.Equal(a, b)))
    case _ => Stuck
  }

  /** Section 15.17.1.1, string conversion, where this model has one. */
  function TextOf(v: Value): Option<string> {
    match v
    case Num(k, n) => Some(if k == CharK then CharText(n) else PrintInt(n))
    case Bool(b) => Some(if b then "true" else "false")
    case Text(s) => Some(s)
    case Null => Some("null")
    case _ => None
  }

  function Concatenation(x: Value, y: Value): Outcome {
    match (TextOf(x), TextOf(y))
    case (Some(a), Some(b)) => Normal(Text(a + b))
    case _ => Stuck
  }

  predicate IsText(v: Value) {
    v.Text? || v.Null?
  }

  function BinaryOp(op: BinOp, x: Value, y: Value): Outcome {
    if op == Add && (IsText(x) || IsText(y)) then Concatenation(x, y)
    else
      match (x, y)
      case (Num(j, a), Num(k, b)) => IntegerOp(op, Promoted(j, k), a, b)
      case (Dbl(a), Dbl(b)) => DoubleOp(op, Decode(a), Decode(b))
      case (Bool(a), Bool(b)) =>
        if op == EqualTo then Normal(Bool(a == b)) else if op == NotEqual then Normal(Bool(a != b)) else Stuck
      case _ => Stuck
  }

  function UnaryOp(op: UnOp, x: Value): Outcome {
    match (op, x)
    case (Negate, Num(k, a)) => Normal(Num(Promoted(k, k), Low(Promoted(k, k), 0 - a)))
    case (Plus, Num(k, a)) => Normal(Num(Promoted(k, k), a))
    case (Complement, Num(k, a)) =>
      var p := Promoted(k, k);
      Normal(Num(p, Low(p, InvertBits(a % Modulus(p), Width(p)))))
    case (Negate, Dbl(b)) =>
      Normal(Dbl(if Decode(b) == NotANumber then NAN else if SignBit(b) then b - TWO_63 else b + TWO_63))
    case (Not, Bool(b)) => Normal(Bool(!b))
    case _ => Stuck
  }

  function NumberCast(k: Kind, x: Value): Outcome {
    match x
    case Num(_, n) => Normal(Num(k, Low(k, n)))
    case _ => Stuck
  }

  /** Section 5.1.5: the null reference passes, another class does not. */
  function TextCast(x: Value): Outcome {
    match x
    case Text(_) | Null => Normal(x)
    case Obj(_, _) => Abrupt("java.lang.ClassCastException")
    case _ => Stuck
  }

  // ---- evaluation ----

  function Eval(e: Expr, env: Env): Outcome {
    match e
    case Lit(v) => Normal(v)
    case Var(x) => if x in env then Normal(env[x]) else Stuck
    case Unary(op, a) =>
      (match Eval(a, env)
       case Normal(x) => UnaryOp(op, x)
       case other => other)
    case Binary(op, l, r) =>
      (match Eval(l, env)
       case Normal(x) =>
         (match Eval(r, env)
          case Normal(y) => BinaryOp(op, x, y)
          case other => other)
       case other => other)
    case ToNumber(k, a) =>
      (match Eval(a, env)
       case Normal(x) => NumberCast(k, x)
       case other => other)
    case ToText(a) =>
      (match Eval(a, env)
       case Normal(x) => TextCast(x)
       case other => other)
    case Cond(c, t, f) =>
      (match Eval(c, env)
       case Normal(Bool(b)) => if b then Eval(t, env) else Eval(f, env)
       case Normal(_) => Stuck
       case other => other)
  }

  /** The value of the one line a statement prints, or the exception that ends it before. */
  function Run(s: Stmt, env: Env): Outcome {
    match s
    case Println(e) => Eval(e, env)
    case Local(x, e, rest) =>
      (match Eval(e, env)
       case Normal(v) => Run(rest, env[x := v])
       case other => other)
    case Assign(x, e, rest) =>
      (match Eval(e, env)
       case Normal(v) => if x in env then Run(rest, env[x := v]) else Stuck
       case other => other)
  }
}
