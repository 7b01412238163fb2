/** What each snippet composes from its holes' values (the expect methods of BootSnippets.java and
    Lib4.java), and the bottom-up fold over a tree (Stitching.expect). */
module Composition {
  import opened JavaInts
  import opened Options
  import opened Ieee
  import opened Rules
  import opened Vals
  import opened Snippets

  const ARITHMETIC := "java.lang.ArithmeticException"
  const CLASS_CAST := "java.lang.ClassCastException"
  const INT_MIN: int := -TWO_31
  const LONG_MIN: int := -TWO_63
  const LONG_MAX: int := TWO_63 - 1

  /** The generator's own integer division, rounding toward zero. */
  function Truncated(a: int, b: int): int
    requires b != 0
  {
    if a >= 0 then a / b else -((-a) / b)
  }

  function DivInts(a: int, b: int): Val {
    if b == 0 then Throws(ARITHMETIC)
    else if a == INT_MIN && b == -1 then OfInt(INT_MIN)
    else OfInt(Wrap32(Truncated(a, b)))
  }

  /** The remainder by the identity a - (a/b)*b, formed in long. */
  function RemInts(a: int, b: int): Val {
    if b == 0 then Throws(ARITHMETIC)
    else if a == INT_MIN && b == -1 then OfInt(0)
    else
      var q := Wrap32(Truncated(a, b));
      OfInt(Wrap32(Wrap64(a - Wrap64(q * b))))
  }

  function DivLongs(a: int, b: int): Val {
    if b == 0 then Throws(ARITHMETIC)
    else if a == LONG_MIN && b == -1 then OfLong(LONG_MIN)
    else OfLong(Wrap64(Truncated(a, b)))
  }

  function RemLongs(a: int, b: int): Val {
    if b == 0 then Throws(ARITHMETIC)
    else if a == LONG_MIN && b == -1 then OfLong(0)
    else OfLong(Wrap64(a - Wrap64(Wrap64(Truncated(a, b)) * b)))
  }

  /** Unary minus on a double flips the sign bit (F4.dSigned(!dNeg(a), dAbs(a))). */
  function FlipSign(b: Bits): Bits {
    if SignBit(b) then b - TWO_63 else b + TWO_63
  }

  function AbsBits(b: Bits): Bits {
    if DNeg(b) then FlipSign(b) else b
  }

  function SignedBits(neg: bool, magnitude: Bits): Bits {
    if neg then FlipSign(magnitude) else magnitude
  }

  function EqDoubles(a: Bits, b: Bits): bool {
    if DNaN(a) || DNaN(b) then false
    else if DZero(a) && DZero(b) then true
    else DBits(a) == DBits(b)
  }

  function NeDoubles(a: Bits, b: Bits): bool {
    if DNaN(a) || DNaN(b) then true
    else if DZero(a) && DZero(b) then false
    else DBits(a) != DBits(b)
  }

  // ---- the value of each group, once its operands are known ----

  function OfLiteral(lit: Literal): Val {
    match lit
    case IntLit(v) => OfInt(v)
    case LongLit(v) => OfLong(v)
    case CharLit(v) => OfChar(v)
    case ByteLit(v) => OfByte(v)
    case DoubleLit(bits) => OfDouble(bits)
    case BoolLit(b) => Boolean(b)
    case StringLit(s) => OfString(s)
    case ObjString(s) => Ref("String", s)
    case ObjNull => OfNull()
    case ObjOther(cls, text) => Ref(cls, text)
  }

  function FromInts(op: IntPairOp, a: int, b: int): Val {
    match op
    case AddInt => OfInt(Wrap32(Wrap64(a + b)))
    case SubInt => OfInt(Wrap32(Wrap64(a - b)))
    case MulInt => OfInt(Wrap32(Wrap64(a * b)))
    case DivInt => DivInts(a, b)
    case RemInt => RemInts(a, b)
    case MulIntLong => OfLong(Wrap64(a * b))
  }

  function FromInt(op: IntOp, a: int): Val {
    match op
    case NegInt => if a == INT_MIN then OfInt(INT_MIN) else OfInt(Wrap32(-a))
    case PlusInt => OfInt(a)
    case NotInt => OfInt(Wrap32(Wrap64(Wrap64(-a) - 1)))
    case WidenIntToLong => OfLong(a)
    case NarrowIntToChar => OfChar(a % 0x1_0000)
    case VarCharExact => OfInt(a % 0x1_0000)
  }

  function FromLongs(op: LongPairOp, a: int, b: int): Val {
    match op
    case AddLong => OfLong(Wrap64(a + b))
    case DivLong => DivLongs(a, b)
    case RemLong => RemLongs(a, b)
  }

  function FromLong(op: LongOp, a: int): Val {
    match op
    case NegLong => if a == LONG_MIN then OfLong(LONG_MIN) else OfLong(Wrap64(-a))
    case NotLong => if a == LONG_MIN then OfLong(LONG_MAX) else OfLong(Wrap64(Wrap64(-a) - 1))
    case PrintLong => OfLong(a)
  }

  function FromDoubles(op: DoublePairOp, a: Bits, b: Bits): bool {
    match op
    case EqDouble => EqDoubles(a, b)
    case NeDouble => NeDoubles(a, b)
    case LtDouble => !DNaN(a) && !DNaN(b) && DKey(a) < DKey(b)
    case GeDouble => !DNaN(a) && !DNaN(b) && DKey(a) >= DKey(b)
  }

  function FromDouble(op: DoubleOp, a: Bits): Val {
    match op
    case SelfNeDouble => Boolean(DNaN(a))
    case NegDouble => OfDouble(if DNaN(a) then NAN else SignedBits(!DNeg(a), AbsBits(a)))
  }

  function FromBoolean(op: BooleanOp, a: bool): Val {
    match op
    case NotBool => Boolean(!a)
    case ConcatBool => OfString("b=" + if a then "true" else "false")
  }

  function CastToString(v: Val): Checked<Val> {
    if IsNull(v) then Good(OfNull())
    else if TypeName(v) == "String" then
      var text :- Display(v);
      Good(OfString(text))
    else Good(Throws(CLASS_CAST))
  }

  // ---- one snippet ----

  /** A snippet that needs all its operands: none of them throws. */
  function ComposeStrict(r: Rule, h: seq<Val>): Checked<Val>
    requires |h| == Arity(r)
  {
    match r
    case Leaf(lit) => Good(OfLiteral(lit))
    case OnInts(op) => var a :- AsInt(h[0]); var b :- AsInt(h[1]); Good(FromInts(op, a, b))
    case OnInt(op) => var a :- AsInt(h[0]); Good(FromInt(op, a))
    case OnLongs(op) => var a :- AsLong(h[0]); var b :- AsLong(h[1]); Good(FromLongs(op, a, b))
    case OnLong(op) => if op == PrintLong then Good(h[0]) else var a :- AsLong(h[0]); Good(FromLong(op, a))
    case OnDoubles(op) => var a :- AsDouble(h[0]); var b :- AsDouble(h[1]); Good(Boolean(FromDoubles(op, a, b)))
    case OnDouble(op) => var a :- AsDouble(h[0]); Good(FromDouble(op, a))
    case OnBoolean(op) => var a :- AsBoolean(h[0]); Good(FromBoolean(op, a))
    case AddByte | AddChar => var a :- AsInt(h[0]); var b :- AsInt(h[1]); Good(OfInt(Wrap32(a + b)))
    case NegByte => var a :- AsInt(h[0]); Good(OfInt(Wrap32(-a)))
    case EqBool => var a :- AsBoolean(h[0]); var b :- AsBoolean(h[1]); Good(Boolean(a == b))
    case CondInt => var c :- AsBoolean(h[0]); Good(if c then h[1] else h[2])
    case ConcatInt => var a :- StringConversion(h[0]); var b :- StringConversion(h[1]); Good(OfString(a + b))
    case CastObjToString => CastToString(h[0])
    case PrintString => Good(h[0])
    case VarNoShare => Good(h[0])
  }

  /** The expect method of a snippet: a strict one answers its first throwing hole, in order; ?:
      looks at its condition alone. */
  function Compose(r: Rule, h: seq<Val>): Checked<Val>
    requires |h| == Arity(r)
  {
    var thrown := if r == CondInt then FirstThrow(h[..1]) else FirstThrow(h);
    match thrown
    case Some(t) => Good(t)
    case None => ComposeStrict(r, h)
  }

  /** Where printing dispatches on the type, the type must be the declared one. */
  predicate Mistyped(v: Val, ty: string) {
    (v.Long? || v.Double? || v.Boolean?) && ty != "void" && TypeName(v) != ty
  }

  /** The fold. Every child is composed first, even one a ?: does not take. */
  function Expect(t: Tree): Checked<Val> {
    var vs :- ExpectAll(t.kids);
    if |vs| != Arity(t.snip.rule) then Bug("wrong number of holes")
    else
      var v :- Compose(t.snip.rule, vs);
      if Mistyped(v, t.snip.ty) then Bug("mistyped") else Good(v)
  }

  function ExpectAll(kids: seq<Tree>): (r: Checked<seq<Val>>)
    ensures r.Good? ==> |r.value| == |kids|
  {
    if kids == [] then Good([])
    else
      var v :- Expect(kids[0]);
      var rest :- ExpectAll(kids[1..]);
      Good([v] + rest)
  }

  // ---- what the fold lets through ----

  /** A value may stand for a snippet of a type: a number or a boolean only under its own type, unless
      the snippet is a statement. */
  ghost predicate Stands(v: Val, ty: string) {
    match v
    case Long(own, _) => ty == own || ty == "void"
    case Double(own, _) => ty == own || ty == "void"
    case Boolean(_) => ty == "boolean" || ty == "void"
    case _ => true
  }

  lemma MistypedIs(v: Val, ty: string)
    ensures Mistyped(v, ty) <==> !Stands(v, ty)
  {
  }

  /** The fold has a value exactly when every child has one, there are as many as the rule asks for,
      the rule composes them, and what it makes may stand for the snippet's type. */
  lemma ExpectIs(t: Tree, v: Val)
    ensures Expect(t) == Good(v) <==>
              && ExpectAll(t.kids).Good? && |t.kids| == Arity(t.snip.rule)
              && Compose(t.snip.rule, ExpectAll(t.kids).value) == Good(v) && Stands(v, t.snip.ty)
  {
    MistypedIs(v, t.snip.ty);
  }
}
