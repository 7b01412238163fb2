/** The composed expectation is what the rendered program means: the bottom-up fold of a stitching
    agrees with the left-to-right evaluation of the expression it renders. */
module OracleSoundness {
  import opened JavaInts
  import opened Options
  import opened Ieee
  import opened Rules
  import opened Vals
  import opened Snippets
  import opened Composition
  import opened JavaSemantics
  import opened OracleArithmetic

  // ---- what a snippet renders ----

  function LiteralValue(lit: Literal): Value {
    match lit
    case IntLit(v) => Num(IntK, v)
    case LongLit(v) => Num(LongK, v)
    case CharLit(v) => Num(CharK, v)
    case ByteLit(v) => Num(ByteK, v)
    case DoubleLit(bits) => Dbl(bits)
    case BoolLit(b) => Bool(b)
    case StringLit(s) => Text(s)
    case ObjString(s) => Text(s)
    case ObjNull => Null
    case ObjOther(cls, text) => Obj(cls, text)
  }

  /** The expression of a snippet that is not a statement, its holes' expressions in place. */
  function Render(r: Rule, h: seq<Expr>): Expr
    requires |h| == Arity(r) && TypeOf(r) != "void"
  {
    match r
    case Leaf(lit) => Lit(LiteralValue(lit))
    case OnInts(op) =>
      (match op
       case AddInt => Binary(Add, h[0], h[1])
       case SubInt => Binary(Sub, h[0], h[1])
       case MulInt => Binary(Mul, h[0], h[1])
       case DivInt => Binary(Div, h[0], h[1])
       case RemInt => Binary(Rem, h[0], h[1])
       case MulIntLong => Binary(Mul, h[0], ToNumber(LongK, h[1])))
    case OnInt(op) =>
      (match op
       case NegInt => Unary(Negate, h[0])
       case PlusInt => Unary(Plus, h[0])
       case NotInt => Unary(Complement, h[0])
       case WidenIntToLong => ToNumber(LongK, h[0])
       case _ => ToNumber(CharK, h[0]))
    case OnLongs(op) => Binary(if op == AddLong then Add else if op == DivLong then Div else Rem, h[0], h[1])
    case OnLong(op) => Unary(if op == NegLong then Negate else Complement, h[0])
    case OnDoubles(op) =>
      (match op
       case EqDouble => Binary(EqualTo, h[0], h[1])
       case NeDouble => Binary(NotEqual, h[0], h[1])
       case LtDouble => Binary(BinOp.Less, h[0], h[1])
       case GeDouble => Binary(GreaterEq, h[0], h[1]))
    case OnDouble(op) => if op == SelfNeDouble then Binary(NotEqual, h[0], h[0]) else Unary(Negate, h[0])
    case OnBoolean(op) => if op == NotBool then Unary(Not, h[0]) else Binary(Add, Lit(Text("b=")), h[0])
    case AddByte | AddChar => Binary(Add, h[0], h[1])
    case NegByte => Unary(Negate, h[0])
    case EqBool => Binary(EqualTo, h[0], h[1])
    case CondInt => JavaSemantics.Cond(h[0], h[1], h[2])
    case ConcatInt => Binary(Add, h[0], h[1])
    case CastObjToString => ToText(h[0])
    case _ => Lit(Null)
  }

  /** The statement of a "void" snippet. */
  function RenderStatement(r: Rule, h: seq<Expr>): Stmt
    requires |h| == Arity(r) && TypeOf(r) == "void"
  {
    match r
    case VarNoShare => Local("a", h[0], Local("b", Var("a"), Assign("b", h[1], Println(Var("a")))))
    case OnInt(_) => Local("c", ToNumber(CharK, h[0]), Println(ToNumber(IntK, Var("c"))))
    case _ => Println(h[0])
  }

  // ---- what a value stands for ----

  function KindOf(ty: string): Kind {
    if ty == "byte" then ByteK else if ty == "char" then CharK else if ty == "int" then IntK else LongK
  }

  function Denotes(v: Val): Outcome {
    match v
    case Long(ty, l) => Normal(Num(KindOf(ty), l))
    case Double(_, bits) => Normal(Dbl(bits))
    case Str(None) => Normal(Null)
    case Str(Some(s)) => Normal(Text(s))
    case Boolean(b) => Normal(Bool(b))
    case Ref(cls, text) =>
      Normal(if cls == "null" then Null else if cls == "String" then Text(text) else Obj(cls, text))
    case Throws(cls) => Abrupt(cls)
  }

  /** The values a snippet of type `ty` may compose; a throw has no type. */
  predicate Fits(v: Val, ty: string) {
    match v
    case Long(t, l) => t == ty && ty in ["byte", "char", "int", "long"] && InRange(KindOf(ty), l)
    case Double(t, bits) => t == ty == "double" && bits == Canonical(bits)
    case Str(_) => ty == "String"
    case Boolean(_) => ty == "boolean"
    case Ref(cls, text) => (cls == "null" ==> text == "null") && (ty == "Object" || (ty == "String" && cls == "null"))
    case Throws(_) => true
  }

  /** A literal within the range of its type, and not a made-up reference. */
  predicate ProperLiteral(lit: Literal) {
    match lit
    case DoubleLit(bits) => bits == Canonical(bits)
    case ObjOther(cls, _) => cls != "null" && cls != "String"
    case ObjString(_) | ObjNull | StringLit(_) | BoolLit(_) => true
    case _ => InRange(KindOf(LiteralType(lit)), lit.v)
  }

  predicate Proper(r: Rule) {
    r.Leaf? ==> ProperLiteral(r.lit)
  }

  /** Every snippet declares the types of its rule. */
  ghost predicate InFragment(lib: seq<Snippet>) {
    forall s :: s in lib ==> s.holes == HolesOf(s.rule) && s.ty == TypeOf(s.rule) && Proper(s.rule)
  }

  // ---- reading the types of values ----

  predicate Matches(v: Val, o: Outcome, ty: string) {
    Denotes(v) == o && Fits(v, ty)
  }

  lemma KindNames()
    ensures KindOf("byte") == ByteK && KindOf("char") == CharK && KindOf("int") == IntK && KindOf("long") == LongK
    ensures "byte" in ["byte", "char", "int", "long"] && "char" in ["byte", "char", "int", "long"]
    ensures "int" in ["byte", "char", "int", "long"] && "long" in ["byte", "char", "int", "long"]
  {
    var names := ["byte", "char", "int", "long"];
    assert names[0] == "byte" && names[1] == "char" && names[2] == "int" && names[3] == "long";
    assert |"byte"| == 4 && "byte"[0] == 'b' && "char"[0] == 'c' && "int"[0] == 'i' && "long"[0] == 'l';
  }

  lemma NumberNames(ty: string)
    requires ty in ["byte", "char", "int", "long"]
    ensures ty != "boolean" && ty != "double" && ty != "String" && ty != "Object"
  {
    assert |ty| <= 4;
    assert |"boolean"| == 7 && |"double"| == 6 && |"String"| == 6 && |"Object"| == 6;
  }

  lemma ReferenceNames()
    ensures "String" != "Object" && "String" != "boolean" && "String" != "double" && "Object" != "double"
    ensures "boolean" != "double" && "Object" != "boolean" && "null" != "String"
  {
    assert "String"[0] == 'S' && "Object"[0] == 'O' && "boolean"[0] == 'b' && "double"[0] == 'd' && "null"[0] == 'n';
  }

  /** A number snippet's value, when it does not throw. */
  lemma NumberValue(v: Val, o: Outcome, ty: string)
    requires Matches(v, o, ty) && !v.Throws? && ty in ["byte", "char", "int", "long"]
    ensures v.Long? && v.ty == ty && InRange(KindOf(ty), v.l) && o == Normal(Num(KindOf(ty), v.l))
    ensures AsLong(v) == Good(v.l) && (ty != "long" ==> AsInt(v) == Good(v.l))
  {
    NumberNames(ty);
    KindNames();
    WrapsKeep(v.l);
  }

  lemma BooleanValue(v: Val, o: Outcome)
    requires Matches(v, o, "boolean") && !v.Throws?
    ensures v.Boolean? && o == Normal(Bool(v.b))
  {
    ReferenceNames();
  }

  lemma DoubleValue(v: Val, o: Outcome)
    requires Matches(v, o, "double") && !v.Throws?
    ensures v.Double? && v.bits == Canonical(v.bits) && o == Normal(Dbl(v.bits))
  {
    ReferenceNames();
  }

  /** A String snippet's value: a text, or one of the two ways to say null. */
  lemma TextValue(v: Val, o: Outcome)
    requires Matches(v, o, "String") && !v.Throws?
    ensures o.Normal? && (o.v.Text? || o.v.Null?)
    ensures StringConversion(v).Good? && TextOf(o.v) == Some(StringConversion(v).value)
  {
    ReferenceNames();
  }

  // ---- one snippet, its operands known ----

  lemma IntPairs(op: IntPairOp, a: int, b: int)
    requires IsInt(a) && IsInt(b)
    ensures op == AddInt ==> Denotes(FromInts(op, a, b)) == IntegerOp(Add, IntK, a, b)
    ensures op == SubInt ==> Denotes(FromInts(op, a, b)) == IntegerOp(Sub, IntK, a, b)
    ensures op == MulInt ==> Denotes(FromInts(op, a, b)) == IntegerOp(Mul, IntK, a, b)
    ensures op == DivInt ==> Denotes(FromInts(op, a, b)) == IntegerOp(Div, IntK, a, b)
    ensures op == RemInt ==> Denotes(FromInts(op, a, b)) == IntegerOp(Rem, IntK, a, b)
    ensures op == MulIntLong ==> Denotes(FromInts(op, a, b)) == IntegerOp(Mul, LongK, a, b)
    ensures Fits(FromInts(op, a, b), TypeOf(OnInts(op)))
  {
    KindNames();
    match op
    case AddInt => LowOfNarrowed(a + b); LowIsWrap(a + b);
    case SubInt => LowOfNarrowed(a - b); LowIsWrap(a - b);
    case MulInt => LowOfNarrowed(a * b); LowIsWrap(a * b);
    case DivInt => if b != 0 { IntQuotient(a, b); }
    case RemInt => if b != 0 { IntRemainder(a, b); }
    case MulIntLong => LowIsWrap(a * b);
  }

  lemma IntQuotient(a: int, b: int)
    requires IsInt(a) && IsInt(b) && b != 0
    ensures exists q :: IsInt(q) && DivInts(a, b) == OfInt(q) && IntegerOp(Div, IntK, a, b) == Normal(Num(IntK, q))
  {
    TruncatedIsQuotient(a, b);
    QuotientFits(a, b, TWO_31);
    WrapsKeep(Truncated(a, b));
    var q := if a == INT_MIN && b == -1 then INT_MIN else Quotient(a, b);
    assert DivInts(a, b) == OfInt(q) && IntegerOp(Div, IntK, a, b) == Normal(Num(IntK, q));
  }

  lemma IntRemainder(a: int, b: int)
    requires IsInt(a) && IsInt(b) && b != 0
    ensures IsInt(Remainder(a, b)) && RemInts(a, b) == OfInt(Remainder(a, b))
  {
    RemainderByIdentity(a, b);
    if a == INT_MIN && b == -1 {
      assert Abs(a) % 1 == 0;
    } else {
      TruncatedIsQuotient(a, b);
      QuotientFits(a, b, TWO_31);
      var q := Quotient(a, b);
      WrapsKeep(q);
      WrapsKeep(q * b);
      WrapsKeep(Remainder(a, b));
    }
  }

  lemma LongQuotient(a: int, b: int)
    requires IsLong(a) && IsLong(b) && b != 0
    ensures exists q :: IsLong(q) && DivLongs(a, b) == OfLong(q) && IntegerOp(Div, LongK, a, b) == Normal(Num(LongK, q))
  {
    TruncatedIsQuotient(a, b);
    QuotientFits(a, b, TWO_63);
    WrapsKeep(Truncated(a, b));
    var q := if a == LONG_MIN && b == -1 then LONG_MIN else Quotient(a, b);
    assert DivLongs(a, b) == OfLong(q) && IntegerOp(Div, LongK, a, b) == Normal(Num(LongK, q));
  }

  lemma LongRemainder(a: int, b: int)
    requires IsLong(a) && IsLong(b) && b != 0
    ensures IsLong(Remainder(a, b)) && RemLongs(a, b) == OfLong(Remainder(a, b))
  {
    RemainderByIdentity(a, b);
    if a == LONG_MIN && b == -1 {
      assert Abs(a) % 1 == 0;
    } else {
      TruncatedIsQuotient(a, b);
      QuotientFits(a, b, TWO_63);
      var q := Quotient(a, b);
      WrapsKeep(q);
      WrapsKeep(q * b);
      WrapsKeep(Remainder(a, b));
    }
  }

  lemma LongPairs(op: LongPairOp, a: int, b: int)
    requires IsLong(a) && IsLong(b)
    ensures op == AddLong ==> Denotes(FromLongs(op, a, b)) == IntegerOp(Add, LongK, a, b)
    ensures op == DivLong ==> Denotes(FromLongs(op, a, b)) == IntegerOp(Div, LongK, a, b)
    ensures op == RemLong ==> Denotes(FromLongs(op, a, b)) == IntegerOp(Rem, LongK, a, b)
    ensures Fits(FromLongs(op, a, b), "long")
  {
    KindNames();
    match op
    case AddLong => LowIsWrap(a + b);
    case DivLong => if b != 0 { LongQuotient(a, b); }
    case RemLong => if b != 0 { LongRemainder(a, b); }
  }

  lemma IntUnaries(op: IntOp, a: int)
    requires IsInt(a) && (op == NegInt || op == PlusInt || op == NotInt)
    ensures op == NegInt ==> Denotes(FromInt(op, a)) == UnaryOp(Negate, Num(IntK, a))
    ensures op == PlusInt ==> Denotes(FromInt(op, a)) == UnaryOp(Plus, Num(IntK, a))
    ensures op == NotInt ==> Denotes(FromInt(op, a)) == UnaryOp(Complement, Num(IntK, a))
    ensures Fits(FromInt(op, a), "int")
  {
    KindNames();
    match op
    case NegInt => LowIsWrap(-a);
    case PlusInt =>
    case NotInt => ComplementIs(IntK, a); WrapsKeep(-a); WrapsKeep(-a - 1);
  }

  lemma IntConversions(a: int)
    requires IsInt(a)
    ensures Matches(FromInt(WidenIntToLong, a), NumberCast(LongK, Num(IntK, a)), "long")
    ensures Matches(FromInt(NarrowIntToChar, a), NumberCast(CharK, Num(IntK, a)), "char")
    ensures Matches(FromInt(VarCharExact, a), NumberCast(IntK, Num(CharK, Low(CharK, a))), "int")
  {
    KindNames();
    LowOfInRange(LongK, a);
    LowIsWrap(a);
    LowOfInRange(IntK, Low(CharK, a));
  }

  lemma NegatedLong(a: int)
    requires IsLong(a)
    ensures Denotes(FromLong(NegLong, a)) == UnaryOp(Negate, Num(LongK, a)) && Fits(FromLong(NegLong, a), "long")
  {
    KindNames();
    LowIsWrap(-a);
  }

  lemma ComplementedLong(a: int)
    requires IsLong(a)
    ensures Denotes(FromLong(NotLong, a)) == UnaryOp(Complement, Num(LongK, a)) && Fits(FromLong(NotLong, a), "long")
  {
    KindNames();
    ComplementIs(LongK, a);
    NotLongIs(a);
    assert InRange(LongK, -a - 1);
  }

  lemma NotLongIs(a: int)
    requires IsLong(a)
    ensures FromLong(NotLong, a) == OfLong(-a - 1)
  {
    if a > LONG_MIN {
      WrapsKeep(-a);
      WrapsKeep(-a - 1);
    }
  }

  lemma LongUnaries(op: LongOp, a: int)
    requires IsLong(a)
    ensures op == NegLong ==> Denotes(FromLong(op, a)) == UnaryOp(Negate, Num(LongK, a))
    ensures op == NotLong ==> Denotes(FromLong(op, a)) == UnaryOp(Complement, Num(LongK, a))
    ensures op != PrintLong ==> Fits(FromLong(op, a), "long")
  {
    NegatedLong(a);
    ComplementedLong(a);
  }

  lemma SmallSums(k: Kind, a: int, b: int)
    requires (k == ByteK || k == CharK) && InRange(k, a) && InRange(k, b)
    ensures Matches(OfInt(Wrap32(a + b)), BinaryOp(Add, Num(k, a), Num(k, b)), "int")
    ensures Matches(OfInt(Wrap32(-a)), UnaryOp(Negate, Num(k, a)), "int")
  {
    KindNames();
    LowIsWrap(a + b);
    LowIsWrap(-a);
  }

  /** The comparisons composed over bit patterns and keys are the comparisons of IEEE 754. */
  lemma DoublePairs(op: DoublePairOp, a: Bits, b: Bits)
    ensures op == EqDouble ==> FromDoubles(op, a, b) == Equal(Decode(a), Decode(b))
    ensures op == NeDouble ==> FromDoubles(op, a, b) == !Equal(Decode(a), Decode(b))
    ensures op == LtDouble ==> FromDoubles(op, a, b) == Ieee.Less(Decode(a), Decode(b))
    ensures op == GeDouble ==> FromDoubles(op, a, b) == GreaterEqual(Decode(a), Decode(b))
  {
    BitsOfPattern(a);
    BitsOfPattern(b);
    if !DNaN(a) && !DNaN(b) {
      KeyIsOrderIsomorphism(a, b);
      KeyIsOrderIsomorphism(b, a);
      EqualPatterns(a, b);
    }
  }

  /** `x != x` exactly for NaN; unary minus flips the sign of everything else. */
  lemma DoubleUnaries(a: Bits)
    requires a == Canonical(a)
    ensures DNaN(a) == !Equal(Decode(a), Decode(a))
    ensures Matches(FromDouble(NegDouble, a), UnaryOp(Negate, Dbl(a)), "double")
  {
    BitsOfPattern(a);
    if !DNaN(a) { MagnitudeIs(a); MagnitudeIs(FlipSign(a)); MagnitudeIs(FlipSign(FlipSign(a))); }
  }

  // ---- one snippet, its holes evaluated ----

  ghost predicate HolesMatch(r: Rule, vs: seq<Val>, hs: seq<Expr>, env: Env) {
    && |vs| == |hs| == Arity(r)
    && forall i :: 0 <= i < |vs| ==> Matches(vs[i], Eval(hs[i], env), HolesOf(r)[i])
  }

  ghost predicate Sound(c: Checked<Val>, o: Outcome, ty: string) {
    match c
    case Bug(_) => false
    case Good(v) => Matches(v, o, ty)
  }

  ghost predicate NoThrow(vs: seq<Val>) {
    forall i :: 0 <= i < |vs| ==> !vs[i].Throws?
  }

  lemma NumberHole(r: Rule, vs: seq<Val>, hs: seq<Expr>, env: Env, i: nat)
    requires HolesMatch(r, vs, hs, env) && NoThrow(vs) && i < |vs|
    requires HolesOf(r)[i] in ["byte", "char", "int", "long"]
    ensures var ty := HolesOf(r)[i];
            && vs[i].Long? && vs[i].ty == ty && InRange(KindOf(ty), vs[i].l)
            && Eval(hs[i], env) == Normal(Num(KindOf(ty), vs[i].l))
            && AsLong(vs[i]) == Good(vs[i].l) && (ty != "long" ==> AsInt(vs[i]) == Good(vs[i].l))
  {
    NumberValue(vs[i], Eval(hs[i], env), HolesOf(r)[i]);
  }

  lemma WideProductIsSound(vs: seq<Val>, hs: seq<Expr>, env: Env)
    requires HolesMatch(OnInts(MulIntLong), vs, hs, env) && NoThrow(vs)
    ensures Sound(ComposeStrict(OnInts(MulIntLong), vs), Eval(Render(OnInts(MulIntLong), hs), env), "long")
  {
    KindNames();
    NumberHole(OnInts(MulIntLong), vs, hs, env, 0);
    NumberHole(OnInts(MulIntLong), vs, hs, env, 1);
    IntPairs(MulIntLong, vs[0].l, vs[1].l);
    LowOfInRange(LongK, vs[1].l);
  }

  lemma IntsAreSound(op: IntPairOp, vs: seq<Val>, hs: seq<Expr>, env: Env)
    requires HolesMatch(OnInts(op), vs, hs, env) && NoThrow(vs) && op != MulIntLong
    ensures Sound(ComposeStrict(OnInts(op), vs), Eval(Render(OnInts(op), hs), env), TypeOf(OnInts(op)))
  {
    KindNames();
    NumberHole(OnInts(op), vs, hs, env, 0);
    NumberHole(OnInts(op), vs, hs, env, 1);
    IntPairs(op, vs[0].l, vs[1].l);
  }

  lemma IntIsSound(op: IntOp, vs: seq<Val>, hs: seq<Expr>, env: Env)
    requires HolesMatch(OnInt(op), vs, hs, env) && NoThrow(vs) && op != VarCharExact
    ensures Sound(ComposeStrict(OnInt(op), vs), Eval(Render(OnInt(op), hs), env), TypeOf(OnInt(op)))
  {
    KindNames();
    NumberHole(OnInt(op), vs, hs, env, 0);
    if op == WidenIntToLong || op == NarrowIntToChar {
      IntConversions(vs[0].l);
    } else {
      IntUnaries(op, vs[0].l);
    }
  }

  lemma LongsAreSound(op: LongPairOp, vs: seq<Val>, hs: seq<Expr>, env: Env)
    requires HolesMatch(OnLongs(op), vs, hs, env) && NoThrow(vs)
    ensures Sound(ComposeStrict(OnLongs(op), vs), Eval(Render(OnLongs(op), hs), env), TypeOf(OnLongs(op)))
  {
    KindNames();
    NumberHole(OnLongs(op), vs, hs, env, 0);
    NumberHole(OnLongs(op), vs, hs, env, 1);
    LongPairs(op, vs[0].l, vs[1].l);
  }

  lemma LongIsSound(op: LongOp, vs: seq<Val>, hs: seq<Expr>, env: Env)
    requires HolesMatch(OnLong(op), vs, hs, env) && NoThrow(vs) && op != PrintLong
    ensures Sound(ComposeStrict(OnLong(op), vs), Eval(Render(OnLong(op), hs), env), TypeOf(OnLong(op)))
  {
    KindNames();
    NumberHole(OnLong(op), vs, hs, env, 0);
    LongUnaries(op, vs[0].l);
  }

  function JavaOp(op: DoublePairOp): BinOp {
    match op
    case EqDouble => EqualTo
    case NeDouble => NotEqual
    case LtDouble => BinOp.Less
    case GeDouble => GreaterEq
  }

  lemma ComparisonIsRendered(op: DoublePairOp, hs: seq<Expr>)
    requires |hs| == 2
    ensures Render(OnDoubles(op), hs) == Binary(JavaOp(op), hs[0], hs[1])
  {
  }

  lemma OnTwoDoubles(op: BinOp, l: Expr, r: Expr, env: Env, a: Bits, b: Bits)
    requires op != Add && Eval(l, env) == Normal(Dbl(a)) && Eval(r, env) == Normal(Dbl(b))
    ensures Eval(Binary(op, l, r), env) == JavaSemantics.DoubleOp(op, Decode(a), Decode(b))
  {
  }

  lemma ComparisonMeans(op: DoublePairOp, a: Bits, b: Bits)
    ensures JavaSemantics.DoubleOp(JavaOp(op), Decode(a), Decode(b)) == Normal(Bool(FromDoubles(op, a, b)))
  {
    DoublePairs(op, a, b);
  }

  lemma DoublesAreSound(op: DoublePairOp, vs: seq<Val>, hs: seq<Expr>, env: Env)
    requires HolesMatch(OnDoubles(op), vs, hs, env) && NoThrow(vs)
    ensures Sound(ComposeStrict(OnDoubles(op), vs), Eval(Render(OnDoubles(op), hs), env), "boolean")
  {
    DoubleValue(vs[0], Eval(hs[0], env));
    DoubleValue(vs[1], Eval(hs[1], env));
    ComparisonIsRendered(op, hs);
    OnTwoDoubles(JavaOp(op), hs[0], hs[1], env, vs[0].bits, vs[1].bits);
    ComparisonMeans(op, vs[0].bits, vs[1].bits);
  }

  lemma DoubleIsSound(op: DoubleOp, vs: seq<Val>, hs: seq<Expr>, env: Env)
    requires HolesMatch(OnDouble(op), vs, hs, env) && NoThrow(vs)
    ensures Sound(ComposeStrict(OnDouble(op), vs), Eval(Render(OnDouble(op), hs), env), TypeOf(OnDouble(op)))
  {
    DoubleValue(vs[0], Eval(hs[0], env));
    DoubleUnaries(vs[0].bits);
  }

  lemma SmallSumIsSound(r: Rule, vs: seq<Val>, hs: seq<Expr>, env: Env)
    requires r == AddByte || r == AddChar
    requires HolesMatch(r, vs, hs, env) && NoThrow(vs)
    ensures Sound(ComposeStrict(r, vs), Eval(Render(r, hs), env), "int")
  {
    KindNames();
    NumberHole(r, vs, hs, env, 0);
    NumberHole(r, vs, hs, env, 1);
    SmallSums(if r == AddChar then CharK else ByteK, vs[0].l, vs[1].l);
  }

  lemma NegByteIsSound(vs: seq<Val>, hs: seq<Expr>, env: Env)
    requires HolesMatch(NegByte, vs, hs, env) && NoThrow(vs)
    ensures Sound(ComposeStrict(NegByte, vs), Eval(Render(NegByte, hs), env), "int")
  {
    KindNames();
    NumberHole(NegByte, vs, hs, env, 0);
    SmallSums(ByteK, vs[0].l, 0);
  }

  lemma BooleansAreSound(r: Rule, vs: seq<Val>, hs: seq<Expr>, env: Env)
    requires r.OnBoolean? || r == EqBool
    requires HolesMatch(r, vs, hs, env) && NoThrow(vs)
    ensures Sound(ComposeStrict(r, vs), Eval(Render(r, hs), env), TypeOf(r))
  {
    BooleanValue(vs[0], Eval(hs[0], env));
    if r == EqBool { BooleanValue(vs[1], Eval(hs[1], env)); }
  }

  lemma ConcatIsSound(vs: seq<Val>, hs: seq<Expr>, env: Env)
    requires HolesMatch(ConcatInt, vs, hs, env) && NoThrow(vs)
    ensures Sound(ComposeStrict(ConcatInt, vs), Eval(Render(ConcatInt, hs), env), "String")
  {
    KindNames();
    TextValue(vs[0], Eval(hs[0], env));
    NumberHole(ConcatInt, vs, hs, env, 1);
  }

  lemma CastIsSound(vs: seq<Val>, hs: seq<Expr>, env: Env)
    requires HolesMatch(CastObjToString, vs, hs, env) && NoThrow(vs)
    ensures Sound(ComposeStrict(CastObjToString, vs), Eval(Render(CastObjToString, hs), env), "String")
  {
    ReferenceNames();
  }

  lemma LeafIsSound(lit: Literal, env: Env)
    requires ProperLiteral(lit)
    ensures Sound(Good(OfLiteral(lit)), Eval(Render(Leaf(lit), []), env), LiteralType(lit))
  {
    KindNames();
    ReferenceNames();
  }

  /** Once no hole throws, a strict snippet's composition is its expression's outcome. */
  lemma StrictIsSound(r: Rule, vs: seq<Val>, hs: seq<Expr>, env: Env)
    requires HolesMatch(r, vs, hs, env) && NoThrow(vs) && TypeOf(r) != "void" && Proper(r) && !r.CondInt?
    ensures Sound(ComposeStrict(r, vs), Eval(Render(r, hs), env), TypeOf(r))
  {
    match r
    case Leaf(lit) => assert hs == []; LeafIsSound(lit, env);
    case OnInts(op) => if op == MulIntLong { WideProductIsSound(vs, hs, env); } else { IntsAreSound(op, vs, hs, env); }
    case OnInt(op) => IntIsSound(op, vs, hs, env);
    case OnLongs(op) => LongsAreSound(op, vs, hs, env);
    case OnLong(op) => LongIsSound(op, vs, hs, env);
    case OnDoubles(op) => DoublesAreSound(op, vs, hs, env);
    case OnDouble(op) => DoubleIsSound(op, vs, hs, env);
    case OnBoolean(_) => BooleansAreSound(r, vs, hs, env);
    case EqBool => BooleansAreSound(r, vs, hs, env);
    case AddByte => SmallSumIsSound(r, vs, hs, env);
    case AddChar => SmallSumIsSound(r, vs, hs, env);
    case NegByte => NegByteIsSound(vs, hs, env);
    case ConcatInt => ConcatIsSound(vs, hs, env);
    case CastObjToString => CastIsSound(vs, hs, env);
  }

  /** Only ?: leaves one of its operands out: its answer is its condition's, or the taken arm's. */
  lemma CondIsSound(vs: seq<Val>, hs: seq<Expr>, env: Env)
    requires HolesMatch(CondInt, vs, hs, env)
    ensures Sound(Compose(CondInt, vs), Eval(Render(CondInt, hs), env), "int")
  {
    var first := vs[..1];
    assert first[0] == vs[0] && first[1..] == [];
    assert FirstThrow(first) == if vs[0].Throws? then Some(vs[0]) else None;
    assert Matches(vs[0], Eval(hs[0], env), "boolean");
    assert Matches(vs[1], Eval(hs[1], env), "int") && Matches(vs[2], Eval(hs[2], env), "int");
    if !vs[0].Throws? {
      BooleanValue(vs[0], Eval(hs[0], env));
      assert Compose(CondInt, vs) == Good(if vs[0].b then vs[1] else vs[2]);
    } else {
      assert Compose(CondInt, vs) == Good(vs[0]);
    }
  }

  /** Evaluation stops at the first operand that completes abruptly. */
  lemma AbruptFirst(r: Rule, hs: seq<Expr>, env: Env)
    requires |hs| == Arity(r) > 0 && TypeOf(r) != "void" && Eval(hs[0], env).Abrupt?
    ensures Eval(Render(r, hs), env) == Eval(hs[0], env)
  {
  }

  lemma AbruptSecond(r: Rule, hs: seq<Expr>, env: Env)
    requires |hs| == Arity(r) == 2 && TypeOf(r) != "void" && Eval(hs[0], env).Normal? && Eval(hs[1], env).Abrupt?
    ensures Eval(Render(r, hs), env) == Eval(hs[1], env)
  {
  }

  lemma FitsSomething(v: Val, o: Outcome, ty: string)
    requires Matches(v, o, ty)
    ensures if v.Throws? then o == Abrupt(v.thrown) else o.Normal?
  {
  }

  /** A strict snippet answers its first throwing hole, which is where evaluation stops. */
  lemma FirstThrowIsSound(r: Rule, vs: seq<Val>, hs: seq<Expr>, env: Env)
    requires HolesMatch(r, vs, hs, env) && TypeOf(r) != "void" && !r.CondInt? && FirstThrow(vs).Some?
    ensures Sound(Compose(r, vs), Eval(Render(r, hs), env), TypeOf(r))
  {
    FirstThrowAt(vs);
    FitsSomething(vs[0], Eval(hs[0], env), HolesOf(r)[0]);
    if vs[0].Throws? {
      AbruptFirst(r, hs, env);
    } else {
      assert vs[1..][1..] == vs[2..];
      FitsSomething(vs[1], Eval(hs[1], env), HolesOf(r)[1]);
      AbruptSecond(r, hs, env);
    }
  }

  lemma {:induction false} FirstThrowAt(vs: seq<Val>)
    ensures FirstThrow(vs) == None <==> NoThrow(vs)
    ensures FirstThrow(vs).Some? ==> FirstThrow(vs).value in vs && FirstThrow(vs).value.Throws?
  {
    if vs != [] {
      FirstThrowAt(vs[1..]);
      assert forall i :: 0 < i < |vs| ==> vs[i] == vs[1..][i-1];
    }
  }

  lemma ComposeIsSound(r: Rule, vs: seq<Val>, hs: seq<Expr>, env: Env)
    requires HolesMatch(r, vs, hs, env) && TypeOf(r) != "void" && Proper(r)
    ensures Sound(Compose(r, vs), Eval(Render(r, hs), env), TypeOf(r))
  {
    FirstThrowAt(vs);
    if r.CondInt? {
      CondIsSound(vs, hs, env);
    } else if FirstThrow(vs).Some? {
      FirstThrowIsSound(r, vs, hs, env);
    } else {
      StrictIsSound(r, vs, hs, env);
    }
  }

  // ---- whole trees ----

  /** The expression a stitching renders. */
  function Source(t: Tree): Expr
    requires HasSource(t)
  {
    Render(t.snip.rule, Sources(t.kids))
  }

  function Sources(kids: seq<Tree>): (hs: seq<Expr>)
    requires forall i :: 0 <= i < |kids| ==> HasSource(kids[i])
    ensures |hs| == |kids|
  {
    if kids == [] then [] else [Source(kids[0])] + Sources(kids[1..])
  }

  predicate HasSource(t: Tree) {
    && |t.kids| == Arity(t.snip.rule)
    && TypeOf(t.snip.rule) != "void"
    && forall i :: 0 <= i < |t.kids| ==> HasSource(t.kids[i])
  }

  lemma NoVoidHoles(r: Rule, i: nat)
    requires i < Arity(r)
    ensures HolesOf(r)[i] != "void"
  {
  }

  lemma FitsIsTyped(v: Val, ty: string)
    requires Fits(v, ty)
    ensures !Mistyped(v, ty)
  {
  }

  lemma {:induction false} SourcesExist(lib: seq<Snippet>, t: Tree)
    requires InFragment(lib) && WellTyped(lib, t) && t.snip.ty != "void"
    ensures HasSource(t)
  {
    forall i | 0 <= i < |t.kids| ensures HasSource(t.kids[i]) {
      NoVoidHoles(t.snip.rule, i);
      SourcesExist(lib, t.kids[i]);
    }
  }

  /** Every well-typed expression stitching composes a value, never trips an accessor or the type
      check, and the value is the outcome of evaluating the expression it renders. */
  lemma {:induction false} ExpressionIsSound(lib: seq<Snippet>, t: Tree, env: Env)
    requires InFragment(lib) && WellTyped(lib, t) && HasSource(t)
    ensures Sound(Expect(t), Eval(Source(t), env), t.snip.ty)
    decreases t, 1
  {
    var r := t.snip.rule;
    KidsAreSound(lib, t.kids, HolesOf(r), env);
    var vs := ExpectAll(t.kids).value;
    ComposeIsSound(r, vs, Sources(t.kids), env);
    FitsIsTyped(Compose(r, vs).value, t.snip.ty);
  }

  lemma {:induction false} KidsAreSound(lib: seq<Snippet>, kids: seq<Tree>, types: seq<string>, env: Env)
    requires InFragment(lib) && |types| == |kids|
    requires forall i :: 0 <= i < |kids| ==>
               WellTyped(lib, kids[i]) && HasSource(kids[i]) && kids[i].snip.ty == types[i]
    ensures ExpectAll(kids).Good?
    ensures forall i :: 0 <= i < |kids| ==> Matches(ExpectAll(kids).value[i], Eval(Sources(kids)[i], env), types[i])
    decreases kids, 0
  {
    if kids != [] {
      ExpressionIsSound(lib, kids[0], env);
      KidsAreSound(lib, kids[1..], types[1..], env);
      var vs, hs := ExpectAll(kids).value, Sources(kids);
      assert vs == [Expect(kids[0]).value] + ExpectAll(kids[1..]).value;
      forall i | 0 <= i < |kids| ensures Matches(vs[i], Eval(hs[i], env), types[i]) {
        if i > 0 { assert vs[i] == ExpectAll(kids[1..]).value[i-1] && hs[i] == Sources(kids[1..])[i-1]; }
      }
    }
  }

  // ---- statements ----

  function SourceStatement(t: Tree): Stmt
    requires |t.kids| == Arity(t.snip.rule) && TypeOf(t.snip.rule) == "void"
    requires forall i :: 0 <= i < |t.kids| ==> HasSource(t.kids[i])
  {
    RenderStatement(t.snip.rule, Sources(t.kids))
  }

  lemma PrintIsSound(r: Rule, vs: seq<Val>, hs: seq<Expr>)
    requires r == OnLong(PrintLong) || r == PrintString
    requires HolesMatch(r, vs, hs, map[])
    ensures Compose(r, vs).Good? && Denotes(Compose(r, vs).value) == Run(RenderStatement(r, hs), map[])
  {
    assert vs[1..] == [];
    assert FirstThrow(vs) == if vs[0].Throws? then Some(vs[0]) else None;
  }

  lemma CharVariableIsSound(vs: seq<Val>, hs: seq<Expr>)
    requires HolesMatch(OnInt(VarCharExact), vs, hs, map[])
    ensures var r := OnInt(VarCharExact);
            Compose(r, vs).Good? && Denotes(Compose(r, vs).value) == Run(RenderStatement(r, hs), map[])
  {
    assert vs[1..] == [];
    assert FirstThrow(vs) == if vs[0].Throws? then Some(vs[0]) else None;
    if !vs[0].Throws? {
      KindNames();
      NumberHole(OnInt(VarCharExact), vs, hs, map[], 0);
      IntConversions(vs[0].l);
      var c := Num(CharK, Low(CharK, vs[0].l));
      assert Eval(ToNumber(CharK, hs[0]), map[]) == Normal(c);
      var env: Env := map[]["c" := c];
      assert Eval(Var("c"), env) == Normal(c);
      assert Eval(ToNumber(IntK, Var("c")), env) == NumberCast(IntK, c);
    }
  }

  /** The second variable's assignment never reaches the first: what prints is the first hole. */
  lemma SharingIsSound(vs: seq<Val>, hs: seq<Expr>)
    requires |vs| == |hs| == 2
    requires forall env: Env {:trigger Eval(hs[0], env)} {:trigger Eval(hs[1], env)} ::
               Denotes(vs[0]) == Eval(hs[0], env) && Denotes(vs[1]) == Eval(hs[1], env)
    ensures Compose(VarNoShare, vs).Good?
    ensures Denotes(Compose(VarNoShare, vs).value) == Run(RenderStatement(VarNoShare, hs), map[])
  {
    assert vs[1..][1..] == [];
    assert FirstThrow(vs[1..]) == if vs[1].Throws? then Some(vs[1]) else None;
    var stmt := RenderStatement(VarNoShare, hs);
    if !vs[0].Throws? {
      var a := Denotes(vs[0]).v;
      var one: Env := map["a" := a];
      assert Run(stmt, map[]) == Run(stmt.rest, one) by { assert map[]["a" := a] == one; }
      var two := one["b" := a];
      assert Eval(Var("a"), one) == Normal(a);
      assert Run(stmt.rest, one) == Run(stmt.rest.rest, two);
      if !vs[1].Throws? {
        var three := two["b" := Denotes(vs[1]).v];
        assert "b" != "a" by { assert "a"[0] == 'a' && "b"[0] == 'b'; }
        assert Eval(hs[1], two) == Denotes(vs[1]);
        assert three["a"] == a;
        assert Run(stmt.rest.rest, two) == Run(Println(Var("a")), three);
      } else {
        assert Eval(hs[1], two) == Denotes(vs[1]);
      }
    }
  }

  /** A statement stitching prints, or throws, exactly what it composes. */
  lemma StatementIsSound(lib: seq<Snippet>, t: Tree)
    requires InFragment(lib) && WellTyped(lib, t) && t.snip.ty == "void"
    ensures forall i :: 0 <= i < |t.kids| ==> HasSource(t.kids[i])
    ensures Expect(t).Good? && Denotes(Expect(t).value) == Run(SourceStatement(t), map[])
  {
    var r := t.snip.rule;
    HolesHaveSources(lib, t);
    KidsMatch(lib, t, map[]);
    VoidRules(r);
    var vs, hs := ExpectAll(t.kids).value, Sources(t.kids);
    if r == VarNoShare {
      forall env: Env ensures Denotes(vs[0]) == Eval(hs[0], env) && Denotes(vs[1]) == Eval(hs[1], env) {
        KidsMatch(lib, t, env);
      }
      SharingIsSound(vs, hs);
    } else if r == OnInt(VarCharExact) {
      CharVariableIsSound(vs, hs);
    } else {
      PrintIsSound(r, vs, hs);
    }
  }

  lemma HolesHaveSources(lib: seq<Snippet>, t: Tree)
    requires InFragment(lib) && WellTyped(lib, t)
    ensures forall i :: 0 <= i < |t.kids| ==> HasSource(t.kids[i])
  {
    forall i | 0 <= i < |t.kids| ensures HasSource(t.kids[i]) {
      NoVoidHoles(t.snip.rule, i);
      SourcesExist(lib, t.kids[i]);
    }
  }

  lemma KidsMatch(lib: seq<Snippet>, t: Tree, env: Env)
    requires InFragment(lib) && WellTyped(lib, t) && forall i :: 0 <= i < |t.kids| ==> HasSource(t.kids[i])
    ensures ExpectAll(t.kids).Good? && HolesMatch(t.snip.rule, ExpectAll(t.kids).value, Sources(t.kids), env)
  {
    KidsAreSound(lib, t.kids, HolesOf(t.snip.rule), env);
  }

  lemma VoidRules(r: Rule)
    ensures TypeOf(r) == "void" <==>
              r == OnLong(PrintLong) || r == OnInt(VarCharExact) || r == PrintString || r == VarNoShare
  {
  }
}
