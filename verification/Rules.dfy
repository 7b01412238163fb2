/** The composition rules of the modelled snippets, grouped by the holes they take: the snippet
    classes of BootSnippets.java and Lib4.java, with the types each declares. */
module Rules {
  import opened Ieee

  datatype Literal =
    | IntLit(v: int) | LongLit(v: int) | CharLit(v: int) | ByteLit(v: int)
    | DoubleLit(bits: Bits) | BoolLit(b: bool) | StringLit(s: string)
    | ObjString(s: string) | ObjNull | ObjOther(cls: string, text: string)

  datatype IntPairOp = AddInt | SubInt | MulInt | DivInt | RemInt | MulIntLong
  datatype IntOp = NegInt | PlusInt | NotInt | WidenIntToLong | NarrowIntToChar | VarCharExact
  datatype LongPairOp = AddLong | DivLong | RemLong
  datatype LongOp = NegLong | NotLong | PrintLong
  datatype DoublePairOp = EqDouble | NeDouble | LtDouble | GeDouble
  datatype DoubleOp = SelfNeDouble | NegDouble
  datatype BooleanOp = NotBool | ConcatBool

  datatype Rule =
    | Leaf(lit: Literal)
    | OnInts(ints: IntPairOp)
    | OnInt(int1: IntOp)
    | OnLongs(longs: LongPairOp)
    | OnLong(long1: LongOp)
    | OnDoubles(doubles: DoublePairOp)
    | OnDouble(double1: DoubleOp)
    | OnBoolean(boolean1: BooleanOp)
    | AddByte | AddChar | NegByte
    | EqBool | CondInt
    | ConcatInt | CastObjToString
    | PrintString | VarNoShare

  function HolesOf(r: Rule): seq<string> {
    match r
    case Leaf(_) => []
    case OnInts(_) | VarNoShare => ["int", "int"]
    case OnInt(_) => ["int"]
    case OnLongs(_) => ["long", "long"]
    case OnLong(_) => ["long"]
    case OnDoubles(_) => ["double", "double"]
    case OnDouble(_) => ["double"]
    case OnBoolean(_) => ["boolean"]
    case AddByte => ["byte", "byte"]
    case AddChar => ["char", "char"]
    case NegByte => ["byte"]
    case EqBool => ["boolean", "boolean"]
    case CondInt => ["boolean", "int", "int"]
    case ConcatInt => ["String", "int"]
    case CastObjToString => ["Object"]
    case PrintString => ["String"]
  }

  function LiteralType(lit: Literal): string {
    match lit
    case IntLit(_) => "int"
    case LongLit(_) => "long"
    case CharLit(_) => "char"
    case ByteLit(_) => "byte"
    case DoubleLit(_) => "double"
    case BoolLit(_) => "boolean"
    case StringLit(_) => "String"
    case ObjString(_) | ObjNull | ObjOther(_, _) => "Object"
  }

  function TypeOf(r: Rule): string {
    match r
    case Leaf(lit) => LiteralType(lit)
    case OnInts(op) => if op == MulIntLong then "long" else "int"
    case OnInt(op) =>
      (match op
       case NegInt | PlusInt | NotInt => "int"
       case WidenIntToLong => "long"
       case NarrowIntToChar => "char"
       case VarCharExact => "void")
    case OnLongs(_) => "long"
    case OnLong(op) => if op == PrintLong then "void" else "long"
    case OnDoubles(_) => "boolean"
    case OnDouble(op) => if op == SelfNeDouble then "boolean" else "double"
    case OnBoolean(op) => if op == NotBool then "boolean" else "String"
    case AddByte | AddChar | NegByte | CondInt => "int"
    case EqBool => "boolean"
    case ConcatInt | CastObjToString => "String"
    case PrintString | VarNoShare => "void"
  }

  /** How many holes a snippet of this rule has. */
  function Arity(r: Rule): (n: nat)
    ensures n == |HolesOf(r)|
  {
    match r
    case Leaf(_) => 0
    case OnInt(_) | OnLong(_) | OnDouble(_) | OnBoolean(_) | NegByte | CastObjToString | PrintString => 1
    case OnInts(_) | OnLongs(_) | OnDoubles(_) | AddByte | AddChar | EqBool | ConcatInt | VarNoShare => 2
    case CondInt => 3
  }
}
