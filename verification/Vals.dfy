/** A statically known value, composed rather than observed (Val.java). */
module Vals {
  import opened JavaInts
  import opened Options
  import opened Decimals
  import opened Ieee

  /** One constructor per kind. The number kinds carry the exact Java type, references the run-time
      class ("null" for the null reference), and a throw is a value like any other. */
  datatype Val =
    | Long(ty: string, l: int)
    | Double(ty: string, bits: Bits)
    | Str(s: Option<string>)
    | Boolean(b: bool)
    | Ref(cls: string, text: string)
    | Throws(thrown: string)

  /** A generator bug is loud: an accessor on the wrong kind stops everything. */
  datatype Checked<+T> = Good(value: T) | Bug(why: string) {
    predicate IsFailure() { Bug? }
    function PropagateFailure<U>(): Checked<U> requires Bug? { Bug(why) }
    function Extract(): T requires Good? { value }
  }

  function OfInt(v: int): Val { Long("int", v) }
  function OfLong(v: int): Val { Long("long", v) }
  function OfChar(v: int): Val { Long("char", v) }
  function OfByte(v: int): Val { Long("byte", v) }
  function OfDouble(bits: Bits): Val { Double("double", bits) }
  function OfString(s: string): Val { Str(Some(s)) }
  function OfNull(): Val { Ref("null", "null") }

  predicate IsNull(v: Val) {
    v.Ref? && v.cls == "null"
  }

  /** The Java type, or for references the run-time class. */
  function TypeName(v: Val): string {
    match v
    case Long(ty, _) => ty
    case Double(ty, _) => ty
    case Str(_) => "String"
    case Boolean(_) => "boolean"
    case Ref(cls, _) => cls
    case Throws(_) => ""
  }

  function AsLong(v: Val): Checked<int> {
    if v.Long? then Good(v.l) else Bug("Val.asLong")
  }

  function AsInt(v: Val): Checked<int> {
    var l :- AsLong(v);
    Good(Wrap32(l))
  }

  function AsDouble(v: Val): Checked<Bits> {
    if v.Double? then Good(v.bits) else Bug("Val.asDouble")
  }

  function AsBoolean(v: Val): Checked<bool> {
    if v.Boolean? then Good(v.b) else Bug("Val.asBoolean")
  }

  /** The first hole that throws, left to right. */
  function FirstThrow(holes: seq<Val>): Option<Val> {
    if holes == [] then None
    else if holes[0].Throws? then Some(holes[0])
    else FirstThrow(holes[1..])
  }

  function CharText(c: int): string {
    if 0 <= c < 0xD800 || 0xE000 <= c < 0x1_0000 then [c as char] else "?"
  }

  /** Val.display, for everything but doubles, whose printing is not part of this model. */
  function Display(v: Val): Checked<string> {
    match v
    case Long(ty, l) => Good(if ty == "char" then CharText(l) else PrintInt(l))
    case Double(_, _) => Bug("printing of doubles")
    case Str(None) => Good("null")
    case Str(Some(s)) => Good(s)
    case Boolean(b) => Good(if b then "true" else "false")
    case Ref(_, text) => Good(text)
    case Throws(cls) => Good(cls)
  }

  function StringConversion(v: Val): Checked<string> {
    if v.Throws? then Bug("Val.stringConversion on a THROWS") else Display(v)
  }

  /** A char prints as itself; a code that is no character of its own prints as a question mark. */
  lemma CharPrintsItself(c: char)
    requires c as int < 0x1_0000
    ensures CharText(c as int) == [c]
  {
  }

  lemma SurrogatesPrint(c: int)
    requires 0xD800 <= c < 0xE000
    ensures CharText(c) == "?"
  {
  }
}
