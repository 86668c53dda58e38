/**
 The untyped values the library walks (Java's `Object` inside parsed JSON/YAML-like
 data), the class identities converters are registered under, and the JDK
 behaviour the model takes as given.
 */
module Nodes {
  import opened Numbers

  /** A value of unknown shape: one of the boxed scalars, text, a map with text keys,
      a list, or any other object. `float`/`double` are kept as their IEEE bits. */
  datatype Node =
    | NBool(boolValue: bool)
    | NChar(charValue: char)
    | NByte(byteValue: Int8)
    | NShort(shortValue: Int16)
    | NInt(intValue: Int32)
    | NLong(longValue: Int64)
    | NFloat(floatBits: bv32)
    | NDouble(doubleBits: bv64)
    | NStr(text: string)
    | NMap(entries: map<string, Node>)
    | NList(items: seq<Node>)
    | NOther(objectId: nat)

  /** The `Class` objects converters are registered under: the eleven built-in targets
      and any class a caller registers a custom converter for. */
  datatype TypeTag =
    | TBoolean | TCharacter | TByte | TShort | TInteger | TLong
    | TFloat | TDouble | TString | TMap | TList
    | TCustom(className: string)

  /** `n instanceof C` for the built-in classes; nothing is known of custom ones. */
  predicate IsInstance(n: Node, t: TypeTag) {
    match t
    case TBoolean => n.NBool?
    case TCharacter => n.NChar?
    case TByte => n.NByte?
    case TShort => n.NShort?
    case TInteger => n.NInt?
    case TLong => n.NLong?
    case TFloat => n.NFloat?
    case TDouble => n.NDouble?
    case TString => n.NStr?
    case TMap => n.NMap?
    case TList => n.NList?
    case TCustom(_) => false
  }

  /** JDK behaviour used but not spelled out: `Object.toString` of a non-string value,
      and `Float.parseFloat` / `Double.parseDouble` of text already known to be a
      decimal number (which always succeeds). */
  datatype Runtime = Runtime(
    display: Node -> string,
    parseFloat: string -> bv32,
    parseDouble: string -> bv64)
}
