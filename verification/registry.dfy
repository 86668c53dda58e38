/**
 The converter registry of MapDecorator: a map from target class to converter,
 shared by every decorator. The constructor (re)installs the eleven built-ins,
 `addConverter` installs or replaces one entry, and `convert` dispatches on the
 target class. The registry is passed around as a value; registering happens
 before lookups begin, so the model needs no locking.
 */
module Registry {
  import opened Optional
  import opened Nodes
  import opened Converters

  /** A converter takes the possibly-null source to the converted value or absent. */
  type Converter = Option<Node> -> Option<Node>

  type Registry = map<TypeTag, Converter>

  const BUILTIN_TAGS: set<TypeTag> :=
    {TBoolean, TCharacter, TByte, TShort, TInteger, TLong, TFloat, TDouble, TString, TMap, TList}

  /** The eleven converters the constructor installs. */
  function Builtins(rt: Runtime): (reg: Registry)
    ensures reg.Keys == BUILTIN_TAGS
  {
    map[
      TBoolean := BooleanConvert,
      TCharacter := CharacterConvert,
      TByte := ByteConvert,
      TShort := ShortConvert,
      TInteger := IntegerConvert,
      TLong := LongConvert,
      TFloat := (src: Option<Node>) => FloatConvert(rt.parseFloat, src),
      TDouble := (src: Option<Node>) => DoubleConvert(rt.parseDouble, src),
      TString := (src: Option<Node>) => StringConvert(rt.display, src),
      TMap := MapConvert,
      TList := ListConvert]
  }

  /** The MapDecorator constructor: puts the eleven built-ins into the shared registry,
      replacing whatever was registered under those classes and keeping every other
      entry. */
  function Install(reg: Registry, rt: Runtime): (r: Registry)
    ensures r.Keys == reg.Keys + BUILTIN_TAGS
    ensures forall t :: t in BUILTIN_TAGS ==> r[t] == Builtins(rt)[t]
    ensures forall t :: t in reg && t !in BUILTIN_TAGS ==> r[t] == reg[t]
  {
    reg + Builtins(rt)
  }

  /** addConverter: installs `c` for `t`, replacing any earlier converter for `t`. */
  function AddConverter(reg: Registry, t: TypeTag, c: Converter): (r: Registry)
    ensures r.Keys == reg.Keys + {t}
    ensures r[t] == c
    ensures forall u :: u in reg && u != t ==> r[u] == reg[u]
  {
    reg[t := c]
  }

  /** convert(source, clazz): absent when no converter is registered for the class,
      otherwise exactly what that converter returns. */
  function Convert(reg: Registry, src: Option<Node>, t: TypeTag): (r: Option<Node>)
    ensures t !in reg ==> r.None?
    ensures t in reg ==> r == reg[t](src)
  {
    if t in reg then reg[t](src) else None
  }

  /** convert(source, clazz, defaultValue): the converted value when there is one,
      otherwise the default. */
  function ConvertOr(reg: Registry, src: Option<Node>, t: TypeTag, default: Node): (r: Node)
    ensures Convert(reg, src, t).Some? ==> r == Convert(reg, src, t).value
    ensures Convert(reg, src, t).None? ==> r == default
  {
    Convert(reg, src, t).GetOr(default)
  }

  /** The built-ins are installed (some decorator was constructed and no custom converter
      has since been registered under a built-in class). */
  ghost predicate BuiltinsInstalled(reg: Registry, rt: Runtime) {
    forall t :: t in BUILTIN_TAGS ==> t in reg && reg[t] == Builtins(rt)[t]
  }

  lemma InstallInstallsBuiltins(reg: Registry, rt: Runtime)
    ensures BuiltinsInstalled(Install(reg, rt), rt)
  {
  }

  /** After addConverter, dispatch on its class reaches the new converter, and dispatch
      on every other class is unchanged. */
  lemma AddConverterDispatch(reg: Registry, t: TypeTag, c: Converter, u: TypeTag, src: Option<Node>)
    ensures Convert(AddConverter(reg, t, c), src, u)
         == if u == t then c(src) else Convert(reg, src, u)
  {
  }

  /** Constructing a decorator after registering a custom converter under a built-in
      class silently puts the built-in back; one under any other class survives. */
  lemma InstallOverridesCustom(reg: Registry, t: TypeTag, c: Converter, rt: Runtime, src: Option<Node>)
    ensures t in BUILTIN_TAGS
            ==> Convert(Install(AddConverter(reg, t, c), rt), src, t) == Convert(Builtins(rt), src, t)
    ensures t !in BUILTIN_TAGS
            ==> Convert(Install(AddConverter(reg, t, c), rt), src, t) == c(src)
  {
  }

  /** Built-in identity: a value that already has the target class converts to itself. */
  lemma BuiltinIdentity(reg: Registry, rt: Runtime, n: Node, t: TypeTag)
    requires BuiltinsInstalled(reg, rt) && t in BUILTIN_TAGS && IsInstance(n, t)
    ensures Convert(reg, Some(n), t) == Some(n)
  {
    assert reg[t] == Builtins(rt)[t];
  }

  /** Every built-in converter returns absent for a null source and only ever returns
      a value of its own class. */
  lemma BuiltinResultsTyped(reg: Registry, rt: Runtime, src: Option<Node>, t: TypeTag)
    requires BuiltinsInstalled(reg, rt) && t in BUILTIN_TAGS
    ensures Convert(reg, None, t) == None
    ensures Convert(reg, src, t).Some? ==> IsInstance(Convert(reg, src, t).value, t)
  {
    assert reg[t] == Builtins(rt)[t];
  }
}
