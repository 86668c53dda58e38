/**
 MapDecorator.Builder: a chained accessor holding one optional "current map".
 `from` sets it, `mapNode` descends one map level, and the terminal readers convert
 one entry of it. The builder is a value here, so each chain has its own.
 */
module Chain {
  import opened Optional
  import opened Strings
  import opened Nodes
  import opened Registry
  import opened Extractor
  import Converters

  /** The builder's state: the current map, or none (Java's null `source`). */
  datatype Builder = Builder(source: Option<map<string, Node>>)

  /** extractBuilder: a fresh builder with no source. */
  function NewBuilder(): (b: Builder)
    ensures b.source.None?
  {
    Builder(None)
  }

  /** from(newSource): whatever the builder held, the new source replaces it. */
  function From(b: Builder, root: map<string, Node>): (r: Builder)
    ensures r.source == Some(root)
  {
    Builder(Some(root))
  }

  /** mapNode(pathToken): with no source the builder itself is null (absent here);
      otherwise the source becomes the entry under the token as converted by the
      registry's Map converter, and becomes unset when that conversion is absent. */
  function MapNode(reg: Registry, b: Builder, key: string): (r: Option<Builder>)
    ensures b.source.None? ==> r.None?
    ensures b.source.Some? ==> r.Some?
    ensures r.Some? && r.value.source.Some?
            ==> Convert(reg, Lookup(b.source.value, key), TMap) == Some(NMap(r.value.source.value))
    ensures r.Some? && r.value.source.None?
            ==> !(Convert(reg, Lookup(b.source.value, key), TMap).Some?
                  && Convert(reg, Lookup(b.source.value, key), TMap).value.NMap?)
  {
    match b.source
    case None => None
    case Some(m) =>
      match Convert(reg, Lookup(m, key), TMap)
      case Some(NMap(child)) => Some(Builder(Some(child)))
      case _ => Some(Builder(None))
  }

  /** value(endPathToken, clazz): absent with no source, otherwise the converted entry. */
  function Value(reg: Registry, b: Builder, key: string, t: TypeTag): (r: Option<Node>)
    ensures b.source.None? ==> r.None?
    ensures b.source.Some? ==> r == Convert(reg, Lookup(b.source.value, key), t)
  {
    match b.source
    case None => None
    case Some(m) => Convert(reg, Lookup(m, key), t)
  }

  /** value(endPathToken, clazz, defaultValue): the default with no source, otherwise
      the converted entry or, when that is absent, the default. */
  function ValueOr(reg: Registry, b: Builder, key: string, t: TypeTag, default: Node): (r: Node)
    ensures Value(reg, b, key, t).Some? ==> r == Value(reg, b, key, t).value
    ensures Value(reg, b, key, t).None? ==> r == default
  {
    match b.source
    case None => default
    case Some(m) => ConvertOr(reg, Lookup(m, key), t, default)
  }

  /** booleanValue: the Boolean read, or false when there is none. */
  function BooleanValue(reg: Registry, b: Builder, key: string): (r: bool)
    ensures Value(reg, b, key, TBoolean) == Some(NBool(r))
            || (!r && !(Value(reg, b, key, TBoolean).Some? && Value(reg, b, key, TBoolean).value.NBool?))
  {
    match Value(reg, b, key, TBoolean)
    case Some(NBool(x)) => x
    case _ => false
  }

  /** charValue: the Character read, or '\0' when there is none. */
  function CharValue(reg: Registry, b: Builder, key: string): (r: char)
    ensures Value(reg, b, key, TCharacter) == Some(NChar(r))
            || (r == '\0' && !(Value(reg, b, key, TCharacter).Some? && Value(reg, b, key, TCharacter).value.NChar?))
  {
    match Value(reg, b, key, TCharacter)
    case Some(NChar(x)) => x
    case _ => '\0'
  }

  /** byteValue: the Byte read, or 0 when there is none. */
  function ByteValue(reg: Registry, b: Builder, key: string): (r: Numbers.Int8)
    ensures Value(reg, b, key, TByte) == Some(NByte(r))
            || (r == 0 && !(Value(reg, b, key, TByte).Some? && Value(reg, b, key, TByte).value.NByte?))
  {
    match Value(reg, b, key, TByte)
    case Some(NByte(x)) => x
    case _ => 0
  }

  /** shortValue: the Short read, or 0 when there is none. */
  function ShortValue(reg: Registry, b: Builder, key: string): (r: Numbers.Int16)
    ensures Value(reg, b, key, TShort) == Some(NShort(r))
            || (r == 0 && !(Value(reg, b, key, TShort).Some? && Value(reg, b, key, TShort).value.NShort?))
  {
    match Value(reg, b, key, TShort)
    case Some(NShort(x)) => x
    case _ => 0
  }

  /** intValue: the Integer read, or 0 when there is none. */
  function IntValue(reg: Registry, b: Builder, key: string): (r: Numbers.Int32)
    ensures Value(reg, b, key, TInteger) == Some(NInt(r))
            || (r == 0 && !(Value(reg, b, key, TInteger).Some? && Value(reg, b, key, TInteger).value.NInt?))
  {
    match Value(reg, b, key, TInteger)
    case Some(NInt(x)) => x
    case _ => 0
  }

  /** longValue: the Long read, or 0 when there is none. */
  function LongValue(reg: Registry, b: Builder, key: string): (r: Numbers.Int64)
    ensures Value(reg, b, key, TLong) == Some(NLong(r))
            || (r == 0 && !(Value(reg, b, key, TLong).Some? && Value(reg, b, key, TLong).value.NLong?))
  {
    match Value(reg, b, key, TLong)
    case Some(NLong(x)) => x
    case _ => 0
  }

  /** floatValue: the Float read, or 0F (all bits clear) when there is none. */
  function FloatValue(reg: Registry, b: Builder, key: string): (r: bv32)
    ensures Value(reg, b, key, TFloat) == Some(NFloat(r))
            || (r == 0 && !(Value(reg, b, key, TFloat).Some? && Value(reg, b, key, TFloat).value.NFloat?))
  {
    match Value(reg, b, key, TFloat)
    case Some(NFloat(x)) => x
    case _ => 0
  }

  /** doubleValue: the Double read, or 0D (all bits clear) when there is none. */
  function DoubleValue(reg: Registry, b: Builder, key: string): (r: bv64)
    ensures Value(reg, b, key, TDouble) == Some(NDouble(r))
            || (r == 0 && !(Value(reg, b, key, TDouble).Some? && Value(reg, b, key, TDouble).value.NDouble?))
  {
    match Value(reg, b, key, TDouble)
    case Some(NDouble(x)) => x
    case _ => 0
  }

  /** stringValue: the String read, or "" when there is none. */
  function StringValue(reg: Registry, b: Builder, key: string): (r: string)
    ensures Value(reg, b, key, TString) == Some(NStr(r))
            || (r == "" && !(Value(reg, b, key, TString).Some? && Value(reg, b, key, TString).value.NStr?))
  {
    match Value(reg, b, key, TString)
    case Some(NStr(x)) => x
    case _ => ""
  }

  /** mapValue: the Map read, or an empty map when there is none. */
  function MapValue(reg: Registry, b: Builder, key: string): (r: map<string, Node>)
    ensures Value(reg, b, key, TMap) == Some(NMap(r))
            || (r == map[] && !(Value(reg, b, key, TMap).Some? && Value(reg, b, key, TMap).value.NMap?))
  {
    match Value(reg, b, key, TMap)
    case Some(NMap(x)) => x
    case _ => map[]
  }

  /** listValue: the List read, or an empty list when there is none. */
  function ListValue(reg: Registry, b: Builder, key: string): (r: seq<Node>)
    ensures Value(reg, b, key, TList) == Some(NList(r))
            || (r == [] && !(Value(reg, b, key, TList).Some? && Value(reg, b, key, TList).value.NList?))
  {
    match Value(reg, b, key, TList)
    case Some(NList(x)) => x
    case _ => []
  }

  /** A chain of mapNode calls; absent where the chain would call mapNode on a null
      builder. */
  function MapNodes(reg: Registry, b: Builder, keys: seq<string>): Option<Builder>
    decreases |keys|
  {
    if |keys| == 0 then Some(b)
    else
      match MapNode(reg, b, keys[0])
      case Some(next) => MapNodes(reg, next, keys[1..])
      case None => None
  }

  /** With the built-in Map converter, a chain of mapNode calls over plain keys holds
      exactly the map the extractor's walk reaches along those keys, and nothing when
      the walk reaches no map. */
  lemma {:induction false} MapNodesResolve(reg: Registry, m: map<string, Node>, keys: seq<string>, b: Builder)
    requires TMap in reg && reg[TMap] == Converters.MapConvert
    requires forall i :: 0 <= i < |keys| ==> PlainKey(keys[i])
    requires MapNodes(reg, Builder(Some(m)), keys) == Some(b)
    ensures b.source
         == match Resolve(NMap(m), keys)
            case Some(NMap(reached)) => Some(reached)
            case _ => None
    decreases |keys|
  {
    if |keys| > 0 {
      var k := keys[0];
      assert !EndsWith(k, ']');
      assert Step(m, k) == Lookup(m, k);
      match Lookup(m, k)
      case Some(NMap(child)) =>
        MapNodesResolve(reg, child, keys[1..], b);
      case _ =>
        assert MapNode(reg, Builder(Some(m)), k) == Some(Builder(None));
    }
  }

  /** `from(root).mapNode(k1)...mapNode(kn).value(last, clazz)` reads what
      `extract(root, "k1...kn.last", clazz)` reads, whenever the chain completes, the Map
      converter is the built-in one and the target class's converter maps null to null
      (otherwise the chain converts a missing last entry where extract gives up). */
  lemma ChainMatchesExtract(reg: Registry, root: map<string, Node>, keys: seq<string>, last: string, t: TypeTag, b: Builder)
    requires TMap in reg && reg[TMap] == Converters.MapConvert
    requires Convert(reg, None, t) == None
    requires forall i :: 0 <= i < |keys| ==> PlainKey(keys[i])
    requires PlainKey(last)
    requires MapNodes(reg, From(NewBuilder(), root), keys) == Some(b)
    ensures Value(reg, b, last, t) == Extract(reg, root, Some(Join(keys + [last], '.')), t)
  {
    var path := keys + [last];
    assert forall i :: 0 <= i < |path| ==> PlainKey(path[i]);
    ExtractTokens(reg, root, path, t);
    MapNodesResolve(reg, root, keys, b);
    if |keys| == 0 {
      assert b == From(NewBuilder(), root);
      assert path == [last];
    } else {
      ResolveAppend(NMap(root), keys, [last]);
      assert !EndsWith(last, ']');
      match Resolve(NMap(root), keys)
      case Some(NMap(reached)) =>
        assert Resolve(NMap(reached), [last]) == Lookup(reached, last);
      case _ =>
    }
  }

  /** With the built-in converters installed, a completed chain and the dot path agree
      for every built-in class. */
  lemma ChainMatchesExtractBuiltins(reg: Registry, rt: Runtime, root: map<string, Node>, keys: seq<string>, last: string, t: TypeTag, b: Builder)
    requires BuiltinsInstalled(reg, rt) && t in BUILTIN_TAGS
    requires forall i :: 0 <= i < |keys| ==> PlainKey(keys[i])
    requires PlainKey(last)
    requires MapNodes(reg, From(NewBuilder(), root), keys) == Some(b)
    ensures Value(reg, b, last, t) == Extract(reg, root, Some(Join(keys + [last], '.')), t)
  {
    assert reg[TMap] == Converters.MapConvert by {
      assert TMap in BUILTIN_TAGS;
    }
    BuiltinResultsTyped(reg, rt, None, t);
    ChainMatchesExtract(reg, root, keys, last, t, b);
  }
}
