/**
 Concrete readings of MapDecorator on one small document,
 {"a": {"b": [{"c": 5}, {"c": 7}]}}, with the built-in converters installed.
 */
module Scenarios {
  import opened Optional
  import opened Strings
  import opened Utility
  import opened Numbers
  import opened Nodes
  import opened Converters
  import opened Registry
  import opened Extractor
  import opened Chain

  /** The list under "a.b": two maps whose "c" entries are 5 and 7. */
  function Elements(): seq<Node> {
    [NMap(map["c" := NInt(5)]), NMap(map["c" := NInt(7)])]
  }

  function Document(): map<string, Node> {
    map["a" := NMap(map["b" := NList(Elements())])]
  }

  /** The keys of the document are plain keys. */
  lemma DocumentKeys()
    ensures PlainKey("a") && PlainKey("c")
    ensures !IsBlank("b") && '.' !in "b" && '[' !in "b"
  {
    assert "a"[0] == 'a' && "b"[0] == 'b' && "c"[0] == 'c';
  }

  /** An indexed token `key[n]` is a non-blank, dot-free token ending in `]`. */
  lemma IndexTokenShape(key: string, n: Int32)
    requires !IsBlank(key) && '.' !in key
    ensures var token := key + "[" + IntToString(n) + "]";
            !IsBlank(token) && '.' !in token && EndsWith(token, ']')
  {
    var digits := IntToString(n);
    var token := key + "[" + digits + "]";
    WholeNumberHasNoBrackets(digits);
    forall i | 0 <= i < |token| ensures token[i] != '.' {
      if i < |key| {
        assert token[i] == key[i];
      } else if |key| < i < |key| + 1 + |digits| {
        assert token[i] == digits[i - |key| - 1];
      }
    }
    var k :| 0 <= k < |key| && !IsWhitespace(key[k]);
    assert token[k] == key[k];
  }

  /** The walk along `outer`, an indexed token, then `field`. */
  lemma ResolveThroughList(root: map<string, Node>, outer: string, key: string, n: Int32, field: string)
    requires PlainKey(outer) && PlainKey(field)
    requires !IsBlank(key) && '.' !in key && '[' !in key
    requires outer in root && root[outer].NMap?
    requires key in root[outer].entries && root[outer].entries[key].NList?
    ensures Resolve(NMap(root), [outer, key + "[" + IntToString(n) + "]", field])
         == match ResolveIndex(root[outer].entries[key].items, n)
            case Some(NMap(e)) => Lookup(e, field)
            case _ => None
  {
    var token := key + "[" + IntToString(n) + "]";
    IndexTokenShape(key, n);
    IndexTokenResolves(root[outer].entries, key, n);
    assert !EndsWith(outer, ']') && !EndsWith(field, ']');
    var tokens := [outer, token, field];
    ResolveFrom(NMap(root), tokens, 0);
    ResolveFrom(root[outer], tokens, 1);
    match ResolveIndex(root[outer].entries[key].items, n)
    case Some(x) =>
      ResolveFrom(x, tokens, 2);
      assert tokens[3..] == [];
    case None =>
  }

  /** A three-token path `outer.key[n].field` through a list element. */
  lemma ExtractThroughList(reg: Registry, root: map<string, Node>, outer: string, key: string, n: Int32, field: string, t: TypeTag)
    requires PlainKey(outer) && PlainKey(field)
    requires !IsBlank(key) && '.' !in key && '[' !in key
    requires outer in root && root[outer].NMap?
    requires key in root[outer].entries && root[outer].entries[key].NList?
    ensures Extract(reg, root, Some(outer + "." + (key + "[" + IntToString(n) + "]") + "." + field), t)
         == match ResolveIndex(root[outer].entries[key].items, n)
            case Some(NMap(e)) =>
              (match Lookup(e, field)
               case Some(x) => Convert(reg, Some(x), t)
               case None => None)
            case _ => None
  {
    var token := key + "[" + IntToString(n) + "]";
    IndexTokenShape(key, n);
    var tokens := [outer, token, field];
    assert Join(tokens, '.') == outer + "." + token + "." + field by {
      assert DropLast(tokens) == [outer, token];
      assert Join([outer, token], '.') == outer + "." + token;
    }
    ExtractTokens(reg, root, tokens, t);
    ResolveThroughList(root, outer, key, n, field);
  }

  /** Extraction along a path whose tokens are known. */
  lemma ExtractAlong(reg: Registry, root: map<string, Node>, path: string, tokens: seq<string>, t: TypeTag)
    requires GetValidTokens(Some(path)) == Some(tokens) && |tokens| > 1
    ensures Extract(reg, root, Some(path), t)
         == match Resolve(NMap(root), tokens)
            case Some(x) => Convert(reg, Some(x), t)
            case None => None
  {
  }

  /** The walk "a", "b[<n>]", "c" through the document. */
  lemma ResolveDocument(n: Int32, digits: string)
    requires digits == IntToString(n)
    ensures Resolve(NMap(Document()), ["a", "b[" + digits + "]", "c"])
         == match ResolveIndex(Elements(), n)
            case Some(NMap(e)) => Lookup(e, "c")
            case _ => None
  {
    DocumentKeys();
    ResolveThroughList(Document(), "a", "b", n, "c");
    assert "b" + "[" + digits + "]" == "b[" + digits + "]";
  }

  /** The tokens of the indexed paths of the document. */
  lemma IndexedPathTokensOne()
    ensures GetValidTokens(Some("a.b[1].c")) == Some(["a", "b[1]", "c"])
  {
    assert "a"[0] == 'a' && "b[1]"[0] == 'b' && "c"[0] == 'c';
    assert Join(["a", "b[1]"], '.') == "a.b[1]";
    assert Join(["a", "b[1]", "c"], '.') == "a.b[1].c";
    TokensRoundTrip(["a", "b[1]", "c"]);
  }

  lemma IndexedPathTokensMinusOne()
    ensures GetValidTokens(Some("a.b[-1].c")) == Some(["a", "b[-1]", "c"])
  {
    assert "a"[0] == 'a' && "b[-1]"[0] == 'b' && "c"[0] == 'c';
    assert Join(["a", "b[-1]"], '.') == "a.b[-1]";
    assert Join(["a", "b[-1]", "c"], '.') == "a.b[-1].c";
    TokensRoundTrip(["a", "b[-1]", "c"]);
  }

  lemma IndexedPathTokensTwo()
    ensures GetValidTokens(Some("a.b[2].c")) == Some(["a", "b[2]", "c"])
  {
    assert "a"[0] == 'a' && "b[2]"[0] == 'b' && "c"[0] == 'c';
    assert Join(["a", "b[2]"], '.') == "a.b[2]";
    assert Join(["a", "b[2]", "c"], '.') == "a.b[2].c";
    TokensRoundTrip(["a", "b[2]", "c"]);
  }

  lemma IndexedPathTokensMinusThree()
    ensures GetValidTokens(Some("a.b[-3].c")) == Some(["a", "b[-3]", "c"])
  {
    assert "a"[0] == 'a' && "b[-3]"[0] == 'b' && "c"[0] == 'c';
    assert Join(["a", "b[-3]"], '.') == "a.b[-3]";
    assert Join(["a", "b[-3]", "c"], '.') == "a.b[-3].c";
    TokensRoundTrip(["a", "b[-3]", "c"]);
  }

  /** Index 1 selects the second element, whose "c" is 7. */
  lemma WalkOne()
    ensures Resolve(NMap(Document()), ["a", "b[1]", "c"]) == Some(NInt(7))
  {
    assert IntToString(1) == "1";
    ResolveDocument(1, "1");
    assert "b[" + "1" + "]" == "b[1]";
    assert ResolveIndex(Elements(), 1) == Some(Elements()[1]);
    assert Elements()[1] == NMap(map["c" := NInt(7)]);
    assert Lookup(map["c" := NInt(7)], "c") == Some(NInt(7));
  }

  /** Index -1 counts from the end and also selects the second element. */
  lemma WalkMinusOne()
    ensures Resolve(NMap(Document()), ["a", "b[-1]", "c"]) == Some(NInt(7))
  {
    assert IntToString(-1) == "-1";
    ResolveDocument(-1, "-1");
    assert "b[" + "-1" + "]" == "b[-1]";
    assert ResolveIndex(Elements(), -1) == Some(Elements()[1]);
    assert Elements()[1] == NMap(map["c" := NInt(7)]);
    assert Lookup(map["c" := NInt(7)], "c") == Some(NInt(7));
  }

  /** Index 2 is past the end of the two-element list. */
  lemma WalkTwo()
    ensures Resolve(NMap(Document()), ["a", "b[2]", "c"]) == None
  {
    assert IntToString(2) == "2";
    ResolveDocument(2, "2");
    assert "b[" + "2" + "]" == "b[2]";
    assert ResolveIndex(Elements(), 2) == None;
  }

  /** Index -3 counts back past the start of the list. */
  lemma WalkMinusThree()
    ensures Resolve(NMap(Document()), ["a", "b[-3]", "c"]) == None
  {
    assert IntToString(-3) == "-3";
    ResolveDocument(-3, "-3");
    assert "b[" + "-3" + "]" == "b[-3]";
    assert ResolveIndex(Elements(), -3) == None;
  }

  /** "a.b[1].c" reads 7, and so does "a.b[-1].c", which counts from the end. */
  lemma IndexedPathsInRange(reg: Registry, rt: Runtime)
    requires BuiltinsInstalled(reg, rt)
    ensures Extract(reg, Document(), Some("a.b[1].c"), TInteger) == Some(NInt(7))
    ensures Extract(reg, Document(), Some("a.b[-1].c"), TInteger) == Some(NInt(7))
  {
    IndexedPathTokensOne();
    IndexedPathTokensMinusOne();
    WalkOne();
    WalkMinusOne();
    ExtractAlong(reg, Document(), "a.b[1].c", ["a", "b[1]", "c"], TInteger);
    ExtractAlong(reg, Document(), "a.b[-1].c", ["a", "b[-1]", "c"], TInteger);
    BuiltinIdentity(reg, rt, NInt(7), TInteger);
  }

  /** "a.b[2].c" and "a.b[-3].c" index outside the two-element list and read nothing,
      whatever converters are registered. */
  lemma IndexedPathsOutOfRange(reg: Registry)
    ensures Extract(reg, Document(), Some("a.b[2].c"), TInteger) == None
    ensures Extract(reg, Document(), Some("a.b[-3].c"), TInteger) == None
  {
    IndexedPathTokensTwo();
    IndexedPathTokensMinusThree();
    WalkTwo();
    WalkMinusThree();
    ExtractAlong(reg, Document(), "a.b[2].c", ["a", "b[2]", "c"], TInteger);
    ExtractAlong(reg, Document(), "a.b[-3].c", ["a", "b[-3]", "c"], TInteger);
  }

  /** Paths with a blank segment and blank paths read nothing. */
  lemma RejectedPaths(reg: Registry, t: TypeTag)
    ensures Extract(reg, Document(), Some("a..b"), t) == None
    ensures Extract(reg, Document(), Some(""), t) == None
    ensures Extract(reg, Document(), Some(" "), t) == None
    ensures Extract(reg, Document(), None, t) == None
  {
    SegmentsJoin(["a", "", "b"], '.');
    assert Join(["a", "", "b"], '.') == "a..b";
    BlankSegmentExtractsNothing(reg, Document(), "a..b", 1, 2, t);
  }

  /** A trailing dot is dropped by the tokenizer: "a.b." has the tokens of "a.b". */
  lemma TrailingDotPath()
    ensures GetValidTokens(Some("a.b.")) == Some(["a", "b"])
  {
    assert Join(["a", "b"], '.') == "a.b";
    assert "a"[0] == 'a' && "b"[0] == 'b';
    TokensRoundTrip(["a", "b"]);
    TrailingDotIgnored("a.b");
    assert "a.b" + "." == "a.b.";
  }

  /** A path of dots alone has no tokens at all; see DotsOnlyExtractNothing for what
      extract makes of it. */
  lemma DotOnlyPath()
    ensures GetValidTokens(Some(".")) == Some([])
  {
    OnlyDotsGiveNoTokens(".");
  }

  /** "a.b[]" has an empty index and reads nothing. */
  lemma EmptyIndex(reg: Registry, t: TypeTag)
    ensures Extract(reg, Document(), Some("a.b[]"), t) == None
  {
    DocumentKeys();
    EmptyIndexExtractsNothing(reg, Document(), "a", "b", t);
    assert "a" + "." + ("b" + "[]") == "a.b[]";
  }

  /** "a.b[1][2]" indexes twice and reads nothing. */
  lemma DoubleIndex(reg: Registry, t: TypeTag)
    ensures Extract(reg, Document(), Some("a.b[1][2]"), t) == None
  {
    DocumentKeys();
    assert IsWholeNumber("1") && IsWholeNumber("2");
    DoubleIndexExtractsNothing(reg, Document(), "a", "b", "1", "2", t);
    assert "a" + "." + ("b" + "[" + "1" + "][" + "2" + "]") == "a.b[1][2]";
  }

  /** Boolean keywords are read case-insensitively: "Yes" is true. */
  lemma BooleanYes(reg: Registry, rt: Runtime)
    requires BuiltinsInstalled(reg, rt)
    ensures BooleanValue(reg, From(NewBuilder(), map["k" := NStr("Yes")]), "k")
  {
    assert reg[TBoolean] == BooleanConvert;
    KeywordFacts();
    assert LowerCase("Yes") == "yes";
    assert "yes" in TRUE_VALUES;
  }

  /** Text that is no keyword is no Boolean, which booleanValue turns into false. */
  lemma BooleanMaybe(reg: Registry, rt: Runtime)
    requires BuiltinsInstalled(reg, rt)
    ensures Value(reg, From(NewBuilder(), map["k" := NStr("maybe")]), "k", TBoolean) == None
    ensures !BooleanValue(reg, From(NewBuilder(), map["k" := NStr("maybe")]), "k")
  {
    assert reg[TBoolean] == BooleanConvert;
    KeywordFacts();
    var m := LowerCase("maybe");
    assert m == "maybe";
    assert m !in TRUE_VALUES && m !in FALSE_VALUES;
  }

  /** Integer text with leading zeros is read by value; other text is no Integer. */
  lemma IntegerReadings(reg: Registry, rt: Runtime)
    requires BuiltinsInstalled(reg, rt)
    ensures IntValue(reg, From(NewBuilder(), map["k" := NStr("007")]), "k") == 7
    ensures Value(reg, From(NewBuilder(), map["k" := NStr("not-a-number")]), "k", TInteger) == None
  {
    assert reg[TInteger] == IntegerConvert;
    assert "007" == "0" + "07";
    assert DigitsValue("7") == 7;
    LeadingZero("7");
    assert "07" == "0" + "7";
    IntegerLeadingZero("07");
    assert !IsWholeNumber("not-a-number");
  }

  /** The list under "a.b", read by the chained builder. */
  lemma ChainedRead(reg: Registry, rt: Runtime)
    requires BuiltinsInstalled(reg, rt)
    ensures MapNodes(reg, From(NewBuilder(), Document()), ["a"]).Some?
    ensures ListValue(reg, MapNodes(reg, From(NewBuilder(), Document()), ["a"]).value, "b")
         == Document()["a"].entries["b"].items
  {
    assert reg[TMap] == MapConvert;
    assert reg[TList] == ListConvert;
  }

  /** The chained builder and the dot path "a.b" read the same entry. */
  lemma ChainedReadMatchesPath(reg: Registry, b: Builder)
    requires TMap in reg && reg[TMap] == MapConvert
    requires TList in reg && reg[TList] == ListConvert
    requires MapNodes(reg, From(NewBuilder(), Document()), ["a"]) == Some(b)
    ensures Value(reg, b, "b", TList) == Extract(reg, Document(), Some("a.b"), TList)
  {
    DocumentKeys();
    assert PlainKey("b") by {
      assert !EndsWith("b", ']');
    }
    ChainMatchesExtract(reg, Document(), ["a"], "b", TList, b);
    assert Join(["a"] + ["b"], '.') == "a.b";
  }
}
