/**
 MapDecorator.extract: tokenize a dot path, walk the nested maps token by token
 (resolving `key[index]` tokens against lists), and convert what is found.
 Every failure along the way is absent.
 */
module Extractor {
  import opened Optional
  import opened Strings
  import opened Utility
  import opened Numbers
  import opened Nodes
  import opened Registry

  /** Map.get: absent for a missing key. */
  function Lookup(m: map<string, Node>, key: string): (r: Option<Node>)
    ensures r.Some? <==> key in m
    ensures r.Some? ==> r.value == m[key]
  {
    if key in m then Some(m[key]) else None
  }

  /** The bounds checks of getNodeFromList: an index from the start when non-negative,
      from the end when negative (-1 is the last element, -size the first), and absent
      outside [-size, size). */
  function ResolveIndex(items: seq<Node>, index: int): (r: Option<Node>)
    ensures 0 <= index < |items| ==> r == Some(items[index])
    ensures -|items| <= index < 0 ==> r == Some(items[|items| + index])
    ensures r.Some? <==> -|items| <= index < |items|
  {
    if index < |items| && index >= 0 then Some(items[index])
    else if index < 0 && index >= -|items| then Some(items[|items| + index])
    else None
  }

  /** A negative index and its non-negative counterpart name the same element, and
      whatever is found is an element of the list. */
  lemma NegativeIndexAlias(items: seq<Node>, index: int)
    requires -|items| <= index < 0
    ensures ResolveIndex(items, index) == ResolveIndex(items, |items| + index)
    ensures ResolveIndex(items, index).value in items
  {
  }

  /** getNodeFromList: drop the closing bracket and split the rest on `[`; only exactly
      two pieces, the second a whole number that fits in 32 bits, the first a key bound
      to a list, lead to an element. */
  function NodeFromList(m: map<string, Node>, token: string): (r: Option<Node>)
    requires |token| > 0
    ensures var parts := Split(DropLast(token), '[');
            r.Some? ==> && |parts| == 2
                        && IsWholeNumber(parts[1])
                        && INT_MIN <= WholeValue(parts[1]) <= INT_MAX
                        && parts[0] in m && m[parts[0]].NList?
                        && r == ResolveIndex(m[parts[0]].items, WholeValue(parts[1]))
    ensures var parts := Split(DropLast(token), '[');
            && |parts| == 2
            && IsWholeNumber(parts[1])
            && INT_MIN <= WholeValue(parts[1]) <= INT_MAX
            && parts[0] in m && m[parts[0]].NList?
            ==> r == ResolveIndex(m[parts[0]].items, WholeValue(parts[1]))
  {
    var keyWithIndex := Split(DropLast(token), '[');
    if |keyWithIndex| == 2 && IsWholeNumber(keyWithIndex[1]) then
      match Lookup(m, keyWithIndex[0])
      case Some(NList(items)) =>
        (match Parse(keyWithIndex[1], INT_MIN, INT_MAX)
         case Some(index) => ResolveIndex(items, index)
         case None => None)
      case _ => None
    else None
  }

  /** One step of the walk from a map: a token ending in `]` is an indexed lookup,
      any other token a plain key. */
  function Step(m: map<string, Node>, token: string): Option<Node>
  {
    if EndsWith(token, ']') then NodeFromList(m, token) else Lookup(m, token)
  }

  /** The node reached from `n` by following every token in turn: absent as soon as a
      step finds nothing or the current node is not a map while tokens remain. */
  function Resolve(n: Node, tokens: seq<string>): Option<Node>
    decreases |tokens|
  {
    if |tokens| == 0 then Some(n)
    else
      match n
      case NMap(m) =>
        (match Step(m, tokens[0])
         case Some(child) => Resolve(child, tokens[1..])
         case None => None)
      case _ => None
  }

  /** extract(source, dotPath, clazz): absent for an invalid path or one without tokens;
      a single token is converted straight from `source.get(token)` (no index handling,
      and a missing key reaches the converter as null); several tokens are walked from
      the root and only a node actually reached is converted. */
  function Extract(reg: Registry, root: map<string, Node>, path: Option<string>, t: TypeTag): Option<Node>
  {
    match GetValidTokens(path)
    case None => None
    case Some(tokens) =>
      if |tokens| == 0 then None
      else if |tokens| == 1 then Convert(reg, Lookup(root, tokens[0]), t)
      else
        match Resolve(NMap(root), tokens)
        case Some(n) => Convert(reg, Some(n), t)
        case None => None
  }

  /** extract(source, dotPath, clazz, defaultValue) */
  function ExtractOr(reg: Registry, root: map<string, Node>, path: Option<string>, t: TypeTag, default: Node): (r: Node)
    ensures Extract(reg, root, path, t).Some? ==> r == Extract(reg, root, path, t).value
    ensures Extract(reg, root, path, t).None? ==> r == default
  {
    Extract(reg, root, path, t).GetOr(default)
  }

  /** One step of the walk, seen from token `i` onwards. */
  lemma ResolveFrom(n: Node, tokens: seq<string>, i: nat)
    requires i < |tokens|
    ensures Resolve(n, tokens[i..])
         == match n
            case NMap(m) =>
              (match Step(m, tokens[i])
               case Some(child) => Resolve(child, tokens[i + 1..])
               case None => None)
            case _ => None
  {
    assert tokens[i..][0] == tokens[i] && tokens[i..][1..] == tokens[i + 1..];
  }

  /** Extraction along a path of valid tokens joined by dots: a single token is looked up
      in the root and converted as found; several are walked and only a node actually
      reached is converted. */
  lemma ExtractTokens(reg: Registry, root: map<string, Node>, tokens: seq<string>, t: TypeTag)
    requires |tokens| >= 1
    requires forall i :: 0 <= i < |tokens| ==> !IsBlank(tokens[i]) && '.' !in tokens[i]
    ensures Extract(reg, root, Some(Join(tokens, '.')), t)
         == if |tokens| == 1 then Convert(reg, Lookup(root, tokens[0]), t)
            else match Resolve(NMap(root), tokens)
                 case Some(x) => Convert(reg, Some(x), t)
                 case None => None
  {
    TokensRoundTrip(tokens);
  }

  /** The loop of extract as written: `node` starts at the root and is replaced token by
      token; a null node ends the walk with null, running out of tokens converts the
      node, and a node that is not a map ends the walk with null. */
  method Walk(reg: Registry, root: map<string, Node>, tokens: seq<string>, t: TypeTag)
    returns (r: Option<Node>)
    ensures r == match Resolve(NMap(root), tokens)
                 case Some(n) => Convert(reg, Some(n), t)
                 case None => None
  {
    ghost var target := Resolve(NMap(root), tokens);
    var node: Option<Node> := Some(NMap(root));
    var i := 0;
    while true
      invariant 0 <= i <= |tokens|
      invariant node.Some? ==> target == Resolve(node.value, tokens[i..])
      invariant node.None? ==> target == None
      decreases |tokens| - i
    {
      if node.None? {
        return None;
      } else if i == |tokens| {
        return Convert(reg, node, t);
      } else if node.value.NMap? {
        ResolveFrom(node.value, tokens, i);
        node := Step(node.value.entries, tokens[i]);
      } else {
        ResolveFrom(node.value, tokens, i);
        return None;
      }
      i := i + 1;
    }
  }

  /** extract as written: the token checks, then the single-token lookup or the walk. */
  method ExtractLoop(reg: Registry, root: map<string, Node>, path: Option<string>, t: TypeTag)
    returns (r: Option<Node>)
    ensures r == Extract(reg, root, path, t)
  {
    var validTokens := GetValidTokens(path);
    if validTokens.None? || |validTokens.value| == 0 {
      return None;
    }
    var tokens := validTokens.value;
    if |tokens| > 1 {
      r := Walk(reg, root, tokens, t);
    } else {
      r := Convert(reg, Lookup(root, tokens[0]), t);
    }
  }

  /** Walking a concatenation of paths walks the first part, then the second from where
      the first ended; a failure anywhere is final. */
  lemma {:induction false} ResolveAppend(n: Node, a: seq<string>, b: seq<string>)
    ensures Resolve(n, a + b)
         == match Resolve(n, a)
            case Some(x) => Resolve(x, b)
            case None => None
    decreases |a|
  {
    if |a| == 0 {
      assert a + b == b;
    } else if n.NMap? {
      assert (a + b)[0] == a[0] && (a + b)[1..] == a[1..] + b;
      match Step(n.entries, a[0])
      case Some(child) => ResolveAppend(child, a[1..], b);
      case None =>
    }
  }

  /** A token that is a plain key (non-blank, no dot, not ending in `]`). */
  predicate PlainKey(k: string) {
    !IsBlank(k) && '.' !in k && !EndsWith(k, ']')
  }

  /** A path that tokenizes to nothing, or is rejected, extracts nothing from any map:
      a blank segment followed later by a non-empty one (".a", "a..b") is enough. */
  lemma BlankSegmentExtractsNothing(reg: Registry, root: map<string, Node>, p: string, i: nat, j: nat, t: TypeTag)
    requires i < j < |Segments(p, '.')|
    requires IsBlank(Segments(p, '.')[i]) && Segments(p, '.')[j] != ""
    ensures Extract(reg, root, Some(p), t) == None
  {
    BlankSegmentRejected(p, i, j);
  }

  /** A path of dots alone tokenizes to no tokens, and so reads nothing from any map,
      whatever the class. */
  lemma DotsOnlyExtractNothing(reg: Registry, root: map<string, Node>, p: string, t: TypeTag)
    requires |p| > 0 && forall i :: 0 <= i < |p| ==> p[i] == '.'
    ensures Extract(reg, root, Some(p), t) == None
  {
    OnlyDotsGiveNoTokens(p);
  }

  /** A single-token path is a literal key of the root: even a token such as "b[0]" is
      looked up as the key "b[0]", never as an index into "b". */
  lemma SingleTokenIsLiteralKey(reg: Registry, root: map<string, Node>, key: string, t: TypeTag)
    requires !IsBlank(key) && '.' !in key
    ensures Extract(reg, root, Some(key), t) == Convert(reg, Lookup(root, key), t)
  {
    TokensRoundTrip([key]);
  }

  /** No character of a whole number is a bracket or a dot. */
  lemma WholeNumberHasNoBrackets(s: string)
    requires IsWholeNumber(s)
    ensures '[' !in s && ']' !in s && '.' !in s
  {
    forall i | 0 <= i < |s| ensures s[i] != '[' && s[i] != ']' && s[i] != '.' {
      if |s| > 0 && IsSign(s[0]) && i > 0 {
        assert s[1..][i - 1] == s[i];
      }
    }
  }

  /** `key[n]` with `n` any whole-number text in 32-bit range (leading zeros and a `+`
      included, as Integer.parseInt accepts them) resolves index value(n) of the list
      under `key`. */
  lemma IndexTextResolves(m: map<string, Node>, key: string, digits: string)
    requires '[' !in key && key in m && m[key].NList?
    requires IsWholeNumber(digits) && INT_MIN <= WholeValue(digits) <= INT_MAX
    ensures NodeFromList(m, key + "[" + digits + "]") == ResolveIndex(m[key].items, WholeValue(digits))
  {
    var token := key + "[" + digits + "]";
    assert DropLast(token) == key + "[" + digits;
    WholeNumberHasNoBrackets(digits);
    assert Join([key, digits], '[') == key + "[" + digits;
    SegmentsJoin([key, digits], '[');
    assert DropLast(token)[|key|] == '[';
    SplitWithDelimiter(DropLast(token), '[');
    assert DropTrailingEmpty([key, digits]) == [key, digits];
  }

  /** `key[n]`, with `n` written canonically, resolves index `n` of the list under `key`. */
  lemma IndexTokenResolves(m: map<string, Node>, key: string, n: Int32)
    requires '[' !in key && key in m && m[key].NList?
    ensures NodeFromList(m, key + "[" + IntToString(n) + "]") == ResolveIndex(m[key].items, n)
  {
    IntToStringValue(n);
    IndexTextResolves(m, key, IntToString(n));
  }

  /** An empty index, `key[]`, selects nothing: the bracket split leaves at most the key. */
  lemma EmptyIndexSplit(key: string)
    requires '[' !in key
    ensures |Split(DropLast(key + "[]"), '[')| < 2
  {
    var s := key + "[";
    assert DropLast(key + "[]") == s;
    assert Join([key, ""], '[') == s;
    SegmentsJoin([key, ""], '[');
    assert s[|key|] == '[';
    SplitWithDelimiter(s, '[');
    assert DropTrailingEmpty([key, ""]) == DropTrailingEmpty([key]);
  }

  /** A doubled index, `key[i][j]`, selects nothing: the bracket split yields three
      pieces. */
  lemma DoubleIndexSplit(key: string, i: string, j: string)
    requires '[' !in key && IsWholeNumber(i) && IsWholeNumber(j)
    ensures Split(DropLast(key + "[" + i + "][" + j + "]"), '[') == [key, i + "]", j]
  {
    var token := key + "[" + i + "][" + j + "]";
    var pieces := [key, i + "]", j];
    WholeNumberHasNoBrackets(i);
    WholeNumberHasNoBrackets(j);
    assert DropLast(token) == key + "[" + (i + "]") + "[" + j;
    assert Join(pieces, '[') == key + "[" + (i + "]") + "[" + j by {
      assert DropLast(pieces) == [key, i + "]"] && Last(pieces) == j;
      assert Join([key, i + "]"], '[') == key + "[" + (i + "]");
    }
    assert '[' !in i + "]" by {
      forall k | 0 <= k < |i + "]"| ensures (i + "]")[k] != '[' {
        if k < |i| {
          assert (i + "]")[k] == i[k];
        }
      }
    }
    SegmentsJoin(pieces, '[');
    assert DropLast(token)[|key|] == '[';
    SplitWithDelimiter(DropLast(token), '[');
    assert DropTrailingEmpty(pieces) == pieces;
  }

  /** Below the root, a token that ends in `]` but does not split into exactly a key and
      an index reads nothing, whatever the root holds. */
  lemma MalformedIndexExtractsNothing(reg: Registry, root: map<string, Node>, outer: string, token: string, t: TypeTag)
    requires PlainKey(outer) && !IsBlank(token) && '.' !in token && EndsWith(token, ']')
    requires |Split(DropLast(token), '[')| != 2
    ensures Extract(reg, root, Some(outer + "." + token), t) == None
  {
    var tokens := [outer, token];
    assert Join(tokens, '.') == outer + "." + token;
    TokensRoundTrip(tokens);
    ResolveFrom(NMap(root), tokens, 0);
    match Lookup(root, outer)
    case Some(x) =>
      ResolveFrom(x, tokens, 1);
    case None =>
  }

  /** "outer.key[]" reads nothing: an empty index selects no element. */
  lemma EmptyIndexExtractsNothing(reg: Registry, root: map<string, Node>, outer: string, key: string, t: TypeTag)
    requires PlainKey(outer) && '.' !in key && '[' !in key
    ensures Extract(reg, root, Some(outer + "." + (key + "[]")), t) == None
  {
    var token := key + "[]";
    assert "]"[0] == ']';
    NotBlankSuffix(key + "[", "]");
    assert token == (key + "[") + "]";
    EmptyIndexSplit(key);
    MalformedIndexExtractsNothing(reg, root, outer, token, t);
  }

  /** "outer.key[i][j]" reads nothing: a doubled index selects no element. */
  lemma DoubleIndexExtractsNothing(reg: Registry, root: map<string, Node>, outer: string, key: string, i: string, j: string, t: TypeTag)
    requires PlainKey(outer) && '.' !in key && '[' !in key
    requires IsWholeNumber(i) && IsWholeNumber(j)
    ensures Extract(reg, root, Some(outer + "." + (key + "[" + i + "][" + j + "]")), t) == None
  {
    var token := key + "[" + i + "][" + j + "]";
    WholeNumberHasNoBrackets(i);
    WholeNumberHasNoBrackets(j);
    assert "]"[0] == ']';
    NotBlankSuffix(key + "[" + i + "][" + j, "]");
    assert token == (key + "[" + i + "][" + j) + "]";
    DoubleIndexSplit(key, i, j);
    MalformedIndexExtractsNothing(reg, root, outer, token, t);
  }

  /** The two readings of an indexed token: as the only token it is a literal key of the
      root, below the root it indexes the list under its key. */
  lemma IndexOnlyBelowRoot(reg: Registry, root: map<string, Node>, outer: string, key: string, n: Int32, t: TypeTag)
    requires PlainKey(outer) && !IsBlank(key) && '.' !in key && '[' !in key
    requires key in root && root[key].NList?
    ensures var token := key + "[" + IntToString(n) + "]";
            && Extract(reg, root, Some(token), t) == Convert(reg, Lookup(root, token), t)
            && Extract(reg, map[outer := NMap(root)], Some(outer + "." + token), t)
               == match ResolveIndex(root[key].items, n)
                  case Some(x) => Convert(reg, Some(x), t)
                  case None => None
  {
    var digits := IntToString(n);
    var token := key + "[" + digits + "]";
    WholeNumberHasNoBrackets(digits);
    assert '.' !in token by {
      forall i | 0 <= i < |token| ensures token[i] != '.' {
        if i < |key| {
          assert token[i] == key[i];
        } else if |key| < i < |key| + 1 + |digits| {
          assert token[i] == digits[i - |key| - 1];
        }
      }
    }
    assert !IsBlank(token) by {
      var k :| 0 <= k < |key| && !IsWhitespace(key[k]);
      assert token[k] == key[k];
    }
    SingleTokenIsLiteralKey(reg, root, token, t);
    assert Join([outer, token], '.') == outer + "." + token;
    TokensRoundTrip([outer, token]);
    IndexTokenResolves(root, key, n);
    var m := map[outer := NMap(root)];
    assert EndsWith(token, ']');
    assert Resolve(NMap(m), [outer, token]) == Resolve(NMap(root), [token]);
  }

  /** Nested single-entry maps that place `v` at the path `keys`. */
  function Nest(keys: seq<string>, v: Node): map<string, Node>
    requires |keys| >= 1
    decreases |keys|
  {
    if |keys| == 1 then map[keys[0] := v] else map[keys[0] := NMap(Nest(keys[1..], v))]
  }

  lemma {:induction false} ResolveNest(keys: seq<string>, v: Node)
    requires |keys| >= 1
    requires forall i :: 0 <= i < |keys| ==> PlainKey(keys[i])
    ensures Resolve(NMap(Nest(keys, v)), keys) == Some(v)
    decreases |keys|
  {
    assert !EndsWith(keys[0], ']');
    if |keys| > 1 {
      ResolveNest(keys[1..], v);
    }
  }

  /** Round trip: a value placed at a dot path of plain keys is extracted from that path
      as its conversion. */
  lemma ExtractNest(reg: Registry, keys: seq<string>, v: Node, t: TypeTag)
    requires |keys| >= 1
    requires forall i :: 0 <= i < |keys| ==> PlainKey(keys[i])
    ensures Extract(reg, Nest(keys, v), Some(Join(keys, '.')), t) == Convert(reg, Some(v), t)
  {
    ExtractTokens(reg, Nest(keys, v), keys, t);
    if |keys| > 1 {
      ResolveNest(keys, v);
    } else {
      assert Lookup(Nest(keys, v), keys[0]) == Some(v);
    }
  }

  /** With the built-ins installed, a value placed at a dot path of plain keys comes
      back unchanged when extracted as its own class. */
  lemma ExtractNestIdentity(reg: Registry, rt: Runtime, keys: seq<string>, v: Node, t: TypeTag)
    requires |keys| >= 1
    requires forall i :: 0 <= i < |keys| ==> PlainKey(keys[i])
    requires BuiltinsInstalled(reg, rt) && t in BUILTIN_TAGS && IsInstance(v, t)
    ensures Extract(reg, Nest(keys, v), Some(Join(keys, '.')), t) == Some(v)
  {
    ExtractNest(reg, keys, v, t);
    BuiltinIdentity(reg, rt, v, t);
  }
}
