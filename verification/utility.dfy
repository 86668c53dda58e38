/**
 The `Utility` class: the two number-shape predicates (Java regular expressions
 matched against the whole string) and the dot-path tokenizer.
 */
module Utility {
  import opened Optional
  import opened Strings

  /** `\d` in a Java regular expression without the UNICODE_CHARACTER_CLASS flag. */
  predicate IsDigit(c: char) {
    '0' <= c <= '9'
  }

  /** Zero or more ASCII digits. */
  predicate AllDigits(s: string) {
    forall i :: 0 <= i < |s| ==> IsDigit(s[i])
  }

  /** `\d+`: one or more ASCII digits. */
  predicate IsDigits(s: string) {
    |s| > 0 && AllDigits(s)
  }

  predicate IsSign(c: char) {
    c == '+' || c == '-'
  }

  /** isWholeNumber: the whole string matches `[-+]?\d+`. */
  predicate IsWholeNumber(s: string) {
    if |s| > 0 && IsSign(s[0]) then IsDigits(s[1..]) else IsDigits(s)
  }

  /** isDecimalNumber: the whole string matches `[-+]?\d+(\.\d+)?`. */
  predicate IsDecimalNumber(s: string) {
    || IsWholeNumber(s)
    || exists k :: 0 <= k < |s| && s[k] == '.' && IsWholeNumber(s[..k]) && IsDigits(s[k + 1..])
  }

  /** The three ways `[-+]?` can match. */
  const SIGNS: set<string> := {"", "+", "-"}

  /** Length of the sign a whole number starts with (0 or 1). */
  function SignLength(s: string): (k: nat)
    ensures k <= 1 && k <= |s|
  {
    if |s| > 0 && IsSign(s[0]) then 1 else 0
  }

  /** Every optional sign followed by a digit run is a whole number. */
  lemma WholeNumberOfParts(sign: string, ds: string)
    requires sign in SIGNS && IsDigits(ds)
    ensures IsWholeNumber(sign + ds)
  {
    if sign == "" {
      assert sign + ds == ds;
    } else {
      assert (sign + ds)[1..] == ds;
    }
  }

  /** Every whole number is an optional sign followed by a digit run. */
  lemma WholeNumberParts(s: string)
    requires IsWholeNumber(s)
    ensures s[..SignLength(s)] in SIGNS && IsDigits(s[SignLength(s)..])
    ensures s == s[..SignLength(s)] + s[SignLength(s)..]
  {
    if SignLength(s) == 1 {
      assert s[..1] == [s[0]];
    }
  }

  /** A whole number, optionally followed by `.` and a digit run, is a decimal number. */
  lemma DecimalNumberOfParts(w: string, f: string)
    requires IsWholeNumber(w) && IsDigits(f)
    ensures IsDecimalNumber(w + "." + f)
  {
    var s := w + "." + f;
    var k := |w|;
    assert s[k] == '.';
    assert s[..k] == w;
    assert s[k + 1..] == f;
  }

  /** A whole number has no `.`, so it is a decimal number without a fraction. */
  lemma WholeNumberIsDecimal(s: string)
    requires IsWholeNumber(s)
    ensures IsDecimalNumber(s) && '.' !in s
  {
    forall i | 0 <= i < |s| ensures s[i] != '.' {
      if SignLength(s) == 1 && i > 0 {
        assert s[1..][i - 1] == s[i];
      }
    }
  }

  /** getValidTokens: absent for a null or blank path, and absent when any piece of the
      split path is blank; otherwise the pieces. Because the split drops trailing empty
      pieces, "a.b." gives [a, b] and "." gives no tokens at all. */
  function GetValidTokens(path: Option<string>): (r: Option<seq<string>>)
    ensures path.None? ==> r.None?
    ensures path.Some? && IsBlank(path.value) ==> r.None?
    ensures r.Some? ==> forall i :: 0 <= i < |r.value| ==> !IsBlank(r.value[i]) && '.' !in r.value[i]
    ensures r.Some? ==> Join(r.value, '.') == TrimTrailing(path.value, '.')
  {
    match path
    case None => None
    case Some(p) =>
      if IsBlank(p) then None
      else
        var tokens := Split(p, '.');
        if exists i :: 0 <= i < |tokens| && IsBlank(tokens[i]) then None
        else
          assert forall i :: 0 <= i < |tokens| ==> tokens[i] in tokens;
          Some(tokens)
  }

  /** A string ending in a non-blank piece is not blank. */
  lemma NotBlankSuffix(x: string, t: string)
    requires !IsBlank(t)
    ensures !IsBlank(x + t)
  {
    var k :| 0 <= k < |t| && !IsWhitespace(t[k]);
    assert (x + t)[|x| + k] == t[k];
  }

  /** The join ends with the last token, after a dot when there are several. */
  lemma JoinShape(ts: seq<string>, d: char)
    requires |ts| >= 1
    ensures |ts| == 1 ==> Join(ts, d) == ts[0]
    ensures |ts| > 1 ==> Join(ts, d) == (Join(DropLast(ts), d) + [d]) + Last(ts)
  {
  }

  /** The join of tokens whose last one is not blank is not blank, and its last
      character is the last token's. */
  lemma JoinEndsWithLastToken(ts: seq<string>, d: char)
    requires |ts| >= 1 && !IsBlank(Last(ts))
    ensures !IsBlank(Join(ts, d))
    ensures |Join(ts, d)| > 0 && Last(Join(ts, d)) == Last(Last(ts))
    ensures |ts| > 1 ==> d in Join(ts, d)
  {
    var l := Last(ts);
    JoinShape(ts, d);
    var x := if |ts| == 1 then "" else Join(DropLast(ts), d) + [d];
    assert Join(ts, d) == x + l;
    NotBlankSuffix(x, l);
    if |ts| > 1 {
      assert (x + l)[|x| - 1] == d;
    }
  }

  /** Tokenizing the dot-join of non-blank, dot-free tokens gives the tokens back. */
  lemma TokensRoundTrip(ts: seq<string>)
    requires |ts| >= 1
    requires forall i :: 0 <= i < |ts| ==> !IsBlank(ts[i]) && '.' !in ts[i]
    ensures GetValidTokens(Some(Join(ts, '.'))) == Some(ts)
  {
    JoinEndsWithLastToken(ts, '.');
    assert Last(ts) != "";
    SplitJoin(ts, '.');
  }

  /** A trailing dot changes nothing, except on the empty path ("" is rejected as
      blank, while "." gives no tokens). */
  lemma TrailingDotIgnored(p: string)
    requires p != ""
    ensures GetValidTokens(Some(p + ".")) == GetValidTokens(Some(p))
  {
    var p' := p + ".";
    assert Last(p') == '.' && !IsWhitespace('.');
    assert !IsBlank(p');
    assert '.' in p';
    assert DropLast(p') == p;
    SegmentsSnoc(p, '.', '.');
    var segs := Segments(p, '.');
    assert DropLast(segs + [""]) == segs;
    assert Split(p', '.') == DropTrailingEmpty(segs);
    if '.' in p {
      var i :| 0 <= i < |p| && p[i] == '.';
      assert !IsWhitespace(p[i]);
      assert !IsBlank(p);
    } else {
      SegmentsWithoutDelimiter(p, '.');
      assert Split(p', '.') == [p];
    }
  }

  /** A blank piece before a non-empty one rejects the whole path, as in ".a",
      "a..b" and "a. .b". */
  lemma BlankSegmentRejected(p: string, i: nat, j: nat)
    requires i < j < |Segments(p, '.')|
    requires IsBlank(Segments(p, '.')[i]) && Segments(p, '.')[j] != ""
    ensures GetValidTokens(Some(p)) == None
  {
    if '.' !in p {
      SegmentsWithoutDelimiter(p, '.');
    }
    var tokens := DropTrailingEmpty(Segments(p, '.'));
    assert j < |tokens|;
    assert tokens[i] == Segments(p, '.')[i];
  }

  /** A path of dots only yields zero tokens: it is accepted, but names nothing. */
  lemma OnlyDotsGiveNoTokens(p: string)
    requires |p| > 0 && forall i :: 0 <= i < |p| ==> p[i] == '.'
    ensures GetValidTokens(Some(p)) == Some([])
  {
    assert p[0] == '.' && !IsWhitespace(p[0]);
    assert TrimTrailing(p, '.') == "";
    assert Join(Split(p, '.'), '.') == "";
  }
}
