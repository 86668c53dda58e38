/**
 The parts of java.lang.String and java.lang.Character that the library relies on:
 `isBlank`, `endsWith`, `split` with a one-character delimiter, and the join that
 undoes it. Strings are sequences of Unicode scalar values.
 */
module Strings {

  function Last<T>(s: seq<T>): T
    requires |s| > 0
  {
    s[|s| - 1]
  }

  function DropLast<T>(s: seq<T>): seq<T>
    requires |s| > 0
  {
    s[..|s| - 1]
  }

  /** Character.isWhitespace: the space, line and paragraph separators except the
      non-breaking ones (U+00A0, U+2007, U+202F), plus the ASCII controls
      U+0009..U+000D and U+001C..U+001F. */
  predicate IsWhitespace(c: char) {
    || c == ' '
    || '\t' <= c <= '\r'
    || '\U{1C}' <= c <= '\U{1F}'
    || c == '\U{1680}'
    || '\U{2000}' <= c <= '\U{2006}'
    || '\U{2008}' <= c <= '\U{200A}'
    || c == '\U{2028}' || c == '\U{2029}'
    || c == '\U{205F}' || c == '\U{3000}'
  }

  /** String.isBlank: empty or only whitespace. */
  predicate IsBlank(s: string) {
    forall i :: 0 <= i < |s| ==> IsWhitespace(s[i])
  }

  predicate EndsWith(s: string, c: char) {
    |s| > 0 && Last(s) == c
  }

  /** Character.toLowerCase restricted to ASCII letters. */
  function AsciiLower(c: char): char {
    if 'A' <= c <= 'Z' then (c as int + 32) as char else c
  }

  function LowerCase(s: string): (r: string)
    ensures |r| == |s|
    ensures forall i :: 0 <= i < |s| ==> r[i] == AsciiLower(s[i])
  {
    seq(|s|, i requires 0 <= i < |s| => AsciiLower(s[i]))
  }

  /** String.equalsIgnoreCase on ASCII text: same length, same letters up to case. */
  predicate EqualsIgnoreCase(a: string, b: string) {
    |a| == |b| && forall i :: 0 <= i < |a| ==> AsciiLower(a[i]) == AsciiLower(b[i])
  }

  /** Against a lower-case word, ignoring case means lower-casing the other side. */
  lemma EqualsIgnoreCaseLowerWord(a: string, w: string)
    requires LowerCase(w) == w
    ensures EqualsIgnoreCase(a, w) <==> LowerCase(a) == w
  {
    if EqualsIgnoreCase(a, w) {
      forall i | 0 <= i < |a| ensures LowerCase(a)[i] == w[i] {
        assert LowerCase(w)[i] == w[i];
      }
    }
    if LowerCase(a) == w {
      forall i | 0 <= i < |a| ensures AsciiLower(a[i]) == AsciiLower(w[i]) {
        assert LowerCase(w)[i] == w[i];
      }
    }
  }

  /** Every piece of `s` between occurrences of `d`, trailing empty pieces included
      (what String.split produces before it drops trailing empty strings). */
  function Segments(s: string, d: char): (r: seq<string>)
    ensures |r| >= 1
    decreases |s|
  {
    if |s| == 0 then [""]
    else
      var init := Segments(DropLast(s), d);
      if Last(s) == d then init + [""]
      else DropLast(init) + [Last(init) + [Last(s)]]
  }

  /** Removes the empty strings at the end of `ss`, and only those. */
  function DropTrailingEmpty(ss: seq<string>): (r: seq<string>)
    ensures |r| <= |ss| && r == ss[..|r|]
    ensures |r| > 0 ==> Last(r) != ""
    ensures forall j :: |r| <= j < |ss| ==> ss[j] == ""
  {
    if |ss| > 0 && Last(ss) == "" then DropTrailingEmpty(DropLast(ss)) else ss
  }

  /** String.split(regex) where the regex matches exactly the character `d`: a string
      without `d` comes back whole (even the empty string); otherwise the pieces
      between the delimiters, with trailing empty pieces removed. */
  function Split(s: string, d: char): (r: seq<string>)
    ensures d !in s ==> r == [s]
    ensures forall t :: t in r ==> d !in t
    ensures Join(r, d) == TrimTrailing(s, d)
    ensures d in s && |r| > 0 ==> Last(r) != ""
  {
    SegmentsDelimiterFree(s, d);
    if d !in s then
      SegmentsWithoutDelimiter(s, d);
      [s]
    else
      JoinSplitTrailing(s, d);
      DropTrailingEmpty(Segments(s, d))
  }

  /** A string that contains the delimiter splits into its segments less the trailing
      empty ones. */
  lemma SplitWithDelimiter(s: string, d: char)
    requires d in s
    ensures Split(s, d) == DropTrailingEmpty(Segments(s, d))
  {
  }

  /** The pieces of `ts` separated by `d` (String.join). */
  function Join(ts: seq<string>, d: char): string
  {
    if |ts| == 0 then ""
    else if |ts| == 1 then ts[0]
    else Join(DropLast(ts), d) + [d] + Last(ts)
  }

  /** `s` without its trailing run of `d`. */
  function TrimTrailing(s: string, d: char): (r: string)
    ensures |r| <= |s| && r == s[..|r|] && !EndsWith(r, d)
    ensures forall i :: |r| <= i < |s| ==> s[i] == d
  {
    if EndsWith(s, d) then TrimTrailing(DropLast(s), d) else s
  }

  /** A string without the delimiter is one segment. */
  lemma {:induction false} SegmentsWithoutDelimiter(s: string, d: char)
    requires d !in s
    ensures Segments(s, d) == [s]
    decreases |s|
  {
    if |s| > 0 {
      assert d !in DropLast(s) by {
        forall i | 0 <= i < |DropLast(s)| ensures DropLast(s)[i] != d {
          assert DropLast(s)[i] == s[i];
        }
      }
      SegmentsWithoutDelimiter(DropLast(s), d);
      assert DropLast(s) + [Last(s)] == s;
    }
  }

  /** No segment contains the delimiter. */
  lemma {:induction false} SegmentsDelimiterFree(s: string, d: char)
    ensures forall t :: t in Segments(s, d) ==> d !in t
    decreases |s|
  {
    if |s| > 0 {
      SegmentsDelimiterFree(DropLast(s), d);
    }
  }

  /** Segments of a string with one more character: a delimiter opens a new empty
      segment, anything else extends the last one. */
  lemma SegmentsSnoc(s: string, c: char, d: char)
    ensures Segments(s + [c], d)
         == if c == d then Segments(s, d) + [""]
            else DropLast(Segments(s, d)) + [Last(Segments(s, d)) + [c]]
  {
    assert DropLast(s + [c]) == s;
    assert Last(s + [c]) == c;
  }

  /** Appending delimiter-free text extends the last segment. */
  lemma {:induction false} SegmentsAppend(x: string, l: string, d: char)
    requires d !in l
    ensures Segments(x + l, d)
         == DropLast(Segments(x, d)) + [Last(Segments(x, d)) + l]
    decreases |l|
  {
    var sx := Segments(x, d);
    if |l| == 0 {
      assert l == [];
      assert x + l == x;
      assert Last(sx) + l == Last(sx);
      assert sx == DropLast(sx) + [Last(sx)];
    } else {
      var l', c := DropLast(l), Last(l);
      assert l == l' + [c];
      assert c in l;
      assert d !in l';
      SegmentsAppend(x, l', d);
      assert x + l == (x + l') + [c];
      SegmentsSnoc(x + l', c, d);
      var sl' := Segments(x + l', d);
      assert DropLast(sl') == DropLast(sx);
      assert Last(sl') == Last(sx) + l';
      assert Last(sx) + l' + [c] == Last(sx) + l;
    }
  }

  /** Extending the last piece extends the joined string. */
  lemma {:induction false} JoinExtendLast(ts: seq<string>, y: string, d: char)
    requires |ts| > 0
    ensures Join(DropLast(ts) + [Last(ts) + y], d) == Join(ts, d) + y
  {
    var ts' := DropLast(ts) + [Last(ts) + y];
    if |ts| == 1 {
    } else {
      assert DropLast(ts') == DropLast(ts);
    }
  }

  /** Joining the segments gives back the string. */
  lemma {:induction false} JoinSegments(s: string, d: char)
    ensures Join(Segments(s, d), d) == s
    decreases |s|
  {
    if |s| > 0 {
      var init := Segments(DropLast(s), d);
      JoinSegments(DropLast(s), d);
      if Last(s) == d {
        assert DropLast(init + [""]) == init;
      } else {
        JoinExtendLast(init, [Last(s)], d);
      }
      assert DropLast(s) + [Last(s)] == s;
    }
  }

  /** A delimiter followed by delimiter-free text adds that text as one more segment. */
  lemma SegmentsAddPiece(j: string, l: string, d: char)
    requires d !in l
    ensures Segments(j + [d] + l, d) == Segments(j, d) + [l]
  {
    SegmentsSnoc(j, d, d);
    var sj := Segments(j + [d], d);
    SegmentsAppend(j + [d], l, d);
    assert DropLast(sj) == Segments(j, d) && Last(sj) == "";
    assert "" + l == l;
  }

  /** Splitting a join of delimiter-free pieces gives the pieces back. */
  lemma {:induction false} SegmentsJoin(ts: seq<string>, d: char)
    requires |ts| >= 1
    requires forall i :: 0 <= i < |ts| ==> d !in ts[i]
    ensures Segments(Join(ts, d), d) == ts
  {
    if |ts| == 1 {
      SegmentsWithoutDelimiter(ts[0], d);
    } else {
      var init, l := DropLast(ts), Last(ts);
      var j := Join(init, d);
      assert forall i :: 0 <= i < |init| ==> init[i] == ts[i];
      SegmentsJoin(init, d);
      assert Join(ts, d) == j + [d] + l;
      assert d !in l by {
        assert l == ts[|ts| - 1];
      }
      SegmentsAddPiece(j, l, d);
      assert init + [l] == ts;
    }
  }

  /** Dropping the trailing empty segments is the same as splitting the string with
      its trailing delimiters trimmed. */
  lemma {:induction false} DropTrailingEmptySegments(s: string, d: char)
    ensures DropTrailingEmpty(Segments(s, d))
         == if TrimTrailing(s, d) == "" then [] else Segments(TrimTrailing(s, d), d)
    decreases |s|
  {
    if |s| == 0 {
    } else if Last(s) == d {
      var init := Segments(DropLast(s), d);
      assert DropLast(init + [""]) == init;
      DropTrailingEmptySegments(DropLast(s), d);
    } else {
      var init := Segments(DropLast(s), d);
      assert Last(Segments(s, d)) == Last(init) + [Last(s)];
    }
  }

  /** The join of what `Split` returns is the input without its trailing delimiters. */
  lemma JoinSplitTrailing(s: string, d: char)
    ensures Join(DropTrailingEmpty(Segments(s, d)), d) == TrimTrailing(s, d)
  {
    DropTrailingEmptySegments(s, d);
    if TrimTrailing(s, d) != "" {
      JoinSegments(TrimTrailing(s, d), d);
    }
  }

  /** Splitting the join of delimiter-free pieces, the last one non-empty, gives the
      pieces back: `split` undoes `join` unless trailing pieces are empty. */
  lemma SplitJoin(ts: seq<string>, d: char)
    requires |ts| >= 1 && Last(ts) != ""
    requires forall i :: 0 <= i < |ts| ==> d !in ts[i]
    ensures Split(Join(ts, d), d) == ts
  {
    if |ts| == 1 {
      assert Join(ts, d) == ts[0];
    } else {
      var j := Join(ts, d);
      var init := Join(DropLast(ts), d);
      assert j == init + [d] + Last(ts);
      assert j[|init|] == d;
      SplitWithDelimiter(j, d);
      SegmentsJoin(ts, d);
      assert DropTrailingEmpty(ts) == ts;
    }
  }
}
