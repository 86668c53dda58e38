/**
 The built-in converters. Each takes the possibly-null source value and returns the
 converted value or absent; none of them ever fails otherwise. Every one returns
 absent for a null source and passes a value that already has the target class
 through unchanged.
 */
module Converters {
  import opened Optional
  import opened Strings
  import opened Utility
  import opened Numbers
  import opened Nodes

  const TRUE_VALUES: seq<string> := ["1", "t", "y", "yes", "true", "ok"]
  const FALSE_VALUES: seq<string> := ["0", "f", "n", "no", "false", "nok"]

  /** `Arrays.stream(words).anyMatch(s::equalsIgnoreCase)` */
  predicate MatchesAny(s: string, words: seq<string>) {
    exists i :: 0 <= i < |words| && EqualsIgnoreCase(s, words[i])
  }

  /** The keywords are lower case, at most 5 characters long, and no word is in both lists. */
  lemma KeywordFacts()
    ensures forall i :: 0 <= i < |TRUE_VALUES| ==> LowerCase(TRUE_VALUES[i]) == TRUE_VALUES[i] && |TRUE_VALUES[i]| <= 5
    ensures forall i :: 0 <= i < |FALSE_VALUES| ==> LowerCase(FALSE_VALUES[i]) == FALSE_VALUES[i] && |FALSE_VALUES[i]| <= 5
    ensures forall w :: w in TRUE_VALUES ==> w !in FALSE_VALUES
  {
    forall i | 0 <= i < |TRUE_VALUES| ensures LowerCase(TRUE_VALUES[i]) == TRUE_VALUES[i] {
      var w := TRUE_VALUES[i];
      assert forall j :: 0 <= j < |w| ==> !('A' <= w[j] <= 'Z');
    }
    forall i | 0 <= i < |FALSE_VALUES| ensures LowerCase(FALSE_VALUES[i]) == FALSE_VALUES[i] {
      var w := FALSE_VALUES[i];
      assert forall j :: 0 <= j < |w| ==> !('A' <= w[j] <= 'Z');
    }
  }

  /** Matching a keyword list ignoring case is membership of the lower-cased text. */
  lemma MatchesAnyLower(s: string, words: seq<string>)
    requires forall i :: 0 <= i < |words| ==> LowerCase(words[i]) == words[i]
    ensures MatchesAny(s, words) <==> LowerCase(s) in words
  {
    forall i | 0 <= i < |words| ensures EqualsIgnoreCase(s, words[i]) <==> LowerCase(s) == words[i] {
      EqualsIgnoreCaseLowerWord(s, words[i]);
    }
  }

  /** BooleanConverter: a Boolean passes through; text of at most 5 characters that
      equals a TRUE keyword ignoring case gives true, a FALSE keyword gives false;
      anything else (longer text, other text, numbers) is absent. Because every keyword
      is short and the lists are disjoint, the outcome depends only on the lower-cased
      text. */
  function BooleanConvert(src: Option<Node>): (r: Option<Node>)
    ensures r.Some? ==> r.value.NBool?
    ensures r == Some(NBool(true))
        <==> src == Some(NBool(true))
             || (src.Some? && src.value.NStr? && LowerCase(src.value.text) in TRUE_VALUES)
    ensures r == Some(NBool(false))
        <==> src == Some(NBool(false))
             || (src.Some? && src.value.NStr? && LowerCase(src.value.text) in FALSE_VALUES)
  {
    match src
    case None => None
    case Some(NBool(_)) => src
    case Some(NStr(s)) =>
      KeywordFacts();
      MatchesAnyLower(s, TRUE_VALUES);
      MatchesAnyLower(s, FALSE_VALUES);
      if |s| <= 5 && MatchesAny(s, TRUE_VALUES) then Some(NBool(true))
      else if |s| <= 5 && MatchesAny(s, FALSE_VALUES) then Some(NBool(false))
      else None
    case Some(_) => None
  }

  /** CharacterConverter: a Character passes through; text of exactly one character
      gives that character; anything else is absent. */
  function CharacterConvert(src: Option<Node>): (r: Option<Node>)
    ensures src.None? ==> r.None?
    ensures r.Some? ==> r.value.NChar?
    ensures src.Some? && src.value.NChar? ==> r == src
    ensures src.Some? && src.value.NStr?
            ==> (r.Some? <==> |src.value.text| == 1)
                && (r.Some? ==> [r.value.charValue] == src.value.text)
    ensures src.Some? && !src.value.NChar? && !src.value.NStr? ==> r.None?
  {
    match src
    case None => None
    case Some(NChar(_)) => src
    case Some(NStr(s)) => if |s| == 1 then Some(NChar(s[0])) else None
    case Some(_) => None
  }

  /** ByteConverter: a Byte passes through; text goes straight to Byte.parseByte, with
      no pre-check, and a NumberFormatException becomes absent. */
  function ByteConvert(src: Option<Node>): (r: Option<Node>)
    ensures src.None? ==> r.None?
    ensures r.Some? ==> r.value.NByte?
    ensures src.Some? && src.value.NByte? ==> r == src
    ensures src.Some? && src.value.NStr?
            ==> (r.Some? <==> IsWholeNumber(src.value.text)
                              && BYTE_MIN <= WholeValue(src.value.text) <= BYTE_MAX)
                && (r.Some? ==> r.value.byteValue == WholeValue(src.value.text))
    ensures src.Some? && !src.value.NByte? && !src.value.NStr? ==> r.None?
  {
    match src
    case None => None
    case Some(NByte(_)) => src
    case Some(NStr(s)) =>
      (match Parse(s, BYTE_MIN, BYTE_MAX)
       case Some(v) => Some(NByte(v))
       case None => None)
    case Some(_) => None
  }

  /** ShortConverter: as ByteConverter, with Short.parseShort and the 16-bit range. */
  function ShortConvert(src: Option<Node>): (r: Option<Node>)
    ensures src.None? ==> r.None?
    ensures r.Some? ==> r.value.NShort?
    ensures src.Some? && src.value.NShort? ==> r == src
    ensures src.Some? && src.value.NStr?
            ==> (r.Some? <==> IsWholeNumber(src.value.text)
                              && SHORT_MIN <= WholeValue(src.value.text) <= SHORT_MAX)
                && (r.Some? ==> r.value.shortValue == WholeValue(src.value.text))
    ensures src.Some? && !src.value.NShort? && !src.value.NStr? ==> r.None?
  {
    match src
    case None => None
    case Some(NShort(_)) => src
    case Some(NStr(s)) =>
      (match Parse(s, SHORT_MIN, SHORT_MAX)
       case Some(v) => Some(NShort(v))
       case None => None)
    case Some(_) => None
  }

  /** IntegerConverter: an Integer passes through; text is parsed only when it has at
      most 11 characters and is a whole number, and then only a value in the 32-bit
      range is returned. */
  function IntegerConvert(src: Option<Node>): (r: Option<Node>)
    ensures src.None? ==> r.None?
    ensures r.Some? ==> r.value.NInt?
    ensures src.Some? && src.value.NInt? ==> r == src
    ensures src.Some? && src.value.NStr?
            ==> (r.Some? <==> |src.value.text| <= 11 && IsWholeNumber(src.value.text)
                              && INT_MIN <= WholeValue(src.value.text) <= INT_MAX)
                && (r.Some? ==> r.value.intValue == WholeValue(src.value.text))
    ensures src.Some? && !src.value.NInt? && !src.value.NStr? ==> r.None?
  {
    match src
    case None => None
    case Some(NInt(_)) => src
    case Some(NStr(s)) =>
      if |s| <= 11 && IsWholeNumber(s) then
        (match Parse(s, INT_MIN, INT_MAX)
         case Some(v) => Some(NInt(v))
         case None => None)
      else None
    case Some(_) => None
  }

  /** LongConverter: as IntegerConverter, with a length bound of 21 and the 64-bit range. */
  function LongConvert(src: Option<Node>): (r: Option<Node>)
    ensures src.None? ==> r.None?
    ensures r.Some? ==> r.value.NLong?
    ensures src.Some? && src.value.NLong? ==> r == src
    ensures src.Some? && src.value.NStr?
            ==> (r.Some? <==> |src.value.text| <= 21 && IsWholeNumber(src.value.text)
                              && LONG_MIN <= WholeValue(src.value.text) <= LONG_MAX)
                && (r.Some? ==> r.value.longValue == WholeValue(src.value.text))
    ensures src.Some? && !src.value.NLong? && !src.value.NStr? ==> r.None?
  {
    match src
    case None => None
    case Some(NLong(_)) => src
    case Some(NStr(s)) =>
      if |s| <= 21 && IsWholeNumber(s) then
        (match Parse(s, LONG_MIN, LONG_MAX)
         case Some(v) => Some(NLong(v))
         case None => None)
      else None
    case Some(_) => None
  }

  /** FloatConverter: a Float passes through; text matching the decimal-number shape is
      handed to Float.parseFloat; anything else is absent. */
  function FloatConvert(parse: string -> bv32, src: Option<Node>): (r: Option<Node>)
    ensures src.None? ==> r.None?
    ensures r.Some? ==> r.value.NFloat?
    ensures src.Some? && src.value.NFloat? ==> r == src
    ensures src.Some? && src.value.NStr?
            ==> (r.Some? <==> IsDecimalNumber(src.value.text))
                && (r.Some? ==> r.value.floatBits == parse(src.value.text))
    ensures src.Some? && !src.value.NFloat? && !src.value.NStr? ==> r.None?
  {
    match src
    case None => None
    case Some(NFloat(_)) => src
    case Some(NStr(s)) => if IsDecimalNumber(s) then Some(NFloat(parse(s))) else None
    case Some(_) => None
  }

  /** DoubleConverter: as FloatConverter, with Double.parseDouble. */
  function DoubleConvert(parse: string -> bv64, src: Option<Node>): (r: Option<Node>)
    ensures src.None? ==> r.None?
    ensures r.Some? ==> r.value.NDouble?
    ensures src.Some? && src.value.NDouble? ==> r == src
    ensures src.Some? && src.value.NStr?
            ==> (r.Some? <==> IsDecimalNumber(src.value.text))
                && (r.Some? ==> r.value.doubleBits == parse(src.value.text))
    ensures src.Some? && !src.value.NDouble? && !src.value.NStr? ==> r.None?
  {
    match src
    case None => None
    case Some(NDouble(_)) => src
    case Some(NStr(s)) => if IsDecimalNumber(s) then Some(NDouble(parse(s))) else None
    case Some(_) => None
  }

  /** StringConverter: text passes through, any other value becomes its `toString`; only
      a null source gives absent. */
  function StringConvert(display: Node -> string, src: Option<Node>): (r: Option<Node>)
    ensures r.Some? <==> src.Some?
    ensures r.Some? ==> r.value.NStr?
    ensures src.Some? && src.value.NStr? ==> r == src
    ensures src.Some? && !src.value.NStr? ==> r == Some(NStr(display(src.value)))
  {
    match src
    case None => None
    case Some(NStr(_)) => src
    case Some(n) => Some(NStr(display(n)))
  }

  /** MapConverter: a map passes through, anything else (a list included) is absent. */
  function MapConvert(src: Option<Node>): (r: Option<Node>)
    ensures r.Some? <==> src.Some? && src.value.NMap?
    ensures r.Some? ==> r == src
  {
    match src
    case Some(NMap(_)) => src
    case _ => None
  }

  /** ListConverter: a list passes through, anything else (a map included) is absent. */
  function ListConvert(src: Option<Node>): (r: Option<Node>)
    ensures r.Some? <==> src.Some? && src.value.NList?
    ensures r.Some? ==> r == src
  {
    match src
    case Some(NList(_)) => src
    case _ => None
  }

  /** The lengths of the integer guards never reject a canonical number: the decimal text
      of every 32-bit value converts back to it. */
  lemma IntegerRoundTrip(n: Int32)
    ensures IntegerConvert(Some(NStr(IntToString(n)))) == Some(NInt(n))
  {
    IntToStringLength32(n);
    ParseToString(n, INT_MIN, INT_MAX);
  }

  /** The decimal text of every 64-bit value converts back to it. */
  lemma LongRoundTrip(n: Int64)
    ensures LongConvert(Some(NStr(IntToString(n)))) == Some(NLong(n))
  {
    IntToStringLength64(n);
    ParseToString(n, LONG_MIN, LONG_MAX);
  }

  /** The decimal text of every 16-bit value converts back to it. */
  lemma ShortRoundTrip(n: Int16)
    ensures ShortConvert(Some(NStr(IntToString(n)))) == Some(NShort(n))
  {
    ParseToString(n, SHORT_MIN, SHORT_MAX);
  }

  /** The decimal text of every 8-bit value converts back to it. */
  lemma ByteRoundTrip(n: Int8)
    ensures ByteConvert(Some(NStr(IntToString(n)))) == Some(NByte(n))
  {
    ParseToString(n, BYTE_MIN, BYTE_MAX);
  }

  /** Leading zeros are accepted as long as the text stays within 11 characters:
      "0" followed by the digits of a 32-bit value reads as that value. */
  lemma IntegerLeadingZero(ds: string)
    requires IsDigits(ds) && |ds| <= 10 && DigitsValue(ds) <= INT_MAX
    ensures IntegerConvert(Some(NStr("0" + ds))) == Some(NInt(DigitsValue(ds)))
  {
    LeadingZero(ds);
    assert ("0" + ds)[0] == '0';
  }

  /** A character and its one-character text convert to the same value. */
  lemma CharacterRoundTrip(c: char)
    ensures CharacterConvert(Some(NStr([c]))) == CharacterConvert(Some(NChar(c))) == Some(NChar(c))
  {
  }

  /** Converting a converted value again changes nothing. */
  lemma PassThroughIdempotent(display: Node -> string, src: Option<Node>)
    ensures StringConvert(display, StringConvert(display, src)) == StringConvert(display, src)
    ensures MapConvert(MapConvert(src)) == MapConvert(src)
    ensures ListConvert(ListConvert(src)) == ListConvert(src)
    ensures BooleanConvert(BooleanConvert(src)) == BooleanConvert(src)
    ensures IntegerConvert(IntegerConvert(src)) == IntegerConvert(src)
  {
  }
}
