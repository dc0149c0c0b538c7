/** Concrete headers that pin down how the index jumps of the parser treat
    quotes and semicolons at the edges of the input, and how the parser as
    written and the corrected one judge the escapes of '/' and DEL. */
module CookieExamples {
  import opened Wrappers
  import opened CookieSyntax
  import opened CookieParser
  import CookieCodec

  /** A quoted value at the very end of the header: the closing quote jumps
      the index past the end, and the final slice is out of bounds. */
  lemma QuotedValueAtEndIsOutOfBounds(validate: bool, isToken: string -> bool)
    requires isToken("a")
    ensures ParseCookie("a=\"b\"", validate, isToken) == Failure(IndexOutOfBounds)
  {
    var s := "a=\"b\"";
    var n := NoFields.(name := Some("a"));
    var sc1 := Start.(i := 1);
    var sc2 := Scanner(n, ParsingValue, 2, 2);
    var sc3 := Scanner(n.(wrapped := true), ParsingValue, 3, 4);
    var sc4 := Scanner(n.(wrapped := true).(value := Some("b")), Unknown, 7, 8);
    CookieParser.StepPlain(s, validate, isToken, HexToDecimalAsWritten, Start);
    CookieCodec.ScanStep(s, validate, isToken, HexToDecimalAsWritten, Start, sc1);
    assert s[0..1] == "a";
    StepName(s, validate, isToken, HexToDecimalAsWritten, sc1);
    CookieCodec.ScanStep(s, validate, isToken, HexToDecimalAsWritten, sc1, sc2);
    StepOpenQuote(s, validate, isToken, HexToDecimalAsWritten, sc2);
    CookieCodec.ScanStep(s, validate, isToken, HexToDecimalAsWritten, sc2, sc3);
    assert s[3..4] == "b";
    StepCloseQuote(s, validate, isToken, HexToDecimalAsWritten, sc3);
    CookieCodec.ScanStep(s, validate, isToken, HexToDecimalAsWritten, sc3, sc4);
    assert Scan(s, validate, isToken, HexToDecimalAsWritten, Start) == Success(sc4);
  }

  /** An opening quote jumps over the character after it, so a ';' there is
      neither a separator nor a trailing ';': it becomes the value. */
  lemma OpenQuoteSkipsTrailingSemicolon(validate: bool, isToken: string -> bool)
    requires isToken("a")
    ensures ParseCookie("a=\";", validate, isToken) ==
            Success(HttpCookie("a", ";", None, None, None, None, true, false, false))
  {
    var s := "a=\";";
    var n := NoFields.(name := Some("a"));
    var sc1 := Start.(i := 1);
    var sc2 := Scanner(n, ParsingValue, 2, 2);
    var sc3 := Scanner(n.(wrapped := true), ParsingValue, 3, 4);
    CookieParser.StepPlain(s, validate, isToken, HexToDecimalAsWritten, Start);
    CookieCodec.ScanStep(s, validate, isToken, HexToDecimalAsWritten, Start, sc1);
    assert s[0..1] == "a";
    StepName(s, validate, isToken, HexToDecimalAsWritten, sc1);
    CookieCodec.ScanStep(s, validate, isToken, HexToDecimalAsWritten, sc1, sc2);
    StepOpenQuote(s, validate, isToken, HexToDecimalAsWritten, sc2);
    CookieCodec.ScanStep(s, validate, isToken, HexToDecimalAsWritten, sc2, sc3);
    assert Scan(s, validate, isToken, HexToDecimalAsWritten, Start) == Success(sc3);
    assert s[3..4] == ";";
  }

  /** The character after a ';' is skipped as the expected space, so a
      second ';' right after the first is accepted and ignored. */
  lemma SecondSemicolonSkipped(validate: bool, isToken: string -> bool)
    requires isToken("a")
    ensures ParseCookie("a=b;;", validate, isToken) ==
            Success(HttpCookie("a", "b", None, None, None, None, false, false, false))
  {
    var s := "a=b;;";
    var n := NoFields.(name := Some("a"));
    var sc1 := Start.(i := 1);
    var sc2 := Scanner(n, ParsingValue, 2, 2);
    var sc3 := sc2.(i := 3);
    var sc4 := Scanner(n.(value := Some("b")), Unknown, 5, 5);
    CookieParser.StepPlain(s, validate, isToken, HexToDecimalAsWritten, Start);
    CookieCodec.ScanStep(s, validate, isToken, HexToDecimalAsWritten, Start, sc1);
    assert s[0..1] == "a";
    StepName(s, validate, isToken, HexToDecimalAsWritten, sc1);
    CookieCodec.ScanStep(s, validate, isToken, HexToDecimalAsWritten, sc1, sc2);
    CookieParser.StepPlain(s, validate, isToken, HexToDecimalAsWritten, sc2);
    CookieCodec.ScanStep(s, validate, isToken, HexToDecimalAsWritten, sc2, sc3);
    assert s[2..3] == "b";
    StepSemicolon(s, validate, isToken, HexToDecimalAsWritten, sc3, sc4.fields);
    CookieCodec.ScanStep(s, validate, isToken, HexToDecimalAsWritten, sc3, sc4);
    assert Scan(s, validate, isToken, HexToDecimalAsWritten, Start) == Success(sc4);
  }

  /** Even when validating, the character right after an opening quote is
      never checked: a space there is taken into the value, while a space
      the loop does inspect is refused. */
  lemma CharacterAfterOpenQuoteUnchecked(isToken: string -> bool)
    requires isToken("a")
    ensures ParseCookie("a=\" ", true, isToken) ==
            Success(HttpCookie("a", " ", None, None, None, None, true, false, false))
    ensures ParseCookie("a= ", true, isToken) == Failure(UnexpectedHexValue(' ' as int))
  {
    var s := "a=\" ";
    var n := NoFields.(name := Some("a"));
    var sc1 := Start.(i := 1);
    var sc2 := Scanner(n, ParsingValue, 2, 2);
    var sc3 := Scanner(n.(wrapped := true), ParsingValue, 3, 4);
    CookieParser.StepPlain(s, true, isToken, HexToDecimalAsWritten, Start);
    CookieCodec.ScanStep(s, true, isToken, HexToDecimalAsWritten, Start, sc1);
    assert s[0..1] == "a";
    StepName(s, true, isToken, HexToDecimalAsWritten, sc1);
    CookieCodec.ScanStep(s, true, isToken, HexToDecimalAsWritten, sc1, sc2);
    StepOpenQuote(s, true, isToken, HexToDecimalAsWritten, sc2);
    CookieCodec.ScanStep(s, true, isToken, HexToDecimalAsWritten, sc2, sc3);
    assert Scan(s, true, isToken, HexToDecimalAsWritten, Start) == Success(sc3);
    assert s[3..4] == " ";
    UnquotedSpaceRefused(isToken);
  }

  lemma UnquotedSpaceRefused(isToken: string -> bool)
    requires isToken("a")
    ensures ParseCookie("a= ", true, isToken) == Failure(UnexpectedHexValue(' ' as int))
  {
    var s := "a= ";
    var sc1 := Start.(i := 1);
    var sc2 := Scanner(NoFields.(name := Some("a")), ParsingValue, 2, 2);
    CookieParser.StepPlain(s, true, isToken, HexToDecimalAsWritten, Start);
    CookieCodec.ScanStep(s, true, isToken, HexToDecimalAsWritten, Start, sc1);
    assert s[0..1] == "a";
    StepName(s, true, isToken, HexToDecimalAsWritten, sc1);
    CookieCodec.ScanStep(s, true, isToken, HexToDecimalAsWritten, sc1, sc2);
    assert Step(s, true, isToken, HexToDecimalAsWritten, sc2) == Failure(UnexpectedHexValue(' ' as int));
  }

  /** The scan of a header "a=%x" + two digits, up to its escape. */
  lemma ScanToEscape(s: string, isToken: string -> bool, decode: char -> int)
    requires |s| == 6 && s[0] == 'a' && s[1] == '=' && s[2] == '%' && isToken("a")
    ensures NameKnown(s, true, isToken, Scanner(NoFields.(name := Some("a")), ParsingValue, 2, 2))
    ensures Scan(s, true, isToken, decode, Start) ==
            Scan(s, true, isToken, decode, Scanner(NoFields.(name := Some("a")), ParsingValue, 2, 2))
  {
    var sc1 := Start.(i := 1);
    var sc2 := Scanner(NoFields.(name := Some("a")), ParsingValue, 2, 2);
    CookieParser.StepPlain(s, true, isToken, decode, Start);
    CookieCodec.ScanStep(s, true, isToken, decode, Start, sc1);
    assert s[0..1] == "a";
    StepName(s, true, isToken, decode, sc1);
    CookieCodec.ScanStep(s, true, isToken, decode, sc1, sc2);
  }

  /** The parser as written refuses the escape "%x2F" of '/', a cookie-octet,
      as the value 31; the corrected parser takes it into the value. */
  lemma EscapedSlashRefusedAsWritten(isToken: string -> bool)
    requires isToken("a")
    ensures ParseCookie("a=%x2F", true, isToken) == Failure(UnexpectedHexValue(31))
    ensures ParseCookieCorrected("a=%x2F", true, isToken) ==
            Success(HttpCookie("a", "%x2F", None, None, None, None, false, false, false))
  {
    var s := "a=%x2F";
    var sc2 := Scanner(NoFields.(name := Some("a")), ParsingValue, 2, 2);
    ScanToEscape(s, isToken, HexToDecimalAsWritten);
    assert Step(s, true, isToken, HexToDecimalAsWritten, sc2) == Failure(UnexpectedHexValue(31));
    ScanToEscape(s, isToken, HexToDecimal);
    StepEscape(s, true, isToken, HexToDecimal, sc2);
    CookieCodec.ScanStep(s, true, isToken, HexToDecimal, sc2, sc2.(i := 6));
    assert s[2..6] == "%x2F";
  }

  /** The parser as written lets the escape "%x7F" of DEL through, reading it
      as the value 111; the corrected parser refuses it as 127. */
  lemma EscapedDelAcceptedAsWritten(isToken: string -> bool)
    requires isToken("a")
    ensures ParseCookie("a=%x7F", true, isToken) ==
            Success(HttpCookie("a", "%x7F", None, None, None, None, false, false, false))
    ensures ParseCookieCorrected("a=%x7F", true, isToken) == Failure(UnexpectedHexValue(127))
  {
    var s := "a=%x7F";
    var sc2 := Scanner(NoFields.(name := Some("a")), ParsingValue, 2, 2);
    ScanToEscape(s, isToken, HexToDecimal);
    assert Step(s, true, isToken, HexToDecimal, sc2) == Failure(UnexpectedHexValue(127));
    ScanToEscape(s, isToken, HexToDecimalAsWritten);
    StepEscape(s, true, isToken, HexToDecimalAsWritten, sc2);
    CookieCodec.ScanStep(s, true, isToken, HexToDecimalAsWritten, sc2, sc2.(i := 6));
    assert s[2..6] == "%x7F";
  }
}
