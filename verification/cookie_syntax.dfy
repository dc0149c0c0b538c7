/** The character-level validators of the cookie parser: the cookie-octet
    grammar of section 4.1.1 of RFC 6265, the hexadecimal digit decoder and the
    `%x##` escape check, together with the errors the parser can raise. */
module CookieSyntax {
  import opened Wrappers

  /** Every exception the parser raises, one constructor per distinct message. */
  datatype CookieError =
    | EmptyName                              // the name before the first '=' is empty
    | InvalidName                            // the header-name validator refused the name
    | UnexpectedEquals(index: nat)           // a second '=' inside one segment
    | UnexpectedQuote(index: nat)            // a quote where no value starts or ends
    | InvalidHexEncoding                     // fewer than three characters after a '%'
    | UnexpectedHexIndicator(indicator: char) // the character after '%' is not 'x' or 'X'
    | UnexpectedHexValue(hexValue: int)      // the octet is not a cookie-octet
    | TrailingSemicolon                      // the header ends with ';'
    | ValueNotFound(index: nat)              // a segment ends before the cookie's value
    | InvalidMaxAge                          // the max-age text is not a decimal integer
    | IndexOutOfBounds                       // a jump past the end before taking a slice
    | MissingName                            // the constructor is given no name
    | MissingValue                           // the constructor is given no value

  /** cookie-octet = %x21 / %x23-2B / %x2D-3A / %x3C-5B / %x5D-7E, as RFC 6265 writes it. */
  predicate IsCookieOctet(v: int) {
    v == 0x21 || 0x23 <= v <= 0x2B || 0x2D <= v <= 0x3A || 0x3C <= v <= 0x5B || 0x5D <= v <= 0x7E
  }

  /** validateCookieOctetHexValue: the code tests the complement of the ranges
      in decimal; the contract states the grammar's own ranges. */
  function ValidateCookieOctetHexValue(hexValue: int): (r: Outcome<CookieError>)
    ensures r.Pass? <==> IsCookieOctet(hexValue)
    ensures r.Fail? ==> r.error == UnexpectedHexValue(hexValue)
    // controls, space, DQUOTE, comma, semicolon, backslash and DEL are refused
    ensures hexValue < 0x21 || hexValue > 0x7E ==> r.Fail?
    ensures hexValue == ' ' as int || hexValue == '"' as int || hexValue == ',' as int ==> r.Fail?
    ensures hexValue == ';' as int || hexValue == '\\' as int ==> r.Fail?
  {
    if hexValue != 33 &&
       (hexValue < 35 || hexValue > 43) &&
       (hexValue < 45 || hexValue > 58) &&
       (hexValue < 60 || hexValue > 91) &&
       (hexValue < 93 || hexValue > 126)
    then Fail(UnexpectedHexValue(hexValue))
    else Pass
  }

  /** The hexadecimal digit that encodes `k`, in lower or upper case: the
      reference encoding the decoders below are measured against. */
  function HexDigitChar(k: nat, upper: bool): char
    requires k < 16
  {
    if k < 10 then ('0' as int + k) as char
    else if upper then ('A' as int + k - 10) as char
    else ('a' as int + k - 10) as char
  }

  /** hexToDecimal exactly as written: the upper-case branch stops before 'F'. */
  function HexToDecimalAsWritten(c: char): (r: int)
    ensures -1 <= r <= 15
    ensures r >= 0 ==> c == HexDigitChar(r, false) || c == HexDigitChar(r, true)
  {
    if '0' <= c <= '9' then c as int - '0' as int
    else if 'a' <= c <= 'f' then c as int - 'a' as int + 10
    else if 'A' <= c < 'F' then c as int - 'A' as int + 10
    else -1
  }

  /** hexToDecimal as evidently intended: 'A' to 'F' inclusive. */
  function HexToDecimal(c: char): (r: int)
    ensures -1 <= r <= 15
    ensures r >= 0 ==> c == HexDigitChar(r, false) || c == HexDigitChar(r, true)
  {
    if '0' <= c <= '9' then c as int - '0' as int
    else if 'a' <= c <= 'f' then c as int - 'a' as int + 10
    else if 'A' <= c <= 'F' then c as int - 'A' as int + 10
    else -1
  }

  /** The corrected decoder inverts the reference encoding for every digit and
      both cases, and refuses every other character. */
  lemma HexToDecimalInvertsHexDigitChar(k: nat, upper: bool, c: char)
    requires k < 16
    ensures HexToDecimal(HexDigitChar(k, upper)) == k
    ensures HexToDecimal(c) == -1 <==> forall j: nat, u: bool :: j < 16 ==> c != HexDigitChar(j, u)
  {
    if HexToDecimal(c) != -1 {
      var r := HexToDecimal(c);
      assert c == HexDigitChar(r, false) || c == HexDigitChar(r, true);
    }
  }

  /** The decoder as written agrees with the corrected one on every character
      but 'F', which it refuses although 'F' encodes 15. */
  lemma HexToDecimalAsWrittenMissesUpperF(c: char)
    ensures c != 'F' ==> HexToDecimalAsWritten(c) == HexToDecimal(c)
    ensures HexToDecimalAsWritten('F') == -1
    ensures HexDigitChar(15, true) == 'F' && HexToDecimal('F') == 15
  {
  }

  /** extractAndValidateCookieHexValue with the digit decoder as a parameter:
      `i` is the index of the '%'. At least three characters must follow it,
      the first being 'x' or 'X'; the two after it are read as one octet, the
      high digit decimal only, and that octet must be a cookie-octet. */
  function ExtractAndValidateCookieHexValueWith(s: string, i: nat, decode: char -> int): (r: Outcome<CookieError>)
    ensures |s| - 3 <= i ==> r == Fail(InvalidHexEncoding)
    ensures i + 3 < |s| && s[i + 1] != 'x' && s[i + 1] != 'X' ==> r == Fail(UnexpectedHexIndicator(s[i + 1]))
    ensures r.Pass? ==> i + 3 < |s| && (s[i + 1] == 'x' || s[i + 1] == 'X')
    ensures r.Fail? && r.error.UnexpectedHexValue? ==> i + 3 < |s|
  {
    if |s| - 3 <= i then Fail(InvalidHexEncoding)
    else if s[i + 1] != 'X' && s[i + 1] != 'x' then Fail(UnexpectedHexIndicator(s[i + 1]))
    else ValidateCookieOctetHexValue((s[i + 2] as int - '0' as int) * 16 + decode(s[i + 3]))
  }

  /** The escape check as the source writes it: a well-formed escape whose
      low digit is not 'F' passes exactly when the octet it encodes is a
      cookie-octet, while a low digit 'F' counts as -1, so the octet tested is
      one less than 16 times the high digit. */
  function ExtractAndValidateCookieHexValueAsWritten(s: string, i: nat): (r: Outcome<CookieError>)
    ensures |s| - 3 <= i ==> r == Fail(InvalidHexEncoding)
    ensures i + 3 < |s| && s[i + 1] != 'x' && s[i + 1] != 'X' ==> r == Fail(UnexpectedHexIndicator(s[i + 1]))
    ensures forall hi: nat, lo: nat, upper: bool ::
              i + 3 < |s| && (s[i + 1] == 'x' || s[i + 1] == 'X') && hi < 10 && lo < 16 &&
              s[i + 2] == HexDigitChar(hi, false) && s[i + 3] == HexDigitChar(lo, upper) && s[i + 3] != 'F'
              ==> (r.Pass? <==> IsCookieOctet(16 * hi + lo))
    ensures forall hi: nat ::
              i + 3 < |s| && (s[i + 1] == 'x' || s[i + 1] == 'X') && hi < 10 &&
              s[i + 2] == HexDigitChar(hi, false) && s[i + 3] == 'F'
              ==> (r.Pass? <==> IsCookieOctet(16 * hi - 1))
  {
    var r := ExtractAndValidateCookieHexValueWith(s, i, HexToDecimalAsWritten);
    forall hi: nat, lo: nat, upper: bool |
      i + 3 < |s| && (s[i + 1] == 'x' || s[i + 1] == 'X') && hi < 10 && lo < 16 &&
      s[i + 2] == HexDigitChar(hi, false) && s[i + 3] == HexDigitChar(lo, upper) && s[i + 3] != 'F'
      ensures r.Pass? <==> IsCookieOctet(16 * hi + lo)
    {
      HexToDecimalInvertsHexDigitChar(lo, upper, s[i + 3]);
      HexToDecimalAsWrittenMissesUpperF(s[i + 3]);
    }
    r
  }

  /** The escape check with the corrected decoder, the one
      `CookieParser.ParseCookieCorrected` uses:
      a well-formed escape `%x` + decimal digit + hex digit passes exactly when
      the octet it encodes is a cookie-octet. */
  function ExtractAndValidateCookieHexValue(s: string, i: nat): (r: Outcome<CookieError>)
    ensures |s| - 3 <= i ==> r == Fail(InvalidHexEncoding)
    ensures i + 3 < |s| && s[i + 1] != 'x' && s[i + 1] != 'X' ==> r == Fail(UnexpectedHexIndicator(s[i + 1]))
    ensures forall hi: nat, lo: nat, upper: bool ::
              i + 3 < |s| && (s[i + 1] == 'x' || s[i + 1] == 'X') && hi < 10 && lo < 16 &&
              s[i + 2] == HexDigitChar(hi, false) && s[i + 3] == HexDigitChar(lo, upper)
              ==> (r.Pass? <==> IsCookieOctet(16 * hi + lo))
  {
    var r := ExtractAndValidateCookieHexValueWith(s, i, HexToDecimal);
    forall hi: nat, lo: nat, upper: bool |
      i + 3 < |s| && (s[i + 1] == 'x' || s[i + 1] == 'X') && hi < 10 && lo < 16 &&
      s[i + 2] == HexDigitChar(hi, false) && s[i + 3] == HexDigitChar(lo, upper)
      ensures r.Pass? <==> IsCookieOctet(16 * hi + lo)
    {
      HexToDecimalInvertsHexDigitChar(lo, upper, s[i + 3]);
    }
    r
  }

  /** The input that shows the decoder bug: "%x2F" encodes '/', a cookie-octet,
      yet the check as written refuses it; "%x7F" encodes DEL, which is not a
      cookie-octet, yet the check as written lets it through. */
  lemma EscapeCheckAsWrittenMisjudgesUpperF()
    ensures IsCookieOctet(0x2F) && ExtractAndValidateCookieHexValueAsWritten("%x2F", 0).Fail?
    ensures ExtractAndValidateCookieHexValue("%x2F", 0).Pass?
    ensures !IsCookieOctet(0x7F) && ExtractAndValidateCookieHexValueAsWritten("%x7F", 0).Pass?
    ensures ExtractAndValidateCookieHexValue("%x7F", 0).Fail?
  {
    assert HexToDecimalAsWritten('F') == -1;
    assert HexToDecimal('F') == 15;
  }
}
