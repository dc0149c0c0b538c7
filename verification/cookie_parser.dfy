/** DefaultHttpCookie.parseCookie: a single left-to-right pass over a
    Set-Cookie header value that slices out the cookie's name and value and
    the attributes path, domain, expires, max-age, secure and httponly. */
module CookieParser {
  import opened Wrappers
  import opened Ascii
  import opened CookieSyntax
  import Decimal

  datatype ParseState = ParsingValue | ParsingPath | ParsingDomain | ParsingExpires | ParsingMaxAge | Unknown

  /** A parsed cookie; the constructor refuses a missing name or value. */
  datatype HttpCookie = HttpCookie(
    name: string,
    value: string,
    path: Option<string>,
    domain: Option<string>,
    expires: Option<string>,
    maxAge: Option<int>,
    wrapped: bool,
    secure: bool,
    httpOnly: bool)

  /** The parser's local variables that become the cookie; `name` and `value`
      stay null (None) until the scan finds them. */
  datatype Fields = Fields(
    name: Option<string>,
    value: Option<string>,
    path: Option<string>,
    domain: Option<string>,
    expires: Option<string>,
    maxAge: Option<int>,
    wrapped: bool,
    secure: bool,
    httpOnly: bool)

  /** The loop state: the fields so far, the parse state, the start `begin`
      of the segment being read and the index `i` of the next character. */
  datatype Scanner = Scanner(fields: Fields, state: ParseState, begin: nat, i: nat)

  const NoFields := Fields(None, None, None, None, None, None, false, false, false)

  const Start := Scanner(NoFields, Unknown, 0, 0)

  /** The attribute names that route the next segment into a field. */
  const AvFieldNames: seq<(string, ParseState)> :=
    [("path", ParsingPath), ("domain", ParsingDomain), ("expires", ParsingExpires), ("max-age", ParsingMaxAge)]

  /** A case-insensitive lookup of `key` among the first components of
      `table`: the entry of the first name `key` matches. */
  function LookupIgnoreCase(table: seq<(string, ParseState)>, key: string): Option<ParseState> {
    if |table| == 0 then None
    else if EqualsIgnoreCase(key, table[0].0) then Some(table[0].1)
    else LookupIgnoreCase(table[1..], key)
  }

  /** The lookup returns the state of the first entry whose name matches. */
  lemma {:induction false} LookupIgnoreCaseFinds(table: seq<(string, ParseState)>, key: string, j: nat)
    requires j < |table| && EqualsIgnoreCase(key, table[j].0)
    requires forall m :: 0 <= m < j ==> !EqualsIgnoreCase(key, table[m].0)
    ensures LookupIgnoreCase(table, key) == Some(table[j].1)
  {
    if j > 0 {
      forall m | 0 <= m < j - 1 ensures !EqualsIgnoreCase(key, table[1..][m].0) {
        assert table[1..][m] == table[m + 1];
      }
      LookupIgnoreCaseFinds(table[1..], key, j - 1);
    }
  }

  /** The lookup finds nothing exactly when no entry's name matches. */
  lemma {:induction false} LookupIgnoreCaseMisses(table: seq<(string, ParseState)>, key: string)
    ensures LookupIgnoreCase(table, key).None? <==> forall m :: 0 <= m < |table| ==> !EqualsIgnoreCase(key, table[m].0)
  {
    if |table| > 0 {
      LookupIgnoreCaseMisses(table[1..], key);
      if !EqualsIgnoreCase(key, table[0].0) && LookupIgnoreCase(table, key).None? {
        forall m | 0 <= m < |table| ensures !EqualsIgnoreCase(key, table[m].0) {
          if m > 0 {
            assert table[m] == table[1..][m - 1];
          }
        }
      }
    }
  }

  /** The AV_FIELD_NAMES lookup. */
  function AvFieldState(avName: string): Option<ParseState> {
    LookupIgnoreCase(AvFieldNames, avName)
  }

  /** The lookup routes the four attribute names, in any case, to their
      states, and nothing else anywhere: an unknown name leaves the state
      Unknown. */
  lemma AvFieldStateMatches(avName: string)
    ensures EqualsIgnoreCase(avName, "path") ==> AvFieldState(avName) == Some(ParsingPath)
    ensures EqualsIgnoreCase(avName, "domain") ==> AvFieldState(avName) == Some(ParsingDomain)
    ensures EqualsIgnoreCase(avName, "expires") ==> AvFieldState(avName) == Some(ParsingExpires)
    ensures EqualsIgnoreCase(avName, "max-age") ==> AvFieldState(avName) == Some(ParsingMaxAge)
    ensures AvFieldState(avName).None? <==>
              !EqualsIgnoreCase(avName, "path") && !EqualsIgnoreCase(avName, "domain") &&
              !EqualsIgnoreCase(avName, "expires") && !EqualsIgnoreCase(avName, "max-age")
  {
    LookupIgnoreCaseMisses(AvFieldNames, avName);
    if EqualsIgnoreCase(avName, "path") {
      LookupIgnoreCaseFinds(AvFieldNames, avName, 0);
    } else if EqualsIgnoreCase(avName, "domain") {
      LookupIgnoreCaseFinds(AvFieldNames, avName, 1);
    } else if EqualsIgnoreCase(avName, "expires") {
      LookupIgnoreCaseFinds(AvFieldNames, avName, 2);
    } else if EqualsIgnoreCase(avName, "max-age") {
      assert ToLower(avName[0]) == 'm';
      assert !EqualsIgnoreCase(avName, "expires");
      LookupIgnoreCaseFinds(AvFieldNames, avName, 3);
    }
  }

  /** CharSequence.subSequence(begin, end): out of bounds past the end. */
  function Slice(s: string, begin: nat, end: nat): (r: Result<string, CookieError>)
    requires begin <= end
    ensures r.Success? <==> end <= |s|
    ensures r.Success? ==> r.value == s[begin..end]
    ensures r.Failure? ==> r.error == IndexOutOfBounds
  {
    if end <= |s| then Success(s[begin..end]) else Failure(IndexOutOfBounds)
  }

  /** The switch on the parse state run at a ';' and again at the end of
      input: the segment `s[begin..end]` becomes the field the state names,
      or, in state Unknown, may set the secure or httponly flag. */
  function CloseSegment(s: string, f: Fields, state: ParseState, begin: nat, end: nat): (r: Result<Fields, CookieError>)
    requires begin <= end
    ensures r.Success? ==> r.value.name == f.name && r.value.wrapped == f.wrapped
    ensures r.Success? && state == Unknown ==> f.name.Some?
  {
    match state
    case ParsingValue =>
      var v :- Slice(s, begin, end);
      Success(f.(value := Some(v)))
    case ParsingPath =>
      var p :- Slice(s, begin, end);
      Success(f.(path := Some(p)))
    case ParsingDomain =>
      var d :- Slice(s, begin, end);
      Success(f.(domain := Some(d)))
    case ParsingExpires =>
      var e :- Slice(s, begin, end);
      Success(f.(expires := Some(e)))
    case ParsingMaxAge =>
      var t :- Slice(s, begin, end);
      var n :- Decimal.ParseLong(t).ToResult(InvalidMaxAge);
      Success(f.(maxAge := Some(n)))
    case Unknown =>
      if f.name.None? then Failure(ValueNotFound(end))
      else
        var avName :- Slice(s, begin, end);
        if EqualsIgnoreCase(avName, "secure") then Success(f.(secure := true))
        else if EqualsIgnoreCase(avName, "httponly") then Success(f.(httpOnly := true))
        else Success(f)
  }

  /** Closing a segment in state Unknown once the name is known: the text
      "secure" or "httponly", in any case, sets its flag, and any other text
      is ignored without error. */
  lemma CloseUnknown(s: string, f: Fields, begin: nat, end: nat)
    requires begin <= end <= |s| && f.name.Some?
    ensures var t := s[begin..end];
            CloseSegment(s, f, Unknown, begin, end) ==
              Success(f.(secure := f.secure || EqualsIgnoreCase(t, "secure"),
                         httpOnly := f.httpOnly || (!EqualsIgnoreCase(t, "secure") && EqualsIgnoreCase(t, "httponly"))))
  {
  }

  /** One turn of the loop: the switch on the character at `sc.i`. A `%`
      escape is checked with the digit decoder `decode`: the source's is
      `HexToDecimalAsWritten`. */
  function Step(s: string, validate: bool, isToken: string -> bool, decode: char -> int, sc: Scanner): (r: Result<Scanner, CookieError>)
    requires sc.begin <= sc.i < |s|
    ensures r.Success? ==> sc.i < r.value.i && r.value.begin <= r.value.i
  {
    var c := s[sc.i];
    var i := sc.i;
    if c == '=' then
      if sc.fields.name.None? then
        if i <= sc.begin then Failure(EmptyName)
        else
          var name := s[sc.begin..i];
          if validate && !isToken(name) then Failure(InvalidName)
          else Success(Scanner(sc.fields.(name := Some(name)), ParsingValue, i + 1, i + 1))
      else if sc.state == Unknown then
        var next := AvFieldState(s[sc.begin..i]);
        Success(Scanner(sc.fields, if next.Some? then next.value else Unknown, i + 1, i + 1))
      else Failure(UnexpectedEquals(i))
    else if c == '"' then
      if sc.state == ParsingValue then
        if sc.fields.wrapped then
          // the closing quote: skip DQUOTE SEMI SP and one more character
          Success(Scanner(sc.fields.(value := Some(s[sc.begin..i])), Unknown, i + 3, i + 4))
        else
          // the opening quote: the character after it is not inspected
          Success(Scanner(sc.fields.(wrapped := true), ParsingValue, i + 1, i + 2))
      else if sc.fields.value.None? then Failure(UnexpectedQuote(i))
      else Success(sc.(i := i + 1))
    else if c == '%' then
      var escape := ExtractAndValidateCookieHexValueWith(s, i, decode);
      if validate && escape.Fail? then Failure(escape.error)
      else Success(sc.(i := i + 4))
    else if c == ';' then
      if i + 1 == |s| then Failure(TrailingSemicolon)
      else
        var f :- CloseSegment(s, sc.fields, sc.state, sc.begin, i);
        Success(Scanner(f, Unknown, i + 2, i + 2))
    else if validate && sc.state != ParsingExpires && ValidateCookieOctetHexValue(c as int).Fail? then
      Failure(ValidateCookieOctetHexValue(c as int).error)
    else Success(sc.(i := i + 1))
  }

  /** The errors that do not come from content validation. */
  predicate IsStructural(e: CookieError) {
    !(e.InvalidName? || e.InvalidHexEncoding? || e.UnexpectedHexIndicator? || e.UnexpectedHexValue?)
  }

  /** What the scan keeps true: before the first '=' nothing but the start of
      the name is known; afterwards the name is the non-empty text before
      that '=' and, when validating, a valid token. */
  ghost predicate NameKnown(s: string, validate: bool, isToken: string -> bool, sc: Scanner) {
    && sc.begin <= sc.i
    && (sc.fields.name.None? ==> sc.begin == 0 && sc.state == Unknown && sc.fields.value.None?)
    && (sc.fields.name.Some? ==>
          var n := sc.fields.name.value;
          0 < |n| < |s| && s[|n|] == '=' && n == s[..|n|] && (validate ==> isToken(n)))
  }

  /** The while loop of parseCookie, from scanner `sc` to the end of input. */
  function Scan(s: string, validate: bool, isToken: string -> bool, decode: char -> int, sc: Scanner): (r: Result<Scanner, CookieError>)
    requires sc.begin <= sc.i
    requires NameKnown(s, validate, isToken, sc)
    ensures r.Success? ==> |s| <= r.value.i && NameKnown(s, validate, isToken, r.value)
    ensures r.Failure? && !validate ==> IsStructural(r.error)
    decreases |s| - sc.i, 1
  {
    if sc.i >= |s| then Success(sc) else Advance(s, validate, isToken, decode, sc)
  }

  /** One turn of the loop followed by the rest of it. */
  function Advance(s: string, validate: bool, isToken: string -> bool, decode: char -> int, sc: Scanner): (r: Result<Scanner, CookieError>)
    requires sc.begin <= sc.i < |s|
    requires NameKnown(s, validate, isToken, sc)
    ensures r.Success? ==> |s| <= r.value.i && NameKnown(s, validate, isToken, r.value)
    ensures r.Failure? && !validate ==> IsStructural(r.error)
    decreases |s| - sc.i, 0
  {
    var next :- Step(s, validate, isToken, decode, sc);
    Scan(s, validate, isToken, decode, next)
  }

  /** After the loop: a segment still open is closed like one ended by ';'. */
  function Finish(s: string, sc: Scanner): (r: Result<Fields, CookieError>)
    requires sc.begin <= sc.i
    ensures r.Success? ==> r.value.name == sc.fields.name
  {
    if sc.begin < sc.i then CloseSegment(s, sc.fields, sc.state, sc.begin, sc.i)
    else Success(sc.fields)
  }

  /** The loop and its epilogue, from scanner `sc`: a name found is the
      non-empty text before the first '=', accepted when validating, and
      without validation only structural errors occur. */
  function ParseFields(s: string, validate: bool, isToken: string -> bool, decode: char -> int, sc: Scanner): (r: Result<Fields, CookieError>)
    requires NameKnown(s, validate, isToken, sc)
    ensures r.Success? && r.value.name.Some? ==>
              var n := r.value.name.value;
              0 < |n| < |s| && s[|n|] == '=' && n == s[..|n|] && (validate ==> isToken(n))
    ensures r.Failure? && !validate ==> IsStructural(r.error)
  {
    var last :- Scan(s, validate, isToken, decode, sc);
    Finish(s, last)
  }

  /** The DefaultHttpCookie constructor's null checks. */
  function Build(f: Fields): (r: Result<HttpCookie, CookieError>)
    ensures r.Success? <==> f.name.Some? && f.value.Some?
    ensures f.name.None? ==> r == Failure(MissingName)
    ensures r.Success? ==> r.value.name == f.name.value && r.value.value == f.value.value
  {
    if f.name.None? then Failure(MissingName)
    else if f.value.None? then Failure(MissingValue)
    else Success(HttpCookie(f.name.value, f.value.value, f.path, f.domain, f.expires, f.maxAge,
                            f.wrapped, f.secure, f.httpOnly))
  }

  /** parseCookie with the escape check's digit decoder as a parameter. A
      parsed cookie's name is the non-empty text before the first '=' the scan
      reaches, valid when validating; without validation no content check
      ever fails. */
  function ParseCookieWith(s: string, validate: bool, isToken: string -> bool, decode: char -> int): (r: Result<HttpCookie, CookieError>)
    ensures r.Success? ==> 0 < |r.value.name| < |s| && s[|r.value.name|] == '=' && r.value.name == s[..|r.value.name|]
    ensures r.Success? && validate ==> isToken(r.value.name)
    ensures r.Failure? && !validate ==> IsStructural(r.error)
    ensures '=' !in s ==> r.Failure?
    ensures |s| > 0 && s[0] == '=' ==> r == Failure(EmptyName)
    ensures |s| == 0 ==> r == Failure(MissingName)
  {
    assert |s| > 0 && s[0] == '=' ==> Advance(s, validate, isToken, decode, Start) == Failure(EmptyName);
    var f :- ParseFields(s, validate, isToken, decode, Start);
    Build(f)
  }

  /** parseCookie as the source writes it, escapes decoded by `hexToDecimal`
      with its upper-case bound before 'F'. */
  function ParseCookie(s: string, validate: bool, isToken: string -> bool): Result<HttpCookie, CookieError> {
    ParseCookieWith(s, validate, isToken, HexToDecimalAsWritten)
  }

  /** parseCookie with the corrected digit decoder. */
  function ParseCookieCorrected(s: string, validate: bool, isToken: string -> bool): Result<HttpCookie, CookieError> {
    ParseCookieWith(s, validate, isToken, HexToDecimal)
  }

  /** The conditions under which one turn of the loop throws, each with the
      exception it throws, and no others: the empty or refused name at the
      first '=', a second '=' inside a segment, a quote with no value around
      it, a refused escape, a trailing ';', a segment the ';' cannot close,
      and a refused ordinary character. */
  lemma StepFails(s: string, validate: bool, isToken: string -> bool, decode: char -> int, sc: Scanner)
    requires sc.begin <= sc.i < |s|
    ensures var c := s[sc.i];
            var i := sc.i;
            var f := sc.fields;
            var r := Step(s, validate, isToken, decode, sc);
            && (c == '=' && f.name.None? && i == sc.begin ==> r == Failure(EmptyName))
            && (c == '=' && f.name.None? && sc.begin < i && validate && !isToken(s[sc.begin..i]) ==> r == Failure(InvalidName))
            && (c == '=' && f.name.Some? && sc.state != Unknown ==> r == Failure(UnexpectedEquals(i)))
            && (c == '"' && sc.state != ParsingValue && f.value.None? ==> r == Failure(UnexpectedQuote(i)))
            && (c == '%' && validate && ExtractAndValidateCookieHexValueWith(s, i, decode).Fail? ==>
                  r == Failure(ExtractAndValidateCookieHexValueWith(s, i, decode).error))
            && (c == ';' && i + 1 == |s| ==> r == Failure(TrailingSemicolon))
            && (c == ';' && i + 1 < |s| && sc.state == Unknown && f.name.None? ==> r == Failure(ValueNotFound(i)))
            && (c == ';' && i + 1 < |s| && CloseSegment(s, f, sc.state, sc.begin, i).Failure? ==>
                  r == Failure(CloseSegment(s, f, sc.state, sc.begin, i).error))
            && ((c != '=' && c != '"' && c != '%' && c != ';' && validate && sc.state != ParsingExpires &&
                 !IsCookieOctet(c as int)) ==> r == Failure(UnexpectedHexValue(c as int)))
            && (r.Failure? <==>
                  || (c == '=' && f.name.None? && (i == sc.begin || (validate && !isToken(s[sc.begin..i]))))
                  || (c == '=' && f.name.Some? && sc.state != Unknown)
                  || (c == '"' && sc.state != ParsingValue && f.value.None?)
                  || (c == '%' && validate && ExtractAndValidateCookieHexValueWith(s, i, decode).Fail?)
                  || (c == ';' && (i + 1 == |s| || CloseSegment(s, f, sc.state, sc.begin, i).Failure?))
                  || (c != '=' && c != '"' && c != '%' && c != ';' && validate && sc.state != ParsingExpires
                      && !IsCookieOctet(c as int)))
  {
  }

  // ---------------------------------------------------------------------
  // Single turns of the loop, one branch each

  lemma StepPlain(s: string, validate: bool, isToken: string -> bool, decode: char -> int, sc: Scanner)
    requires sc.begin <= sc.i < |s|
    requires s[sc.i] != '=' && s[sc.i] != '"' && s[sc.i] != '%' && s[sc.i] != ';'
    requires validate && sc.state != ParsingExpires ==> IsCookieOctet(s[sc.i] as int)
    ensures Step(s, validate, isToken, decode, sc) == Success(sc.(i := sc.i + 1))
  {
  }

  lemma StepAvName(s: string, validate: bool, isToken: string -> bool, decode: char -> int, sc: Scanner, route: ParseState)
    requires sc.begin <= sc.i < |s| && s[sc.i] == '='
    requires sc.fields.name.Some? && sc.state == Unknown
    requires AvFieldState(s[sc.begin..sc.i]) == Some(route)
    ensures Step(s, validate, isToken, decode, sc) == Success(Scanner(sc.fields, route, sc.i + 1, sc.i + 1))
  {
  }

  lemma StepSemicolon(s: string, validate: bool, isToken: string -> bool, decode: char -> int, sc: Scanner, f: Fields)
    requires sc.begin <= sc.i && sc.i + 1 < |s| && s[sc.i] == ';'
    requires CloseSegment(s, sc.fields, sc.state, sc.begin, sc.i) == Success(f)
    ensures Step(s, validate, isToken, decode, sc) == Success(Scanner(f, Unknown, sc.i + 2, sc.i + 2))
  {
  }

  lemma StepName(s: string, validate: bool, isToken: string -> bool, decode: char -> int, sc: Scanner)
    requires sc.begin < sc.i < |s| && s[sc.i] == '='
    requires sc.fields.name.None?
    requires validate ==> isToken(s[sc.begin..sc.i])
    ensures Step(s, validate, isToken, decode, sc) ==
            Success(Scanner(sc.fields.(name := Some(s[sc.begin..sc.i])), ParsingValue, sc.i + 1, sc.i + 1))
  {
  }

  lemma StepOpenQuote(s: string, validate: bool, isToken: string -> bool, decode: char -> int, sc: Scanner)
    requires sc.begin <= sc.i < |s| && s[sc.i] == '"'
    requires sc.state == ParsingValue && !sc.fields.wrapped
    ensures Step(s, validate, isToken, decode, sc) ==
            Success(Scanner(sc.fields.(wrapped := true), ParsingValue, sc.i + 1, sc.i + 2))
  {
  }

  lemma StepCloseQuote(s: string, validate: bool, isToken: string -> bool, decode: char -> int, sc: Scanner)
    requires sc.begin <= sc.i < |s| && s[sc.i] == '"'
    requires sc.state == ParsingValue && sc.fields.wrapped
    ensures Step(s, validate, isToken, decode, sc) ==
            Success(Scanner(sc.fields.(value := Some(s[sc.begin..sc.i])), Unknown, sc.i + 3, sc.i + 4))
  {
  }

  lemma StepEscape(s: string, validate: bool, isToken: string -> bool, decode: char -> int, sc: Scanner)
    requires sc.begin <= sc.i < |s| && s[sc.i] == '%'
    requires validate ==> ExtractAndValidateCookieHexValueWith(s, sc.i, decode).Pass?
    ensures Step(s, validate, isToken, decode, sc) == Success(sc.(i := sc.i + 4))
  {
  }
}
