/** The parser's partner: the Set-Cookie text of a cookie, written the way
    servers write it ("name=value; Path=/; Secure"), and the proof that
    parsing that text gives the cookie back. */
module CookieCodec {
  import opened Wrappers
  import opened Ascii
  import opened CookieSyntax
  import opened CookieParser
  import Decimal

  /** A character the scan passes over with `++i` (no '=', quote, '%' or ';'). */
  predicate Plain(c: char) {
    c != '=' && c != '"' && c != '%' && c != ';'
  }

  /** Text made of plain characters that, when `checked`, are also cookie-octets. */
  predicate PlainText(t: string, checked: bool) {
    forall k :: 0 <= k < |t| ==> Plain(t[k]) && (checked ==> IsCookieOctet(t[k] as int))
  }

  datatype Attribute =
    | PathAv(path: string)
    | DomainAv(domain: string)
    | ExpiresAv(expires: string)
    | MaxAgeAv(seconds: int)
    | SecureAv
    | HttpOnlyAv

  function AvName(a: Attribute): string {
    match a
    case PathAv(_) => "Path"
    case DomainAv(_) => "Domain"
    case ExpiresAv(_) => "Expires"
    case MaxAgeAv(_) => "Max-Age"
    case SecureAv => "Secure"
    case HttpOnlyAv => "HttpOnly"
  }

  /** Whether the attribute is a bare flag rather than "Name=value". */
  predicate IsFlag(a: Attribute) {
    a.SecureAv? || a.HttpOnlyAv?
  }

  function AvValue(a: Attribute): string
    requires !IsFlag(a)
  {
    match a
    case PathAv(p) => p
    case DomainAv(d) => d
    case ExpiresAv(e) => e
    case MaxAgeAv(n) => Decimal.ToSignedDecimal(n)
  }

  /** A piece of the header after the cookie itself: a bare key, or
      key=value. */
  datatype Segment = Segment(key: string, value: Option<string>)

  function SegmentText(g: Segment): string {
    if g.value.None? then g.key else g.key + "=" + g.value.value
  }

  function AvSegment(a: Attribute): Segment {
    if IsFlag(a) then Segment(AvName(a), None) else Segment(AvName(a), Some(AvValue(a)))
  }

  function AvText(a: Attribute): string {
    SegmentText(AvSegment(a))
  }

  /** Each attribute preceded by "; ". */
  function AvsText(avs: seq<Attribute>): string {
    if |avs| == 0 then "" else "; " + AvText(avs[0]) + AvsText(avs[1..])
  }

  /** The attributes with a value a cookie carries, in a fixed order. */
  function ValuedAttributes(c: HttpCookie): seq<Attribute>
  {
    (if c.path.Some? then [PathAv(c.path.value)] else [])
    + (if c.domain.Some? then [DomainAv(c.domain.value)] else [])
    + (if c.expires.Some? then [ExpiresAv(c.expires.value)] else [])
    + (if c.maxAge.Some? then [MaxAgeAv(c.maxAge.value)] else [])
  }

  /** The flags a cookie carries. */
  function FlagAttributes(c: HttpCookie): seq<Attribute> {
    (if c.secure then [SecureAv] else []) + (if c.httpOnly then [HttpOnlyAv] else [])
  }

  /** The attributes a cookie carries, in a fixed order. */
  function Attributes(c: HttpCookie): seq<Attribute>
  {
    ValuedAttributes(c) + FlagAttributes(c)
  }

  function Serialize(c: HttpCookie): string
  {
    c.name + "=" + (if c.wrapped then Quoted(c.value) else c.value) + AvsText(Attributes(c))
  }

  /** A value wrapped in double quotes. */
  function Quoted(v: string): string {
    "\"" + v + "\""
  }

  /** The cookies whose serialization the parser reads back: the name and
      every value are plain text (cookie-octets when validating), the name is
      a valid token when validating, attribute values are non-empty, and a
      wrapped value is non-empty and followed by an attribute. An empty
      unwrapped value needs an attribute after it, since "name=" alone leaves
      the value null. */
  predicate Serializable(c: HttpCookie, validate: bool, isToken: string -> bool) {
    && |c.name| > 0 && PlainText(c.name, validate) && (validate ==> isToken(c.name))
    && PlainText(c.value, validate)
    && (c.path.Some? ==> |c.path.value| > 0 && PlainText(c.path.value, validate))
    && (c.domain.Some? ==> |c.domain.value| > 0 && PlainText(c.domain.value, validate))
    && (c.expires.Some? ==> |c.expires.value| > 0 && PlainText(c.expires.value, false))
    && (c.wrapped ==> |c.value| > 0)
    && (c.wrapped || |c.value| == 0 ==>
          c.path.Some? || c.domain.Some? || c.expires.Some? || c.maxAge.Some? || c.secure || c.httpOnly)
  }

  /** The field an attribute sets. */
  function ApplyAv(f: Fields, a: Attribute): Fields {
    match a
    case PathAv(p) => f.(path := Some(p))
    case DomainAv(d) => f.(domain := Some(d))
    case ExpiresAv(e) => f.(expires := Some(e))
    case MaxAgeAv(n) => f.(maxAge := Some(n))
    case SecureAv => f.(secure := true)
    case HttpOnlyAv => f.(httpOnly := true)
  }

  function ApplyAll(f: Fields, avs: seq<Attribute>): Fields
    decreases |avs|
  {
    if |avs| == 0 then f else ApplyAll(ApplyAv(f, avs[0]), avs[1..])
  }

  /** An attribute whose value the parser reads back unchanged. */
  predicate AvReadable(a: Attribute, validate: bool) {
    match a
    case PathAv(p) => |p| > 0 && PlainText(p, validate)
    case DomainAv(d) => |d| > 0 && PlainText(d, validate)
    case ExpiresAv(e) => |e| > 0 && PlainText(e, false)
    case _ => true
  }

  // ---------------------------------------------------------------------
  // Runs of plain characters

  /** A successful turn of the loop keeps the name invariant, and the scan
      from before the turn is the scan from after it. */
  lemma ScanStep(s: string, validate: bool, isToken: string -> bool, decode: char -> int, sc: Scanner, next: Scanner)
    requires NameKnown(s, validate, isToken, sc) && sc.i < |s|
    requires Step(s, validate, isToken, decode, sc) == Success(next)
    ensures NameKnown(s, validate, isToken, next)
    ensures Scan(s, validate, isToken, decode, sc) == Scan(s, validate, isToken, decode, next)
  {
  }

  /** The scan passes over plain characters one at a time and changes nothing
      but the index. */
  lemma {:induction false} ScanRun(s: string, validate: bool, isToken: string -> bool, decode: char -> int, sc: Scanner, j: nat)
    requires NameKnown(s, validate, isToken, sc)
    requires sc.i <= j <= |s|
    requires forall k :: sc.i <= k < j ==> Plain(s[k])
    requires validate && sc.state != ParsingExpires ==> forall k :: sc.i <= k < j ==> IsCookieOctet(s[k] as int)
    ensures NameKnown(s, validate, isToken, sc.(i := j))
    ensures Scan(s, validate, isToken, decode, sc) == Scan(s, validate, isToken, decode, sc.(i := j))
    decreases j - sc.i
  {
    if sc.i < j {
      var next := sc.(i := sc.i + 1);
      StepPlain(s, validate, isToken, decode, sc);
      ScanStep(s, validate, isToken, decode, sc, next);
      ScanRun(s, validate, isToken, decode, next, j);
    }
  }

  /** When validating outside `expires`, a run of plain characters holding
      one that is not a cookie-octet makes the scan fail. */
  lemma {:induction false} ScanRunRejects(s: string, isToken: string -> bool, decode: char -> int, sc: Scanner, j: nat, bad: nat)
    requires NameKnown(s, true, isToken, sc) && sc.state != ParsingExpires
    requires sc.i <= bad < j <= |s|
    requires forall k :: sc.i <= k < j ==> Plain(s[k])
    requires !IsCookieOctet(s[bad] as int)
    ensures Scan(s, true, isToken, decode, sc).Failure? && Scan(s, true, isToken, decode, sc).error.UnexpectedHexValue?
    decreases j - sc.i
  {
    if IsCookieOctet(s[sc.i] as int) {
      var next := sc.(i := sc.i + 1);
      StepPlain(s, true, isToken, decode, sc);
      ScanStep(s, true, isToken, decode, sc, next);
      ScanRunRejects(s, isToken, decode, next, j, bad);
    }
  }

  // ---------------------------------------------------------------------
  // The attribute names

  lemma AvNamesArePlain(a: Attribute)
    ensures PlainText(AvName(a), true)
  {
    var t := AvName(a);
    forall k | 0 <= k < |t|
      ensures Plain(t[k]) && IsCookieOctet(t[k] as int)
    {
      assert 'A' <= t[k] <= 'Z' || 'a' <= t[k] <= 'z' || t[k] == '-' by {
        if k == 0 {} else if k == 1 {} else if k == 2 {} else if k == 3 {}
        else if k == 4 {} else if k == 5 {} else if k == 6 {} else {}
      }
    }
  }

  lemma PathRoutes()
    ensures AvFieldState("Path") == Some(ParsingPath)
  {
    forall k | 0 <= k < 4 ensures ToLower("Path"[k]) == ToLower("path"[k]) {
      if k == 0 {} else if k == 1 {} else if k == 2 {} else {}
    }
    EqualsIgnoreCaseIff("Path", "path");
    LookupIgnoreCaseFinds(AvFieldNames, "Path", 0);
  }

  lemma DomainRoutes()
    ensures AvFieldState("Domain") == Some(ParsingDomain)
  {
    forall k | 0 <= k < 6 ensures ToLower("Domain"[k]) == ToLower("domain"[k]) {
      if k == 0 {} else if k == 1 {} else if k == 2 {} else if k == 3 {} else if k == 4 {} else {}
    }
    EqualsIgnoreCaseIff("Domain", "domain");
    assert !EqualsIgnoreCase("Domain", AvFieldNames[0].0);
    LookupIgnoreCaseFinds(AvFieldNames, "Domain", 1);
  }

  lemma ExpiresRoutes()
    ensures AvFieldState("Expires") == Some(ParsingExpires)
  {
    forall k | 0 <= k < 7 ensures ToLower("Expires"[k]) == ToLower("expires"[k]) {
      if k == 0 {} else if k == 1 {} else if k == 2 {} else if k == 3 {} else if k == 4 {} else if k == 5 {} else {}
    }
    EqualsIgnoreCaseIff("Expires", "expires");
    assert !EqualsIgnoreCase("Expires", AvFieldNames[0].0) && !EqualsIgnoreCase("Expires", AvFieldNames[1].0);
    LookupIgnoreCaseFinds(AvFieldNames, "Expires", 2);
  }

  lemma MaxAgeRoutes()
    ensures AvFieldState("Max-Age") == Some(ParsingMaxAge)
  {
    forall k | 0 <= k < 7 ensures ToLower("Max-Age"[k]) == ToLower("max-age"[k]) {
      if k == 0 {} else if k == 1 {} else if k == 2 {} else if k == 3 {} else if k == 4 {} else if k == 5 {} else {}
    }
    EqualsIgnoreCaseIff("Max-Age", "max-age");
    assert !EqualsIgnoreCase("Max-Age", AvFieldNames[0].0) && !EqualsIgnoreCase("Max-Age", AvFieldNames[1].0);
    assert ToLower("Max-Age"[0]) != ToLower("expires"[0]);
    assert !EqualsIgnoreCase("Max-Age", AvFieldNames[2].0);
    LookupIgnoreCaseFinds(AvFieldNames, "Max-Age", 3);
  }

  lemma FlagsMatch()
    ensures EqualsIgnoreCase("Secure", "secure")
    ensures !EqualsIgnoreCase("HttpOnly", "secure") && EqualsIgnoreCase("HttpOnly", "httponly")
  {
    forall k | 0 <= k < 6 ensures ToLower("Secure"[k]) == ToLower("secure"[k]) {
      if k == 0 {} else if k == 1 {} else if k == 2 {} else if k == 3 {} else if k == 4 {} else {}
    }
    forall k | 0 <= k < 8 ensures ToLower("HttpOnly"[k]) == ToLower("httponly"[k]) {
      if k == 0 {} else if k == 1 {} else if k == 2 {} else if k == 3 {}
      else if k == 4 {} else if k == 5 {} else if k == 6 {} else {}
    }
    EqualsIgnoreCaseIff("Secure", "secure");
    EqualsIgnoreCaseIff("HttpOnly", "httponly");
  }

  /** The parse state an attribute name routes to. */
  function AvState(a: Attribute): ParseState {
    match a
    case PathAv(_) => ParsingPath
    case DomainAv(_) => ParsingDomain
    case ExpiresAv(_) => ParsingExpires
    case MaxAgeAv(_) => ParsingMaxAge
    case _ => Unknown
  }

  lemma AvNameRoutes(avName: string, a: Attribute)
    requires !IsFlag(a) && avName == AvName(a)
    ensures AvFieldState(avName) == Some(AvState(a))
  {
    match a
    case PathAv(_) => PathRoutes();
    case DomainAv(_) => DomainRoutes();
    case ExpiresAv(_) => ExpiresRoutes();
    case MaxAgeAv(_) => MaxAgeRoutes();
  }

  /** The value text of a readable attribute passes the checks of its state. */
  lemma AvValueReadable(a: Attribute, validate: bool)
    requires !IsFlag(a) && AvReadable(a, validate)
    ensures |AvValue(a)| > 0
    ensures PlainText(AvValue(a), validate && AvState(a) != ParsingExpires)
  {
    if a.MaxAgeAv? {
      Decimal.ToSignedDecimalShape(a.seconds);
    }
  }

  /** Closing the value segment of a readable attribute sets its field. */
  lemma CloseAvValue(s: string, f: Fields, a: Attribute, vb: nat, e: nat)
    requires !IsFlag(a) && vb <= e <= |s| && s[vb..e] == AvValue(a)
    ensures CloseSegment(s, f, AvState(a), vb, e) == Success(ApplyAv(f, a))
  {
    if a.MaxAgeAv? {
      Decimal.ParseLongToSignedDecimal(a.seconds);
    }
  }

  /** Closing the segment of a flag attribute sets the flag. */
  lemma CloseFlag(s: string, f: Fields, a: Attribute, b: nat, e: nat)
    requires IsFlag(a) && f.name.Some? && b <= e <= |s| && s[b..e] == AvName(a)
    ensures CloseSegment(s, f, Unknown, b, e) == Success(ApplyAv(f, a))
  {
    var t := AvName(a);
    assert Slice(s, b, e) == Success(t);
    if a.SecureAv? {
      assert EqualsIgnoreCase(t, "secure") by { FlagsMatch(); }
    } else {
      assert !EqualsIgnoreCase(t, "secure") && EqualsIgnoreCase(t, "httponly") by { FlagsMatch(); }
    }
  }

  /** The parse from `sc` reaches the end `e` of a segment whose close gives
      `f`, and then either stops at the end of input with `f` or goes on
      after the "; " that follows. */
  ghost predicate SegmentEnds(s: string, validate: bool, isToken: string -> bool, decode: char -> int, sc: Scanner, e: nat, f: Fields) {
    && NameKnown(s, validate, isToken, sc)
    && (e == |s| ==> ParseFields(s, validate, isToken, decode, sc) == Success(f))
    && (e + 1 < |s| && s[e] == ';' ==>
          var next := Scanner(f, Unknown, e + 2, e + 2);
          && NameKnown(s, validate, isToken, next)
          && ParseFields(s, validate, isToken, decode, sc) == ParseFields(s, validate, isToken, decode, next))
  }

  /** Scans that agree lead to the same parse. */
  lemma SameScanSameParse(s: string, validate: bool, isToken: string -> bool, decode: char -> int, first: Scanner, last: Scanner)
    requires NameKnown(s, validate, isToken, first) && NameKnown(s, validate, isToken, last)
    requires Scan(s, validate, isToken, decode, first) == Scan(s, validate, isToken, decode, last)
    ensures ParseFields(s, validate, isToken, decode, first) == ParseFields(s, validate, isToken, decode, last)
  {
  }

  /** A segment closed by the end of input. */
  lemma EndOfInput(s: string, validate: bool, isToken: string -> bool, decode: char -> int, last: Scanner, f: Fields)
    requires NameKnown(s, validate, isToken, last) && last.begin < last.i == |s|
    requires CloseSegment(s, last.fields, last.state, last.begin, last.i) == Success(f)
    ensures ParseFields(s, validate, isToken, decode, last) == Success(f)
  {
  }

  /** A segment closed by a ';' that is not the last character. */
  lemma EndAtSemicolon(s: string, validate: bool, isToken: string -> bool, decode: char -> int, last: Scanner, f: Fields)
    requires NameKnown(s, validate, isToken, last) && last.begin <= last.i && last.i + 1 < |s| && s[last.i] == ';'
    requires CloseSegment(s, last.fields, last.state, last.begin, last.i) == Success(f)
    ensures NameKnown(s, validate, isToken, Scanner(f, Unknown, last.i + 2, last.i + 2))
    ensures ParseFields(s, validate, isToken, decode, last) == ParseFields(s, validate, isToken, decode, Scanner(f, Unknown, last.i + 2, last.i + 2))
  {
    var next := Scanner(f, Unknown, last.i + 2, last.i + 2);
    StepSemicolon(s, validate, isToken, decode, last, f);
    ScanStep(s, validate, isToken, decode, last, next);
    SameScanSameParse(s, validate, isToken, decode, last, next);
  }

  /** Ending a segment whose close gives `f`, reached from `first`. */
  lemma EndSegment(s: string, validate: bool, isToken: string -> bool, decode: char -> int, first: Scanner, last: Scanner, f: Fields)
    requires NameKnown(s, validate, isToken, first) && NameKnown(s, validate, isToken, last)
    requires Scan(s, validate, isToken, decode, first) == Scan(s, validate, isToken, decode, last)
    requires last.begin <= last.i <= |s| && (last.i == |s| ==> last.begin < last.i)
    requires CloseSegment(s, last.fields, last.state, last.begin, last.i) == Success(f)
    ensures SegmentEnds(s, validate, isToken, decode, first, last.i, f)
  {
    SameScanSameParse(s, validate, isToken, decode, first, last);
    if last.i == |s| {
      EndOfInput(s, validate, isToken, decode, last, f);
    } else if last.i + 1 < |s| && s[last.i] == ';' {
      EndAtSemicolon(s, validate, isToken, decode, last, f);
    }
  }

  /** Scanning the text of a key up to the '=' after it. */
  lemma ScanKeyText(s: string, validate: bool, isToken: string -> bool, decode: char -> int, sc: Scanner, key: string, eq: nat)
    requires NameKnown(s, validate, isToken, sc)
    requires PlainText(key, true)
    requires eq == sc.begin + |key| && sc.begin <= sc.i <= eq <= |s| && s[sc.begin..eq] == key
    ensures NameKnown(s, validate, isToken, sc.(i := eq))
    ensures Scan(s, validate, isToken, decode, sc) == Scan(s, validate, isToken, decode, sc.(i := eq))
  {
    var b := sc.begin;
    forall k | sc.i <= k < eq
      ensures Plain(s[k]) && IsCookieOctet(s[k] as int)
    {
      assert s[k] == key[k - b];
    }
    ScanRun(s, validate, isToken, decode, sc, eq);
  }

  /** The '=' after an attribute name routes the scan into the name's state. */
  lemma ScanKeyEquals(s: string, validate: bool, isToken: string -> bool, decode: char -> int, sc: Scanner, key: string, st: ParseState)
    requires NameKnown(s, validate, isToken, sc)
    requires sc.state == Unknown && sc.fields.name.Some?
    requires sc.begin <= sc.i < |s| && s[sc.i] == '=' && s[sc.begin..sc.i] == key && AvFieldState(key) == Some(st)
    ensures NameKnown(s, validate, isToken, Scanner(sc.fields, st, sc.i + 1, sc.i + 1))
    ensures Scan(s, validate, isToken, decode, sc) == Scan(s, validate, isToken, decode, Scanner(sc.fields, st, sc.i + 1, sc.i + 1))
  {
    var next := Scanner(sc.fields, st, sc.i + 1, sc.i + 1);
    StepAvName(s, validate, isToken, decode, sc, st);
    ScanStep(s, validate, isToken, decode, sc, next);
  }

  /** Scanning a value of plain characters up to its end. */
  lemma ScanValueText(s: string, validate: bool, isToken: string -> bool, decode: char -> int, sc: Scanner, v: string, e: nat)
    requires NameKnown(s, validate, isToken, sc)
    requires sc.begin == sc.i && PlainText(v, validate && sc.state != ParsingExpires)
    requires e == sc.i + |v| <= |s| && s[sc.i..e] == v
    ensures NameKnown(s, validate, isToken, sc.(i := e))
    ensures Scan(s, validate, isToken, decode, sc) == Scan(s, validate, isToken, decode, sc.(i := e))
  {
    var vb := sc.i;
    forall k | vb <= k < e
      ensures Plain(s[k]) && (validate && sc.state != ParsingExpires ==> IsCookieOctet(s[k] as int))
    {
      assert s[k] == v[k - vb];
    }
    ScanRun(s, validate, isToken, decode, sc, e);
  }

  /** Where the pieces of a segment's text lie once it is found at `b`. */
  lemma SegmentPieces(s: string, b: nat, g: Segment, eq: nat, e: nat)
    requires eq == b + |g.key| && e == b + |SegmentText(g)| <= |s| && s[b..e] == SegmentText(g)
    ensures eq <= |s| && s[b..eq] == g.key
    ensures g.value.None? ==> e == eq
    ensures g.value.Some? ==> e == eq + 1 + |g.value.value| && s[eq] == '=' && s[eq + 1..e] == g.value.value
  {
    var t := SegmentText(g);
    var key := g.key;
    assert t[..|key|] == key;
    assert s[b..eq] == s[b..e][..|key|];
    if g.value.Some? {
      assert t[|key|] == '=';
      assert t[|key| + 1..] == g.value.value;
      assert s[eq + 1..e] == s[b..e][|key| + 1..];
    }
  }

  /** Scanning a valued attribute "key=v" from its start to its end. */
  lemma ScanValued(s: string, validate: bool, isToken: string -> bool, decode: char -> int, sc: Scanner,
                   key: string, st: ParseState, v: string, eq: nat, e: nat) returns (last: Scanner)
    requires NameKnown(s, validate, isToken, sc)
    requires sc.state == Unknown && sc.fields.name.Some?
    requires PlainText(key, true) && AvFieldState(key) == Some(st)
    requires PlainText(v, validate && st != ParsingExpires)
    requires eq == sc.begin + |key| && e == eq + 1 + |v| <= |s| && sc.begin <= sc.i <= eq
    requires s[sc.begin..eq] == key && s[eq] == '=' && s[eq + 1..e] == v
    ensures last == Scanner(sc.fields, st, eq + 1, e)
    ensures NameKnown(s, validate, isToken, last)
    ensures Scan(s, validate, isToken, decode, sc) == Scan(s, validate, isToken, decode, last)
  {
    ScanKeyText(s, validate, isToken, decode, sc, key, eq);
    ScanKeyEquals(s, validate, isToken, decode, sc.(i := eq), key, st);
    var vs := Scanner(sc.fields, st, eq + 1, eq + 1);
    ScanValueText(s, validate, isToken, decode, vs, v, e);
    last := vs.(i := e);
  }

  /** A segment "key=v" whose close gives `f`. */
  lemma ScanValuedSegment(s: string, validate: bool, isToken: string -> bool, decode: char -> int, sc: Scanner,
                          key: string, st: ParseState, v: string, f: Fields, eq: nat, e: nat)
    requires NameKnown(s, validate, isToken, sc)
    requires sc.state == Unknown && sc.fields.name.Some?
    requires PlainText(key, true) && AvFieldState(key) == Some(st)
    requires PlainText(v, validate && st != ParsingExpires) && |v| > 0
    requires eq == sc.begin + |key| && e == eq + 1 + |v| <= |s| && sc.begin <= sc.i <= eq
    requires s[sc.begin..eq] == key && s[eq] == '=' && s[eq + 1..e] == v
    requires CloseSegment(s, sc.fields, st, eq + 1, e) == Success(f)
    ensures SegmentEnds(s, validate, isToken, decode, sc, e, f)
  {
    var last := ScanValued(s, validate, isToken, decode, sc, key, st, v, eq, e);
    EndSegment(s, validate, isToken, decode, sc, last, f);
  }

  /** A flag segment whose close gives `f`. */
  lemma ScanFlagSegment(s: string, validate: bool, isToken: string -> bool, decode: char -> int, sc: Scanner, key: string, f: Fields, e: nat)
    requires NameKnown(s, validate, isToken, sc)
    requires PlainText(key, true)
    requires e == sc.begin + |key| && sc.begin <= sc.i <= e <= |s| && sc.begin < e
    requires s[sc.begin..e] == key
    requires CloseSegment(s, sc.fields, sc.state, sc.begin, e) == Success(f)
    ensures SegmentEnds(s, validate, isToken, decode, sc, e, f)
  {
    ScanKeyText(s, validate, isToken, decode, sc, key, e);
    EndSegment(s, validate, isToken, decode, sc, sc.(i := e), f);
  }

  /** What scanning segment `g` at `b` needs: a plain non-empty key; a flag
      closes to `f`; a valued segment's key routes to `st`, and its plain
      non-empty value closes to `f`. */
  ghost predicate SegmentReady(s: string, validate: bool, fields: Fields, b: nat, g: Segment, st: ParseState, f: Fields) {
    && PlainText(g.key, true) && |g.key| > 0
    && b + |SegmentText(g)| <= |s| && s[b..b + |SegmentText(g)|] == SegmentText(g)
    && (g.value.None? ==> CloseSegment(s, fields, Unknown, b, b + |g.key|) == Success(f))
    && (g.value.Some? ==>
          && AvFieldState(g.key) == Some(st) && |g.value.value| > 0
          && PlainText(g.value.value, validate && st != ParsingExpires)
          && |SegmentText(g)| == |g.key| + 1 + |g.value.value|
          && CloseSegment(s, fields, st, b + |g.key| + 1, b + |SegmentText(g)|) == Success(f))
  }

  /** One segment starting at `sc.begin`. */
  lemma ScanSegment(s: string, validate: bool, isToken: string -> bool, decode: char -> int, sc: Scanner,
                    g: Segment, st: ParseState, f: Fields)
    requires NameKnown(s, validate, isToken, sc)
    requires sc.state == Unknown && sc.fields.name.Some?
    requires sc.begin <= sc.i <= sc.begin + 1
    requires SegmentReady(s, validate, sc.fields, sc.begin, g, st, f)
    ensures SegmentEnds(s, validate, isToken, decode, sc, sc.begin + |SegmentText(g)|, f)
  {
    var eq := sc.begin + |g.key|;
    var e := sc.begin + |SegmentText(g)|;
    SegmentPieces(s, sc.begin, g, eq, e);
    if g.value.None? {
      ScanFlagSegment(s, validate, isToken, decode, sc, g.key, f, e);
    } else {
      ScanValuedSegment(s, validate, isToken, decode, sc, g.key, st, g.value.value, f, eq, e);
    }
  }

  /** What scanning an attribute's segment needs, derived from the attribute. */
  lemma AvSegmentReadable(s: string, validate: bool, f: Fields, b: nat, a: Attribute)
    requires AvReadable(a, validate) && f.name.Some?
    requires b + |AvText(a)| <= |s| && s[b..b + |AvText(a)|] == AvText(a)
    ensures SegmentReady(s, validate, f, b, AvSegment(a), AvState(a), ApplyAv(f, a))
  {
    var g := AvSegment(a);
    var eq := b + |g.key|;
    var e := b + |SegmentText(g)|;
    AvNamesArePlain(a);
    SegmentPieces(s, b, g, eq, e);
    if IsFlag(a) {
      FlagSegmentReady(s, validate, f, b, a, e);
    } else {
      ValuedSegmentReady(s, validate, f, b, a, eq, e);
    }
  }

  /** A flag attribute's segment is its bare name, which closes as that flag. */
  lemma FlagSegmentReady(s: string, validate: bool, f: Fields, b: nat, a: Attribute, e: nat)
    requires IsFlag(a) && f.name.Some? && PlainText(AvName(a), true)
    requires e == b + |AvName(a)| <= |s| && s[b..e] == AvName(a)
    ensures SegmentReady(s, validate, f, b, AvSegment(a), AvState(a), ApplyAv(f, a))
  {
    var g := AvSegment(a);
    var t := AvName(a);
    assert g == Segment(t, None) && SegmentText(g) == t && |t| > 0;
    CloseFlag(s, f, a, b, e);
    assert CloseSegment(s, f, Unknown, b, b + |g.key|) == Success(ApplyAv(f, a));
  }

  /** A valued attribute's segment is its name, '=' and its value text, which
      the name routes to the attribute's field. */
  lemma ValuedSegmentReady(s: string, validate: bool, f: Fields, b: nat, a: Attribute, eq: nat, e: nat)
    requires !IsFlag(a) && AvReadable(a, validate) && PlainText(AvName(a), true)
    requires eq == b + |AvName(a)| && e == eq + 1 + |AvValue(a)| <= |s|
    requires s[b..e] == AvText(a) && s[eq + 1..e] == AvValue(a)
    ensures SegmentReady(s, validate, f, b, AvSegment(a), AvState(a), ApplyAv(f, a))
  {
    var g := AvSegment(a);
    assert g == Segment(AvName(a), Some(AvValue(a))) && SegmentText(g) == AvText(a);
    AvNameRoutes(AvName(a), a);
    AvValueReadable(a, validate);
    CloseAvValue(s, f, a, eq + 1, e);
  }

  /** One attribute starting at `sc.begin` and ended by the end of input or by
      a ';' that is not the last character. */
  lemma ScanAttribute(s: string, validate: bool, isToken: string -> bool, decode: char -> int, sc: Scanner, a: Attribute, e: nat, f: Fields)
    requires NameKnown(s, validate, isToken, sc)
    requires sc.state == Unknown && sc.fields.name.Some?
    requires sc.begin <= sc.i <= sc.begin + 1
    requires AvReadable(a, validate) && f == ApplyAv(sc.fields, a)
    requires e == sc.begin + |AvText(a)| <= |s| && s[sc.begin..e] == AvText(a)
    ensures SegmentEnds(s, validate, isToken, decode, sc, e, f)
  {
    AvSegmentReadable(s, validate, sc.fields, sc.begin, a);
    ScanSegment(s, validate, isToken, decode, sc, AvSegment(a), AvState(a), f);
  }

  /** Where the first attribute and the rest lie once the attribute text is
      found at `p`. */
  lemma AvsTextPieces(s: string, p: nat, avs: seq<Attribute>, e: nat)
    requires |avs| > 0 && p <= |s| && s[p..] == AvsText(avs)
    requires e == p + 2 + |AvText(avs[0])|
    ensures e <= |s| && s[p] == ';'
    ensures s[p + 2..e] == AvText(avs[0])
    ensures s[e..] == AvsText(avs[1..])
  {
    var t := AvsText(avs);
    var a := AvText(avs[0]);
    assert t == "; " + a + AvsText(avs[1..]);
    assert t[0] == ';';
    assert t[2..2 + |a|] == a;
    assert t[2 + |a|..] == AvsText(avs[1..]);
    assert s[p + 2..e] == t[2..2 + |a|];
    assert s[e..] == t[2 + |a|..];
  }

  /** The attributes after the value, each preceded by "; ", starting at `p`:
      the parse applies each in turn. */
  lemma {:induction false} ScanAttributes(s: string, validate: bool, isToken: string -> bool, decode: char -> int, sc: Scanner,
                                          p: nat, avs: seq<Attribute>)
    requires NameKnown(s, validate, isToken, sc)
    requires sc.state == Unknown && sc.fields.name.Some?
    requires sc.begin == p + 2 && sc.begin <= sc.i <= sc.begin + 1
    requires |avs| > 0 && forall k :: 0 <= k < |avs| ==> AvReadable(avs[k], validate)
    requires p <= |s| && s[p..] == AvsText(avs)
    ensures ParseFields(s, validate, isToken, decode, sc) == Success(ApplyAll(sc.fields, avs))
    decreases |avs|
  {
    var a := avs[0];
    var e := sc.begin + |AvText(a)|;
    var f := ApplyAv(sc.fields, a);
    AvsTextPieces(s, p, avs, e);
    ScanAttribute(s, validate, isToken, decode, sc, a, e, f);
    if |avs| > 1 {
      var next := Scanner(f, Unknown, e + 2, e + 2);
      AvsTextPieces(s, e, avs[1..], e + 2 + |AvText(avs[1..][0])|);
      ScanAttributes(s, validate, isToken, decode, next, e, avs[1..]);
    }
  }

  // ---------------------------------------------------------------------
  // Name and value

  /** Scanning the cookie's name up to the first '=' records it. */
  lemma ScanName(s: string, validate: bool, isToken: string -> bool, decode: char -> int, name: string, sc: Scanner)
    requires |name| > 0 && PlainText(name, validate) && (validate ==> isToken(name))
    requires |name| < |s| && s[..|name|] == name && s[|name|] == '='
    requires sc == Scanner(NoFields.(name := Some(name)), ParsingValue, |name| + 1, |name| + 1)
    ensures NameKnown(s, validate, isToken, sc)
    ensures ParseFields(s, validate, isToken, decode, Start) == ParseFields(s, validate, isToken, decode, sc)
  {
    forall k | 0 <= k < |name|
      ensures Plain(s[k]) && (validate ==> IsCookieOctet(s[k] as int))
    {
      assert s[k] == name[k];
    }
    ScanRun(s, validate, isToken, decode, Start, |name|);
    var atEq := Start.(i := |name|);
    assert s[atEq.begin..atEq.i] == name;
    StepName(s, validate, isToken, decode, atEq);
    ScanStep(s, validate, isToken, decode, atEq, sc);
    SameScanSameParse(s, validate, isToken, decode, Start, sc);
  }
  /** Whatever the parse from just after the name gives, the parse from the
      start gives too. */
  lemma ScanNameThen(s: string, validate: bool, isToken: string -> bool, decode: char -> int, name: string, sc: Scanner,
                     r: Result<Fields, CookieError>)
    requires |name| > 0 && PlainText(name, validate) && (validate ==> isToken(name))
    requires |name| < |s| && s[..|name|] == name && s[|name|] == '='
    requires sc == Scanner(NoFields.(name := Some(name)), ParsingValue, |name| + 1, |name| + 1)
    requires NameKnown(s, validate, isToken, sc) && ParseFields(s, validate, isToken, decode, sc) == r
    ensures ParseFields(s, validate, isToken, decode, Start) == r
  {
    ScanName(s, validate, isToken, decode, name, sc);
  }


  /** An unquoted value of plain characters is closed into the value field. */
  lemma ScanPlainValue(s: string, validate: bool, isToken: string -> bool, decode: char -> int, sc: Scanner, v: string, e: nat)
    requires NameKnown(s, validate, isToken, sc)
    requires sc.state == ParsingValue && sc.begin == sc.i
    requires PlainText(v, validate)
    requires e == sc.i + |v| <= |s| && s[sc.i..e] == v
    requires e == |s| ==> |v| > 0
    ensures SegmentEnds(s, validate, isToken, decode, sc, e, sc.fields.(value := Some(v)))
  {
    ScanValueText(s, validate, isToken, decode, sc, v, e);
    var last := sc.(i := e);
    EndSegment(s, validate, isToken, decode, sc, last, sc.fields.(value := Some(v)));
  }

  /** The opening quote and the characters of a quoted value before the
      closing quote; the first of them is skipped unchecked. */
  lemma ScanOpenQuote(s: string, validate: bool, isToken: string -> bool, decode: char -> int, sc: Scanner, v: string)
    requires NameKnown(s, validate, isToken, sc)
    requires sc.state == ParsingValue && sc.begin == sc.i && !sc.fields.wrapped
    requires |v| > 0 && PlainText(v, validate)
    requires sc.i + 1 + |v| <= |s| && s[sc.i] == '"' && s[sc.i + 1..sc.i + 1 + |v|] == v
    ensures var w := Scanner(sc.fields.(wrapped := true), ParsingValue, sc.i + 1, sc.i + 1 + |v|);
            && NameKnown(s, validate, isToken, w)
            && Scan(s, validate, isToken, decode, sc) == Scan(s, validate, isToken, decode, w)
  {
    var vb := sc.i + 1;
    var w := Scanner(sc.fields.(wrapped := true), ParsingValue, vb, vb + 1);
    StepOpenQuote(s, validate, isToken, decode, sc);
    ScanStep(s, validate, isToken, decode, sc, w);
    forall k | vb + 1 <= k < vb + |v|
      ensures Plain(s[k]) && (validate ==> IsCookieOctet(s[k] as int))
    {
      assert s[k] == v[k - vb];
    }
    ScanRun(s, validate, isToken, decode, w, vb + |v|);
  }

  /** The closing quote records the quoted value and skips the "; " after it
      together with the first character of the next segment. */
  lemma ScanCloseQuote(s: string, validate: bool, isToken: string -> bool, decode: char -> int, w: Scanner, v: string)
    requires NameKnown(s, validate, isToken, w)
    requires w.state == ParsingValue && w.fields.wrapped
    requires w.begin <= w.i < |s| && s[w.i] == '"' && s[w.begin..w.i] == v
    ensures var sc := Scanner(w.fields.(value := Some(v)), Unknown, w.i + 3, w.i + 4);
            && NameKnown(s, validate, isToken, sc)
            && Scan(s, validate, isToken, decode, w) == Scan(s, validate, isToken, decode, sc)
  {
    var sc := Scanner(w.fields.(value := Some(v)), Unknown, w.i + 3, w.i + 4);
    StepCloseQuote(s, validate, isToken, decode, w);
    ScanStep(s, validate, isToken, decode, w, sc);
  }

  /** The pieces of a quoted value found in the text. */
  lemma QuotedPieces(s: string, b: nat, v: string, e: nat)
    requires e == b + 2 + |v| <= |s| && s[b..e] == Quoted(v)
    ensures s[b] == '"' && s[b + 1..e - 1] == v && s[e - 1] == '"'
  {
    var r := Quoted(v);
    assert r == ['"'] + v + ['"'];
    assert r[0] == '"' && r[|v| + 1] == '"';
    assert r[1..|v| + 1] == v;
    assert s[b] == r[0] && s[e - 1] == r[|v| + 1];
    forall k | 0 <= k < |v| ensures s[b + 1..e - 1][k] == v[k] {
      assert s[b + 1 + k] == r[1 + k];
    }
  }


  /** A quoted value followed by attributes: the scan reaches the first
      attribute with the value recorded and the wrapped flag set. */
  lemma ScanQuotedValue(s: string, validate: bool, isToken: string -> bool, decode: char -> int, sc: Scanner, v: string, e: nat, f: Fields)
    requires NameKnown(s, validate, isToken, sc)
    requires sc.state == ParsingValue && sc.begin == sc.i && !sc.fields.wrapped
    requires |v| > 0 && PlainText(v, validate)
    requires e == sc.i + 2 + |v| && e <= |s| && s[sc.i..e] == Quoted(v)
    requires f == sc.fields.(wrapped := true).(value := Some(v))
    ensures var next := Scanner(f, Unknown, e + 2, e + 3);
            && NameKnown(s, validate, isToken, next)
            && ParseFields(s, validate, isToken, decode, sc) == ParseFields(s, validate, isToken, decode, next)
  {
    var q := e - 1;
    QuotedPieces(s, sc.i, v, e);
    ScanOpenQuote(s, validate, isToken, decode, sc, v);
    var w := Scanner(sc.fields.(wrapped := true), ParsingValue, sc.i + 1, q);
    ScanCloseQuote(s, validate, isToken, decode, w, v);
    var next := Scanner(f, Unknown, e + 2, e + 3);
    SameScanSameParse(s, validate, isToken, decode, sc, next);
  }

  // ---------------------------------------------------------------------
  // The round trip

  lemma {:induction false} ApplyAllConcat(f: Fields, xs: seq<Attribute>, ys: seq<Attribute>)
    ensures ApplyAll(f, xs + ys) == ApplyAll(ApplyAll(f, xs), ys)
    decreases |xs|
  {
    if |xs| > 0 {
      assert (xs + ys)[1..] == xs[1..] + ys;
      ApplyAllConcat(ApplyAv(f, xs[0]), xs[1..], ys);
    } else {
      assert xs + ys == ys;
    }
  }

  /** At most one attribute applied. */
  lemma ApplyAtMostOne(f: Fields, xs: seq<Attribute>)
    requires |xs| <= 1
    ensures ApplyAll(f, xs) == if |xs| == 0 then f else ApplyAv(f, xs[0])
  {
  }

  /** Two optional attributes applied one after the other. */
  lemma ApplyTwo(f: Fields, xs: seq<Attribute>, ys: seq<Attribute>)
    requires |xs| <= 1 && |ys| <= 1
    ensures ApplyAll(f, xs + ys) ==
            var g := if |xs| == 0 then f else ApplyAv(f, xs[0]);
            if |ys| == 0 then g else ApplyAv(g, ys[0])
  {
    ApplyAllConcat(f, xs, ys);
    ApplyAtMostOne(f, xs);
    ApplyAtMostOne(ApplyAll(f, xs), ys);
  }

  function PathDomainAvs(c: HttpCookie): seq<Attribute> {
    (if c.path.Some? then [PathAv(c.path.value)] else [])
    + (if c.domain.Some? then [DomainAv(c.domain.value)] else [])
  }

  function ExpiresMaxAgeAvs(c: HttpCookie): seq<Attribute>
  {
    (if c.expires.Some? then [ExpiresAv(c.expires.value)] else [])
    + (if c.maxAge.Some? then [MaxAgeAv(c.maxAge.value)] else [])
  }

  lemma ApplyPathDomain(c: HttpCookie, f: Fields)
    requires f.path.None? && f.domain.None?
    ensures ApplyAll(f, PathDomainAvs(c)) == f.(path := c.path, domain := c.domain)
  {
    ApplyTwo(f, if c.path.Some? then [PathAv(c.path.value)] else [],
                if c.domain.Some? then [DomainAv(c.domain.value)] else []);
  }

  lemma ApplyExpiresMaxAge(c: HttpCookie, f: Fields)
    requires f.expires.None? && f.maxAge.None?
    ensures ApplyAll(f, ExpiresMaxAgeAvs(c)) == f.(expires := c.expires, maxAge := c.maxAge)
  {
    ApplyTwo(f, if c.expires.Some? then [ExpiresAv(c.expires.value)] else [],
                if c.maxAge.Some? then [MaxAgeAv(c.maxAge.value)] else []);
  }

  lemma ApplyValuedAttributes(c: HttpCookie, f: Fields)
    requires f.path.None? && f.domain.None? && f.expires.None? && f.maxAge.None?
    ensures ApplyAll(f, ValuedAttributes(c)) ==
            f.(path := c.path, domain := c.domain, expires := c.expires, maxAge := c.maxAge)
  {
    assert ValuedAttributes(c) == PathDomainAvs(c) + ExpiresMaxAgeAvs(c);
    ApplyAllConcat(f, PathDomainAvs(c), ExpiresMaxAgeAvs(c));
    ApplyPathDomain(c, f);
    ApplyExpiresMaxAge(c, f.(path := c.path, domain := c.domain));
  }

  lemma ApplyFlagAttributes(c: HttpCookie, f: Fields)
    requires !f.secure && !f.httpOnly
    ensures ApplyAll(f, FlagAttributes(c)) == f.(secure := c.secure, httpOnly := c.httpOnly)
  {
    var sf := if c.secure then [SecureAv] else [];
    var h := if c.httpOnly then [HttpOnlyAv] else [];
    ApplyAtMostOne(f, sf);
    ApplyAllConcat(f, sf, h);
    ApplyAtMostOne(f.(secure := c.secure), h);
  }

  /** Applying a cookie's attributes to fields that have none sets exactly
      the cookie's attribute fields. */
  lemma ApplyAttributes(c: HttpCookie, f: Fields)
    requires f.path.None? && f.domain.None? && f.expires.None? && f.maxAge.None? && !f.secure && !f.httpOnly
    ensures ApplyAll(f, Attributes(c)) ==
            f.(path := c.path, domain := c.domain, expires := c.expires, maxAge := c.maxAge,
               secure := c.secure, httpOnly := c.httpOnly)
  {
    ApplyAllConcat(f, ValuedAttributes(c), FlagAttributes(c));
    ApplyValuedAttributes(c, f);
    ApplyFlagAttributes(c, f.(path := c.path, domain := c.domain, expires := c.expires, maxAge := c.maxAge));
  }

  /** Every attribute of a serializable cookie is read back unchanged. */
  lemma AttributesReadable(c: HttpCookie, validate: bool, isToken: string -> bool, decode: char -> int)
    requires Serializable(c, validate, isToken)
    ensures forall k :: 0 <= k < |Attributes(c)| ==> AvReadable(Attributes(c)[k], validate)
    ensures |Attributes(c)| == 0 <==>
              c.path.None? && c.domain.None? && c.expires.None? && c.maxAge.None? && !c.secure && !c.httpOnly
  {
  }

  /** Where the name, the value text and the attributes lie in a header. */
  lemma HeaderPieces(s: string, name: string, vt: string, rest: string)
    requires s == name + "=" + vt + rest
    ensures |name| < |s| && s[..|name|] == name && s[|name|] == '='
    ensures s[|name| + 1..|name| + 1 + |vt|] == vt
    ensures s[|name| + 1 + |vt|..] == rest
  {
    assert s[..|name|] == name;
    assert s[|name| + 1..|name| + 1 + |vt|] == vt;
    assert s[|name| + 1 + |vt|..] == rest;
  }

  /** The fields once the name and the value are read. */
  function ValueFields(c: HttpCookie): Fields {
    NoFields.(name := Some(c.name), value := Some(c.value), wrapped := c.wrapped)
  }

  /** The fields a parse of a serialized cookie ends with give the cookie back. */
  lemma BuildFields(c: HttpCookie)
    ensures Build(ApplyAll(ValueFields(c), Attributes(c))) == Success(c)
  {
    ApplyAttributes(c, ValueFields(c));
  }

  /** What the header's text must hold for the parse to read a name, a value
      and attributes back. */
  ghost predicate Readable(validate: bool, isToken: string -> bool, decode: char -> int, name: string, v: string, avs: seq<Attribute>) {
    && |name| > 0 && PlainText(name, validate) && (validate ==> isToken(name))
    && PlainText(v, validate)
    && forall k :: 0 <= k < |avs| ==> AvReadable(avs[k], validate)
  }

  /** From the first character of an unquoted value: the value and then the
      attributes are read. */
  lemma ScanPlainTail(s: string, validate: bool, isToken: string -> bool, decode: char -> int, sc: Scanner, v: string, e: nat,
                      avs: seq<Attribute>, f: Fields)
    requires NameKnown(s, validate, isToken, sc)
    requires sc.state == ParsingValue && sc.begin == sc.i && sc.fields.name.Some?
    requires PlainText(v, validate) && (|avs| == 0 ==> |v| > 0)
    requires forall k :: 0 <= k < |avs| ==> AvReadable(avs[k], validate)
    requires e == sc.i + |v| <= |s| && s[sc.i..e] == v && s[e..] == AvsText(avs)
    requires f == sc.fields.(value := Some(v))
    ensures ParseFields(s, validate, isToken, decode, sc) == Success(ApplyAll(f, avs))
  {
    if |avs| > 0 {
      AvsTextPieces(s, e, avs, e + 2 + |AvText(avs[0])|);
    }
    ScanPlainValue(s, validate, isToken, decode, sc, v, e);
    if |avs| > 0 {
      ScanAttributes(s, validate, isToken, decode, Scanner(f, Unknown, e + 2, e + 2), e, avs);
    }
  }

  /** The parse of "name=v" followed by the attributes. */
  lemma ParseUnquoted(s: string, validate: bool, isToken: string -> bool, decode: char -> int, name: string, v: string, avs: seq<Attribute>,
                      sc: Scanner, e: nat, f: Fields)
    requires Readable(validate, isToken, decode, name, v, avs) && (|avs| == 0 ==> |v| > 0)
    requires |name| < |s| && s[..|name|] == name && s[|name|] == '='
    requires e == |name| + 1 + |v| <= |s| && s[|name| + 1..e] == v && s[e..] == AvsText(avs)
    requires sc == Scanner(NoFields.(name := Some(name)), ParsingValue, |name| + 1, |name| + 1)
    requires f == NoFields.(name := Some(name), value := Some(v))
    ensures ParseFields(s, validate, isToken, decode, Start) == Success(ApplyAll(f, avs))
  {
    ScanName(s, validate, isToken, decode, name, sc);
    ScanPlainTail(s, validate, isToken, decode, sc, v, e, avs, f);
    ScanNameThen(s, validate, isToken, decode, name, sc, Success(ApplyAll(f, avs)));
  }

  /** What the scan needs at the opening quote of a non-empty value that is
      followed by attributes. */
  ghost predicate QuotedTailReady(s: string, validate: bool, isToken: string -> bool, decode: char -> int, sc: Scanner, v: string, e: nat,
                                  avs: seq<Attribute>, f: Fields) {
    && NameKnown(s, validate, isToken, sc)
    && sc.state == ParsingValue && sc.begin == sc.i && !sc.fields.wrapped && sc.fields.name.Some?
    && |v| > 0 && PlainText(v, validate)
    && |avs| > 0 && (forall k :: 0 <= k < |avs| ==> AvReadable(avs[k], validate))
    && e == sc.i + 2 + |v| && e <= |s| && s[sc.i..e] == Quoted(v) && s[e..] == AvsText(avs)
    && f == sc.fields.(wrapped := true).(value := Some(v))
  }

  /** From the opening quote of a non-empty value: the quoted value and then
      the attributes are read. */
  lemma ScanQuotedTail(s: string, validate: bool, isToken: string -> bool, decode: char -> int, sc: Scanner, v: string, e: nat,
                       avs: seq<Attribute>, f: Fields)
    requires QuotedTailReady(s, validate, isToken, decode, sc, v, e, avs, f)
    ensures ParseFields(s, validate, isToken, decode, sc) == Success(ApplyAll(f, avs))
  {
    ScanQuotedValue(s, validate, isToken, decode, sc, v, e, f);
    ScanAttributes(s, validate, isToken, decode, Scanner(f, Unknown, e + 2, e + 3), e, avs);
  }

  /** After the name of a quoted header, the value and the attributes are read. */
  lemma QuotedHeader(s: string, validate: bool, isToken: string -> bool, decode: char -> int, name: string, v: string, avs: seq<Attribute>,
                     sc: Scanner, e: nat, f: Fields)
    requires Readable(validate, isToken, decode, name, v, avs) && |v| > 0 && |avs| > 0
    requires |name| < |s| && s[..|name|] == name && s[|name|] == '='
    requires e == |name| + 3 + |v| <= |s| && s[|name| + 1..e] == Quoted(v) && s[e..] == AvsText(avs)
    requires sc == Scanner(NoFields.(name := Some(name)), ParsingValue, |name| + 1, |name| + 1)
    requires f == NoFields.(name := Some(name), value := Some(v), wrapped := true)
    ensures NameKnown(s, validate, isToken, sc)
    ensures ParseFields(s, validate, isToken, decode, sc) == Success(ApplyAll(f, avs))
  {
    assert QuotedTailReady(s, validate, isToken, decode, sc, v, e, avs, f);
    ScanQuotedTail(s, validate, isToken, decode, sc, v, e, avs, f);
  }

  /** The parse of a value in quotes followed by at least one attribute. */
  lemma ParseQuoted(s: string, validate: bool, isToken: string -> bool, decode: char -> int, name: string, v: string, avs: seq<Attribute>,
                    sc: Scanner, e: nat, f: Fields)
    requires Readable(validate, isToken, decode, name, v, avs) && |v| > 0 && |avs| > 0
    requires |name| < |s| && s[..|name|] == name && s[|name|] == '='
    requires e == |name| + 3 + |v| <= |s| && s[|name| + 1..e] == Quoted(v) && s[e..] == AvsText(avs)
    requires sc == Scanner(NoFields.(name := Some(name)), ParsingValue, |name| + 1, |name| + 1)
    requires f == NoFields.(name := Some(name), value := Some(v), wrapped := true)
    ensures ParseFields(s, validate, isToken, decode, Start) == Success(ApplyAll(f, avs))
  {
    QuotedHeader(s, validate, isToken, decode, name, v, avs, sc, e, f);
    ScanNameThen(s, validate, isToken, decode, name, sc, Success(ApplyAll(f, avs)));
  }

  lemma ParseFieldsUnquoted(c: HttpCookie, validate: bool, isToken: string -> bool, decode: char -> int)
    requires Serializable(c, validate, isToken) && !c.wrapped
    ensures ParseFields(Serialize(c), validate, isToken, decode, Start) == Success(ApplyAll(ValueFields(c), Attributes(c)))
  {
    var s := Serialize(c);
    var avs := Attributes(c);
    var e := |c.name| + 1 + |c.value|;
    HeaderPieces(s, c.name, c.value, AvsText(avs));
    AttributesReadable(c, validate, isToken, decode);
    var sc := Scanner(NoFields.(name := Some(c.name)), ParsingValue, |c.name| + 1, |c.name| + 1);
    ParseUnquoted(s, validate, isToken, decode, c.name, c.value, avs, sc, e, ValueFields(c));
  }

  lemma ParseFieldsQuoted(c: HttpCookie, validate: bool, isToken: string -> bool, decode: char -> int)
    requires Serializable(c, validate, isToken) && c.wrapped
    ensures ParseFields(Serialize(c), validate, isToken, decode, Start) == Success(ApplyAll(ValueFields(c), Attributes(c)))
  {
    var s := Serialize(c);
    var avs := Attributes(c);
    var v := c.value;
    var e := |c.name| + 1 + |Quoted(v)|;
    HeaderPieces(s, c.name, Quoted(v), AvsText(avs));
    AttributesReadable(c, validate, isToken, decode);
    var sc := Scanner(NoFields.(name := Some(c.name)), ParsingValue, |c.name| + 1, |c.name| + 1);
    ParseQuoted(s, validate, isToken, decode, c.name, v, avs, sc, e, ValueFields(c));
  }

  /** Parsing the serialization of a serializable cookie gives the cookie
      back, with or without validation, whatever digit decoder checks the
      escapes: the serialization contains no '%'. */
  lemma ParseSerializeWith(c: HttpCookie, validate: bool, isToken: string -> bool, decode: char -> int)
    requires Serializable(c, validate, isToken)
    ensures ParseCookieWith(Serialize(c), validate, isToken, decode) == Success(c)
  {
    if c.wrapped {
      ParseFieldsQuoted(c, validate, isToken, decode);
    } else {
      ParseFieldsUnquoted(c, validate, isToken, decode);
    }
    BuildFields(c);
  }

  /** The round trip through the parser as written and through the corrected one. */
  lemma ParseSerialize(c: HttpCookie, validate: bool, isToken: string -> bool)
    requires Serializable(c, validate, isToken)
    ensures ParseCookie(Serialize(c), validate, isToken) == Success(c)
    ensures ParseCookieCorrected(Serialize(c), validate, isToken) == Success(c)
  {
    ParseSerializeWith(c, validate, isToken, HexToDecimalAsWritten);
    ParseSerializeWith(c, validate, isToken, HexToDecimal);
  }
}
