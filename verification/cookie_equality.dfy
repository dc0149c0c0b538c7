/** DefaultHttpCookie.equals and hashCode: two cookies are equal when their
    names and domains agree ignoring ASCII case and their paths agree exactly;
    the hash mixes the same three components with Java int arithmetic. */
module CookieEquality {
  import opened Wrappers
  import opened Ascii
  import opened CookieParser

  const TwoTo31: int := 0x8000_0000
  const TwoTo32: int := 0x1_0000_0000

  predicate IsInt32(x: int) {
    -TwoTo31 <= x < TwoTo31
  }

  /** Java int arithmetic: the signed 32-bit value congruent to `x`. */
  function Wrap32(x: int): (r: int)
    ensures IsInt32(r)
    ensures IsInt32(x) ==> r == x
    ensures (x - r) % TwoTo32 == 0
  {
    var m := (x + TwoTo31) % TwoTo32;
    assert x + TwoTo31 == (x + TwoTo31) / TwoTo32 * TwoTo32 + m;
    m - TwoTo31
  }

  /** String.hashCode: h = 31 * h + c over the characters, in int arithmetic. */
  function StringHash(s: string): (r: int)
    ensures IsInt32(r)
  {
    if |s| == 0 then 0 else Wrap32(31 * StringHash(s[..|s| - 1]) + s[|s| - 1] as int)
  }

  /** A case-insensitive hash: one that gives texts equal ignoring case equal
      hashes. */
  ghost predicate RespectsIgnoreCase(ciHash: string -> int) {
    forall x: string, y: string :: EqualsIgnoreCase(x, y) ==> ciHash(x) == ciHash(y)
  }

  /** One case-insensitive hash: the string hash of the folded text. */
  function FoldedHash(s: string): (r: int)
    ensures IsInt32(r)
  {
    StringHash(Fold(s))
  }

  lemma FoldedHashRespectsIgnoreCase()
    ensures RespectsIgnoreCase(FoldedHash)
  {
    forall x: string, y: string | EqualsIgnoreCase(x, y) ensures FoldedHash(x) == FoldedHash(y) {
      EqualsIgnoreCaseFold(x, y);
    }
  }

  /** equals: name and domain compared ignoring case (two null domains are
      equal, a null and a non-null one are not), path compared exactly. The
      contract states it through the folded texts. */
  function Equals(a: HttpCookie, b: HttpCookie): (r: bool)
    ensures r <==> Fold(a.name) == Fold(b.name) && a.path == b.path
                   && a.domain.Some? == b.domain.Some?
                   && (a.domain.Some? ==> Fold(a.domain.value) == Fold(b.domain.value))
  {
    EqualsIgnoreCaseFold(a.name, b.name);
    OptionEqualsIgnoreCaseFold(a.domain, b.domain);
    EqualsIgnoreCase(a.name, b.name) && OptionEqualsIgnoreCase(a.domain, b.domain) && a.path == b.path
  }

  /** Two integers that agree modulo 2^32, as Java int arithmetic sees them. */
  predicate Congruent32(x: int, y: int) {
    (x - y) % TwoTo32 == 0
  }

  /** The components of a cookie's hash in the order hashCode mixes them:
      the name's, then the domain's and the path's when present. */
  function HashComponents(c: HttpCookie, ciHash: string -> int, hash: string -> int): seq<int> {
    [ciHash(c.name)]
    + (if c.domain.Some? then [ciHash(c.domain.value)] else [])
    + (if c.path.Some? then [hash(c.path.value)] else [])
  }

  /** The polynomial hash 31^|xs| + sum of xs[k] * 31^(|xs|-1-k), in exact
      integer arithmetic: the value hashCode computes before any overflow. */
  function Polynomial(xs: seq<int>): int {
    if |xs| == 0 then 1 else 31 * Polynomial(xs[..|xs| - 1]) + xs[|xs| - 1]
  }

  /** One mixing step of the hash keeps agreement modulo 2^32 with the
      exact polynomial. */
  lemma MixCongruent(h: int, p: int, x: int)
    requires Congruent32(h, p)
    ensures Congruent32(Wrap32(31 * h + x), 31 * p + x)
  {
    var k := (h - p) / TwoTo32;
    assert h - p == k * TwoTo32;
    var w := Wrap32(31 * h + x);
    var j := (31 * h + x - w) / TwoTo32;
    assert 31 * h + x - w == j * TwoTo32;
    assert w - (31 * p + x) == (31 * k - j) * TwoTo32;
  }

  /** hashCode, with the case-insensitive hash and the path's hash as
      parameters: 31 + hash(name), then 31 * h + hash(domain) and
      31 * h + hash(path) for the components that are present, each step
      reduced to int. The result is the exact polynomial hash of the
      components, reduced to int once. */
  function HashCodeWith(c: HttpCookie, ciHash: string -> int, hash: string -> int): (r: int)
    ensures IsInt32(r)
    ensures Congruent32(r, Polynomial(HashComponents(c, ciHash, hash)))
  {
    var xs := HashComponents(c, ciHash, hash);
    var h0 := Wrap32(31 + ciHash(c.name));
    assert Polynomial(xs[..1]) == 31 + ciHash(c.name) by {
      assert xs[..1][..0] == [];
    }
    MixCongruent(1, 1, ciHash(c.name));
    var h1 := if c.domain.Some? then Wrap32(31 * h0 + ciHash(c.domain.value)) else h0;
    assert Congruent32(h1, Polynomial(xs[..|xs| - (if c.path.Some? then 1 else 0)])) by {
      if c.domain.Some? {
        assert xs[..2][..1] == xs[..1];
        MixCongruent(h0, Polynomial(xs[..1]), ciHash(c.domain.value));
      }
    }
    if c.path.Some? then
      MixCongruent(h1, Polynomial(xs[..|xs| - 1]), hash(c.path.value));
      Wrap32(31 * h1 + hash(c.path.value))
    else
      assert xs[..|xs|] == xs;
      h1
  }

  /** hashCode with the folded string hash for names and domains and the
      string hash for paths. */
  function HashCode(c: HttpCookie): (r: int)
    ensures IsInt32(r)
    ensures Congruent32(r, Polynomial(HashComponents(c, FoldedHash, StringHash)))
  {
    HashCodeWith(c, FoldedHash, StringHash)
  }

  /** Equal cookies have equal hashes, for any case-insensitive hash. */
  lemma HashCodeWithConsistent(a: HttpCookie, b: HttpCookie, ciHash: string -> int, hash: string -> int)
    requires RespectsIgnoreCase(ciHash)
    requires Equals(a, b)
    ensures HashCodeWith(a, ciHash, hash) == HashCodeWith(b, ciHash, hash)
  {
    assert ciHash(a.name) == ciHash(b.name);
    if a.domain.Some? {
      assert ciHash(a.domain.value) == ciHash(b.domain.value);
    }
  }

  lemma HashCodeConsistent(a: HttpCookie, b: HttpCookie)
    requires Equals(a, b)
    ensures HashCode(a) == HashCode(b)
  {
    FoldedHashRespectsIgnoreCase();
    HashCodeWithConsistent(a, b, FoldedHash, StringHash);
  }

  /** equals is an equivalence relation. */
  lemma EqualsIsEquivalence(a: HttpCookie, b: HttpCookie, c: HttpCookie)
    ensures Equals(a, a)
    ensures Equals(a, b) ==> Equals(b, a)
    ensures Equals(a, b) && Equals(b, c) ==> Equals(a, c)
  {
  }

  /** Folding the case of a cookie's name and domain, and changing any field
      equals does not read, leaves it equal to the original with the same
      hash. */
  lemma CaseFoldedCookieEquals(a: HttpCookie, b: HttpCookie)
    requires b.name == Fold(a.name) && b.path == a.path
    requires b.domain == (if a.domain.Some? then Some(Fold(a.domain.value)) else None)
    ensures Equals(a, b) && HashCode(a) == HashCode(b)
  {
    FoldIdempotent(a.name);
    if a.domain.Some? {
      FoldIdempotent(a.domain.value);
    }
    HashCodeConsistent(a, b);
  }

  /** Two cookies that differ only in the case of their path are not equal. */
  lemma PathIsCaseSensitive(a: HttpCookie)
    requires a.path == Some("/A")
    ensures !Equals(a, a.(path := Some("/a")))
  {
  }
}
