/**
 * The `URL` value object: an address that starts with "http://" or "https://",
 * fixed at construction, with value equality over the address string.
 */
module UrlValue {
  import opened Wrappers

  const HttpPrefix := "http://"
  const HttpsPrefix := "https://"

  /** Ordinal prefix test (the C# code calls the culture-sensitive `StartsWith`). */
  predicate StartsWith(s: string, prefix: string) {
    |prefix| <= |s| && s[..|prefix|] == prefix
  }

  predicate IsHttpAddress(s: string) {
    StartsWith(s, HttpPrefix) || StartsWith(s, HttpsPrefix)
  }

  /** The private field `url` of an instance. */
  datatype Url = Url(address: string)

  /** Every constructed instance holds a valid address: the constructor is the only way in. */
  type ValidUrl = u: Url | IsHttpAddress(u.address) witness Url(HttpPrefix)

  /** A C# `object`: null, a `URL`, or an instance of any other class. */
  datatype Object = NullRef | UrlRef(url: ValidUrl) | OtherRef(id: nat)

  /** 32-bit signed integer, the range of `GetHashCode`. */
  newtype Int32 = x: int | -0x8000_0000 <= x < 0x8000_0000

  /** `new URL(url)`: accepts exactly the http(s) addresses and keeps them unchanged. */
  function Create(address: string): (r: Result<ValidUrl, Exception>)
    ensures r.Success? <==> IsHttpAddress(address)
    ensures r.Success? ==> r.value.address == address
    ensures r.Failure? ==> r.error == ArgumentException("url")
  {
    if !StartsWith(address, HttpPrefix) && !StartsWith(address, HttpsPrefix) then
      Failure(ArgumentException("url"))
    else
      Success(Url(address))
  }

  /** The `Address` property. */
  function Address(self: ValidUrl): (a: string)
    ensures IsHttpAddress(a)
    ensures Create(a) == Success(self)
  {
    self.address
  }

  /** Construction succeeds exactly on http(s) addresses, and `Address` gives back the input. */
  lemma CreateThenAddress(address: string)
    ensures IsHttpAddress(address) ==> Create(address).Success? && Address(Create(address).value) == address
    ensures !IsHttpAddress(address) ==> Create(address) == Failure(ArgumentException("url"))
    ensures StartsWith(address, HttpsPrefix) ==> Create(address).Success?
  {
  }

  /** Only an address of the form "http://..." or "https://..." is accepted; for instance "ftp://x" is not. */
  lemma CreateRejectsOtherSchemes()
    ensures Create("ftp://x").Failure?
    ensures Create("HTTP://x").Failure?
    ensures Create("https://x") == Success(Url("https://x"))
  {
    assert "ftp://x"[..|HttpPrefix|][0] != HttpPrefix[0];
    assert "HTTP://x"[..|HttpPrefix|][0] != HttpPrefix[0];
    assert "HTTP://x"[..|HttpsPrefix|] != HttpsPrefix;
    assert "https://x"[..|HttpsPrefix|] == HttpsPrefix;
  }

  /** `Equals(URL other)`: false for null, otherwise ordinal equality of the addresses. */
  function Equals(self: ValidUrl, other: Option<ValidUrl>): (r: bool)
    ensures r <==> other == Some(self)
  {
    if other.None? then false else self.address == other.value.address
  }

  /**
   * `Equals(object obj)`: a `URL` argument goes to `Equals(URL)`; anything else falls back to
   * reference equality, which an object that is not a `URL` (or null) never satisfies.
   */
  function EqualsObject(self: ValidUrl, obj: Object): (r: bool)
    ensures r <==> obj == UrlRef(self)
  {
    match obj
    case UrlRef(u) => Equals(self, Some(u))
    case NullRef => false
    case OtherRef(_) => false
  }

  /** `operator ==(a, b)` is `a.Equals(b)`, so a null left operand throws. */
  function OpEquals(a: Option<ValidUrl>, b: Option<ValidUrl>): (r: Result<bool, Exception>)
    ensures a.None? <==> r == Failure(NullReferenceException)
    ensures a.Some? ==> r == Success(a == b)
  {
    if a.None? then Failure(NullReferenceException) else Success(Equals(a.value, b))
  }

  /** `operator !=(a, b)` is `!a.Equals(b)`. */
  function OpNotEquals(a: Option<ValidUrl>, b: Option<ValidUrl>): (r: Result<bool, Exception>)
    ensures a.None? <==> r == Failure(NullReferenceException)
    ensures a.Some? ==> r == Success(a != b)
  {
    if a.None? then Failure(NullReferenceException) else Success(!Equals(a.value, b))
  }

  /** `!=` is the negation of `==`, including the exception on a null left operand. */
  lemma NotEqualsIsNegation(a: Option<ValidUrl>, b: Option<ValidUrl>)
    ensures OpEquals(a, b).Failure? <==> OpNotEquals(a, b).Failure?
    ensures OpEquals(a, b).Success? ==> OpNotEquals(a, b) == Success(!OpEquals(a, b).value)
  {
  }

  /** `Equals` is an equivalence on non-null instances. */
  lemma EqualsIsEquivalence(x: ValidUrl, y: ValidUrl, z: ValidUrl)
    ensures Equals(x, Some(x))
    ensures Equals(x, Some(y)) <==> Equals(y, Some(x))
    ensures Equals(x, Some(y)) && Equals(y, Some(z)) ==> Equals(x, Some(z))
    ensures !Equals(x, None)
  {
  }

  /**
   * `GetHashCode` delegates to the string hash of the address; `stringHash` stands for
   * `string.GetHashCode`, whose values are not modelled.
   */
  function HashCode(self: ValidUrl, stringHash: string -> Int32): (h: Int32)
    ensures forall other: ValidUrl :: Equals(self, Some(other)) ==> h == stringHash(Address(other))
  {
    stringHash(self.address)
  }

  /** Equal instances have equal hash codes, whatever the string hash is. */
  lemma EqualUrlsHaveEqualHashCodes(x: ValidUrl, y: ValidUrl, stringHash: string -> Int32)
    requires Equals(x, Some(y))
    ensures HashCode(x, stringHash) == HashCode(y, stringHash)
  {
  }

  /** `ToString`: the address wrapped as "URL [<address>]". */
  function ToString(self: ValidUrl): (s: string)
    ensures |s| == |self.address| + 6
    ensures s[..5] == "URL [" && s[|s| - 1] == ']'
    ensures s[5..|s| - 1] == self.address
  {
    "URL [" + self.address + "]"
  }

  /** Distinct addresses render differently, so the rendering identifies the instance. */
  lemma ToStringIsInjective(x: ValidUrl, y: ValidUrl)
    ensures ToString(x) == ToString(y) <==> Equals(x, Some(y))
  {
    if ToString(x) == ToString(y) {
      var s := ToString(x);
      assert x.address == s[5..|s| - 1] == y.address;
    }
  }
}
