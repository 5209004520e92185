/** Semantic versions as the fix selector reads, renders and orders them:
    `parseVersion` (a `strings.TrimPrefix` of one "v" followed by
    `fmt.Sscanf(s, "%d.%d.%d", ...)`), the decimal rendering of `%d`, and the
    subtraction-based `compareSemver`. */
module Semver {
  import opened Wrappers
  import opened Strings

  /** A parsed version triple. The scanner below reads digit strings only, so
      every component is a natural number. */
  datatype Version = Version(major: nat, minor: nat, patch: nat)

  /** The zero value `[3]int{}` that `parseVersion` returns with an error. */
  const Zero := Version(0, 0, 0)

  predicate IsDigit(c: char) {
    '0' <= c <= '9'
  }

  /** A non-empty run of decimal digits. */
  predicate Digits(d: string) {
    |d| > 0 && forall i :: 0 <= i < |d| ==> IsDigit(d[i])
  }

  function DigitValue(c: char): nat
    requires IsDigit(c)
  {
    c as int - '0' as int
  }

  function DigitChar(d: nat): (c: char)
    requires d < 10
    ensures IsDigit(c) && DigitValue(c) == d
  {
    ('0' as int + d) as char
  }

  /** The value of a string of decimal digits, most significant digit first
      (what `strconv.ParseInt(tok, 10, 64)` computes, without its 64-bit range check). */
  function DecimalValue(d: string): nat
    requires forall i :: 0 <= i < |d| ==> IsDigit(d[i])
  {
    if d == [] then 0 else 10 * DecimalValue(d[..|d| - 1]) + DigitValue(d[|d| - 1])
  }

  /** The text `%d` prints for a non-negative integer: its decimal digits, with
      no leading zero. Reading it back gives the number again. */
  function DecimalString(n: nat): (d: string)
    ensures Digits(d)
    ensures DecimalValue(d) == n
    ensures d[0] == '0' ==> n == 0 && d == "0"
    decreases n
  {
    if n < 10 then [DigitChar(n)]
    else
      var init := DecimalString(n / 10);
      var d := init + [DigitChar(n % 10)];
      assert d[..|d| - 1] == init;
      d
  }

  /** The number of decimal digits at the front of `s`. */
  function LeadingDigits(s: string): (n: nat)
    ensures n <= |s|
    ensures forall i :: 0 <= i < n ==> IsDigit(s[i])
    ensures n < |s| ==> !IsDigit(s[n])
  {
    if s != [] && IsDigit(s[0]) then 1 + LeadingDigits(s[1..]) else 0
  }

  /** Any prefix of digits followed by a non-digit (or the end) is the one
      `LeadingDigits` measures. */
  lemma {:induction false} LeadingDigitsOf(s: string, n: nat)
    requires n <= |s|
    requires forall i :: 0 <= i < n ==> IsDigit(s[i])
    requires n < |s| ==> !IsDigit(s[n])
    ensures LeadingDigits(s) == n
  {
    if n > 0 {
      assert IsDigit(s[0]);
      LeadingDigitsOf(s[1..], n - 1);
    }
  }

  /** Text that can follow a number `%d` has read: the end of the input, or a
      character that is not a decimal digit. `%d` takes only the digits 0-9
      into its token ('_' separators are accepted by `%v` alone). */
  predicate NumberEnd(rest: string) {
    rest == [] || !IsDigit(rest[0])
  }

  /** What a successful `%d` conversion consumed: a maximal run of digits. */
  lemma ScanIntSplit(s: string)
    requires ScanInt(s).Some?
    ensures var n := LeadingDigits(s);
      && Digits(s[..n])
      && s == s[..n] + ScanInt(s).value.1
      && ScanInt(s).value.1 == s[n..]
      && ScanInt(s).value.0 == DecimalValue(s[..n])
      && NumberEnd(s[n..])
  {
    var n := LeadingDigits(s);
    assert s == s[..n] + s[n..];
  }

  /** One `%d` conversion, restricted to unsigned numbers: at least one
      decimal digit and every digit that follows; the unread rest of the input
      is returned with the value. */
  function ScanInt(s: string): Option<(nat, string)>
  {
    var n := LeadingDigits(s);
    if n == 0 then None else Some((DecimalValue(s[..n]), s[n..]))
  }

  /** A `%d` conversion succeeds exactly when the input starts with a digit.
      It then has consumed a run of digits that the rest does not continue,
      and returns that run's decimal value. */
  lemma ScanIntConsumes(s: string)
    ensures ScanInt(s).Some? <==> s != [] && IsDigit(s[0])
    ensures ScanInt(s).Some? ==>
      var rest := ScanInt(s).value.1;
      var d := s[..|s| - |rest|];
      && |rest| < |s|
      && Digits(d)
      && s == d + rest
      && NumberEnd(rest)
      && ScanInt(s).value.0 == DecimalValue(d)
  {
    if ScanInt(s).Some? {
      ScanIntSplit(s);
    }
  }

  /** A literal character of the format string, which must match the next input character. */
  function ScanLiteral(c: char, s: string): Option<string>
  {
    if s != [] && s[0] == c then Some(s[1..]) else None
  }

  /** The format's "." followed by the next `%d`. */
  function ScanDotInt(s: string): Option<(nat, string)>
  {
    var s1 :- ScanLiteral('.', s);
    ScanInt(s1)
  }

  /** `fmt.Sscanf(s, "%d.%d.%d", &major, &minor, &patch)` folded with the test
      `err != nil || n != 3`: Some exactly when all three conversions were made.
      The scanner reads the character after the third integer only to end
      that integer; what follows is not checked. */
  function ScanTriple(s: string): Option<Version>
  {
    var first :- ScanInt(s);
    var second :- ScanDotInt(first.1);
    var third :- ScanDotInt(second.1);
    Some(Version(first.0, second.0, third.0))
  }

  /** Go's pair `([3]int, error)` returned by `parseVersion`. */
  datatype Parsed = Parsed(version: Version, err: Option<string>)

  /** `parseVersion`: strip at most one leading "v", then scan three
      dot-separated decimal integers. On failure the zero triple comes back
      with the error "invalid semver: " and the stripped text. */
  function ParseVersion(s: string): (r: Parsed)
    ensures r.err.Some? ==> r.version == Zero
    ensures r.err.Some? ==> r.err.value == "invalid semver: " + TrimPrefix(s, "v")
  {
    var t := TrimPrefix(s, "v");
    match ScanTriple(t)
    case Some(v) => Parsed(v, None)
    case None => Parsed(Zero, Some("invalid semver: " + t))
  }

  /** The shape `parseVersion` accepts once the "v" is gone: three digit
      strings separated by dots, then any text that does not continue the
      third number. */
  predicate VersionText(t: string, x: string, y: string, z: string, rest: string) {
    && Digits(x) && Digits(y) && Digits(z)
    && NumberEnd(rest)
    && t == x + "." + y + "." + z + rest
  }

  lemma ScanIntDigits(x: string, rest: string)
    requires Digits(x)
    requires NumberEnd(rest)
    ensures ScanInt(x + rest) == Some((DecimalValue(x), rest))
  {
    var s := x + rest;
    assert s[..|x|] == x;
    assert s[|x|..] == rest;
    LeadingDigitsOf(s, |x|);
  }

  /** The left-nested concatenation written in contracts is the right-nested
      one the scanner takes apart. */
  lemma Regroup(x: string, y: string, z: string, rest: string)
    ensures x + "." + y + "." + z + rest == x + ("." + (y + ("." + (z + rest))))
  {
  }

  lemma ScanDotIntDigits(y: string, rest: string)
    requires Digits(y)
    requires NumberEnd(rest)
    ensures ScanDotInt("." + (y + rest)) == Some((DecimalValue(y), rest))
  {
    assert ("." + (y + rest))[1..] == y + rest;
    ScanIntDigits(y, rest);
  }

  /** Three conversions succeed on text of the accepted shape and return
      the values of its three digit strings. */
  lemma ScanTripleOf(x: string, y: string, z: string, rest: string)
    requires VersionText(x + "." + y + "." + z + rest, x, y, z, rest)
    ensures ScanTriple(x + "." + y + "." + z + rest)
         == Some(Version(DecimalValue(x), DecimalValue(y), DecimalValue(z)))
  {
    var s2 := "." + (z + rest);
    var s1 := "." + (y + s2);
    Regroup(x, y, z, rest);
    ScanIntDigits(x, s1);
    ScanDotIntDigits(y, s2);
    ScanDotIntDigits(z, rest);
  }

  /** `parseVersion` succeeds exactly on the text of `VersionText` (after one
      "v" is stripped), and then returns the three numbers it spells. */
  lemma ParseVersionAccepts(s: string, x: string, y: string, z: string, rest: string)
    requires VersionText(TrimPrefix(s, "v"), x, y, z, rest)
    ensures ParseVersion(s) == Parsed(Version(DecimalValue(x), DecimalValue(y), DecimalValue(z)), None)
  {
    ScanTripleOf(x, y, z, rest);
  }

  /** A version text put together from the pieces the scanner consumed. */
  lemma JoinVersion(t: string, x: string, y: string, z: string, rest: string)
    requires Digits(x) && Digits(y) && Digits(z) && NumberEnd(rest)
    requires t == x + ("." + (y + ("." + (z + rest))))
    ensures VersionText(t, x, y, z, rest)
  {
    Regroup(x, y, z, rest);
  }

  /** What the scanner consumed for ".%d": a dot and a maximal run of digits. */
  lemma ScanDotIntSplit(s: string) returns (y: string)
    requires ScanDotInt(s).Some?
    ensures Digits(y)
    ensures s == "." + (y + ScanDotInt(s).value.1)
    ensures NumberEnd(ScanDotInt(s).value.1)
  {
    var s1 := s[1..];
    ScanIntSplit(s1);
    y := s1[..LeadingDigits(s1)];
  }

  /** What three successful conversions consumed: text of the accepted
      shape, whose three digit strings are the numbers returned. */
  lemma ScanTripleShape(t: string)
    requires ScanTriple(t).Some?
    ensures exists x, y, z, rest :: VersionText(t, x, y, z, rest)
              && ScanTriple(t).value == Version(DecimalValue(x), DecimalValue(y), DecimalValue(z))
  {
    ScanIntSplit(t);
    var x, s2 := t[..LeadingDigits(t)], ScanInt(t).value.1;
    var y := ScanDotIntSplit(s2);
    var s4 := ScanDotInt(s2).value.1;
    var z := ScanDotIntSplit(s4);
    var rest := ScanDotInt(s4).value.1;
    JoinVersion(t, x, y, z, rest);
    assert VersionText(t, x, y, z, rest);
    ScanTripleOf(x, y, z, rest);
  }

  lemma ParseVersionSucceedsIff(s: string)
    ensures ParseVersion(s).err.None?
        <==> exists x, y, z, rest :: VersionText(TrimPrefix(s, "v"), x, y, z, rest)
  {
    var t := TrimPrefix(s, "v");
    if ScanTriple(t).Some? {
      ScanTripleShape(t);
    }
    if exists x, y, z, rest :: VersionText(t, x, y, z, rest) {
      var x, y, z, rest :| VersionText(t, x, y, z, rest);
      ParseVersionAccepts(s, x, y, z, rest);
    }
  }

  /** Only one "v" is stripped: prefixing a "v" to text that does not already
      start with one does not change what `parseVersion` reads. */
  lemma ParseVersionOptionalV(t: string)
    requires t == [] || t[0] != 'v'
    ensures ParseVersion("v" + t) == ParseVersion(t)
  {
    assert ("v" + t)[..1] == "v";
    assert ("v" + t)[1..] == t;
    assert !HasPrefix(t, "v") by {
      if |t| >= 1 { assert t[..1][0] == t[0]; }
    }
  }

  lemma VPrefix(x: string, y: string, z: string, rest: string)
    ensures "v" + x + "." + y + "." + z + rest == "v" + (x + "." + y + "." + z + rest)
  {
  }

  /** Both spellings of a canonical version parse to the triple they print,
      and so does any text that continues with something other than a digit
      (`1.2.3.4` and `0.1.0-foo` are accepted). */
  lemma ParseVersionRoundTrip(a: nat, b: nat, c: nat, rest: string)
    requires NumberEnd(rest)
    ensures ParseVersion(DecimalString(a) + "." + DecimalString(b) + "." + DecimalString(c) + rest)
         == Parsed(Version(a, b, c), None)
    ensures ParseVersion("v" + DecimalString(a) + "." + DecimalString(b) + "." + DecimalString(c) + rest)
         == Parsed(Version(a, b, c), None)
  {
    var x, y, z := DecimalString(a), DecimalString(b), DecimalString(c);
    var t := x + "." + y + "." + z + rest;
    assert t[0] == x[0];
    assert !HasPrefix(t, "v") by { assert t[..1][0] == t[0]; }
    assert VersionText(TrimPrefix(t, "v"), x, y, z, rest);
    ParseVersionAccepts(t, x, y, z, rest);
    ParseVersionOptionalV(t);
    VPrefix(x, y, z, rest);
  }

  /** Inputs `parseVersion` turns down: the empty string and text that does
      not start with a digit once the "v" is gone, ... */
  lemma ParseVersionRejectsNoDigits()
    ensures ParseVersion("").err.Some?
    ensures ParseVersion("abc").err.Some?
    ensures ParseVersion("vv1.2.3").err.Some?
  {
    assert TrimPrefix("vv1.2.3", "v") == "v1.2.3" by { assert "vv1.2.3"[..1] == "v"; }
  }

  /** ... fewer than three integers, ... */
  lemma ParseVersionRejectsTwoParts()
    ensures ParseVersion("v1.2").err.Some?
  {
    var t := "1.2";
    assert TrimPrefix("v1.2", "v") == t by { assert "v1.2"[..1] == "v"; }
    LeadingDigitsOf(t, 1);
    assert t[1..] == ".2" && t[..1] == "1";
    assert ".2"[1..] == "2";
    LeadingDigitsOf("2", 1);
    assert "2"[1..] == "";
  }

  /** ... and a non-numeric component. */
  lemma ParseVersionRejectsLetter()
    ensures ParseVersion("1.2.x").err.Some?
  {
    var t := "1.2.x";
    assert TrimPrefix(t, "v") == t by { assert t[..1][0] == '1'; }
    LeadingDigitsOf(t, 1);
    assert t[1..] == ".2.x" && t[..1] == "1";
    assert ".2.x"[1..] == "2.x";
    LeadingDigitsOf("2.x", 1);
    assert "2.x"[1..] == ".x" && "2.x"[..1] == "2";
    assert ".x"[1..] == "x";
  }

  /** `%d` stops at a '_' as at any other non-digit, so "1.2.3_x" reads as
      1.2.3 just as "1.2.3-x" does. */
  lemma ParseVersionAcceptsUnderscore()
    ensures ParseVersion("1.2.3_x") == Parsed(Version(1, 2, 3), None)
  {
    var t := "1.2.3_x";
    assert TrimPrefix(t, "v") == t by { assert t[..1][0] == '1'; }
    LeadingDigitsOf(t, 1);
    assert t[1..] == ".2.3_x" && t[..1] == "1";
    assert ".2.3_x"[1..] == "2.3_x";
    LeadingDigitsOf("2.3_x", 1);
    assert "2.3_x"[1..] == ".3_x" && "2.3_x"[..1] == "2";
    assert ".3_x"[1..] == "3_x";
    LeadingDigitsOf("3_x", 1);
    assert "3_x"[..1] == "3" && "3_x"[1..] == "_x";
  }

  /** The order `compareSemver` is meant to reflect: lexicographic on
      (major, minor, patch). */
  predicate Precedes(aMaj: int, aMin: int, aPat: int, bMaj: int, bMin: int, bPat: int) {
    aMaj < bMaj || (aMaj == bMaj && (aMin < bMin || (aMin == bMin && aPat < bPat)))
  }

  /** `compareSemver`: the difference of the first components that differ,
      patch last. Only the sign is meaningful: zero exactly on equal triples,
      negative exactly when the first triple precedes the second. */
  function CompareSemver(aMaj: int, aMin: int, aPat: int, bMaj: int, bMin: int, bPat: int): (r: int)
    ensures r == 0 <==> aMaj == bMaj && aMin == bMin && aPat == bPat
    ensures r < 0 <==> Precedes(aMaj, aMin, aPat, bMaj, bMin, bPat)
    ensures r > 0 <==> Precedes(bMaj, bMin, bPat, aMaj, aMin, aPat)
  {
    if aMaj != bMaj then aMaj - bMaj
    else if aMin != bMin then aMin - bMin
    else aPat - bPat
  }

  /** Version `a` comes before version `b`. */
  predicate Less(a: Version, b: Version) {
    Precedes(a.major, a.minor, a.patch, b.major, b.minor, b.patch)
  }

  function Compare(a: Version, b: Version): int {
    CompareSemver(a.major, a.minor, a.patch, b.major, b.minor, b.patch)
  }

  function Sign(x: int): int {
    if x < 0 then -1 else if x > 0 then 1 else 0
  }

  /** Swapping the arguments negates the sign of the comparison. */
  lemma CompareAntisymmetric(a: Version, b: Version)
    ensures Sign(Compare(a, b)) == -Sign(Compare(b, a))
  {
  }

  /** `Less` is a strict total order on versions: irreflexive, transitive and
      trichotomous. */
  lemma LessIsStrictTotalOrder(a: Version, b: Version, c: Version)
    ensures !Less(a, a)
    ensures Less(a, b) && Less(b, c) ==> Less(a, c)
    ensures Less(a, b) || a == b || Less(b, a)
    ensures !(Less(a, b) && Less(b, a))
  {
  }
}
