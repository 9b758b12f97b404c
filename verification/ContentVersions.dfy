/**
  Content versions: three decimals without bounds, kept and compared as text.
 */
module ContentVersions {
  import opened Bytes
  import opened Decimal

  datatype Version = Version(major: bytes, minor: bytes, patch: bytes)

  /** `ValidComponent`. */
  predicate ValidComponent(c: bytes) {
    |c| > 0 && (|c| == 1 || c[0] != ZERO) && AllDigits(c)
  }

  predicate Valid(v: Version) {
    ValidComponent(v.major) && ValidComponent(v.minor) && ValidComponent(v.patch)
  }

  /** `ParseContentVersion`; None is the EINVAL error. */
  function Parse(text: bytes): Option<Version> {
    match FindByte(text, DOT)
    case None => None
    case Some(first) =>
      var behind := text[first + 1..];
      match FindByte(behind, DOT)
      case None => None
      case Some(second) =>
        var v := Version(text[..first], behind[..second], behind[second + 1..]);
        if FindByte(v.patch, DOT).Some? || !Valid(v) then None else Some(v)
  }

  /** `ContentVersionToString`. */
  function Print(v: Version): bytes {
    v.major + [DOT] + (v.minor + [DOT] + v.patch)
  }

  lemma NoDot(c: bytes)
    requires AllDigits(c)
    ensures DOT !in c
  {
  }

  lemma PrintParse(v: Version)
    requires Valid(v)
    ensures Parse(Print(v)) == Some(v)
  {
    NoDot(v.major);
    NoDot(v.minor);
    NoDot(v.patch);
    var rest := v.minor + [DOT] + v.patch;
    FindByteAt(v.major, DOT, rest);
    FindByteAt(v.minor, DOT, v.patch);
    assert Print(v)[..|v.major|] == v.major && Print(v)[|v.major| + 1..] == rest;
    assert rest[..|v.minor|] == v.minor && rest[|v.minor| + 1..] == v.patch;
  }

  /** The parser accepts exactly three dot-separated decimals without leading
      zeros, and printing and parsing undo each other. */
  lemma ParseExactly(text: bytes, v: Version)
    ensures Parse(text) == Some(v) <==> Valid(v) && text == Print(v)
  {
    hide FindByte;
    hide AllDigits;
    if Parse(text) == Some(v) {
      var first := FindByte(text, DOT).value;
      var behind := text[first + 1..];
      var second := FindByte(behind, DOT).value;
      assert text == text[..first] + [DOT] + behind;
      assert behind == behind[..second] + [DOT] + behind[second + 1..];
    }
    if Valid(v) && text == Print(v) {
      PrintParse(v);
    }
  }

  /** A component is the decimal text of a natural number. */
  lemma ComponentExactly(c: bytes)
    ensures ValidComponent(c) <==> exists n: nat :: c == NatText(n)
  {
    if ValidComponent(c) {
      TextOfValue(c);
    }
    if exists n: nat :: c == NatText(n) {
      var n: nat :| c == NatText(n);
      TextIsCanonical(n);
    }
  }

  function VersionOf(major: nat, minor: nat, patch: nat): Version {
    Version(NatText(major), NatText(minor), NatText(patch))
  }

  function NumberText(major: nat, minor: nat, patch: nat): bytes {
    NatText(major) + Ascii(".") + (NatText(minor) + Ascii(".") + NatText(patch))
  }

  lemma VersionOfText(major: nat, minor: nat, patch: nat)
    ensures Parse(NumberText(major, minor, patch)) == Some(VersionOf(major, minor, patch))
  {
    hide Parse;
    hide NatText;
    TextIsCanonical(major);
    TextIsCanonical(minor);
    TextIsCanonical(patch);
    assert Ascii(".") == [DOT];
    PrintParse(VersionOf(major, minor, patch));
  }

  /** Accepted are exactly the texts of three natural numbers, however large, with
      dots between them; the version keeps their decimal texts. */
  lemma AcceptsNumbers(text: bytes)
    ensures Parse(text).Some? <==> exists a: nat, b: nat, c: nat :: text == NumberText(a, b, c)
    ensures forall a: nat, b: nat, c: nat | text == NumberText(a, b, c) :: Parse(text) == Some(VersionOf(a, b, c))
  {
    hide Parse;
    hide NatText;
    if Parse(text).Some? {
      var v := Parse(text).value;
      ParseExactly(text, v);
      ComponentExactly(v.major);
      ComponentExactly(v.minor);
      ComponentExactly(v.patch);
      var a: nat :| v.major == NatText(a);
      var b: nat :| v.minor == NatText(b);
      var c: nat :| v.patch == NatText(c);
      assert Ascii(".") == [DOT];
      assert text == NumberText(a, b, c);
    }
    forall a: nat, b: nat, c: nat | text == NumberText(a, b, c) ensures Parse(text) == Some(VersionOf(a, b, c)) {
      VersionOfText(a, b, c);
    }
  }

  // ----- Order

  /** `std::string::operator<`. */
  predicate LexLess(a: bytes, b: bytes) {
    |b| > 0 && (|a| == 0 || a[0] < b[0] || (a[0] == b[0] && LexLess(a[1..], b[1..])))
  }

  /** `CompareDecimal`. */
  function CompareDecimal(a: bytes, b: bytes): int {
    if |a| != |b| then (if |a| < |b| then -1 else 1)
    else if a != b then (if LexLess(a, b) then -1 else 1)
    else 0
  }

  /** `CompareContentVersion`. */
  function Compare(l: Version, r: Version): int {
    var major := CompareDecimal(l.major, r.major);
    if major != 0 then major
    else
      var minor := CompareDecimal(l.minor, r.minor);
      if minor != 0 then minor else CompareDecimal(l.patch, r.patch)
  }

  function Sign(n: int): int {
    if n < 0 then -1 else if n > 0 then 1 else 0
  }

  /** The reference: lexicographic order on the numbers the components stand for. */
  function CompareNumbers(l: Version, r: Version): int
    requires Valid(l) && Valid(r)
  {
    var major, minor := ValueOf(l.major) - ValueOf(r.major), ValueOf(l.minor) - ValueOf(r.minor);
    Sign(if major != 0 then major else if minor != 0 then minor else ValueOf(l.patch) - ValueOf(r.patch))
  }

  /** Comparing texts of equal length, seen from the last character. */
  lemma {:induction false} LexLast(a: bytes, b: bytes)
    requires |a| == |b| > 0
    ensures LexLess(a, b) <==> LexLess(Init(a), Init(b)) || (Init(a) == Init(b) && a[|a| - 1] < b[|b| - 1])
  {
    if |a| > 1 {
      LexLast(a[1..], b[1..]);
      assert Init(a)[1..] == Init(a[1..]) && Init(b)[1..] == Init(b[1..]);
      assert Init(a) == [a[0]] + Init(a[1..]) && Init(b) == [b[0]] + Init(b[1..]);
    }
  }

  function Init(a: bytes): bytes
    requires |a| > 0
  {
    a[..|a| - 1]
  }

  lemma {:induction false} LexIsNumeric(a: bytes, b: bytes)
    requires AllDigits(a) && AllDigits(b) && |a| == |b|
    ensures LexLess(a, b) <==> ValueOf(a) < ValueOf(b)
    ensures a == b <==> ValueOf(a) == ValueOf(b)
  {
    if |a| > 0 {
      LexIsNumeric(Init(a), Init(b));
      LexLast(a, b);
      assert a == Init(a) + [a[|a| - 1]] && b == Init(b) + [b[|b| - 1]];
    }
  }

  lemma DecimalIsNumeric(a: bytes, b: bytes)
    requires ValidComponent(a) && ValidComponent(b)
    ensures CompareDecimal(a, b) == Sign(ValueOf(a) - ValueOf(b))
  {
    if |a| < |b| {
      ShorterIsSmaller(a, b);
    } else if |b| < |a| {
      ShorterIsSmaller(b, a);
    } else {
      LexIsNumeric(a, b);
    }
  }

  /** Comparison without integers is comparison of integers, however large. */
  lemma CompareIsNumeric(l: Version, r: Version)
    requires Valid(l) && Valid(r)
    ensures Compare(l, r) == CompareNumbers(l, r)
  {
    DecimalIsNumeric(l.major, r.major);
    DecimalIsNumeric(l.minor, r.minor);
    DecimalIsNumeric(l.patch, r.patch);
  }

  /** Versions of numbers compare as the triples of numbers do. */
  lemma ComparesNumbers(a: nat, b: nat, c: nat, x: nat, y: nat, z: nat)
    ensures Compare(VersionOf(a, b, c), VersionOf(x, y, z)) ==
      if a != x then (if a < x then -1 else 1)
      else if b != y then (if b < y then -1 else 1)
      else if c != z then (if c < z then -1 else 1)
      else 0
  {
    hide Compare;
    hide NatText;
    hide ValueOf;
    TextIsCanonical(a);
    TextIsCanonical(b);
    TextIsCanonical(c);
    TextIsCanonical(x);
    TextIsCanonical(y);
    TextIsCanonical(z);
    CompareIsNumeric(VersionOf(a, b, c), VersionOf(x, y, z));
  }

  /** The comparison is a total order on versions, and ties are equal texts. */
  lemma CompareIsTotalOrder(a: Version, b: Version, c: Version)
    requires Valid(a) && Valid(b) && Valid(c)
    ensures Compare(a, b) == 0 <==> a == b
    ensures Compare(b, a) == -Compare(a, b)
    ensures Compare(a, b) <= 0 && Compare(b, c) <= 0 ==> Compare(a, c) <= 0
  {
    CompareIsNumeric(a, b);
    CompareIsNumeric(b, a);
    CompareIsNumeric(b, c);
    CompareIsNumeric(a, c);
    hide CompareDecimal;
    assert Compare(a, b) == 0 ==> a == b by {
      if Compare(a, b) == 0 {
        TextOfValue(a.major); TextOfValue(b.major);
        TextOfValue(a.minor); TextOfValue(b.minor);
        TextOfValue(a.patch); TextOfValue(b.patch);
      }
    }
  }
}
