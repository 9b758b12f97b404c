/** Decimal text and the natural numbers it stands for. */
module Decimal {
  import opened Bytes

  const ZERO: byte := 0x30

  predicate IsDigit(b: byte) {
    0x30 <= b <= 0x39
  }

  predicate AllDigits(s: bytes) {
    forall i | 0 <= i < |s| :: IsDigit(s[i])
  }

  /** No sign, no leading zero, at least one digit. */
  predicate Canonical(s: bytes) {
    |s| > 0 && AllDigits(s) && (|s| == 1 || s[0] != ZERO)
  }

  function ValueOf(s: bytes): nat
    requires AllDigits(s)
  {
    if |s| == 0 then 0
    else 10 * ValueOf(s[..|s| - 1]) + (s[|s| - 1] - ZERO)
  }

  function NatText(n: nat): (s: bytes)
    ensures |s| > 0
  {
    if n < 10 then [ZERO + n] else NatText(n / 10) + [ZERO + n % 10]
  }

  function IntText(n: int): bytes {
    if n < 0 then [MINUS] + NatText(-n) else NatText(n)
  }

  lemma {:induction false} TextIsCanonical(n: nat)
    ensures Canonical(NatText(n))
    ensures ValueOf(NatText(n)) == n
    ensures NatText(n)[0] == ZERO <==> n == 0
  {
    if n >= 10 {
      TextIsCanonical(n / 10);
      var s := NatText(n);
      assert s[..|s| - 1] == NatText(n / 10);
    }
  }

  lemma {:induction false} ValuePositive(s: bytes)
    requires Canonical(s)
    requires s[0] != ZERO
    ensures ValueOf(s) >= 1
  {
    if |s| > 1 {
      ValuePositive(s[..|s| - 1]);
    }
  }

  lemma {:induction false} TextOfValue(s: bytes)
    requires Canonical(s)
    ensures NatText(ValueOf(s)) == s
  {
    if |s| == 1 {
      assert ValueOf(s[..0]) == 0;
      assert s == [s[0]];
    } else {
      var init, last := s[..|s| - 1], s[|s| - 1] - ZERO;
      TextOfValue(init);
      ValuePositive(init);
      assert ValueOf(s) / 10 == ValueOf(init) && ValueOf(s) % 10 == last;
      assert s == init + [s[|s| - 1]];
    }
  }

  /** Among canonical texts, fewer digits means a smaller number. */
  lemma {:induction false} ShorterIsSmaller(s: bytes, t: bytes)
    requires AllDigits(s) && Canonical(t)
    requires 0 < |s| < |t|
    ensures ValueOf(s) < ValueOf(t)
  {
    if |s| == 1 {
      assert ValueOf(s[..0]) == 0;
      ValuePositive(t[..|t| - 1]);
    } else {
      ShorterIsSmaller(s[..|s| - 1], t[..|t| - 1]);
    }
  }

  /** The number of leading digits. */
  function DigitRun(t: bytes): (k: nat)
    ensures k <= |t| && AllDigits(t[..k])
    ensures k < |t| ==> !IsDigit(t[k])
  {
    if |t| == 0 || !IsDigit(t[0]) then 0
    else
      var k := 1 + DigitRun(t[1..]);
      assert t[..k] == [t[0]] + t[1..][..k - 1];
      k
  }

  lemma {:induction false} DigitRunOf(ds: bytes, post: bytes)
    requires AllDigits(ds)
    requires |post| > 0 ==> !IsDigit(post[0])
    ensures DigitRun(ds + post) == |ds|
  {
    if |ds| == 0 {
      assert ds + post == post;
    } else {
      assert (ds + post)[1..] == ds[1..] + post;
      DigitRunOf(ds[1..], post);
    }
  }

  /** Decimal text in the digits of ASCII, most significant first. */
  lemma DecimalLiterals()
    ensures NatText(0) == Ascii("0") && NatText(1024) == Ascii("1024") && IntText(-9875) == Ascii("-9875")
  {
    assert NatText(1) == Ascii("1") && NatText(10) == Ascii("10") && NatText(102) == Ascii("102");
    assert NatText(9) == Ascii("9") && NatText(98) == Ascii("98") && NatText(987) == Ascii("987");
  }
}
