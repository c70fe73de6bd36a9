/** The arithmetic the positional codecs borrow from OpenSSL's BIGNUM, with
    the big number as a `nat`:
    - the bridge from a byte payload to a number (`bytearr_to_hexstr`, then
      `BN_hex2bn`) is `BeValue`, the payload read as a big-endian integer;
    - the bridge back (`BN_bn2hex`, then `hexstr_to_bytearr`) is
      `MinimalBytes`, and `HexDigits` is the length of the hex string;
    - the digit expansion of the encoders' division loop is `Digits`, and
      the sum Σ dᵢ·baseⁿ⁻¹⁻ⁱ of the decoders' accumulation loop is `Value`. */
module BigNum {
  import opened Common

  /** The payload read as a big-endian unsigned integer. */
  function BeValue(s: seq<byte>): (n: nat)
    ensures n < Pow(256, |s|)
  {
    if |s| == 0 then 0
    else
      var init := s[..|s| - 1];
      assert BeValue(init) <= Pow(256, |init|) - 1;
      BeValue(init) * 256 + s[|s| - 1]
  }

  /** Big-endian bytes of `n` with no leading zero byte; zero has none. */
  function MinimalBytes(n: nat): (r: seq<byte>)
    ensures BeValue(r) == n
    ensures r == [] <==> n == 0
    ensures r != [] ==> r[0] != 0
    decreases n
  {
    if n == 0 then []
    else
      var r := MinimalBytes(n / 256) + [n % 256];
      assert r[..|r| - 1] == MinimalBytes(n / 256);
      r
  }

  /** Number of significant bytes of `n`. */
  function ByteCount(n: nat): nat
    decreases n
  {
    if n == 0 then 0 else 1 + ByteCount(n / 256)
  }

  /** Length of the string `BN_bn2hex` produces: `"0"` for zero, otherwise
      two hex digits per significant byte. */
  function HexDigits(n: nat): nat
  {
    if n == 0 then 1 else 2 * ByteCount(n)
  }

  lemma {:induction false} ByteCountIsLength(n: nat)
    ensures ByteCount(n) == |MinimalBytes(n)|
    decreases n
  {
    if n > 0 {
      ByteCountIsLength(n / 256);
    }
  }

  /** The decoders size their output as `strlen(hex) / 2`, which is exactly
      the number of bytes `hexstr_to_bytearr` then writes. */
  lemma HexDigitsHalf(n: nat)
    ensures HexDigits(n) / 2 == |MinimalBytes(n)|
  {
    ByteCountIsLength(n);
  }

  /** Leading zero bytes contribute nothing to the value. */
  lemma {:induction false} BeValueZeroPrefix(k: nat, s: seq<byte>)
    ensures BeValue(Repeat(0, k) + s) == BeValue(s)
    decreases |s|, k
  {
    var z: seq<byte> := Repeat(0, k);
    if |s| == 0 {
      assert z + s == z;
      if k > 0 {
        var z': seq<byte> := Repeat(0, k - 1);
        assert z[..k - 1] == z' + [];
        BeValueZeroPrefix(k - 1, []);
      }
    } else {
      var init := s[..|s| - 1];
      assert (z + s)[..|z + s| - 1] == z + init;
      BeValueZeroPrefix(k, init);
    }
  }

  /** An all-zero payload has value zero. */
  lemma BeValueOfZeros(k: nat)
    ensures BeValue(Repeat(0, k)) == 0
  {
    var z: seq<byte> := Repeat(0, k);
    BeValueZeroPrefix(k, []);
    assert z + [] == z;
  }

  /** Only an all-zero payload has value zero. */
  lemma {:induction false} BeValuePositive(s: seq<byte>)
    requires |s| > 0 && s[0] != 0
    ensures BeValue(s) > 0
    decreases |s|
  {
    if |s| > 1 {
      BeValuePositive(s[..|s| - 1]);
    }
  }

  /** `MinimalBytes` inverts `BeValue` on payloads without a leading zero byte. */
  lemma {:induction false} MinimalBytesOfBeValue(s: seq<byte>)
    requires s == [] || s[0] != 0
    ensures MinimalBytes(BeValue(s)) == s
    decreases |s|
  {
    if |s| > 0 {
      var init := s[..|s| - 1];
      if |init| > 0 {
        BeValuePositive(init);
      }
      MinimalBytesOfBeValue(init);
      var v, b := BeValue(init), s[|s| - 1];
      assert BeValue(s) == v * 256 + b;
      assert BeValue(s) / 256 == v && BeValue(s) % 256 == b;
      assert s == init + [b];
    }
  }

  /** The payload with its leading zero bytes stripped is what survives the
      round trip through the big number. */
  lemma MinimalBytesStripsZeros(s: seq<byte>)
    ensures MinimalBytes(BeValue(s)) == s[LeadingCount(s, 0)..]
  {
    var k := LeadingCount(s, 0);
    assert s == Repeat(0, k) + s[k..];
    BeValueZeroPrefix(k, s[k..]);
    MinimalBytesOfBeValue(s[k..]);
  }

  /** Euclidean division by a base of at least two. */
  lemma DivideByBase(n: nat, base: nat)
    requires base >= 2
    ensures n == n / base * base + n % base && n % base < base
    ensures n >= base ==> 1 <= n / base < n
  {
    var q, r := n / base, n % base;
    assert n == q * base + r;
    if n >= base {
      assert q != 0;
      MulMonotone(q, base, 2);
    }
  }

  /** Multiplication by a natural number is monotone. */
  lemma {:induction false} MulMonotone(a: nat, b: nat, c: nat)
    requires b >= c
    ensures a * b >= a * c
    decreases a
  {
    if a > 0 {
      MulMonotone(a - 1, b, c);
      assert a * b == (a - 1) * b + b;
      assert a * c == (a - 1) * c + c;
    }
  }

  /** Digits of `n` in `base`, most significant first, as the encoders'
      `while (dv > 0)` loop produces them in reverse: `dv` starts at 1, so even
      zero has one digit. */
  function Digits(n: nat, base: nat): (ds: seq<nat>)
    requires base >= 2
    ensures |ds| >= 1
    ensures forall i | 0 <= i < |ds| :: ds[i] < base
    ensures n > 0 ==> ds[0] != 0
    decreases n
  {
    if n < base then [n]
    else
      DivideByBase(n, base);
      Digits(n / base, base) + [n % base]
  }

  /** One pass of the division loop: the remainder is the last digit and the
      quotient carries the others; the quotient is zero exactly when the last
      digit was the only one. */
  lemma DigitsStep(n: nat, base: nat)
    requires base >= 2
    ensures n % base < base
    ensures n / base == 0 ==> Digits(n, base) == [n % base]
    ensures n / base > 0 ==> Digits(n, base) == Digits(n / base, base) + [n % base]
    ensures n / base > 0 ==> n / base < n
  {
    if n < base {
      QuotientUnique(n, base, 0, n);
    } else {
      DivideByBase(n, base);
    }
  }

  /** The number a digit string denotes, most significant digit first,
      by Horner's rule. */
  function Value(ds: seq<nat>, base: nat): nat
  {
    if |ds| == 0 then 0 else Value(ds[..|ds| - 1], base) * base + ds[|ds| - 1]
  }

  /** Appending a digit is Horner's step. */
  lemma ValueSnoc(ds: seq<nat>, d: nat, base: nat)
    ensures Value(ds + [d], base) == Value(ds, base) * base + d
  {
    assert (ds + [d])[..|ds|] == ds;
  }

  /** The sum of the first `k` terms of Σ dᵢ·baseⁿ⁻¹⁻ⁱ, where n = |ds|: what
      the decoders' accumulation loop has added after `k` digits. */
  function Weighted(ds: seq<nat>, base: nat, k: nat): nat
    requires k <= |ds|
  {
    if k == 0 then 0 else Weighted(ds, base, k - 1) + ds[k - 1] * Pow(base, |ds| - k)
  }

  lemma {:induction false} WeightedSnoc(ds: seq<nat>, d: nat, base: nat, k: nat)
    requires k <= |ds|
    ensures Weighted(ds + [d], base, k) == base * Weighted(ds, base, k)
    decreases k
  {
    if k > 0 {
      WeightedSnoc(ds, d, base, k - 1);
      var e := |ds| - k;
      assert (ds + [d])[k - 1] == ds[k - 1];
      assert Pow(base, |ds + [d]| - k) == base * Pow(base, e);
      ScaleTerm(base, Weighted(ds, base, k - 1), ds[k - 1], Pow(base, e));
    }
  }

  lemma ScaleTerm(b: nat, w: nat, x: nat, p: nat)
    ensures b * w + x * (b * p) == b * (w + x * p)
  {
    assert x * (b * p) == b * (x * p);
  }

  /** The weighted sum Σ dᵢ·baseⁿ⁻¹⁻ⁱ is the Horner value. */
  lemma {:induction false} WeightedIsValue(ds: seq<nat>, base: nat)
    ensures Weighted(ds, base, |ds|) == Value(ds, base)
    decreases |ds|
  {
    if |ds| > 0 {
      var init, d := ds[..|ds| - 1], ds[|ds| - 1];
      assert ds == init + [d];
      WeightedIsValue(init, base);
      WeightedSnoc(init, d, base, |init|);
      assert Weighted(ds, base, |ds|) == Weighted(ds, base, |init|) + d * Pow(base, 0);
    }
  }

  /** A digit string never denotes less than its first digit. */
  lemma {:induction false} ValueAtLeastHead(ds: seq<nat>, base: nat)
    requires |ds| >= 1 && base >= 1
    ensures Value(ds, base) >= ds[0]
    decreases |ds|
  {
    if |ds| > 1 {
      var init := ds[..|ds| - 1];
      assert ds == init + [ds[|ds| - 1]];
      ValueAtLeastHead(init, base);
      ValueSnoc(init, ds[|ds| - 1], base);
    }
  }

  /** Accumulating the digits of `n` gives back `n`. */
  lemma {:induction false} ValueOfDigits(n: nat, base: nat)
    requires base >= 2
    ensures Value(Digits(n, base), base) == n
    decreases n
  {
    if n < base {
      assert [n][..0] == [];
    } else {
      DivideByBase(n, base);
      ValueOfDigits(n / base, base);
      ValueSnoc(Digits(n / base, base), n % base, base);
    }
  }

  /** A number below the divisor is its own remainder. */
  lemma Small(n: nat, d: nat)
    requires n < d
    ensures n % d == n && n / d == 0
  {
  }

  /** The quotient and remainder of a division are unique. */
  lemma QuotientUnique(n: nat, base: nat, q: nat, r: nat)
    requires base >= 2 && r < base && n == q * base + r
    ensures n / base == q && n % base == r
  {
    DivideByBase(n, base);
    var q', r' := n / base, n % base;
    if q > q' {
      AtLeastOnce(q - q', base);
    } else if q < q' {
      AtLeastOnce(q' - q, base);
    }
  }

  lemma AtLeastOnce(a: nat, b: nat)
    requires a >= 1
    ensures a * b >= b
  {
    MulMonotone(b, a, 1);
  }

  /** A digit string without a leading zero digit (or the single digit
      zero) is the expansion of the number it denotes. */
  lemma {:induction false} DigitsOfValue(ds: seq<nat>, base: nat)
    requires base >= 2 && |ds| >= 1
    requires forall i | 0 <= i < |ds| :: ds[i] < base
    requires |ds| == 1 || ds[0] != 0
    ensures Digits(Value(ds, base), base) == ds
    decreases |ds|
  {
    var last := ds[|ds| - 1];
    if |ds| == 1 {
      ValueSnoc([], last, base);
      assert ds == [] + [last];
    } else {
      var init := ds[..|ds| - 1];
      assert ds == init + [last];
      var q := Value(init, base);
      ValueSnoc(init, last, base);
      ValueAtLeastHead(init, base);
      DigitsOfValue(init, base);
      AtLeastOnce(q, base);
      QuotientUnique(Value(ds, base), base, q, last);
    }
  }
}
