/** The positional codecs of src/codec/base.c, bases 6 and 58
    (`base6encode`, `base6decode`, `base58encode`, `base58decode`).

    Encoding reads the payload as a big-endian number, divides it by the
    base until the quotient is zero and writes the remainders' symbols most
    significant first; base 58 also writes one `'1'` per leading zero byte.
    Decoding checks every symbol against the table, accumulates
    Σ dᵢ·baseⁿ⁻¹⁻ⁱ and writes the minimal big-endian bytes of the sum; base 58
    first strips the leading `'1'`s and restores them as zero bytes. */
module Positional {
  import opened Common
  import opened Tables
  import opened BigNum

  /** What `base6encode` writes: the digit symbols of the payload's value. */
  function Base6Encode(p: seq<byte>): seq<char>
  {
    Symbols(Base6Table, Digits(BeValue(p), 6))
  }

  /** What `base6decode` writes, or `None` for the error sentinel: the
      minimal bytes of the value the symbols denote. */
  function Base6Decode(s: seq<char>): Option<seq<byte>>
  {
    match DigitValues(Base6Table, s)
    case None => None
    case Some(ds) => Some(MinimalBytes(Value(ds, 6)))
  }

  /** What `base58encode` writes: one `'1'` per leading zero byte, then the
      digit symbols of the payload's value. */
  function Base58Encode(p: seq<byte>): seq<char>
  {
    Base58TableSize();
    Repeat('1', LeadingCount(p, 0)) + Symbols(Base58Table, Digits(BeValue(p), 58))
  }

  /** What `base58decode` writes, or `None` for the error sentinel: one zero
      byte per leading `'1'`, then the minimal bytes of the value the other
      symbols denote. */
  function Base58Decode(s: seq<char>): Option<seq<byte>>
  {
    var ones := LeadingCount(s, '1');
    match DigitValues(Base58Table, s[ones..])
    case None => None
    case Some(ds) => Some(Repeat(0, ones) + MinimalBytes(Value(ds, 58)))
  }

  /** A symbol outside the table is never one of the leading `'1'`s. */
  lemma InvalidAfterOnes(s: seq<char>, ones: nat)
    requires ones == LeadingCount(s, '1')
    ensures (exists i :: 0 <= i < |s| && s[i] !in Base58Table) <==>
            (exists j :: 0 <= j < |s[ones..]| && s[ones..][j] !in Base58Table)
  {
    assert Base58Table[0] == '1';
    if exists i :: 0 <= i < |s| && s[i] !in Base58Table {
      var i :| 0 <= i < |s| && s[i] !in Base58Table;
      assert s[ones..][i - ones] == s[i];
    }
    if exists j :: 0 <= j < |s[ones..]| && s[ones..][j] !in Base58Table {
      var j :| 0 <= j < |s[ones..]| && s[ones..][j] !in Base58Table;
      assert s[ones + j] == s[ones..][j];
    }
  }

  /** The scan for leading zero bytes in `base58encode` and for leading
      `'1'`s in `base58decode`. */
  method CountLeading<T(==)>(s: seq<T>, x: T) returns (k: nat)
    ensures k <= |s| && s[..k] == Repeat(x, k)
    ensures k < |s| ==> s[k] != x
    ensures k == LeadingCount(s, x)
  {
    k := 0;
    while k < |s| && s[k] == x
      invariant k <= |s|
      invariant forall i | 0 <= i < k :: s[i] == x
    {
      k := k + 1;
    }
  }

  /** `raw` holds the symbols of the last `|raw|` digits of `ds`, last digit
      first: the order in which the division loop produces them. */
  ghost predicate SymbolsReversed(raw: seq<char>, t: seq<char>, ds: seq<nat>)
  {
    |raw| <= |ds| &&
    forall k | 0 <= k < |raw| :: ds[|ds| - 1 - k] < |t| && raw[k] == t[ds[|ds| - 1 - k]]
  }

  lemma ReverseOfSymbolsReversed(raw: seq<char>, t: seq<char>, ds: seq<nat>)
    requires SymbolsReversed(raw, t, ds) && |raw| == |ds|
    requires forall i | 0 <= i < |ds| :: ds[i] < |t|
    ensures raw == Reverse(Symbols(t, ds))
  {
    var r := Reverse(Symbols(t, ds));
    assert forall k | 0 <= k < |raw| :: raw[k] == r[k];
  }

  /** One pass of the division loop extends the collected symbols by the
      remainder's symbol and leaves the quotient holding the digits not yet
      collected. */
  lemma DivideOutStep(raw: seq<char>, t: seq<char>, ds: seq<nat>, bn: nat)
    requires |t| >= 2
    requires SymbolsReversed(raw, t, ds)
    requires Digits(bn, |t|) == ds[..|ds| - |raw|]
    ensures bn % |t| < |t| && 0 <= bn / |t|
    ensures SymbolsReversed(raw + [t[bn % |t|]], t, ds)
    ensures bn / |t| > 0 ==> Digits(bn / |t|, |t|) == ds[..|ds| - |raw| - 1]
    ensures bn / |t| == 0 ==> |raw| + 1 == |ds|
  {
    var base := |t|;
    DigitsStep(bn, base);
    var rem := bn % base;
    var rest := |ds| - |raw|;
    if bn / base > 0 {
      assert ds[..rest] == Digits(bn / base, base) + [rem];
      assert ds[..rest - 1] == ds[..rest][..rest - 1];
    } else {
      assert ds[..rest] == [rem];
    }
    assert ds[rest - 1] == rem;
    var raw' := raw + [t[rem]];
    assert forall k | 0 <= k < |raw'| :: ds[|ds| - 1 - k] < |t| && raw'[k] == t[ds[|ds| - 1 - k]];
  }

  /** The encoders' `while (dv > 0)` loop: repeated division of `n` by the
      base (the table size), collecting the remainders' symbols least
      significant first. `dv` starts at 1, so the loop runs at least once. */
  method DivideOut(n: nat, t: seq<char>) returns (raw: seq<char>)
    requires |t| >= 2
    ensures |raw| == |Digits(n, |t|)|
    ensures SymbolsReversed(raw, t, Digits(n, |t|))
  {
    var base := |t|;
    ghost var ds := Digits(n, base);
    var bn: nat, dv: nat := n, 1;
    raw := [];
    assert ds[..|ds|] == ds;
    while dv > 0
      invariant SymbolsReversed(raw, t, ds)
      invariant dv > 0 ==> Digits(bn, base) == ds[..|ds| - |raw|]
      invariant dv == 0 ==> |raw| == |ds|
      decreases |ds| - |raw|
    {
      DivideOutStep(raw, t, ds, bn);
      var rem := bn % base;
      dv := bn / base;
      bn := dv;
      raw := raw + [t[rem]];
    }
  }

  /** The decoders' accumulation loop: `to_add = d * base ^ power` and
      `bignum = bignum + to_add` for every digit in turn. */
  method Accumulate(ds: seq<nat>, base: nat) returns (acc: nat)
    ensures acc == Value(ds, base)
  {
    acc := 0;
    for i := 0 to |ds|
      invariant acc == Weighted(ds, base, i)
    {
      var powered := Pow(base, |ds| - 1 - i);
      var toAdd := ds[i] * powered;
      acc := acc + toAdd;
    }
    WeightedIsValue(ds, base);
  }

  /** The encoders' output loop `encoded[encoded_len - 1 - i] = raw[i]`,
      with `encoded_len == at + |raw|`: writes `raw` back to front after the
      first `at` symbols. */
  method WriteReversed(a: array<char>, at: nat, raw: seq<char>)
    requires at + |raw| <= a.Length
    modifies a
    ensures a[..at] == old(a[..at])
    ensures a[at..at + |raw|] == Reverse(raw)
    ensures a[at + |raw|..] == old(a[at + |raw|..])
  {
    var len := at + |raw|;
    for i := 0 to |raw|
      invariant a[..len - i] == old(a[..len - i])
      invariant forall k | 0 <= k < i :: a[len - 1 - k] == raw[k]
      invariant a[len..] == old(a[len..])
    {
      a[len - 1 - i] := raw[i];
    }
    assert a[..at] == a[..len - |raw|];
    assert forall j | at <= j < len :: a[j] == Reverse(raw)[j - at];
  }

  /** The loops that write `x` into the first `k` cells (`'1'` in
      `base58encode`, `0x00` in `base58decode`). */
  method Fill<T>(a: array<T>, k: nat, x: T)
    requires k <= a.Length
    modifies a
    ensures a[..k] == Repeat(x, k)
    ensures a[k..] == old(a[k..])
  {
    for i := 0 to k
      invariant forall j | 0 <= j < i :: a[j] == x
      invariant a[k..] == old(a[k..])
    {
      a[i] := x;
    }
  }

  /** `hexstr_to_bytearr` as the decoders use it: the bytes of `v` at the
      front of the buffer. */
  method CopyFront<T>(a: array<T>, v: seq<T>)
    requires |v| <= a.Length
    modifies a
    ensures a[..|v|] == v
    ensures a[|v|..] == old(a[|v|..])
  {
    for i := 0 to |v|
      invariant a[..i] == v[..i]
      invariant a[|v|..] == old(a[|v|..])
    {
      a[i] := v[i];
    }
  }

  /** The in-place shift of `base58decode`: the first `m` cells move `gap`
      places to the right, last cell first, so no cell is overwritten before
      it is read. */
  method ShiftRight<T>(a: array<T>, m: nat, gap: nat)
    requires m + gap <= a.Length
    modifies a
    ensures a[gap..gap + m] == old(a[..m])
    ensures a[gap + m..] == old(a[gap + m..])
  {
    var len := m + gap;
    for i := 0 to m
      invariant forall k | 0 <= k < m - i :: a[k] == old(a[k])
      invariant forall j | len - i <= j < len :: a[j] == old(a[j - gap])
      invariant a[len..] == old(a[len..])
    {
      a[len - 1 - i] := a[m - 1 - i];
    }
    assert forall j | gap <= j < len :: a[j] == old(a[..m])[j - gap];
  }

  /** What `base6encode` writes: the reversed output of the division loop. */
  lemma Base6EncodeIsReversed(p: seq<byte>, raw: seq<char>)
    requires |raw| == |Digits(BeValue(p), 6)|
    requires SymbolsReversed(raw, Base6Table, Digits(BeValue(p), 6))
    ensures Reverse(raw) == Base6Encode(p)
  {
    var ds := Digits(BeValue(p), 6);
    ReverseOfSymbolsReversed(raw, Base6Table, ds);
    assert Reverse(Reverse(Symbols(Base6Table, ds))) == Symbols(Base6Table, ds);
  }

  /** What `base58encode` writes after its `'1'`s. */
  lemma Base58EncodeIsReversed(p: seq<byte>, raw: seq<char>)
    requires |raw| == |Digits(BeValue(p), 58)|
    requires SymbolsReversed(raw, Base58Table, Digits(BeValue(p), 58))
    ensures Repeat('1', LeadingCount(p, 0)) + Reverse(raw) == Base58Encode(p)
  {
    var ds := Digits(BeValue(p), 58);
    Base58TableFacts();
    ReverseOfSymbolsReversed(raw, Base58Table, ds);
    assert Reverse(Reverse(Symbols(Base58Table, ds))) == Symbols(Base58Table, ds);
  }

  /** The fill phase of `base58decode`: the magnitude bytes go to the front
      of the buffer, move right by the number of leading `'1'`s, and the
      gap becomes zero bytes. */
  method WriteDecoded(decoded: array<byte>, ones: nat, mag: seq<byte>)
    requires ones + |mag| <= decoded.Length
    modifies decoded
    ensures decoded[..ones + |mag|] == Repeat(0, ones) + mag
    ensures decoded[ones + |mag|..] == old(decoded[ones + |mag|..])
  {
    var decodedLen := ones + |mag|;
    CopyFront(decoded, mag);
    assert decoded[decodedLen..] == decoded[|mag|..][ones..];
    ShiftRight(decoded, |mag|, ones);
    Fill(decoded, ones, 0);
    assert decoded[decodedLen..] == decoded[ones..][|mag|..];
    assert decoded[..decodedLen] == decoded[..ones] + decoded[ones..decodedLen];
  }

  /** `base58decode`'s steps compose to `Base58Decode`. */
  lemma Base58DecodeParts(s: seq<char>, ones: nat, ds: seq<nat>)
    requires ones == LeadingCount(s, '1')
    requires DigitValues(Base58Table, s[ones..]) == Some(ds)
    ensures Base58Decode(s) == Some(Repeat(0, ones) + MinimalBytes(Value(ds, 58)))
  {
  }

  /** `base6encode`: with no output buffer, answers the number of symbols;
      otherwise writes them, reversing the division loop's output. */
  method Base6EncodeCall(payload: seq<byte>, encoded: array?<char>) returns (st: Status)
    requires encoded != null ==> encoded.Length >= |Base6Encode(payload)|
    modifies encoded
    ensures encoded == null ==> st == Len(|Base6Encode(payload)|)
    ensures encoded != null ==> st == Ok
    ensures encoded != null ==> encoded[..|Base6Encode(payload)|] == Base6Encode(payload)
    ensures encoded != null ==> encoded[|Base6Encode(payload)|..] == old(encoded[|Base6Encode(payload)|..])
  {
    var bn := BeValue(payload);
    var raw := DivideOut(bn, Base6Table);
    Base6EncodeIsReversed(payload, raw);
    var encodedLen := |raw|;
    if encoded == null {
      return Len(encodedLen);
    }
    WriteReversed(encoded, 0, raw);
    return Ok;
  }

  /** `base6decode`: the symbols are validated before anything else, in both
      modes; a query answers `strlen(hex) / 2` for the accumulated number. */
  method Base6DecodeCall(s: seq<char>, decoded: array?<byte>) returns (st: Status)
    requires decoded != null && Base6Decode(s).Some? ==> decoded.Length >= |Base6Decode(s).value|
    modifies decoded
    ensures decoded == null ==> st == Query(Base6Decode(s))
    ensures decoded != null ==> st == (if Base6Decode(s).Some? then Ok else Err)
    ensures decoded != null && st == Ok ==>
      var v := Base6Decode(s).value;
      decoded[..|v|] == v && decoded[|v|..] == old(decoded[|v|..])
    ensures st == Err ==> decoded == null || decoded[..] == old(decoded[..])
  {
    var r := Validate(Base6Table, s);
    if r.None? {
      return Err;
    }
    var bn := Accumulate(r.value, 6);
    var decodedLen := HexDigits(bn) / 2;
    HexDigitsHalf(bn);
    if decoded == null {
      return Len(decodedLen);
    }
    CopyFront(decoded, MinimalBytes(bn));
    return Ok;
  }

  /** `base58encode`: counts the leading zero bytes, runs the division loop,
      then writes the `'1'`s and the reversed digit symbols. */
  method Base58EncodeCall(payload: seq<byte>, encoded: array?<char>) returns (st: Status)
    requires encoded != null ==> encoded.Length >= |Base58Encode(payload)|
    modifies encoded
    ensures encoded == null ==> st == Len(|Base58Encode(payload)|)
    ensures encoded != null ==> st == Ok
    ensures encoded != null ==> encoded[..|Base58Encode(payload)|] == Base58Encode(payload)
    ensures encoded != null ==> encoded[|Base58Encode(payload)|..] == old(encoded[|Base58Encode(payload)|..])
  {
    var zeros := CountLeading(payload, 0);
    var bn := BeValue(payload);
    var raw := DivideOut(bn, Base58Table);
    Base58EncodeIsReversed(payload, raw);
    var encodedLen := |raw| + zeros;
    if encoded == null {
      return Len(encodedLen);
    }
    Fill(encoded, zeros, '1');
    WriteReversed(encoded, zeros, raw);
    assert encoded[..zeros] == Repeat('1', zeros);
    assert encoded[zeros..encodedLen] == Reverse(raw);
    assert encoded[..encodedLen] == encoded[..zeros] + encoded[zeros..encodedLen];
    return Ok;
  }

  /** `base58decode`: strips and counts the leading `'1'`s, validates the
      rest, accumulates the number, then writes its bytes, shifts them right
      in place by the number of `'1'`s and fills the gap with zero bytes. */
  method Base58DecodeCall(s: seq<char>, decoded: array?<byte>) returns (st: Status)
    requires decoded != null && Base58Decode(s).Some? ==> decoded.Length >= |Base58Decode(s).value|
    modifies decoded
    ensures decoded == null ==> st == Query(Base58Decode(s))
    ensures decoded != null ==> st == (if Base58Decode(s).Some? then Ok else Err)
    ensures decoded != null && st == Ok ==>
      var v := Base58Decode(s).value;
      decoded[..|v|] == v && decoded[|v|..] == old(decoded[|v|..])
    ensures st == Err ==> decoded == null || decoded[..] == old(decoded[..])
  {
    var ones := CountLeading(s, '1');
    var rawPayload := s[ones..];
    var r := Validate(Base58Table, rawPayload);
    if r.None? {
      return Err;
    }
    var bn := Accumulate(r.value, 58);
    var decodedLen := HexDigits(bn) / 2 + ones;
    HexDigitsHalf(bn);
    if decoded == null {
      return Len(decodedLen);
    }
    Base58DecodeParts(s, ones, r.value);
    WriteDecoded(decoded, ones, MinimalBytes(bn));
    return Ok;
  }
}
