/** Round trips and edge cases of the positional codecs: what decoding an
    encoding gives back, why an all-zero payload does not survive base 58
    and only loses its zeros in base 6, and when a decoded string encodes
    back to itself. */
module PositionalLaws {
  import opened Common
  import opened Tables
  import opened BigNum
  import opened Positional

  /** Base 6 has no leading-zero handling: decoding an encoding gives the
      payload without its leading zero bytes, hence the payload itself when
      it does not start with a zero byte. */
  lemma Base6RoundTrip(p: seq<byte>)
    ensures Base6Decode(Base6Encode(p)) == Some(p[LeadingCount(p, 0)..])
    ensures p == [] || p[0] != 0 ==> Base6Decode(Base6Encode(p)) == Some(p)
  {
    var ds := Digits(BeValue(p), 6);
    Base6TableFacts();
    DigitValuesOfSymbols(Base6Table, ds);
    ValueOfDigits(BeValue(p), 6);
    MinimalBytesStripsZeros(p);
    if p == [] || p[0] != 0 {
      assert p[LeadingCount(p, 0)..] == p[0..] == p;
    }
  }

  /** Every symbol of a base-6 encoding is in the table, and there is at
      least one. */
  lemma Base6EncodeAlphabet(p: seq<byte>)
    ensures |Base6Encode(p)| >= 1
    ensures forall i | 0 <= i < |Base6Encode(p)| :: Base6Encode(p)[i] in Base6Table
  {
  }

  /** `base6decode` fails exactly when a symbol is not in the table; what it
      writes never starts with a zero byte. */
  lemma Base6DecodeRejects(s: seq<char>)
    ensures Base6Decode(s).None? <==> exists i :: 0 <= i < |s| && s[i] !in Base6Table
    ensures Base6Decode(s).Some? ==> Base6Decode(s).value == [] || Base6Decode(s).value[0] != 0
  {
  }

  /** Zero magnitude still yields one digit: an empty or all-zero payload
      encodes to `"0"`, which decodes to no bytes at all. */
  lemma Base6ZeroPayload(k: nat)
    ensures Base6Encode(Repeat(0, k)) == "0"
    ensures Base6Decode("0") == Some([])
  {
    var p: seq<byte> := Repeat(0, k);
    BeValueOfZeros(k);
    assert Digits(0, 6) == [0];
    assert Symbols(Base6Table, [0]) == "0";
    assert Base6Encode(p) == "0";
    assert DigitValues(Base6Table, "0") == Some([0]) by {
      Base6TableFacts();
      DigitValuesOfSymbols(Base6Table, [0]);
    }
    assert Value([0], 6) == 0 by {
      assert [0][..0] == [];
    }
  }

  /** A canonical base-6 string (one symbol, or no leading `'0'`) is the
      encoding of what it decodes to. */
  lemma Base6Reencode(s: seq<char>)
    requires Base6Decode(s).Some?
    requires |s| == 1 || (|s| > 1 && s[0] != '0')
    ensures Base6Encode(Base6Decode(s).value) == s
  {
    Base6TableFacts();
    var ds := DigitValues(Base6Table, s).value;
    SymbolsOfDigitValues(Base6Table, s);
    DigitsOfValue(ds, 6);
  }

  /** Every symbol of a base-58 encoding is in the table, it has more
      symbols than the payload has leading zero bytes, and it starts with one
      `'1'` per leading zero byte. */
  lemma Base58EncodeAlphabet(p: seq<byte>)
    ensures |Base58Encode(p)| > LeadingCount(p, 0)
    ensures forall i | 0 <= i < |Base58Encode(p)| :: Base58Encode(p)[i] in Base58Table
    ensures forall i | 0 <= i < LeadingCount(p, 0) :: Base58Encode(p)[i] == '1'
  {
    Base58TableSize();
  }

  /** `base58decode` fails exactly when a symbol is not in the table; every
      leading `'1'` becomes a zero byte. */
  lemma Base58DecodeRejects(s: seq<char>)
    ensures Base58Decode(s).None? <==> exists i :: 0 <= i < |s| && s[i] !in Base58Table
    ensures Base58Decode(s).Some? ==>
      var ones := LeadingCount(s, '1');
      |Base58Decode(s).value| >= ones && Base58Decode(s).value[..ones] == Repeat(0, ones)
  {
    InvalidAfterOnes(s, LeadingCount(s, '1'));
  }

  /** Base 58 writes exactly one `'1'` per leading zero byte when the
      payload has a nonzero byte: the first digit symbol is never `'1'`. */
  lemma Base58EncodeLeadingOnes(p: seq<byte>)
    requires LeadingCount(p, 0) < |p|
    ensures LeadingCount(Base58Encode(p), '1') == LeadingCount(p, 0)
  {    var z := LeadingCount(p, 0);
    var ds := Digits(BeValue(p), 58);
    var sym := Symbols(Base58Table, ds);
    assert Base58Encode(p) == Repeat('1', z) + sym;
    assert sym[0] != '1' by {
      PositiveValue(p);
      Base58TableFacts();
      assert Base58Table[ds[0]] != Base58Table[0];
    }
    LeadingCountRepeat('1', z, sym);
    assert LeadingCount(sym, '1') == 0;
  }

  /** A payload with a nonzero byte has a positive value. */
  lemma PositiveValue(p: seq<byte>)
    requires LeadingCount(p, 0) < |p|
    ensures BeValue(p) > 0
  {
    var z := LeadingCount(p, 0);
    LeadingSplit(p, 0);
    BeValueZeroPrefix(z, p[z..]);
    BeValuePositive(p[z..]);
  }

  /** The digit symbols of a number read back as its digits, whose value is
      the number. */
  lemma Base58DigitsReadBack(n: nat)
    ensures DigitValues(Base58Table, Symbols(Base58Table, Digits(n, 58))) == Some(Digits(n, 58))
    ensures Value(Digits(n, 58), 58) == n
  {
    Base58TableFacts();
    DigitValuesOfSymbols(Base58Table, Digits(n, 58));
    ValueOfDigits(n, 58);
  }

  /** Base-58 decoding inverts encoding on every payload with a nonzero
      byte. */
  lemma Base58RoundTrip(p: seq<byte>)
    requires LeadingCount(p, 0) < |p|
    ensures Base58Decode(Base58Encode(p)) == Some(p)
  {
    var z := LeadingCount(p, 0);
    var ds := Digits(BeValue(p), 58);
    var sym := Symbols(Base58Table, ds);
    var e := Base58Encode(p);
    assert e == Repeat('1', z) + sym;
    Base58EncodeLeadingOnes(p);
    assert e[z..] == sym;
    Base58DigitsReadBack(BeValue(p));
    Base58DecodeParts(e, z, ds);
    MinimalBytesStripsZeros(p);
    LeadingSplit(p, 0);
  }

  /** An all-zero payload of `k` bytes encodes to `k + 1` `'1'`s, because
      the zero magnitude still yields the digit `'1'`; that string decodes to
      `k + 1` zero bytes, one more than were encoded. */
  lemma Base58ZeroPayload(k: nat)
    ensures Base58Encode(Repeat(0, k)) == Repeat('1', k + 1)
    ensures Base58Decode(Repeat('1', k + 1)) == Some(Repeat(0, k + 1))
  {
    Base58EncodeZeros(k);
    Base58DecodeOnes(k + 1);
  }

  /** Only the table's zero symbol stands for zero. */
  lemma Base58SymbolOfZero()
    ensures Symbols(Base58Table, Digits(0, 58)) == "1"
  {
    Base58TableSize();
    assert Digits(0, 58) == [0];
  }

  lemma Base58EncodeZeros(k: nat)
    ensures Base58Encode(Repeat(0, k)) == Repeat('1', k + 1)
  {
    var zeros: seq<byte> := Repeat(0, k);
    LeadingCountOfRepeat(0 as byte, k);
    BeValueOfZeros(k);
    Base58SymbolOfZero();
    RepeatSnoc('1', k);
  }

  lemma Base58DecodeOnes(k: nat)
    ensures Base58Decode(Repeat('1', k)) == Some(Repeat(0, k))
  {
    var s := Repeat('1', k);
    LeadingCountOfRepeat('1', k);
    assert s[k..] == [];
    assert DigitValues(Base58Table, []).value == [];
    Base58DecodeParts(s, k, []);
    var zeros: seq<byte> := Repeat(0, k);
    assert zeros + [] == zeros;
  }

  /** A digit string read from a table, whose first symbol is not the
      table's zero symbol, is the expansion of the positive number it
      denotes. */
  lemma CanonicalDigits(t: seq<char>, rest: seq<char>, base: nat)
    requires |t| == base >= 2 && DigitValues(t, rest).Some?
    requires |rest| >= 1 && rest[0] != t[0]
    ensures Value(DigitValues(t, rest).value, base) > 0
    ensures Digits(Value(DigitValues(t, rest).value, base), base) == DigitValues(t, rest).value
    ensures Symbols(t, DigitValues(t, rest).value) == rest
  {
    var ds := DigitValues(t, rest).value;
    SymbolsOfDigitValues(t, rest);
    assert rest[0] == t[ds[0]];
    ValueAtLeastHead(ds, base);
    DigitsOfValue(ds, base);
  }

  /** The base-58 encoding of zero bytes followed by a magnitude. */
  lemma Base58EncodeZerosThen(z: nat, mag: seq<byte>)
    requires |mag| >= 1 && mag[0] != 0
    ensures Base58Encode(Repeat(0, z) + mag) ==
            Repeat('1', z) + Symbols(Base58Table, Digits(BeValue(mag), 58))
  {
    LeadingCountRepeatStop(0, z, mag);
    BeValueZeroPrefix(z, mag);
  }

  /** The digit values of a valid base-58 string after its leading `'1'`s. */
  function Base58Digits(s: seq<char>): seq<nat>
    requires Base58Decode(s).Some?
  {
    DigitValues(Base58Table, s[LeadingCount(s, '1')..]).value
  }

  /** A successful decoding, read as a big-endian number, is the number
      the symbols after the leading `'1'`s denote; its leading zero bytes
      are exactly the leading `'1'`s, and it holds a byte past them exactly
      when some symbol is not `'1'`. */
  lemma Base58DecodeValid(s: seq<char>)
    requires Base58Decode(s).Some?
    ensures BeValue(Base58Decode(s).value) == Value(Base58Digits(s), 58)
    ensures LeadingCount(Base58Decode(s).value, 0) == LeadingCount(s, '1')
    ensures |Base58Decode(s).value| == LeadingCount(s, '1') + ByteCount(Value(Base58Digits(s), 58))
    ensures LeadingCount(s, '1') < |s| <==> LeadingCount(s, '1') < |Base58Decode(s).value|
  {
    var ones := LeadingCount(s, '1');
    var ds := Base58Digits(s);
    var n := Value(ds, 58);
    var m := MinimalBytes(n);
    Base58DecodeParts(s, ones, ds);
    var z: seq<byte> := Repeat(0, ones);
    BeValueZeroPrefix(ones, m);
    ByteCountIsLength(n);
    if m == [] {
      assert z + m == z;
      LeadingCountOfRepeat(0 as byte, ones);
    } else {
      LeadingCountRepeatStop(0 as byte, ones, m);
    }
    if ones < |s| {
      Base58TableSize();
      assert s[ones..][0] == s[ones];
      CanonicalDigits(Base58Table, s[ones..], 58);
    }
  }

  /** A digit string that does not start with `'1'`, behind `ones` `'1'`s,
      is the encoding of the zero bytes and the magnitude it denotes. */
  lemma Base58EncodeCanonical(ones: nat, rest: seq<char>, ds: seq<nat>)
    requires DigitValues(Base58Table, rest) == Some(ds)
    requires |rest| >= 1 && rest[0] != '1'
    ensures Base58Encode(Repeat(0, ones) + MinimalBytes(Value(ds, 58))) == Repeat('1', ones) + rest
  {
    Base58TableSize();
    CanonicalDigits(Base58Table, rest, 58);
    Base58EncodeZerosThen(ones, MinimalBytes(Value(ds, 58)));
  }

  lemma Base58EncodeValid(s: seq<char>)
    requires Base58Decode(s).Some?
    requires LeadingCount(s, '1') < |s|
    ensures Base58Encode(Repeat(0, LeadingCount(s, '1')) + MinimalBytes(Value(Base58Digits(s), 58))) == s
  {
    var ones := LeadingCount(s, '1');
    Base58EncodeCanonical(ones, s[ones..], Base58Digits(s));
    LeadingSplit(s, '1');
  }

  /** Every valid base-58 string that is not all `'1'`s is the encoding of
      what it decodes to. */
  lemma Base58Reencode(s: seq<char>)
    requires Base58Decode(s).Some?
    requires LeadingCount(s, '1') < |s|
    ensures Base58Encode(Base58Decode(s).value) == s
  {
    Base58DecodeParts(s, LeadingCount(s, '1'), Base58Digits(s));
    Base58EncodeValid(s);
  }
}
