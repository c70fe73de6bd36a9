/** What `base64decode` gives back for what `base64encode` writes, and how
    the decoder treats the inputs it accepts.

    The encoder's final group writes `'='` for every symbol but the second
    whose value is zero, so a final group whose last data value happens to
    be zero reads as one more padding symbol: a payload of length 2 mod 3
    whose last byte is a multiple of 16 loses that byte in the round trip
    (the encoding of `[0x41, 0x00]` is `"QQ=="`, where section 4 of
    RFC 4648 gives `"QQA="`). Every other payload survives it. */
module Base64Laws {
  import opened Common
  import opened Tables
  import opened BigNum
  import opened Base64

  /** No table symbol is the padding symbol. */
  lemma SymbolIsNotPad(v: int)
    requires 0 <= v < 64
    ensures Base64Symbol(v) != Pad
  {
  }

  /** A final-group symbol is written as `'='` exactly when its value is
      zero; otherwise it is the table symbol. */
  lemma PadIfAIsPad(v: nat)
    requires v < 64
    ensures PadIfA(v) == Pad <==> v == 0
    ensures PadIfA(v) != Pad ==> PadIfA(v) == Base64Symbol(v)
  {
  }

  /** The decoder's final-group lookup undoes the encoder's symbols, the
      `'='` written for zero included. */
  lemma EndValueOfSymbol(v: nat)
    requires v < 64
    ensures EndValue(Base64Symbol(v)) == v
    ensures EndValue(PadIfA(v)) == v
  {
    Base64ValueOfSymbol(v, Base64Symbol(v));
    assert Base64Value(Pad).None?;
  }

  /** A symbol outside the table has no value and counts as zero in the
      final group. */
  lemma EndValueOutside(c: char)
    requires c !in Base64Table
    ensures Base64Value(c).None? && EndValue(c) == 0
  {
    Base64SymbolIsEntry();
    forall d | 0 <= d < 64
      ensures Base64Value(c) != Some(d)
    {
      Base64ValueOfSymbol(d, c);
      assert Base64Table[d] == Base64Symbol(d);
    }
  }

  /** The encoder's symbols are the table's symbols for the same values,
      and they read back as those values. */
  lemma ToSymbolsReadBack(vs: seq<nat>)
    requires forall i | 0 <= i < |vs| :: vs[i] < 64
    ensures DigitValues(Base64Table, ToSymbols(vs)) == Some(vs)
  {
    Base64SymbolIsEntry();
    Base64TableFacts();
    assert ToSymbols(vs) == Symbols(Base64Table, vs);
    DigitValuesOfSymbols(Base64Table, vs);
  }

  /** Assembling the bytes of the four values of three bytes gives back the
      three bytes. */
  lemma GroupRoundTrip(b0: byte, b1: byte, b2: byte)
    ensures var v := Sextets(b0, b1, b2); Octets(v[0], v[1], v[2], v[3]) == [b0, b1, b2]
  {
    var v0, v1, v2, v3 := b0 / 4, b0 % 4 * 16 + b1 / 16, b1 % 16 * 4 + b2 / 64, b2 % 64;
    assert Sextets(b0, b1, b2) == [v0, v1, v2, v3];
    var o := Octets(v0, v1, v2, v3);
    QuotientUnique(v1, 16, b0 % 4, b1 / 16);
    QuotientUnique(v2, 4, b1 % 16, b2 / 64);
    Recompose(b0, 4);
    Recompose(b1, 16);
    Recompose(b2, 64);
    assert o[0] == b0 by {
      Small(b0 % 4, 4);
      Small(b0, 256);
    }
    assert o[1] == b1 by {
      Small(b1 % 16, 16);
    }
    assert o[2] == b2 by {
      Small(b2 % 64, 64);
    }
  }

  /** A byte is its quotient and remainder by `d` put back together. */
  lemma Recompose(b: byte, d: nat)
    requires d > 0
    ensures b / d * d + b % d == b && b % d < d && b / d * d <= b
  {
  }

  /** Decoding the values of whole groups gives back the bytes. */
  lemma {:induction false} FullRoundTrip(q: seq<byte>)
    requires |q| % 3 == 0
    ensures FullOctets(FullSextets(q)) == q
    decreases |q|
  {
    if |q| > 0 {
      var n := |q|;
      var init := q[..n - 3];
      assert q == init + [q[n - 3], q[n - 2], q[n - 1]];
      FullRoundTripStep(q);
      FullRoundTrip(init);
    }
  }

  /** The last group's values decode back to its bytes, after whatever the
      groups before it decode to. */
  lemma FullRoundTripStep(q: seq<byte>)
    requires |q| % 3 == 0 && |q| > 0
    ensures var n := |q|;
      FullOctets(FullSextets(q)) == FullOctets(FullSextets(q[..n - 3])) + [q[n - 3], q[n - 2], q[n - 1]]
  {
    var n := |q|;
    var init := q[..n - 3];
    var head := FullSextets(init);
    var g := Sextets(q[n - 3], q[n - 2], q[n - 1]);
    var vs := head + g;
    var y := |init| / 3;
    QuotientUnique(|init|, 3, y, 0);
    QuotientUnique(4 * y, 4, y, 0);
    QuotientUnique(4 * y + 4, 4, y + 1, 0);
    assert |head| == 4 * y && |vs| == 4 * y + 4;
    assert FullSextets(q) == vs;
    assert vs[..|vs| - 4] == head;
    GroupRoundTrip(q[n - 3], q[n - 2], q[n - 1]);
  }

  /** Trailing `x`s of a sequence that does not consist of them alone are
      not affected by what comes before it. */
  lemma {:induction false} TrailingCountAppend<T>(a: seq<T>, b: seq<T>, x: T)
    requires TrailingCount(b, x) < |b|
    ensures TrailingCount(a + b, x) == TrailingCount(b, x)
    decreases |b|
  {
    var ab := a + b;
    assert ab[|ab| - 1] == b[|b| - 1];
    if b[|b| - 1] == x {
      assert ab[..|ab| - 1] == a + b[..|b| - 1];
      TrailingCountAppend(a, b[..|b| - 1], x);
    }
  }

  /** `TrailingCount` is the only count whose symbols are all `x` and which
      is preceded by a symbol other than `x`, or by nothing. */
  lemma {:induction false} TrailingCountIs<T>(s: seq<T>, x: T, k: nat)
    requires k <= |s|
    requires forall j | |s| - k <= j < |s| :: s[j] == x
    requires k < |s| ==> s[|s| - 1 - k] != x
    ensures TrailingCount(s, x) == k
    decreases k
  {
    if k > 0 {
      var init := s[..|s| - 1];
      assert forall j | |init| - (k - 1) <= j < |init| :: init[j] == s[j];
      TrailingCountIs(init, x, k - 1);
    }
  }

  /** Whole groups of encoder symbols end in a table symbol, so they have
      no trailing padding. */
  lemma NoPadInGroups(vs: seq<nat>)
    requires forall i | 0 <= i < |vs| :: vs[i] < 64
    ensures TrailingCount(ToSymbols(vs), Pad) == 0
  {
    if |vs| > 0 {
      SymbolIsNotPad(vs[|vs| - 1]);
    }
  }

  /** Whole groups of bytes give whole groups of symbols. */
  lemma GroupsLength(q: seq<byte>)
    requires |q| % 3 == 0
    ensures |ToSymbols(FullSextets(q))| == 4 * (|q| / 3)
    ensures |ToSymbols(FullSextets(q))| % 4 == 0
  {
    var y := |q| / 3;
    assert |ToSymbols(FullSextets(q))| == 4 * y;
    QuotientUnique(4 * y, 4, y, 0);
  }

  /** The whole groups of an encoding decode to the bytes they came from. */
  lemma DecodeWhole(q: seq<byte>)
    requires |q| % 3 == 0
    ensures WellFormed(ToSymbols(FullSextets(q)))
    ensures Base64Decode(ToSymbols(FullSextets(q))) == Some(q)
  {
    var vs := FullSextets(q);
    var e := ToSymbols(vs);
    WholeShape(q);
    assert e[..|e|] == e;
    DecodeUnpadded(e, vs);
    FullRoundTrip(q);
  }

  /** A well-formed string without padding decodes to the bytes of its
      whole groups. */
  lemma DecodeUnpadded(e: seq<char>, vs: seq<nat>)
    requires WellFormed(e) && TrailingCount(e, Pad) == 0
    requires DigitValues(Base64Table, e) == Some(vs)
    ensures Base64Decode(e) == Some(FullOctets(vs))
  {
    assert e[..CopyLength(e)] == e;
    DecodeParts(e, vs);
    assert FullOctets(vs) + [] == FullOctets(vs);
  }

  lemma WholeShape(q: seq<byte>)
    requires |q| % 3 == 0
    ensures var e := ToSymbols(FullSextets(q));
      WellFormed(e) && TrailingCount(e, Pad) == 0 && CopyLength(e) == |e| &&
      DigitValues(Base64Table, e[..CopyLength(e)]) == Some(FullSextets(q))
  {
    var vs := FullSextets(q);
    var e := ToSymbols(vs);
    NoPadInGroups(vs);
    GroupsLength(q);
    assert e[..|e|] == e;
    ToSymbolsReadBack(vs);
  }

  /** Whole groups followed by a final group with `k` trailing `'='`s decode
      to the bytes of the whole groups, then those of the final group. */
  lemma DecodeWithTail(q: seq<byte>, tail: seq<char>, k: nat)
    requires |q| % 3 == 0 && |tail| == 4 && 1 <= k <= 2 && TrailingCount(tail, Pad) == k
    ensures WellFormed(ToSymbols(FullSextets(q)) + tail)
    ensures Base64Decode(ToSymbols(FullSextets(q)) + tail) == Some(q + TailBytes(tail, k))
  {
    var vs := FullSextets(q);
    var head := ToSymbols(vs);
    var e := head + tail;
    TrailingCountAppend(head, tail, Pad);
    GroupsLength(q);
    QuotientUnique(|e|, 4, |q| / 3 + 1, 0);
    assert WellFormed(e) && CopyLength(e) == |head|;
    assert e[..|head|] == head && e[|head|..] == tail;
    ToSymbolsReadBack(vs);
    DecodeParts(e, vs);
    FullRoundTrip(q);
  }

  /** The final group of one byte: two `'='`s, and it decodes to that byte. */
  lemma TailOfOne(b0: byte)
    ensures TrailingCount(TailSymbols(b0, 0, 0), Pad) == 2
    ensures TailBytes(TailSymbols(b0, 0, 0), 2) == [b0]
  {
    var v0, v1 := b0 / 4, b0 % 4 * 16;
    assert Sextets(b0, 0, 0) == [v0, v1, 0, 0];
    var t := TailSymbols(b0, 0, 0);
    assert t == [PadIfA(v0), Base64Symbol(v1), Pad, Pad] by {
      PadIfAIsPad(0);
    }
    SymbolIsNotPad(v1);
    TrailingCountIs(t, Pad, 2);
    EndValueOfSymbol(v0);
    EndValueOfSymbol(v1);
    var o := Octets(v0, v1, 0, 0);
    assert TailBytes(t, 2) == o[..1];
    assert o[0] == b0 by {
      QuotientUnique(v1, 16, b0 % 4, 0);
      Small(b0 % 4, 4);
      Recompose(b0, 4);
      Small(b0, 256);
    }
  }

  /** The final group of two bytes: one `'='` when the second byte is not a
      multiple of 16, and it decodes to both bytes; two `'='`s otherwise,
      and it decodes to the first byte only. */
  lemma TailOfTwo(b0: byte, b1: byte)
    ensures TrailingCount(TailSymbols(b0, b1, 0), Pad) == if b1 % 16 == 0 then 2 else 1
    ensures TailBytes(TailSymbols(b0, b1, 0), if b1 % 16 == 0 then 2 else 1) ==
            if b1 % 16 == 0 then [b0] else [b0, b1]
  {
    var v0, v1, v2 := b0 / 4, b0 % 4 * 16 + b1 / 16, b1 % 16 * 4;
    assert Sextets(b0, b1, 0) == [v0, v1, v2, 0];
    var t := TailSymbols(b0, b1, 0);
    assert t == [PadIfA(v0), Base64Symbol(v1), PadIfA(v2), Pad] by {
      PadIfAIsPad(0);
    }
    SymbolIsNotPad(v1);
    PadIfAIsPad(v2);
    EndValueOfSymbol(v0);
    EndValueOfSymbol(v1);
    EndValueOfSymbol(v2);
    QuotientUnique(v1, 16, b0 % 4, b1 / 16);
    QuotientUnique(v2, 4, b1 % 16, 0);
    var o := Octets(v0, v1, v2, 0);
    assert o[0] == b0 by {
      Small(b0 % 4, 4);
      Recompose(b0, 4);
      Small(b0, 256);
    }
    if b1 % 16 == 0 {
      assert v2 == 0;
      TrailingCountIs(t, Pad, 2);
      assert TailBytes(t, 2) == o[..1];
    } else {
      assert PadIfA(v2) != Pad;
      TrailingCountIs(t, Pad, 1);
      assert TailBytes(t, 1) == o[..2];
      assert o[1] == b1 by {
        Small(b1 / 16, 16);
        Small(b1 % 16, 16);
        Recompose(b1, 16);
      }
    }
  }

  /** The final group of two bytes as section 4 of RFC 4648 writes it:
      the three table symbols of the group's values, then one `'='`. */
  function StandardTail(b0: byte, b1: byte): seq<char>
  {
    var v := Sextets(b0, b1, 0);
    [Base64Symbol(v[0]), Base64Symbol(v[1]), Base64Symbol(v[2]), Pad]
  }

  /** The standard final group of two bytes has one `'='` and decodes to
      both bytes, whatever the second one is. */
  lemma StandardTailOfTwo(b0: byte, b1: byte)
    ensures TrailingCount(StandardTail(b0, b1), Pad) == 1
    ensures TailBytes(StandardTail(b0, b1), 1) == [b0, b1]
  {
    var v0, v1, v2 := b0 / 4, b0 % 4 * 16 + b1 / 16, b1 % 16 * 4;
    assert Sextets(b0, b1, 0) == [v0, v1, v2, 0];
    var t := StandardTail(b0, b1);
    assert t == [Base64Symbol(v0), Base64Symbol(v1), Base64Symbol(v2), Pad];
    SymbolIsNotPad(v2);
    TrailingCountIs(t, Pad, 1);
    EndValueOfSymbol(v0);
    EndValueOfSymbol(v1);
    EndValueOfSymbol(v2);
    QuotientUnique(v1, 16, b0 % 4, b1 / 16);
    QuotientUnique(v2, 4, b1 % 16, 0);
    var o := Octets(v0, v1, v2, 0);
    assert TailBytes(t, 1) == o[..2];
    assert o[0] == b0 by {
      Small(b0 % 4, 4);
      Recompose(b0, 4);
      Small(b0, 256);
    }
    assert o[1] == b1 by {
      Small(b1 / 16, 16);
      Small(b1 % 16, 16);
      Recompose(b1, 16);
    }
  }

  /** The decoder accepts the standard padding too: whole groups followed
      by the standard final group of the last two bytes decode to the whole
      payload. */
  lemma Base64DecodesStandardPadding(p: seq<byte>)
    requires |p| % 3 == 2
    ensures var m := |p| - 2; var e := ToSymbols(FullSextets(p[..m])) + StandardTail(p[m], p[m + 1]);
      WellFormed(e) && Base64Decode(e) == Some(p)
  {
    var m := |p| - 2;
    QuotientUnique(m, 3, |p| / 3, 0);
    var q := p[..m];
    StandardTailOfTwo(p[m], p[m + 1]);
    assert q + [p[m], p[m + 1]] == p by {
      assert p == p[..m] + p[m..];
    }
    DecodeWithTail(q, StandardTail(p[m], p[m + 1]), 1);
  }

  /** Every encoding is an input the decoder handles, and decoding it gives
      back the payload, except that a payload of length 2 mod 3 whose last
      byte is a multiple of 16 comes back without that byte. */
  lemma Base64RoundTrip(p: seq<byte>)
    ensures WellFormed(Base64Encode(p))
    ensures Base64Decode(Base64Encode(p)) ==
            Some(if |p| % 3 == 2 && p[|p| - 1] % 16 == 0 then p[..|p| - 1] else p)
  {
    var n, ending := |p|, |p| % 3;
    var m := n - ending;
    QuotientUnique(m, 3, n / 3, 0);
    if ending == 0 {
      EncodeWhole(p);
      DecodeWhole(p);
    } else if ending == 1 {
      RoundTripOfOne(p, m);
    } else {
      RoundTripOfTwo(p, m);
    }
  }

  /** A payload of length 1 mod 3 survives the round trip. */
  lemma RoundTripOfOne(p: seq<byte>, m: nat)
    requires |p| % 3 == 1 && m == |p| - 1 && m % 3 == 0
    ensures WellFormed(Base64Encode(p)) && Base64Decode(Base64Encode(p)) == Some(p)
  {
    var q := p[..m];
    var tail := TailSymbols(p[m], 0, 0);
    assert Base64Encode(p) == ToSymbols(FullSextets(q)) + tail by {
      EncodeWithTail(p, [p[m], 0, 0]);
    }
    TailOfOne(p[m]);
    assert q + [p[m]] == p;
    DecodeWithTail(q, tail, 2);
  }

  /** A payload of length 2 mod 3 survives the round trip unless its last
      byte is a multiple of 16, in which case that byte is lost. */
  lemma RoundTripOfTwo(p: seq<byte>, m: nat)
    requires |p| % 3 == 2 && m == |p| - 2 && m % 3 == 0
    ensures WellFormed(Base64Encode(p))
    ensures Base64Decode(Base64Encode(p)) == Some(if p[m + 1] % 16 == 0 then p[..m + 1] else p)
  {
    var q := p[..m];
    var b0, b1 := p[m], p[m + 1];
    var tail := TailSymbols(b0, b1, 0);
    assert Base64Encode(p) == ToSymbols(FullSextets(q)) + tail by {
      EncodeWithTail(p, [b0, b1, 0]);
    }
    TailOfTwo(b0, b1);
    if b1 % 16 == 0 {
      assert q + [b0] == p[..m + 1];
      DecodeWithTail(q, tail, 2);
    } else {
      assert q + [b0, b1] == p by {
        assert p == p[..m] + p[m..];
      }
      DecodeWithTail(q, tail, 1);
    }
  }

  /** The two-byte payload `[0x41, 0x00]` encodes to `"QQ=="`, which decodes
      to `[0x41]`; the padding of section 4 of RFC 4648, `"QQA="`, decodes to
      both bytes. */
  lemma Base64LosesZeroTail()
    ensures Base64Encode([0x41, 0x00]) == "QQ=="
    ensures WellFormed("QQ==") && Base64Decode("QQ==") == Some([0x41])
    ensures WellFormed("QQA=") && Base64Decode("QQA=") == Some([0x41, 0x00])
  {
    var p: seq<byte> := [0x41, 0x00];
    assert Base64Encode(p) == "QQ==" by {
      EncodeWithTail(p, [0x41, 0, 0]);
      assert p[..0] == [];
      assert Sextets(0x41, 0, 0) == [16, 16, 0, 0];
    }
    assert p[..1] == [0x41];
    RoundTripOfTwo(p, 0);
    DecodeTwoSymbols();
  }

  lemma DecodeTwoSymbols()
    ensures WellFormed("QQA=") && Base64Decode("QQA=") == Some([0x41, 0x00])
  {
    var p: seq<byte> := [0x41, 0x00];
    StandardTailExample();
    Base64DecodesStandardPadding(p);
    assert p[..0] == [];
    assert ToSymbols(FullSextets([])) == [];
    assert [] + "QQA=" == "QQA=";
  }

  lemma StandardTailExample()
    ensures StandardTail(0x41, 0) == "QQA="
  {
    StandardTailOfZero(0x41);
    SymbolsOfExample(0x41);
  }

  /** The standard final group of a byte followed by a zero byte. */
  lemma StandardTailOfZero(b0: byte)
    ensures StandardTail(b0, 0) == [Base64Symbol(b0 / 4), Base64Symbol(b0 % 4 * 16), 'A', Pad]
  {
    var v := Sextets(b0, 0, 0);
    assert v[1] == b0 % 4 * 16 && v[2] == 0;
  }

  lemma SymbolsOfExample(b0: byte)
    requires b0 == 0x41
    ensures [Base64Symbol(b0 / 4), Base64Symbol(b0 % 4 * 16), 'A', Pad] == "QQA="
  {
    assert b0 / 4 == 16;
    assert b0 % 4 == 1;
  }

  /** A padded group on its own decodes to its tail bytes. */
  lemma DecodeLoneGroup(s: seq<char>, k: nat)
    requires |s| == 4 && 1 <= k <= 2 && TrailingCount(s, Pad) == k
    ensures WellFormed(s) && Base64Decode(s) == Some(TailBytes(s, k))
  {
    var none: seq<byte> := [];
    var vs := FullSextets(none);
    assert |vs| == 0;
    assert ToSymbols(vs) + s == s;
    DecodeWithTail(none, s, k);
    assert none + TailBytes(s, k) == TailBytes(s, k);
  }

  /** Every symbol of an encoding is a table symbol, except the final group's
      first, third and fourth symbols, which are `'='` exactly when their
      value is zero: the fourth always is, and the third is for a one-byte
      final group. */
  lemma Base64EncodeAlphabet(p: seq<byte>)
    ensures forall i | 0 <= i < |p| / 3 * 4 :: Base64Encode(p)[i] in Base64Table
    ensures |p| % 3 != 0 ==>
      var e, b0 := Base64Encode(p), p[|p| - |p| % 3];
      |e| == |p| / 3 * 4 + 4 && e[|e| - 3] in Base64Table && e[|e| - 1] == Pad &&
      (e[|e| - 4] == Pad <==> b0 < 4) &&
      (|p| % 3 == 1 ==> e[|e| - 2] == Pad) &&
      (|p| % 3 == 2 ==> (e[|e| - 2] == Pad <==> p[|p| - 1] % 16 == 0))
  {
    EncodeGroupsInTable(p);
    if |p| % 3 != 0 {
      EncodeTailShape(p);
    }
  }

  lemma EncodeGroupsInTable(p: seq<byte>)
    ensures forall i | 0 <= i < |p| / 3 * 4 :: Base64Encode(p)[i] in Base64Table
  {
    var n, ending := |p|, |p| % 3;
    var vs := FullSextets(p[..n - ending]);
    Base64SymbolIsEntry();
    Base64EncodeLength(p);
    assert forall i | 0 <= i < |vs| :: Base64Encode(p)[i] == Base64Table[vs[i]];
  }

  lemma EncodeTailShape(p: seq<byte>)
    requires |p| % 3 != 0
    ensures
      var e, b0 := Base64Encode(p), p[|p| - |p| % 3];
      |e| == |p| / 3 * 4 + 4 && e[|e| - 3] in Base64Table && e[|e| - 1] == Pad &&
      (e[|e| - 4] == Pad <==> b0 < 4) &&
      (|p| % 3 == 1 ==> e[|e| - 2] == Pad) &&
      (|p| % 3 == 2 ==> (e[|e| - 2] == Pad <==> p[|p| - 1] % 16 == 0))
  {
    var n, ending := |p|, |p| % 3;
    QuotientUnique(n - ending, 3, n / 3, 0);
    var b0, b1: byte := p[n - ending], if ending == 2 then p[n - 1] else 0;
    var head := ToSymbols(FullSextets(p[..n - ending]));
    var tail := TailSymbols(b0, b1, 0);
    var e := Base64Encode(p);
    assert e == head + tail by {
      EncodeWithTail(p, [b0, b1, 0]);
    }
    Base64EncodeLength(p);
    assert e[|e| - 4..] == tail;
    var v := Sextets(b0, b1, 0);
    assert Base64Symbol(v[1]) in Base64Table by {
      Base64SymbolIsEntry();
    }
    PadIfAIsPad(v[0]);
    PadIfAIsPad(v[2]);
    PadIfAIsPad(v[3]);
    assert v[0] == 0 <==> b0 < 4 by {
      if b0 >= 4 {
        QuotientUnique(b0, 4, b0 / 4, b0 % 4);
      }
    }
    QuotientUnique(v[2], 4, b1 % 16, 0);
  }

  /** `base64decode` fails exactly when a symbol before the final padded
      group is not in the table. */
  lemma Base64DecodeRejects(s: seq<char>)
    requires WellFormed(s)
    ensures Base64Decode(s).None? <==> exists i :: 0 <= i < CopyLength(s) && s[i] !in Base64Table
  {
    var c := CopyLength(s);
    assert forall i | 0 <= i < c :: s[..c][i] == s[i];
  }

  /** A fill call rejects a string, well formed or not, exactly when a
      symbol before the final padded group is outside the table. */
  lemma ValidPrefixRejects(s: seq<char>)
    requires Sized(s)
    ensures !ValidPrefix(s) <==> exists i :: 0 <= i < CopyLength(s) && s[i] !in Base64Table
  {
    var c := CopyLength(s);
    assert forall i | 0 <= i < c :: s[..c][i] == s[i];
  }

  /** A malformed string a fill call rejects before writing: five trailing
      `'='`s, one of them inside the copied part. */
  lemma OverPaddedRejected()
    ensures Sized("AAA=====") && !WellFormed("AAA=====") && !ValidPrefix("AAA=====")
  {
    var s := "AAA=====";
    assert s[2] != Pad && s[3] == s[4] == s[5] == s[6] == s[7] == Pad;
    assert TrailingCount(s, Pad) == 5;
    assert s[3] !in Base64Table by {
      Base64TableFacts();
    }
    ValidPrefixRejects(s);
  }

  /** A malformed string a fill call rejects before writing: a length that
      is not a multiple of four, with a symbol outside the table. */
  lemma ShortGroupRejected()
    ensures Sized("AAAA!") && !WellFormed("AAAA!") && !ValidPrefix("AAAA!")
  {
    var t := "AAAA!";
    assert t[4] != Pad;
    assert TrailingCount(t, Pad) == 0;
    assert t[4] !in Base64Table by {
      Base64ValueIsIndex('!');
    }
    ValidPrefixRejects(t);
  }

  /** In the final padded group, a symbol outside the table is read as `'A'`
      (value zero) instead of being rejected. */
  lemma FinalGroupLenient(s: seq<char>, i: nat, c: char)
    requires WellFormed(s) && TrailingCount(s, Pad) >= 1
    requires |s| - 4 <= i < |s| - TrailingCount(s, Pad)
    requires c != Pad && c !in Base64Table
    ensures WellFormed(s[i := c]) && WellFormed(s[i := 'A'])
    ensures Base64Decode(s[i := c]) == Base64Decode(s[i := 'A'])
  {
    var k := TrailingCount(s, Pad);
    var s1, s2 := s[i := c], s[i := 'A'];
    ReplaceKeepsPadding(s, i, c);
    ReplaceKeepsPadding(s, i, 'A');
    EndValueOutside(c);
    assert forall j | |s| - 4 <= j < |s| :: EndValue(s1[j]) == EndValue(s2[j]);
    SameFinalValues(s1, s2);
  }

  /** Replacing a symbol before the padding by one that is not `'='` keeps
      the padding. */
  lemma ReplaceKeepsPadding(s: seq<char>, i: nat, c: char)
    requires WellFormed(s) && i < |s| - TrailingCount(s, Pad) && c != Pad
    ensures WellFormed(s[i := c]) && TrailingCount(s[i := c], Pad) == TrailingCount(s, Pad)
  {
    TrailingCountIs(s[i := c], Pad, TrailingCount(s, Pad));
  }

  /** Two padded inputs that agree before their final group, and whose final
      group symbols have the same values, decode alike. */
  lemma SameFinalValues(s1: seq<char>, s2: seq<char>)
    requires WellFormed(s1) && WellFormed(s2) && |s1| == |s2| >= 4
    requires TrailingCount(s1, Pad) == TrailingCount(s2, Pad) >= 1
    requires s1[..|s1| - 4] == s2[..|s2| - 4]
    requires forall j | |s1| - 4 <= j < |s1| :: EndValue(s1[j]) == EndValue(s2[j])
    ensures Base64Decode(s1) == Base64Decode(s2)
  {
    var n := |s1|;
    var l1, l2 := s1[n - 4..], s2[n - 4..];
    assert forall j | 0 <= j < 4 :: EndValue(l1[j]) == EndValue(l2[j]) by {
      forall j | 0 <= j < 4
        ensures EndValue(l1[j]) == EndValue(l2[j])
      {
        assert l1[j] == s1[n - 4 + j] && l2[j] == s2[n - 4 + j];
      }
    }
    var k := TrailingCount(s1, Pad);
    assert CopyLength(s1) == n - 4 == CopyLength(s2);
    assert TailBytes(l1, k) == TailBytes(l2, k);
  }
}
