/** Base 64 (`base64encode`, `base64decode` in src/codec/base.c): three
    bytes become four 6-bit values, each written as a symbol of the standard
    alphabet of RFC 4648; a final group of one or two bytes is padded.

    The final group follows the code, not section 4 of RFC 4648: the encoder
    writes `'='` in place of the first, third and fourth symbol whenever that
    symbol would be `'A'` (value zero), and the decoder counts every trailing
    `'='` as padding and reads a final-group symbol outside the table as
    zero.

    Shifts and masks on bytes are written as division and remainder by
    powers of two, and `|` of two values whose bits do not overlap as `+`. */
module Base64 {
  import opened Common
  import opened Tables

  /** The four 6-bit values `base64encode` slices from three bytes:
      `b0 >> 2`, `((b0 & 0x03) << 4) | (b1 >> 4)`,
      `((b1 & 0x0f) << 2) | (b2 >> 6)` and `b2 & 0x3f`. */
  function Sextets(b0: byte, b1: byte, b2: byte): seq<nat>
  {
    [b0 / 4, b0 % 4 * 16 + b1 / 16, b1 % 16 * 4 + b2 / 64, b2 % 64]
  }

  /** The three bytes `base64decode` assembles from four 6-bit values:
      `(v0 << 2) | ((v1 & 0x30) >> 4)`, `((v1 & 0x0F) << 4) | ((v2 & 0x3C) >> 2)`
      and `((v2 & 0x03) << 6) | (v3 & 0x3F)`. */
  function Octets(v0: nat, v1: nat, v2: nat, v3: nat): seq<byte>
  {
    [(v0 * 4 + v1 / 16 % 4) % 256, v1 % 16 * 16 + v2 / 4 % 16, v2 % 4 * 64 + v3 % 64]
  }

  /** The 6-bit values of a payload made of whole groups, in order. */
  function FullSextets(p: seq<byte>): (vs: seq<nat>)
    requires |p| % 3 == 0
    ensures |vs| == |p| / 3 * 4
    ensures forall i | 0 <= i < |vs| :: vs[i] < 64
    decreases |p|
  {
    if |p| == 0 then []
    else FullSextets(p[..|p| - 3]) + Sextets(p[|p| - 3], p[|p| - 2], p[|p| - 1])
  }

  /** The bytes of a sequence of whole groups of 6-bit values, in order. */
  function FullOctets(vs: seq<nat>): (bs: seq<byte>)
    requires |vs| % 4 == 0
    ensures |bs| == |vs| / 4 * 3
    decreases |vs|
  {
    if |vs| == 0 then []
    else
      var k := |vs| - 4;
      FullOctets(vs[..k]) + Octets(vs[k], vs[k + 1], vs[k + 2], vs[k + 3])
  }

  /** The table symbols of a sequence of 6-bit values. */
  function ToSymbols(vs: seq<nat>): seq<char>
    requires forall i | 0 <= i < |vs| :: vs[i] < 64
  {
    seq(|vs|, i requires 0 <= i < |vs| => Base64Symbol(vs[i]))
  }

  /** A symbol of the final group as `base64encode` writes the first, third
      and fourth: `'='` when the table gives `'A'`. */
  function PadIfA(v: nat): char
    requires v < 64
  {
    var c := Base64Symbol(v);
    if c == 'A' then Pad else c
  }

  /** The final group of `base64encode`, from its three-byte buffer. */
  function TailSymbols(b0: byte, b1: byte, b2: byte): seq<char>
  {
    var v := Sextets(b0, b1, b2);
    [PadIfA(v[0]), Base64Symbol(v[1]), PadIfA(v[2]), PadIfA(v[3])]
  }

  /** What `base64encode` writes: four symbols per whole group, then, when
      the length is not a multiple of three, the final group of the last one
      or two bytes padded with zero bytes. */
  function Base64Encode(p: seq<byte>): seq<char>
  {
    var n, ending := |p|, |p| % 3;
    ToSymbols(FullSextets(p[..n - ending])) +
      (if ending == 0 then [] else TailSymbols(p[n - ending], if ending == 2 then p[n - 1] else 0, 0))
  }

  /** What a query-mode call of `base64encode` answers. */
  function EncodedLength(n: nat): nat
  {
    if n % 3 != 0 then n / 3 * 4 + 4 else n / 3 * 4
  }

  /** The encoding has four symbols per started group of three bytes, the
      number a query answers. */
  lemma Base64EncodeLength(p: seq<byte>)
    ensures |Base64Encode(p)| == EncodedLength(|p|) == (|p| + 2) / 3 * 4
  {
    var n, ending := |p|, |p| % 3;
    var q := n / 3;
    assert n - ending == 3 * q;
    assert (n + 2) / 3 == if ending == 0 then q else q + 1;
    assert |FullSextets(p[..n - ending])| == 4 * q;
  }

  /** The inputs the decoder handles: whole groups of four symbols, at most
      two of them trailing `'='`s. */
  predicate WellFormed(s: seq<char>)
  {
    |s| % 4 == 0 && TrailingCount(s, Pad) <= 2
  }

  /** What a query-mode call of `base64decode` answers: computed from the
      length and the number of trailing `'='`s only. */
  function DecodedLength(s: seq<char>): nat
    requires WellFormed(s)
  {
    var ending := TrailingCount(s, Pad);
    if ending != 0 then (|s| - 4) / 4 * 3 + 3 - ending else |s| / 4 * 3
  }

  /** The value `base64decode` uses for a symbol of the final group: its
      position in the table, or zero when it is not in the table. */
  function EndValue(c: char): (v: nat)
    ensures v < 64
  {
    match Base64Value(c)
    case None => 0
    case Some(j) => j
  }

  /** The bytes of the final group of four symbols, of which the last
      `ending` (one or two) are padding: only the others are looked up. */
  function TailBytes(last: seq<char>, ending: nat): seq<byte>
    requires |last| == 4 && 1 <= ending <= 2
  {
    var v2 := if ending == 1 then EndValue(last[2]) else 0;
    Octets(EndValue(last[0]), EndValue(last[1]), v2, 0)[..3 - ending]
  }

  /** The inputs for which the decoder's copy length is not negative: no
      trailing `'='`, or at least one group of four symbols. */
  predicate Sized(s: seq<char>)
  {
    TrailingCount(s, Pad) == 0 || |s| >= 4
  }

  /** Number of symbols before the final padded group. */
  function CopyLength(s: seq<char>): nat
    requires Sized(s)
  {
    if TrailingCount(s, Pad) == 0 then |s| else |s| - 4
  }

  /** Every symbol before the final padded group is in the table: what the
      decoder's validation loop checks. */
  predicate ValidPrefix(s: seq<char>)
    requires Sized(s)
  {
    DigitValues(Base64Table, s[..CopyLength(s)]).Some?
  }

  /** What `base64decode` writes, or `None` for the error sentinel: every
      symbol before the final padded group must be in the table. */
  function Base64Decode(s: seq<char>): Option<seq<byte>>
    requires WellFormed(s)
  {
    var ending := TrailingCount(s, Pad);
    var copyLen := CopyLength(s);
    match DigitValues(Base64Table, s[..copyLen])
    case None => None
    case Some(vs) =>
      SymbolsOfDigitValues(Base64Table, s[..copyLen]);
      Base64TableSize();
      Some(FullOctets(vs) + (if ending == 0 then [] else TailBytes(s[copyLen..], ending)))
  }

  /** The symbols before the final padded group form whole groups, and a
      decoding has the length a query answers. */
  lemma Base64DecodeLength(s: seq<char>)
    requires WellFormed(s)
    ensures CopyLength(s) % 4 == 0
    ensures Base64Decode(s).Some? ==> |Base64Decode(s).value| == DecodedLength(s)
  {
  }

  /** Appending a group appends its values. */
  lemma FullSextetsSnoc(p: seq<byte>, i: nat)
    requires i % 3 == 0 && i + 3 <= |p|
    ensures FullSextets(p[..i + 3]) == FullSextets(p[..i]) + Sextets(p[i], p[i + 1], p[i + 2])
  {
    assert p[..i + 3][..i] == p[..i];
  }

  /** Appending a group of values appends its bytes. */
  lemma FullOctetsSnoc(vs: seq<nat>, i: nat)
    requires i % 4 == 0 && i + 4 <= |vs|
    ensures FullOctets(vs[..i + 4]) == FullOctets(vs[..i]) + Octets(vs[i], vs[i + 1], vs[i + 2], vs[i + 3])
  {
    assert vs[..i + 4][..i] == vs[..i];
  }

  /** One pass of the encoder's group loop appends four symbols. */
  lemma EncodeStep(p: seq<byte>, i: nat)
    requires i % 3 == 0 && i + 3 <= |p|
    ensures ToSymbols(FullSextets(p[..i + 3])) ==
            ToSymbols(FullSextets(p[..i])) + ToSymbols(Sextets(p[i], p[i + 1], p[i + 2]))
  {
    FullSextetsSnoc(p, i);
  }

  /** One pass of the encoder's group loop: the symbols of the three bytes
      from `i` on, written from `num` on. */
  method EncodeGroup(p: seq<byte>, i: nat, num: nat, encoded: array<char>)
    requires i + 3 <= |p| && num + 4 <= encoded.Length
    modifies encoded
    ensures encoded[..num + 4] == old(encoded[..num]) + ToSymbols(Sextets(p[i], p[i + 1], p[i + 2]))
    ensures encoded[num + 4..] == old(encoded[num + 4..])
  {
    encoded[num] := Base64Symbol(p[i] / 4);
    encoded[num + 1] := Base64Symbol(p[i] % 4 * 16 + p[i + 1] / 16);
    encoded[num + 2] := Base64Symbol(p[i + 1] % 16 * 4 + p[i + 2] / 64);
    encoded[num + 3] := Base64Symbol(p[i + 2] % 64);
    assert encoded[..num + 4] == encoded[..num] + encoded[num..num + 4];
  }

  /** The encoder's group loop: symbols for the whole groups of `p`. */
  method EncodeGroups(p: seq<byte>, full: nat, encoded: array<char>)
    requires full % 3 == 0 && full <= |p| && full / 3 * 4 <= encoded.Length
    modifies encoded
    ensures encoded[..full / 3 * 4] == ToSymbols(FullSextets(p[..full]))
    ensures encoded[full / 3 * 4..] == old(encoded[full / 3 * 4..])
  {
    ghost var groups := full / 3;
    assert full == 3 * groups;
    var i := 0;
    ghost var g := 0;
    while i < full
      invariant i == 3 * g && g <= groups
      invariant encoded[..4 * g] == ToSymbols(FullSextets(p[..i]))
      invariant encoded[4 * g..] == old(encoded[4 * g..])
    {
      var num := i + i / 3;
      assert num == 4 * g;
      ghost var prev := encoded[..];
      EncodeGroup(p, i, num, encoded);
      EncodeStep(p, i);
      SuffixAgrees(prev, old(encoded[..]), num, num + 4);
      i, g := i + 3, g + 1;
    }
  }

  /** The final group of `base64encode`, written at `start` from its
      three-byte buffer. */
  method EncodeTail(buffer: seq<byte>, start: nat, encoded: array<char>)
    requires |buffer| == 3 && start + 4 <= encoded.Length
    modifies encoded
    ensures encoded[..start + 4] == old(encoded[..start]) + TailSymbols(buffer[0], buffer[1], buffer[2])
    ensures encoded[start + 4..] == old(encoded[start + 4..])
  {
    var c0 := Base64Symbol(buffer[0] / 4);
    encoded[start] := if c0 == 'A' then Pad else c0;
    encoded[start + 1] := Base64Symbol(buffer[0] % 4 * 16 + buffer[1] / 16);
    var c2 := Base64Symbol(buffer[1] % 16 * 4 + buffer[2] / 64);
    encoded[start + 2] := if c2 == 'A' then Pad else c2;
    var c3 := Base64Symbol(buffer[2] % 64);
    encoded[start + 3] := if c3 == 'A' then Pad else c3;
    assert encoded[..start + 4] == encoded[..start] + encoded[start..start + 4];
  }

  /** The zeroed three-byte buffer of `base64encode` with the last `ending`
      bytes copied in. */
  method TailBuffer(p: seq<byte>, ending: nat) returns (buffer: seq<byte>)
    requires 1 <= ending <= 2 && ending <= |p|
    ensures buffer == [p[|p| - ending], if ending == 2 then p[|p| - 1] else 0, 0]
  {
    var n := |p|;
    buffer := [0, 0, 0];
    for i := 0 to ending
      invariant |buffer| == 3
      invariant forall k | 0 <= k < i :: buffer[k] == p[n - ending + k]
      invariant forall k | i <= k < 3 :: buffer[k] == 0
    {
      buffer := buffer[i := p[n - ending + i]];
    }
  }

  /** `base64encode`: a query answers four symbols per started group; a fill
      call writes the whole groups, then the final group. */
  method Base64EncodeCall(payload: seq<byte>, encoded: array?<char>) returns (st: Status)
    requires encoded != null ==> encoded.Length >= |Base64Encode(payload)|
    modifies encoded
    ensures encoded == null ==> st == Len(EncodedLength(|payload|))
    ensures encoded != null ==> st == Ok
    ensures encoded != null ==>
      var e := Base64Encode(payload);
      encoded[..|e|] == e && encoded[|e|..] == old(encoded[|e|..])
  {
    var n := |payload|;
    var ending := n % 3;
    if encoded == null {
      if ending != 0 {
        return Len(n / 3 * 4 + 4);
      } else {
        return Len(n / 3 * 4);
      }
    }
    EncodeFill(payload, encoded);
    return Ok;
  }

  /** The encoding of a payload whose length is not a multiple of three:
      the whole groups, then the final group from the zero-padded buffer. */
  lemma EncodeWithTail(p: seq<byte>, buffer: seq<byte>)
    requires |p| % 3 != 0
    requires buffer == [p[|p| - |p| % 3], if |p| % 3 == 2 then p[|p| - 1] else 0, 0]
    ensures Base64Encode(p) ==
            ToSymbols(FullSextets(p[..|p| - |p| % 3])) + TailSymbols(buffer[0], buffer[1], buffer[2])
  {
  }

  /** The encoding of a payload of whole groups. */
  lemma EncodeWhole(p: seq<byte>)
    requires |p| % 3 == 0
    ensures Base64Encode(p) == ToSymbols(FullSextets(p))
  {
    assert p[..|p|] == p;
  }

  /** Where `base64encode` writes: the whole groups end at
      `full / 3 + full`, which is where the final group starts. */
  lemma FillPositions(n: nat)
    ensures (n - n % 3) % 3 == 0
    ensures (n - n % 3) / 3 + (n - n % 3) == (n - n % 3) / 3 * 4
    ensures (n + 2) / 3 * 4 == (n - n % 3) / 3 * 4 + (if n % 3 == 0 then 0 else 4)
  {
    var q := n / 3;
    assert n - n % 3 == 3 * q;
    assert (3 * q) / 3 == q;
    assert (n + 2) / 3 == if n % 3 == 0 then q else q + 1;
  }

  /** The writing half of `base64encode`. */
  method EncodeFill(payload: seq<byte>, encoded: array<char>)
    requires encoded.Length >= |Base64Encode(payload)|
    modifies encoded
    ensures var e := Base64Encode(payload);
      encoded[..|e|] == e && encoded[|e|..] == old(encoded[|e|..])
  {
    var n := |payload|;
    var ending := n % 3;
    var full := n - ending;
    FillPositions(n);
    Base64EncodeLength(payload);
    ghost var before := encoded[..];
    EncodeGroups(payload, full, encoded);
    if ending != 0 {
      var start := full / 3 + full;
      var buffer := TailBuffer(payload, ending);
      ghost var middle := encoded[..];
      EncodeTail(buffer, start, encoded);
      EncodeWithTail(payload, buffer);
      assert encoded[..start + 4] == Base64Encode(payload);
      SuffixAgrees(middle, before, start, start + 4);
    } else {
      EncodeWhole(payload);
    }
  }

  /** The decoder's scan for trailing `'='`s, from the last symbol back. */
  method CountTrailing(s: seq<char>, x: char) returns (k: nat)
    ensures k == TrailingCount(s, x)
  {
    k := 0;
    while k < |s| && s[|s| - 1 - k] == x
      invariant k <= |s|
      invariant forall j | |s| - k <= j < |s| :: s[j] == x
    {
      k := k + 1;
    }
  }

  /** The decoder's group loop: three bytes for every four values. */
  method DecodeGroups(vs: seq<nat>, decoded: array<byte>)
    requires |vs| % 4 == 0 && |vs| / 4 * 3 <= decoded.Length
    modifies decoded
    ensures decoded[..|vs| / 4 * 3] == FullOctets(vs)
    ensures decoded[|vs| / 4 * 3..] == old(decoded[|vs| / 4 * 3..])
  {
    ghost var groups := |vs| / 4;
    assert |vs| == 4 * groups;
    var i := 0;
    ghost var g := 0;
    while i < |vs|
      invariant i == 4 * g && g <= groups
      invariant decoded[..3 * g] == FullOctets(vs[..i])
      invariant decoded[3 * g..] == old(decoded[3 * g..])
    {
      var num := i - i / 4;
      assert num == 3 * g;
      ghost var prev := decoded[..];
      DecodeGroup(vs, i, num, decoded);
      FullOctetsSnoc(vs, i);
      SuffixAgrees(prev, old(decoded[..]), num, num + 3);
      i, g := i + 4, g + 1;
    }
    assert vs[..|vs|] == vs;
  }

  /** One lookup of the decoder's final group: the symbol's position in
      the table, or zero when the scan runs off the end. */
  method TailValue(c: char) returns (v: nat)
    ensures v == EndValue(c)
  {
    var j := Lookup(Base64Table, c);
    Base64TableSize();
    Base64ValueIsIndex(c);
    v := if j < 64 then j else 0;
  }

  /** One pass of the decoder's group loop: the bytes of the four values
      from `i` on, written from `num` on. */
  method DecodeGroup(vs: seq<nat>, i: nat, num: nat, decoded: array<byte>)
    requires i + 4 <= |vs| && num + 3 <= decoded.Length
    modifies decoded
    ensures decoded[..num + 3] == old(decoded[..num]) + Octets(vs[i], vs[i + 1], vs[i + 2], vs[i + 3])
    ensures decoded[num + 3..] == old(decoded[num + 3..])
  {
    decoded[num] := (vs[i] * 4 + vs[i + 1] / 16 % 4) % 256;
    decoded[num + 1] := vs[i + 1] % 16 * 16 + vs[i + 2] / 4 % 16;
    decoded[num + 2] := vs[i + 2] % 4 * 64 + vs[i + 3] % 64;
    assert decoded[..num + 3] == decoded[..num] + decoded[num..num + 3];
  }

  /** The decoder's final group: the symbols that are not padding are looked
      up, a symbol outside the table counting as zero. */
  method DecodeTail(last: seq<char>, ending: nat, at: nat, decoded: array<byte>)
    requires |last| == 4 && 1 <= ending <= 2 && at + 3 - ending <= decoded.Length
    modifies decoded
    ensures decoded[..at + 3 - ending] == old(decoded[..at]) + TailBytes(last, ending)
    ensures decoded[at + 3 - ending..] == old(decoded[at + 3 - ending..])
  {
    var end: seq<nat> := [0, 0, 0, 0];
    for i := 0 to 4 - ending
      invariant |end| == 4
      invariant forall k | 0 <= k < i :: end[k] == EndValue(last[k])
      invariant forall k | i <= k < 4 :: end[k] == 0
      invariant decoded[..] == old(decoded[..])
    {
      var v := TailValue(last[i]);
      end := end[i := v];
    }
    ghost var t := TailBytes(last, ending);
    assert t[0] == (end[0] * 4 + end[1] / 16 % 4) % 256;
    decoded[at] := (end[0] * 4 + end[1] / 16 % 4) % 256;
    if ending == 1 {
      assert t[1] == end[1] % 16 * 16 + end[2] / 4 % 16;
      decoded[at + 1] := end[1] % 16 * 16 + end[2] / 4 % 16;
      assert decoded[at..at + 2] == [t[0], t[1]];
    } else {
      assert decoded[at..at + 1] == [t[0]];
    }
    assert decoded[..at + 3 - ending] == decoded[..at] + decoded[at..at + 3 - ending];
  }

  /** A decoding is the bytes of the whole groups before the final padded
      group, then the bytes of that group. */
  lemma DecodeParts(s: seq<char>, vs: seq<nat>)
    requires WellFormed(s) && DigitValues(Base64Table, s[..CopyLength(s)]) == Some(vs)
    ensures |vs| == CopyLength(s) && |vs| % 4 == 0
    ensures Base64Decode(s) == Some(DecodedParts(s, vs))
  {
    Base64DecodeLength(s);
    var ending := TrailingCount(s, Pad);
    if ending == 0 {
      var bs := FullOctets(vs);
      assert bs + [] == bs;
    }
  }

  /** The bytes of the whole groups `vs`, then those of the final group of
      `s` when it is padded. */
  function DecodedParts(s: seq<char>, vs: seq<nat>): seq<byte>
    requires WellFormed(s) && |vs| == CopyLength(s) && |vs| % 4 == 0
  {
    var ending := TrailingCount(s, Pad);
    FullOctets(vs) + (if ending == 0 then [] else TailBytes(s[|vs|..], ending))
  }

  /** The writing half of `base64decode`, once every symbol before the
      final padded group has been found in the table. */
  method DecodeFill(s: seq<char>, ending: nat, vs: seq<nat>, decoded: array<byte>)
    requires WellFormed(s) && ending == TrailingCount(s, Pad)
    requires |vs| == CopyLength(s) && |vs| % 4 == 0
    requires decoded.Length >= |DecodedParts(s, vs)|
    modifies decoded
    ensures var v := DecodedParts(s, vs);
      decoded[..|v|] == v && decoded[|v|..] == old(decoded[|v|..])
  {
    var copyLen := |vs|;
    ghost var groups := copyLen / 4;
    assert copyLen == 4 * groups;
    var at := copyLen - copyLen / 4;
    assert at == |vs| / 4 * 3;
    ghost var before := decoded[..];
    ghost var head := FullOctets(vs);
    DecodeGroups(vs, decoded);
    if ending != 0 {
      ghost var middle := decoded[..];
      ghost var tail := TailBytes(s[copyLen..], ending);
      DecodeTail(s[copyLen..], ending, at, decoded);
      assert decoded[..at + 3 - ending] == head + tail;
      SuffixAgrees(middle, before, at, at + 3 - ending);
    } else {
      assert DecodedParts(s, vs) == head + [];
    }
  }

  /** `base64decode`: the length is answered before any symbol is checked;
      a fill call validates the symbols before the final group, then writes
      the whole groups and the final group. */
  method Base64DecodeCall(s: seq<char>, decoded: array?<byte>) returns (st: Status)
    requires decoded == null ==> WellFormed(s)
    requires decoded != null ==> Sized(s) && (ValidPrefix(s) ==> WellFormed(s))
    requires decoded != null && WellFormed(s) && Base64Decode(s).Some? ==> decoded.Length >= |Base64Decode(s).value|
    modifies decoded
    ensures decoded == null ==> st == Len(DecodedLength(s))
    ensures decoded != null ==> st == (if ValidPrefix(s) then Ok else Err)
    ensures decoded != null && st == Ok ==>
      WellFormed(s) && Base64Decode(s).Some? &&
      var v := Base64Decode(s).value;
      decoded[..|v|] == v && decoded[|v|..] == old(decoded[|v|..])
    ensures st == Err ==> decoded != null && decoded[..] == old(decoded[..])
  {
    var n := |s|;
    var ending := CountTrailing(s, Pad);
    var decodedLen := if ending != 0 then (n - 4) / 4 * 3 + 3 - ending else n / 4 * 3;
    if decoded == null {
      return Len(decodedLen);
    }
    var copyLen := if ending == 0 then n else n - 4;
    var r := Validate(Base64Table, s[..copyLen]);
    if r.None? {
      return Err;
    }
    DecodeParts(s, r.value);
    DecodeFill(s, ending, r.value, decoded);
    return Ok;
  }
}
