/** The word-width converters of src/codec/base.c: `base2p8_to_base2p32`
    and `base2p16_to_base2p32` pack narrow elements into little-endian lanes
    of a 32-bit word, `base2p32_to_base2p8` and `base2p32_to_base2p16` unpack
    words into narrow elements. A packing drops its final partial lane when
    the elements in it are all zero; an unpacking drops the high elements of
    the last word that are zero. Both follow the two-phase protocol: without
    an output buffer they answer the length, with one they fill it. */
module WordWidth {
  import opened Common

  /* ---------- 8-bit elements ---------- */

  /** The byte at `i`, or zero past the end: a partial final group is
      completed by the zero bytes of `memset`. */
  function ByteAt(b: seq<byte>, i: nat): byte
  {
    if i < |b| then b[i] else 0
  }

  /** The weight of byte `k` in its lane: `1 << (8 * k)`. */
  function Weight8(k: nat): nat
    requires k < 4
  {
    if k == 0 then 1 else if k == 1 then 0x100 else if k == 2 then 0x1_0000 else 0x100_0000
  }

  /** Lane `j` of packed bytes: bytes `4j` to `4j + 3`, least significant
      first. */
  function Lane8(b: seq<byte>, j: nat): u32
  {
    ByteAt(b, 4 * j) + 0x100 * ByteAt(b, 4 * j + 1) +
      0x1_0000 * ByteAt(b, 4 * j + 2) + 0x100_0000 * ByteAt(b, 4 * j + 3)
  }

  /** The bytes of the partial final group, if there is one, are all zero. */
  predicate ZeroRemainder8(b: seq<byte>)
  {
    forall i | |b| - |b| % 4 <= i < |b| :: b[i] == 0
  }

  /** What a query-mode call of `base2p8_to_base2p32` answers: one word per
      started group of four bytes, less one when the partial final group is
      all zero. */
  function Packed8Length(b: seq<byte>): nat
  {
    var remain := |b| % 4;
    var len := |b| / 4 + (if remain != 0 then 1 else 0);
    if remain != 0 && ZeroRemainder8(b) then len - 1 else len
  }

  /** What `base2p8_to_base2p32` writes. */
  function Pack8(b: seq<byte>): seq<u32>
  {
    seq(Packed8Length(b), j requires 0 <= j => Lane8(b, j))
  }

  /** Byte `k` of a word, as the shifts of `base2p32_to_base2p8` extract
      it: `x << 24 >> 24`, `x << 16 >> 24`, `x << 8 >> 24` and `x >> 24`. */
  function OctetOf(x: u32, k: nat): byte
    requires k < 4
  {
    if k == 0 then x % 0x100
    else if k == 1 then x / 0x100 % 0x100
    else if k == 2 then x / 0x1_0000 % 0x100
    else x / 0x100_0000
  }

  /** The number of bytes of a word up to its highest nonzero one. */
  function Significant8(x: u32): nat
  {
    if x == 0 then 0
    else if x < 0x100 then 1
    else if x < 0x1_0000 then 2
    else if x < 0x100_0000 then 3
    else 4
  }

  /** What a query-mode call of `base2p32_to_base2p8` answers: four bytes
      per word, less the high bytes of the last word that are zero. */
  function Unpacked8Length(w: seq<u32>): nat
    requires |w| >= 1
  {
    var last := w[|w| - 1];
    var len := |w| * 4;
    if last == 0 then len - 4
    else if last < 0x100 then len - 3
    else if last < 0x1_0000 then len - 2
    else if last < 0x100_0000 then len - 1
    else len
  }

  /** What `base2p32_to_base2p8` writes. */
  function Unpack8(w: seq<u32>): seq<byte>
    requires |w| >= 1
  {
    seq(Unpacked8Length(w), i requires 0 <= i < Unpacked8Length(w) => OctetOf(w[i / 4], i % 4))
  }

  /* ---------- 16-bit elements ---------- */

  /** The 16-bit element at `i`, or zero past the end. */
  function HalfAt(h: seq<u16>, i: nat): u16
  {
    if i < |h| then h[i] else 0
  }

  /** The weight of element `k` in its lane: `1 << (16 * k)`. */
  function Weight16(k: nat): nat
    requires k < 2
  {
    if k == 0 then 1 else 0x1_0000
  }

  /** Lane `j` of packed 16-bit elements: elements `2j` and `2j + 1`, least
      significant first. */
  function Lane16(h: seq<u16>, j: nat): u32
  {
    HalfAt(h, 2 * j) + 0x1_0000 * HalfAt(h, 2 * j + 1)
  }

  /** What a query-mode call of `base2p16_to_base2p32` answers: one word per
      started pair, less one when an odd final element is zero. */
  function Packed16Length(h: seq<u16>): nat
  {
    var remain := |h| % 2;
    var len := |h| / 2 + remain;
    if remain != 0 && h[|h| - 1] == 0 then len - 1 else len
  }

  /** What `base2p16_to_base2p32` writes. */
  function Pack16(h: seq<u16>): seq<u32>
  {
    seq(Packed16Length(h), j requires 0 <= j => Lane16(h, j))
  }

  /** Element `k` of a word, as `base2p32_to_base2p16` extracts it:
      `x << 16 >> 16` and `x >> 16`. */
  function HalfOf(x: u32, k: nat): u16
    requires k < 2
  {
    if k == 0 then x % 0x1_0000 else x / 0x1_0000
  }

  /** The number of elements of a word up to its highest nonzero one. */
  function Significant16(x: u32): nat
  {
    if x == 0 then 0 else if x < 0x1_0000 then 1 else 2
  }

  /** What a query-mode call of `base2p32_to_base2p16` answers: two elements
      per word, less the high elements of the last word that are zero. */
  function Unpacked16Length(w: seq<u32>): nat
    requires |w| >= 1
  {
    var last := w[|w| - 1];
    var len := |w| * 2;
    if last == 0 then len - 2
    else len - (if last < 0x1_0000 then 1 else 0)
  }

  /** What `base2p32_to_base2p16` writes. */
  function Unpack16(w: seq<u32>): seq<u16>
    requires |w| >= 1
  {
    seq(Unpacked16Length(w), i requires 0 <= i < Unpacked16Length(w) => HalfOf(w[i / 2], i % 2))
  }

  /* ---------- the packing step ---------- */

  /** Adding byte `i` to the packed prefix changes only its own lane, by
      the byte shifted to its place. */
  lemma LaneStep8(b: seq<byte>, i: nat, j: nat)
    requires i < |b|
    ensures Lane8(b[..i + 1], j) ==
            Lane8(b[..i], j) + (if j == i / 4 then b[i] * Weight8(i % 4) else 0)
  {
    var p, q := b[..i], b[..i + 1];
    assert forall k :: k != i ==> ByteAt(q, k) == ByteAt(p, k);
    assert ByteAt(q, i) == b[i] && ByteAt(p, i) == 0;
  }

  /** Adding element `i` to the packed prefix changes only its own lane. */
  lemma LaneStep16(h: seq<u16>, i: nat, j: nat)
    requires i < |h|
    ensures Lane16(h[..i + 1], j) ==
            Lane16(h[..i], j) + (if j == i / 2 then h[i] * Weight16(i % 2) else 0)
  {
    var p, q := h[..i], h[..i + 1];
    assert forall k :: k != i ==> HalfAt(q, k) == HalfAt(p, k);
    assert HalfAt(q, i) == h[i] && HalfAt(p, i) == 0;
  }

  /* ---------- the calls ---------- */

  /** The `memset` of every converter: the first `len` cells become zero. */
  method ZeroFill<T>(a: array<T>, len: nat, zero: T)
    requires len <= a.Length
    modifies a
    ensures forall k | 0 <= k < len :: a[k] == zero
    ensures a[len..] == old(a[len..])
  {
    for k := 0 to len
      invariant forall k' | 0 <= k' < k :: a[k'] == zero
      invariant a[len..] == old(a[len..])
    {
      a[k] := zero;
    }
  }

  /** The sizing step of `base2p8_to_base2p32`: one word per started group
      of four bytes, less one when the bytes of the partial final group are
      all zero. */
  method Packed8LengthScan(payload: seq<byte>) returns (convertedLen: nat)
    ensures convertedLen == Packed8Length(payload)
  {
    var n := |payload|;
    var remain := n % 4;
    convertedLen := n / 4 + (if remain != 0 then 1 else 0);
    var i := 0;
    while i < remain && payload[n - remain + i] == 0
      invariant 0 <= i <= remain
      invariant forall k | n - remain <= k < n - remain + i :: payload[k] == 0
    {
      i := i + 1;
    }
    if i == remain && remain != 0 {
      convertedLen := convertedLen - 1;
    }
  }

  /** `base2p8_to_base2p32`: sizes the output, then clears the words and
      adds every byte into its lane. */
  method Base2p8ToBase2p32Call(payload: seq<byte>, converted: array?<u32>) returns (st: Status)
    requires converted != null ==> converted.Length >= |Pack8(payload)|
    modifies converted
    ensures converted == null ==> st == Len(|Pack8(payload)|)
    ensures converted != null ==> st == Ok
    ensures converted != null ==>
      var w := Pack8(payload);
      converted[..|w|] == w && converted[|w|..] == old(converted[|w|..])
  {
    var convertedLen := Packed8LengthScan(payload);
    if converted == null {
      return Len(convertedLen);
    }
    ZeroFill(converted, convertedLen, 0);
    for i := 0 to |payload|
      invariant forall j | 0 <= j < convertedLen :: converted[j] == Lane8(payload[..i], j)
      invariant converted[convertedLen..] == old(converted[convertedLen..])
    {
      var j := i / 4;
      if j < convertedLen {
        LaneStep8(payload, i, j);
        converted[j] := converted[j] + payload[i] * Weight8(i % 4);
      }
      forall j' | 0 <= j' < convertedLen
        ensures converted[j'] == Lane8(payload[..i + 1], j')
      {
        LaneStep8(payload, i, j');
      }
    }
    assert payload[..|payload|] == payload;
    return Ok;
  }

  /** One pass of the loop of `base2p32_to_base2p8`: the bytes of word `x`
      from position `at` on, all four except, in the last word (`final`),
      those above the highest nonzero byte of `last`. */
  method StoreOctets(a: array<byte>, at: nat, x: u32, final: bool, last: u32)
    requires final ==> x == last
    requires at + (if final then Significant8(last) else 4) <= a.Length
    modifies a
    ensures var keep := if final then Significant8(last) else 4;
      a[..at] == old(a[..at]) && a[at + keep..] == old(a[at + keep..]) &&
      forall k | 0 <= k < keep :: a[at + k] == OctetOf(x, k)
  {
    if !(final && last == 0) {
      a[at] := x % 0x100;
    }
    if !(final && last < 0x100) {
      a[at + 1] := x / 0x100 % 0x100;
    }
    if !(final && last < 0x1_0000) {
      a[at + 2] := x / 0x1_0000 % 0x100;
    }
    if !(final && last < 0x100_0000) {
      a[at + 3] := x / 0x100_0000;
    }
  }

  /** `base2p32_to_base2p8`: sizes the output from the last word, then
      writes the four bytes of every word except, in the last word, the
      high bytes that are zero. */
  method Base2p32ToBase2p8Call(payload: seq<u32>, converted: array?<byte>) returns (st: Status)
    requires |payload| >= 1
    requires converted != null ==> converted.Length >= Unpacked8Length(payload)
    modifies converted
    ensures converted == null ==> st == Len(Unpacked8Length(payload))
    ensures converted != null ==> st == Ok
    ensures converted != null ==>
      var b := Unpack8(payload);
      converted[..|b|] == b && converted[|b|..] == old(converted[|b|..])
  {
    var m := |payload|;
    var last := payload[m - 1];
    var convertedLen := m * 4;
    if last == 0 {
      convertedLen := convertedLen - 4;
    } else if last < 0x100 {
      convertedLen := convertedLen - 3;
    } else if last < 0x1_0000 {
      convertedLen := convertedLen - 2;
    } else if last < 0x100_0000 {
      convertedLen := convertedLen - 1;
    }
    if converted == null {
      return Len(convertedLen);
    }
    assert convertedLen == 4 * (m - 1) + Significant8(last);
    ZeroFill(converted, convertedLen, 0);
    for i := 0 to m
      invariant forall k | 0 <= k < convertedLen && k < 4 * i :: converted[k] == OctetOf(payload[k / 4], k % 4)
      invariant converted[convertedLen..] == old(converted[convertedLen..])
    {
      ghost var before := converted[..];
      StoreOctets(converted, i * 4, payload[i], i == m - 1, last);
      forall k | 0 <= k < convertedLen && k < 4 * (i + 1)
        ensures converted[k] == OctetOf(payload[k / 4], k % 4)
      {
        if k < 4 * i {
          assert converted[k] == before[k];
        } else {
          assert k / 4 == i && k % 4 == k - 4 * i;
        }
      }
    }
    return Ok;
  }

  /** `base2p16_to_base2p32`: checks whether an odd final element is zero
      to size the output, then clears the words and adds every element into
      its lane. */
  method Base2p16ToBase2p32Call(payload: seq<u16>, converted: array?<u32>) returns (st: Status)
    requires converted != null ==> converted.Length >= |Pack16(payload)|
    modifies converted
    ensures converted == null ==> st == Len(|Pack16(payload)|)
    ensures converted != null ==> st == Ok
    ensures converted != null ==>
      var w := Pack16(payload);
      converted[..|w|] == w && converted[|w|..] == old(converted[|w|..])
  {
    var n := |payload|;
    var remain := n % 2;
    var convertedLen := n / 2 + remain;
    var i := 0;
    while i < remain && payload[n - remain + i] == 0
      invariant 0 <= i <= remain
      invariant i == 1 ==> payload[n - 1] == 0
    {
      i := i + 1;
    }
    if i == remain && remain != 0 {
      convertedLen := convertedLen - 1;
    }
    assert convertedLen == Packed16Length(payload);
    if converted == null {
      return Len(convertedLen);
    }
    ZeroFill(converted, convertedLen, 0);
    for i := 0 to n
      invariant forall j | 0 <= j < convertedLen :: converted[j] == Lane16(payload[..i], j)
      invariant converted[convertedLen..] == old(converted[convertedLen..])
    {
      var j := i / 2;
      if j < convertedLen {
        LaneStep16(payload, i, j);
        converted[j] := converted[j] + payload[i] * Weight16(i % 2);
      }
      forall j' | 0 <= j' < convertedLen
        ensures converted[j'] == Lane16(payload[..i + 1], j')
      {
        LaneStep16(payload, i, j');
      }
    }
    assert payload[..n] == payload;
    return Ok;
  }

  /** One pass of the loop of `base2p32_to_base2p16`: the elements of word
      `x` from position `at` on, both except, in the last word (`final`),
      those above the highest nonzero element of `last`. */
  method StoreHalves(a: array<u16>, at: nat, x: u32, final: bool, last: u32)
    requires final ==> x == last
    requires at + (if final then Significant16(last) else 2) <= a.Length
    modifies a
    ensures var keep := if final then Significant16(last) else 2;
      a[..at] == old(a[..at]) && a[at + keep..] == old(a[at + keep..]) &&
      forall k | 0 <= k < keep :: a[at + k] == HalfOf(x, k)
  {
    if !(final && last == 0) {
      a[at] := x % 0x1_0000;
    }
    if !(final && last < 0x1_0000) {
      a[at + 1] := x / 0x1_0000;
    }
  }

  /** `base2p32_to_base2p16`: sizes the output from the last word, then
      writes the two elements of every word except, in the last word, the
      high ones that are zero. */
  method Base2p32ToBase2p16Call(payload: seq<u32>, converted: array?<u16>) returns (st: Status)
    requires |payload| >= 1
    requires converted != null ==> converted.Length >= Unpacked16Length(payload)
    modifies converted
    ensures converted == null ==> st == Len(Unpacked16Length(payload))
    ensures converted != null ==> st == Ok
    ensures converted != null ==>
      var h := Unpack16(payload);
      converted[..|h|] == h && converted[|h|..] == old(converted[|h|..])
  {
    var m := |payload|;
    var last := payload[m - 1];
    var convertedLen := m * 2;
    if last == 0 {
      convertedLen := convertedLen - 2;
    } else {
      convertedLen := convertedLen - (if last < 0x1_0000 then 1 else 0);
    }
    if converted == null {
      return Len(convertedLen);
    }
    assert convertedLen == 2 * (m - 1) + Significant16(last);
    ZeroFill(converted, convertedLen, 0);
    for i := 0 to m
      invariant forall k | 0 <= k < convertedLen && k < 2 * i :: converted[k] == HalfOf(payload[k / 2], k % 2)
      invariant converted[convertedLen..] == old(converted[convertedLen..])
    {
      ghost var before := converted[..];
      StoreHalves(converted, i * 2, payload[i], i == m - 1, last);
      forall k | 0 <= k < convertedLen && k < 2 * (i + 1)
        ensures converted[k] == HalfOf(payload[k / 2], k % 2)
      {
        if k < 2 * i {
          assert converted[k] == before[k];
        } else {
          assert k / 2 == i && k % 2 == k - 2 * i;
        }
      }
    }
    return Ok;
  }
}
