/** What packing and unpacking do to each other: unpacking a packing gives
    the elements back up to trailing zeros, exactly when the last element is
    not zero, and packing an unpacking gives the words back except a zero
    last word. */
module WordWidthLaws {
  import opened Common
  import opened BigNum
  import opened WordWidth

  /* ---------- one word and its bytes ---------- */

  /** The shifts of `base2p32_to_base2p8` recover the four bytes a lane is
      made of. */
  lemma OctetsOfLane(a0: byte, a1: byte, a2: byte, a3: byte)
    ensures var x := a0 + 0x100 * a1 + 0x1_0000 * a2 + 0x100_0000 * a3;
      OctetOf(x, 0) == a0 && OctetOf(x, 1) == a1 && OctetOf(x, 2) == a2 && OctetOf(x, 3) == a3
  {
    var x := a0 + 0x100 * a1 + 0x1_0000 * a2 + 0x100_0000 * a3;
    QuotientUnique(x, 0x100, a1 + 0x100 * a2 + 0x1_0000 * a3, a0);
    QuotientUnique(a1 + 0x100 * a2 + 0x1_0000 * a3, 0x100, a2 + 0x100 * a3, a1);
    QuotientUnique(x, 0x1_0000, a2 + 0x100 * a3, a0 + 0x100 * a1);
    QuotientUnique(a2 + 0x100 * a3, 0x100, a3, a2);
    QuotientUnique(x, 0x100_0000, a3, a0 + 0x100 * a1 + 0x1_0000 * a2);
  }

  /** A word is the lane of its four bytes. */
  lemma LaneOfOctets(x: u32)
    ensures OctetOf(x, 0) + 0x100 * OctetOf(x, 1) + 0x1_0000 * OctetOf(x, 2) +
            0x100_0000 * OctetOf(x, 3) == x
  {
    var q1, r0 := x / 0x100, x % 0x100;
    var q2, r1 := q1 / 0x100, q1 % 0x100;
    var q3, r2 := q2 / 0x100, q2 % 0x100;
    assert x == 0x100 * q1 + r0 && q1 == 0x100 * q2 + r1 && q2 == 0x100 * q3 + r2;
    QuotientUnique(x, 0x1_0000, q2, r0 + 0x100 * r1);
    QuotientUnique(x, 0x100_0000, q3, r0 + 0x100 * r1 + 0x1_0000 * r2);
  }

  /** The bytes above the significant ones are zero, and the highest
      significant one is not. */
  lemma SignificantOctets(x: u32)
    ensures Significant8(x) <= 4
    ensures forall k | Significant8(x) <= k < 4 :: OctetOf(x, k) == 0
    ensures Significant8(x) >= 1 ==> OctetOf(x, Significant8(x) - 1) != 0
  {
    if x < 0x100 {
      Small(x, 0x100);
      Small(x, 0x1_0000);
      Small(x, 0x100_0000);
    } else if x < 0x1_0000 {
      Small(x, 0x1_0000);
      Small(x, 0x100_0000);
      QuotientUnique(x, 0x100, x / 0x100, x % 0x100);
      Small(x / 0x100, 0x100);
    } else if x < 0x100_0000 {
      Small(x, 0x100_0000);
      QuotientUnique(x, 0x1_0000, x / 0x1_0000, x % 0x1_0000);
      Small(x / 0x1_0000, 0x100);
    } else {
      QuotientUnique(x, 0x100_0000, x / 0x100_0000, x % 0x100_0000);
    }
  }

  /** The query length of an unpacking counts the significant bytes of the
      last word. */
  lemma Unpacked8Significant(w: seq<u32>)
    requires |w| >= 1
    ensures Unpacked8Length(w) == 4 * (|w| - 1) + Significant8(w[|w| - 1])
  {
  }

  /** Every byte position of the words reads, in the unpacking, as the byte
      of its word: the bytes left out of the last word are zero. */
  lemma UnpackedOctetAt8(w: seq<u32>, i: nat)
    requires |w| >= 1 && i < 4 * |w|
    ensures ByteAt(Unpack8(w), i) == OctetOf(w[i / 4], i % 4)
  {
    Unpacked8Significant(w);
    if i >= Unpacked8Length(w) {
      assert i / 4 == |w| - 1;
      SignificantOctets(w[|w| - 1]);
    }
  }

  /** Byte `k` of lane `j` of an unpacking is byte `k` of word `j`. */
  lemma UnpackedLaneOctet8(w: seq<u32>, j: nat, k: nat)
    requires j < |w| && k < 4
    ensures ByteAt(Unpack8(w), 4 * j + k) == OctetOf(w[j], k)
  {
    QuotientUnique(4 * j + k, 4, j, k);
    UnpackedOctetAt8(w, 4 * j + k);
  }

  /** Every lane of an unpacking is the word it came from. */
  lemma LaneOfUnpacked8(w: seq<u32>, j: nat)
    requires j < |w|
    ensures Lane8(Unpack8(w), j) == w[j]
  {
    UnpackedLaneOctet8(w, j, 0);
    UnpackedLaneOctet8(w, j, 1);
    UnpackedLaneOctet8(w, j, 2);
    UnpackedLaneOctet8(w, j, 3);
    LaneOfOctets(w[j]);
  }

  /** Packing an unpacking gives the words back, except a zero last word,
      whose bytes the unpacking left out. */
  lemma Pack8Unpack8(w: seq<u32>)
    requires |w| >= 1
    ensures Pack8(Unpack8(w)) == if w[|w| - 1] == 0 then w[..|w| - 1] else w
  {
    var b := Unpack8(w);
    var m, last := |w|, w[|w| - 1];
    Unpacked8Significant(w);
    SignificantOctets(last);
    var s := Significant8(last);
    if 1 <= s <= 3 {
      assert (|b| - 1) / 4 == m - 1 && (|b| - 1) % 4 == s - 1;
      assert b[|b| - 1] != 0;
      assert !ZeroRemainder8(b);
    }
    assert |Pack8(b)| == if last == 0 then m - 1 else m;
    forall j | 0 <= j < |Pack8(b)|
      ensures Pack8(b)[j] == w[j]
    {
      LaneOfUnpacked8(w, j);
    }
  }

  /** Every byte position of a packing's words holds the packed byte, or
      zero past the end. */
  lemma PackedOctetAt8(b: seq<byte>, i: nat)
    requires i < 4 * |Pack8(b)|
    ensures OctetOf(Pack8(b)[i / 4], i % 4) == ByteAt(b, i)
  {
    var j := i / 4;
    OctetsOfLane(ByteAt(b, 4 * j), ByteAt(b, 4 * j + 1), ByteAt(b, 4 * j + 2), ByteAt(b, 4 * j + 3));
  }

  /** Unpacking a packing gives the bytes back up to some trailing zero
      bytes: those of the partial final group, when they are all zero, and
      the high zero bytes of the last lane. */
  lemma Unpack8Pack8(b: seq<byte>)
    requires |Pack8(b)| >= 1
    ensures var r := Unpack8(Pack8(b));
      |r| <= |b| && r == b[..|r|] && forall i | |r| <= i < |b| :: b[i] == 0
  {
    var r := Unpack8(Pack8(b));
    UnpackedLength8(b);
    forall i | 0 <= i < |r|
      ensures r[i] == b[i]
    {
      PackedOctetAt8(b, i);
    }
    forall i | |r| <= i < |b|
      ensures b[i] == 0
    {
      DroppedOctet8(b, i);
    }
  }

  /** The unpacking of a packing is no longer than the bytes packed: its
      last byte is a nonzero byte of them. */
  lemma UnpackedLength8(b: seq<byte>)
    requires |Pack8(b)| >= 1
    ensures |Unpack8(Pack8(b))| <= |b|
  {
    var w := Pack8(b);
    var p := |w|;
    var l := |Unpack8(w)|;
    Unpacked8Significant(w);
    SignificantOctets(w[p - 1]);
    var s := Significant8(w[p - 1]);
    if s >= 1 {
      QuotientUnique(l - 1, 4, p - 1, s - 1);
      PackedOctetAt8(b, l - 1);
    }
  }

  /** A byte the unpacking of a packing leaves out is zero. */
  lemma DroppedOctet8(b: seq<byte>, i: nat)
    requires |Pack8(b)| >= 1
    requires |Unpack8(Pack8(b))| <= i < |b|
    ensures b[i] == 0
  {
    var w := Pack8(b);
    var p := |w|;
    Unpacked8Significant(w);
    SignificantOctets(w[p - 1]);
    if i < 4 * p {
      QuotientUnique(i, 4, p - 1, i - 4 * (p - 1));
      PackedOctetAt8(b, i);
    }
  }

  /** A byte string whose last byte is not zero survives packing and
      unpacking. */
  lemma Unpack8Pack8Exact(b: seq<byte>)
    requires |b| >= 1 && b[|b| - 1] != 0
    ensures Unpack8(Pack8(b)) == b
  {
    assert !ZeroRemainder8(b) || |b| % 4 == 0;
    Unpack8Pack8(b);
  }

  /** `[1, 2, 3, 4]` packs to `0x04030201`, and so does `[1, 2, 3, 4, 0]`,
      whose zero partial group is dropped. */
  lemma Pack8Example()
    ensures Pack8([1, 2, 3, 4]) == [0x04030201]
    ensures Pack8([1, 2, 3, 4, 0]) == [0x04030201]
  {
    var b: seq<byte> := [1, 2, 3, 4, 0];
    assert ZeroRemainder8(b);
    assert Lane8(b, 0) == 0x04030201;
  }

  /* ---------- 16-bit elements ---------- */

  /** The shifts of `base2p32_to_base2p16` recover the two elements a lane
      is made of. */
  lemma HalvesOfLane(a0: u16, a1: u16)
    ensures var x := a0 + 0x1_0000 * a1; HalfOf(x, 0) == a0 && HalfOf(x, 1) == a1
  {
    QuotientUnique(a0 + 0x1_0000 * a1, 0x1_0000, a1, a0);
  }

  /** A word is the lane of its two elements. */
  lemma LaneOfHalves(x: u32)
    ensures HalfOf(x, 0) + 0x1_0000 * HalfOf(x, 1) == x
  {
  }

  /** The element above the significant ones is zero, and the highest
      significant one is not. */
  lemma SignificantHalves(x: u32)
    ensures Significant16(x) <= 2
    ensures forall k | Significant16(x) <= k < 2 :: HalfOf(x, k) == 0
    ensures Significant16(x) >= 1 ==> HalfOf(x, Significant16(x) - 1) != 0
  {
    if x < 0x1_0000 {
      Small(x, 0x1_0000);
    } else {
      QuotientUnique(x, 0x1_0000, x / 0x1_0000, x % 0x1_0000);
    }
  }

  /** Every element position of the words reads, in the unpacking, as the
      element of its word: the element left out of the last word is zero. */
  lemma UnpackedHalfAt16(w: seq<u32>, i: nat)
    requires |w| >= 1 && i < 2 * |w|
    ensures HalfAt(Unpack16(w), i) == HalfOf(w[i / 2], i % 2)
  {
    if i >= Unpacked16Length(w) {
      assert i / 2 == |w| - 1;
      SignificantHalves(w[|w| - 1]);
    }
  }

  /** Every lane of an unpacking is the word it came from. */
  lemma LaneOfUnpacked16(w: seq<u32>, j: nat)
    requires j < |w|
    ensures Lane16(Unpack16(w), j) == w[j]
  {
    QuotientUnique(2 * j, 2, j, 0);
    QuotientUnique(2 * j + 1, 2, j, 1);
    UnpackedHalfAt16(w, 2 * j);
    UnpackedHalfAt16(w, 2 * j + 1);
    LaneOfHalves(w[j]);
  }

  /** Packing an unpacking gives the words back, except a zero last word,
      whose elements the unpacking left out. */
  lemma Pack16Unpack16(w: seq<u32>)
    requires |w| >= 1
    ensures Pack16(Unpack16(w)) == if w[|w| - 1] == 0 then w[..|w| - 1] else w
  {
    var h := Unpack16(w);
    var last := w[|w| - 1];
    SignificantHalves(last);
    if 0 < last < 0x1_0000 {
      assert h[|h| - 1] == HalfOf(last, 0);
    }
    assert |Pack16(h)| == if last == 0 then |w| - 1 else |w|;
    forall j | 0 <= j < |Pack16(h)|
      ensures Pack16(h)[j] == w[j]
    {
      LaneOfUnpacked16(w, j);
    }
  }

  /** Every element position of a packing's words holds the packed element,
      or zero past the end. */
  lemma PackedHalfAt16(h: seq<u16>, i: nat)
    requires i < 2 * |Pack16(h)|
    ensures HalfOf(Pack16(h)[i / 2], i % 2) == HalfAt(h, i)
  {
    var j := i / 2;
    HalvesOfLane(HalfAt(h, 2 * j), HalfAt(h, 2 * j + 1));
  }

  /** Unpacking a packing gives the elements back up to trailing zero
      elements: an odd final one that is zero, and the high zero element of
      the last lane. */
  lemma Unpack16Pack16(h: seq<u16>)
    requires |Pack16(h)| >= 1
    ensures var r := Unpack16(Pack16(h));
      |r| <= |h| && r == h[..|r|] && forall i | |r| <= i < |h| :: h[i] == 0
  {
    var w := Pack16(h);
    var p, last := |w|, w[|w| - 1];
    var r := Unpack16(w);
    SignificantHalves(last);
    var s := Significant16(last);
    assert |r| == 2 * (p - 1) + s;
    if s >= 1 {
      PackedHalfAt16(h, |r| - 1);
      assert (|r| - 1) / 2 == p - 1 && (|r| - 1) % 2 == s - 1;
    }
    forall i | 0 <= i < |r|
      ensures r[i] == h[i]
    {
      PackedHalfAt16(h, i);
    }
    forall i | |r| <= i < |h|
      ensures h[i] == 0
    {
      if i < 2 * p {
        PackedHalfAt16(h, i);
        assert i / 2 == p - 1;
      }
    }
  }

  /** A sequence of 16-bit elements whose last one is not zero survives
      packing and unpacking. */
  lemma Unpack16Pack16Exact(h: seq<u16>)
    requires |h| >= 1 && h[|h| - 1] != 0
    ensures Unpack16(Pack16(h)) == h
  {
    Unpack16Pack16(h);
  }

  /** `[1, 2]` packs to `0x0002_0001`, and so does `[1, 2, 0]`, whose zero
      odd element is dropped; unpacking `[0x0002_0001, 0]` gives `[1, 2]`. */
  lemma Pack16Example()
    ensures Pack16([1, 2]) == [0x0002_0001]
    ensures Pack16([1, 2, 0]) == [0x0002_0001]
    ensures Unpack16([0x0002_0001, 0]) == [1, 2]
  {
    HalvesOfLane(1, 2);
  }
}
