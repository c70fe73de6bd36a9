/** Base58Check (`base58check_encode`, `base58check_decode` in
    src/codec/base.c): base 58 over the payload followed by a four-byte
    checksum, the first four bytes of SHA-256 applied twice.

    SHA-256 (FIPS 180-4) is not modelled: every member takes the hash as a
    function argument whose results are 32-byte digests, so every property
    here holds whatever that function is. */
module Base58Check {
  import opened Common
  import opened Positional
  import opened PositionalLaws

  /** What `SHA256` writes into its 32-byte output. */
  type Digest = s: seq<byte> | |s| == 32 witness seq(32, _ => 0)

  /** The first four bytes of the double hash of `p`. */
  function Checksum(hash: seq<byte> -> Digest, p: seq<byte>): seq<byte>
  {
    hash(hash(p))[..4]
  }

  /** What `base58check_encode` writes: the base-58 encoding of the payload
      followed by its checksum. */
  function Base58CheckEncode(hash: seq<byte> -> Digest, p: seq<byte>): seq<char>
  {
    Base58Encode(p + Checksum(hash, p))
  }

  /** What `base58check_decode` writes, or `None` for the error sentinel:
      the base-58 decoding without its last four bytes, provided those are
      the checksum of the rest. A decoding shorter than four bytes is an
      error too. */
  function Base58CheckDecode(hash: seq<byte> -> Digest, s: seq<char>): Option<seq<byte>>
  {
    match Base58Decode(s)
    case None => None
    case Some(d) =>
      if |d| < 4 then None
      else if d[|d| - 4..] != Checksum(hash, d[..|d| - 4]) then None
      else Some(d[..|d| - 4])
  }

  /** Decoding yields `p` exactly when the base-58 decoding is `p` followed
      by the checksum of `p`. */
  lemma Base58CheckDecodeExactly(hash: seq<byte> -> Digest, s: seq<char>, p: seq<byte>)
    ensures Base58CheckDecode(hash, s) == Some(p) <==> Base58Decode(s) == Some(p + Checksum(hash, p))
  {
    var c := Checksum(hash, p);
    if Base58Decode(s) == Some(p + c) {
      var d := p + c;
      assert d[..|d| - 4] == p;
      assert d[|d| - 4..] == c;
    }
    if Base58CheckDecode(hash, s) == Some(p) {
      var d := Base58Decode(s).value;
      assert d == d[..|d| - 4] + d[|d| - 4..];
    }
  }

  /** A payload whose checked form has a nonzero byte survives the round
      trip. */
  lemma Base58CheckRoundTrip(hash: seq<byte> -> Digest, p: seq<byte>)
    requires LeadingCount(p + Checksum(hash, p), 0) < |p| + 4
    ensures Base58CheckDecode(hash, Base58CheckEncode(hash, p)) == Some(p)
  {
    Base58RoundTrip(p + Checksum(hash, p));
    Base58CheckDecodeExactly(hash, Base58CheckEncode(hash, p), p);
  }

  /** A string that decodes, and is not all `'1'`s, is the encoding of what
      it decodes to. */
  lemma Base58CheckReencode(hash: seq<byte> -> Digest, s: seq<char>)
    requires Base58CheckDecode(hash, s).Some?
    requires LeadingCount(s, '1') < |s|
    ensures Base58CheckEncode(hash, Base58CheckDecode(hash, s).value) == s
  {
    var p := Base58CheckDecode(hash, s).value;
    Base58CheckDecodeExactly(hash, s, p);
    Base58Reencode(s);
  }

  /** The buffer `to_base58` of `base58check_encode`: the payload, then the
      first four bytes of the digest. */
  method Append4(payload: seq<byte>, digest: Digest) returns (a: array<byte>)
    ensures fresh(a)
    ensures a[..] == payload + digest[..4]
  {
    var n := |payload|;
    a := new byte[n + 4];
    for i := 0 to n
      invariant a[..i] == payload[..i]
    {
      a[i] := payload[i];
    }
    for i := 0 to 4
      invariant a[..n] == payload
      invariant a[n..n + i] == digest[..i]
    {
      a[n + i] := digest[i];
    }
    assert a[..] == a[..n] + a[n..n + 4];
  }

  /** The comparison loop of `base58check_decode`: the stored checksum
      against the first four bytes of the recomputed digest. */
  method SameFour(checksum: seq<byte>, digest: Digest) returns (same: bool)
    requires |checksum| == 4
    ensures same <==> checksum == digest[..4]
  {
    for i := 0 to 4
      invariant checksum[..i] == digest[..i]
    {
      if checksum[i] != digest[i] {
        return false;
      }
      assert checksum[..i + 1] == checksum[..i] + [checksum[i]];
      assert digest[..i + 1] == digest[..i] + [digest[i]];
    }
    return true;
  }

  /** `base58check_encode`: copies the payload and the checksum into one
      buffer, then hands it to `base58encode` in the same mode. */
  method Base58CheckEncodeCall(hash: seq<byte> -> Digest, payload: seq<byte>, encoded: array?<char>)
    returns (st: Status)
    requires encoded != null ==> encoded.Length >= |Base58CheckEncode(hash, payload)|
    modifies encoded
    ensures encoded == null ==> st == Len(|Base58CheckEncode(hash, payload)|)
    ensures encoded != null ==> st == Ok
    ensures encoded != null ==>
      var e := Base58CheckEncode(hash, payload);
      encoded[..|e|] == e && encoded[|e|..] == old(encoded[|e|..])
  {
    var firstSha256 := hash(payload);
    var secondSha256 := hash(firstSha256);
    var toBase58 := Append4(payload, secondSha256);
    var checked := toBase58[..];
    st := Base58EncodeCall(checked, encoded);
  }

  /** `base58check_decode`: decodes into a buffer of its own, compares the
      last four bytes with the checksum of the others before looking at the
      output pointer, then answers the payload length or copies the payload. */
  method Base58CheckDecodeCall(hash: seq<byte> -> Digest, s: seq<char>, decoded: array?<byte>)
    returns (st: Status)
    requires decoded != null && Base58CheckDecode(hash, s).Some? ==>
      decoded.Length >= |Base58CheckDecode(hash, s).value|
    modifies decoded
    ensures decoded == null ==> st == Query(Base58CheckDecode(hash, s))
    ensures decoded != null ==> st == (if Base58CheckDecode(hash, s).Some? then Ok else Err)
    ensures decoded != null && st == Ok ==>
      var v := Base58CheckDecode(hash, s).value;
      decoded[..|v|] == v && decoded[|v|..] == old(decoded[|v|..])
    ensures st == Err ==> decoded == null || decoded[..] == old(decoded[..])
  {
    var q := Base58DecodeCall(s, null);
    if q.Err? {
      return Err;
    }
    var b58decodedLen := q.n;
    if b58decodedLen < 4 {
      return Err;
    }
    var dataLen := b58decodedLen - 4;
    var b58decoded := new byte[b58decodedLen];
    var _ := Base58DecodeCall(s, b58decoded);
    ghost var d := Base58Decode(s).value;
    assert b58decoded[..] == d;
    var payloadData := b58decoded[..dataLen];
    var payloadChecksum := b58decoded[dataLen..];
    assert payloadData == d[..|d| - 4] && payloadChecksum == d[|d| - 4..];
    var secondSha256 := hash(hash(payloadData));
    var same := SameFour(payloadChecksum, secondSha256);
    if !same {
      return Err;
    }
    if decoded == null {
      return Len(dataLen);
    }
    CopyFront(decoded, payloadData);
    return Ok;
  }
}
