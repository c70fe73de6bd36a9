/** The three alphabets of src/codec/base.c and the facts the decoders rely
    on: each table is injective, so the lookup of an encoded symbol finds the
    digit it came from. The literals are split into short pieces only so that
    the verifier can index them; the characters and their order are the
    source's. */
module Tables {
  import opened Common

  const Base6Table: seq<char> := "012345"

  /** Digits and letters without `0`, `I`, `O` and `l`. */
  const Base58Table: seq<char> :=
    "123456789" + "ABCDEFGH" + "JKLMN" + "PQRSTUVWXYZ" + "abcdefghijk" + "mnopqrstuvwxyz"

  const Base64Table: seq<char> :=
    "ABCDEFGHIJKLM" + "NOPQRSTUVWXYZ" + "abcdefghijklm" + "nopqrstuvwxyz" + "0123456789" + "+/"

  /** The padding symbol of the base-64 codec. */
  const Pad: char := '='

  // Position of a symbol in each table, computed from character ranges.
  // They serve only to prove the tables injective.

  ghost function Rank6(c: char): int
  {
    if '0' <= c <= '5' then c as int - '0' as int else -1
  }

  ghost function Rank58(c: char): int
  {
    if '1' <= c <= '9' then c as int - '1' as int
    else if 'A' <= c <= 'H' then c as int - 'A' as int + 9
    else if 'J' <= c <= 'N' then c as int - 'J' as int + 17
    else if 'P' <= c <= 'Z' then c as int - 'P' as int + 22
    else if 'a' <= c <= 'k' then c as int - 'a' as int + 33
    else if 'm' <= c <= 'z' then c as int - 'm' as int + 44
    else -1
  }

  ghost function Rank64(c: char): int
  {
    if 'A' <= c <= 'Z' then c as int - 'A' as int
    else if 'a' <= c <= 'z' then c as int - 'a' as int + 26
    else if '0' <= c <= '9' then c as int - '0' as int + 52
    else if c == '+' then 62
    else if c == '/' then 63
    else -1
  }

  lemma RanksOfBase58Low()
    ensures |Base58Table| == 58
    ensures forall d | 0 <= d < 22 :: Rank58(Base58Table[d]) == d
  {
  }

  lemma RanksOfBase58High()
    ensures |Base58Table| == 58
    ensures forall d | 22 <= d < 58 :: Rank58(Base58Table[d]) == d
  {
  }

  /** The symbol of value `v` in `base64table`, from its character ranges:
      the base-64 codec indexes the table through this function. */
  function Base64Symbol(v: int): char
    requires 0 <= v < 64
  {
    if v < 26 then ('A' as int + v) as char
    else if v < 52 then ('a' as int + v - 26) as char
    else if v < 62 then ('0' as int + v - 52) as char
    else if v == 62 then '+'
    else '/'
  }

  lemma Base64SymbolsUpper()
    ensures |Base64Table| == 64
    ensures forall d | 0 <= d < 26 :: Base64Table[d] == Base64Symbol(d)
  {
    assert forall d | 0 <= d < 13 :: Base64Table[d] == Base64Symbol(d);
  }

  lemma Base64SymbolsLower()
    ensures |Base64Table| == 64
    ensures forall d | 26 <= d < 52 :: Base64Table[d] == Base64Symbol(d)
  {
    assert forall d | 26 <= d < 39 :: Base64Table[d] == Base64Symbol(d);
  }

  lemma Base64SymbolsRest()
    ensures |Base64Table| == 64
    ensures forall d | 52 <= d < 64 :: Base64Table[d] == Base64Symbol(d)
  {
  }

  /** `Base64Symbol` gives exactly the entries of the table. */
  lemma Base64SymbolIsEntry()
    ensures |Base64Table| == 64
    ensures forall d | 0 <= d < 64 :: Base64Table[d] == Base64Symbol(d)
  {
    Base64SymbolsUpper();
    Base64SymbolsLower();
    Base64SymbolsRest();
  }

  /** The position of `c` in `base64table`, from its character ranges. */
  function Base64Value(c: char): Option<nat>
  {
    if 'A' <= c <= 'Z' then Some(c as int - 'A' as int)
    else if 'a' <= c <= 'z' then Some(c as int - 'a' as int + 26)
    else if '0' <= c <= '9' then Some(c as int - '0' as int + 52)
    else if c == '+' then Some(62)
    else if c == '/' then Some(63)
    else None
  }

  /** `Base64Value` and `Base64Symbol` are inverse to each other. */
  lemma Base64ValueOfSymbol(d: nat, c: char)
    requires d < 64
    ensures Base64Value(c) == Some(d) <==> Base64Symbol(d) == c
  {
  }

  /** The decoders' table scan finds what `Base64Value` computes. */
  lemma Base64ValueIsIndex(c: char)
    ensures IndexOf(Base64Table, c) == Base64Value(c)
  {
    Base64TableFacts();
    Base64SymbolIsEntry();
    match Base64Value(c)
    case Some(d) =>
      Base64ValueOfSymbol(d, c);
      IndexOfInjective(Base64Table, d);
    case None =>
      if c in Base64Table {
        var d :| 0 <= d < 64 && Base64Table[d] == c;
        Base64ValueOfSymbol(d, c);
      }
  }

  lemma Base58TableSize()
    ensures |Base58Table| == 58 && Base58Table[0] == '1'
  {
  }

  lemma Base64TableSize()
    ensures |Base64Table| == 64 && Base64Table[0] == 'A'
  {
  }

  /** A table whose symbols all have distinct ranks is injective. */
  lemma InjectiveByRank(t: seq<char>, rank: char -> int)
    requires forall d | 0 <= d < |t| :: rank(t[d]) == d
    ensures Injective(t)
  {
    forall i, j | 0 <= i < j < |t|
      ensures t[i] != t[j]
    {
      assert rank(t[i]) == i && rank(t[j]) == j;
    }
  }

  lemma Base6TableFacts()
    ensures |Base6Table| == 6 && Injective(Base6Table)
    ensures Base6Table[0] == '0'
  {
    assert forall d | 0 <= d < 6 :: Rank6(Base6Table[d]) == d;
    InjectiveByRank(Base6Table, Rank6);
  }

  lemma Base58TableFacts()
    ensures |Base58Table| == 58 && Injective(Base58Table)
    ensures Base58Table[0] == '1'
  {
    RanksOfBase58Low();
    RanksOfBase58High();
    InjectiveByRank(Base58Table, Rank58);
  }

  lemma Base64TableFacts()
    ensures |Base64Table| == 64 && Injective(Base64Table)
    ensures Base64Table[0] == 'A'
    ensures Pad !in Base64Table
  {
    Base64SymbolIsEntry();
    assert forall d | 0 <= d < 64 :: Rank64(Base64Table[d]) == d;
    InjectiveByRank(Base64Table, Rank64);
  }
}
