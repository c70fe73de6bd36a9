/** Vocabulary shared by every codec in src/codec/base.c: the machine integer
    types, the result of a call under the two-phase protocol, and the
    symbol-table lookup that every decoder performs before it writes output. */
module Common {

  /** `byte` / `uint8_t` */
  type byte = x: int | 0 <= x < 0x100
  /** `uint16_t` */
  type u16 = x: int | 0 <= x < 0x1_0000
  /** `uint32_t` */
  type u32 = x: int | 0 <= x < 0x1_0000_0000

  /** What one call of a codec returns. In query mode (no output buffer) the
      call answers `Len(n)`, the exact number of elements a fill call writes;
      in fill mode it answers `Ok`. `Err` stands for the `(size_t)-1`
      sentinel, kept apart from every length. */
  datatype Status = Err | Len(n: nat) | Ok

  datatype Option<T> = None | Some(value: T)

  /** The answer of a query-mode call to a codec whose result is `r`. */
  function Query<T>(r: Option<seq<T>>): Status
  {
    match r
    case None => Err
    case Some(v) => Len(|v|)
  }

  function Pow(b: nat, e: nat): (r: nat)
    ensures b > 0 ==> r > 0
  {
    if e == 0 then 1 else b * Pow(b, e - 1)
  }

  function Repeat<T>(x: T, k: nat): (r: seq<T>)
  {
    seq(k, _ => x)
  }

  /** `s` back to front. */
  function Reverse<T>(s: seq<T>): (r: seq<T>)
    ensures |r| == |s|
  {
    seq(|s|, i requires 0 <= i < |s| => s[|s| - 1 - i])
  }

  /** Length of the longest prefix of `s` made only of `x`. */
  function LeadingCount<T(==)>(s: seq<T>, x: T): (k: nat)
    ensures k <= |s|
    ensures forall i :: 0 <= i < k ==> s[i] == x
    ensures k < |s| ==> s[k] != x
  {
    if |s| == 0 || s[0] != x then 0 else 1 + LeadingCount(s[1..], x)
  }

  /** A sequence is its leading run of `x` followed by the rest. */
  lemma LeadingSplit<T>(s: seq<T>, x: T)
    ensures s == Repeat(x, LeadingCount(s, x)) + s[LeadingCount(s, x)..]
  {
    var k := LeadingCount(s, x);
    assert s[..k] == Repeat(x, k);
    assert s == s[..k] + s[k..];
  }

  /** A run of `k` copies of `x` in front adds exactly `k` to the count. */
  lemma {:induction false} LeadingCountRepeat<T>(x: T, k: nat, t: seq<T>)
    ensures LeadingCount(Repeat(x, k) + t, x) == k + LeadingCount(t, x)
    decreases k
  {
    if k == 0 {
      assert Repeat(x, k) + t == t;
    } else {
      assert (Repeat(x, k) + t)[0] == x;
      assert (Repeat(x, k) + t)[1..] == Repeat(x, k - 1) + t;
      LeadingCountRepeat(x, k - 1, t);
    }
  }

  lemma LeadingCountOfRepeat<T>(x: T, k: nat)
    ensures LeadingCount(Repeat(x, k), x) == k
  {
    LeadingCountRepeat(x, k, []);
    assert Repeat(x, k) + [] == Repeat(x, k);
  }

  lemma RepeatSnoc<T>(x: T, k: nat)
    ensures Repeat(x, k) + [x] == Repeat(x, k + 1)
  {
  }

  /** The run ends where `t` starts with something other than `x`. */
  lemma LeadingCountRepeatStop<T>(x: T, k: nat, t: seq<T>)
    requires |t| > 0 && t[0] != x
    ensures LeadingCount(Repeat(x, k) + t, x) == k
  {
    LeadingCountRepeat(x, k, t);
  }

  /** Length of the longest suffix of `s` made only of `x`. */
  function TrailingCount<T(==)>(s: seq<T>, x: T): (k: nat)
    ensures k <= |s|
    ensures forall i :: |s| - k <= i < |s| ==> s[i] == x
    ensures k < |s| ==> s[|s| - 1 - k] != x
  {
    if |s| == 0 || s[|s| - 1] != x then 0 else 1 + TrailingCount(s[..|s| - 1], x)
  }

  /** Two sequences that agree from `i` on agree from any later `j` on. */
  lemma SuffixAgrees<T>(a: seq<T>, b: seq<T>, i: nat, j: nat)
    requires i <= j <= |a| && |a| == |b| && a[i..] == b[i..]
    ensures a[j..] == b[j..]
  {
    assert a[j..] == a[i..][j - i..];
    assert b[j..] == b[i..][j - i..];
  }

  /** The position the decoders' `for (j = 0; j < N; ++j)` scan stops at:
      the first occurrence of `c` in the table, if any. */
  function IndexOf(t: seq<char>, c: char): (r: Option<nat>)
    ensures r.None? <==> c !in t
    ensures r.Some? ==> r.value < |t| && t[r.value] == c && c !in t[..r.value]
  {
    if |t| == 0 then None
    else if t[0] == c then Some(0)
    else match IndexOf(t[1..], c)
      case None => None
      case Some(j) => assert t[1..][..j] == t[1..j + 1]; Some(j + 1)
  }

  ghost predicate Injective(t: seq<char>)
  {
    forall i, j :: 0 <= i < j < |t| ==> t[i] != t[j]
  }

  lemma IndexOfInjective(t: seq<char>, d: nat)
    requires Injective(t) && d < |t|
    ensures IndexOf(t, t[d]) == Some(d)
  {
  }

  /** The value of every symbol of `s` in table `t`, or `None` when some
      symbol is not in the table. */
  function DigitValues(t: seq<char>, s: seq<char>): Option<seq<nat>>
  {
    if forall i | 0 <= i < |s| :: s[i] in t
    then Some(seq(|s|, i requires 0 <= i < |s| && s[i] in t => IndexOf(t, s[i]).value))
    else None
  }

  /** The symbols of table `t` for the digit values `ds`. */
  function Symbols(t: seq<char>, ds: seq<nat>): seq<char>
    requires forall i | 0 <= i < |ds| :: ds[i] < |t|
  {
    seq(|ds|, i requires 0 <= i < |ds| => t[ds[i]])
  }

  /** In an injective table, reading symbols back gives the digit values. */
  lemma DigitValuesOfSymbols(t: seq<char>, ds: seq<nat>)
    requires Injective(t)
    requires forall i | 0 <= i < |ds| :: ds[i] < |t|
    ensures DigitValues(t, Symbols(t, ds)) == Some(ds)
  {
    var s := Symbols(t, ds);
    forall i | 0 <= i < |ds|
      ensures s[i] in t && IndexOf(t, s[i]) == Some(ds[i])
    {
      IndexOfInjective(t, ds[i]);
    }
    assert forall i | 0 <= i < |s| :: s[i] in t;
    var v := DigitValues(t, s).value;
    assert forall i | 0 <= i < |ds| :: v[i] == ds[i];
    assert v == ds;
  }

  /** Reading digit values back into symbols gives the symbols. */
  lemma SymbolsOfDigitValues(t: seq<char>, s: seq<char>)
    requires DigitValues(t, s).Some?
    ensures forall i | 0 <= i < |DigitValues(t, s).value| :: DigitValues(t, s).value[i] < |t|
    ensures Symbols(t, DigitValues(t, s).value) == s
  {
  }

  /** One symbol lookup, as the decoders' inner loop does it: the answer is
      the table size when the symbol is absent. */
  method Lookup(t: seq<char>, c: char) returns (j: nat)
    ensures j <= |t|
    ensures j < |t| ==> t[j] == c && c !in t[..j]
    ensures j == |t| ==> c !in t
    ensures j < |t| <==> IndexOf(t, c) == Some(j)
  {
    j := 0;
    while j < |t|
      invariant j <= |t|
      invariant c !in t[..j]
    {
      if t[j] == c {
        return;
      }
      assert t[..j + 1] == t[..j] + [t[j]];
      j := j + 1;
    }
    assert t[..j] == t;
  }

  /** The validation pass of the decoders: maps every symbol to its value
      and stops at the first symbol outside the table. */
  method Validate(t: seq<char>, s: seq<char>) returns (r: Option<seq<nat>>)
    ensures r.None? <==> exists i :: 0 <= i < |s| && s[i] !in t
    ensures r == DigitValues(t, s)
  {
    var ds: seq<nat> := [];
    for i := 0 to |s|
      invariant |ds| == i
      invariant forall k :: 0 <= k < i ==> s[k] in t && IndexOf(t, s[k]) == Some(ds[k])
    {
      var j := Lookup(t, s[i]);
      if j == |t| {
        return None;
      }
      ds := ds + [j];
    }
    assert forall k | 0 <= k < |s| :: s[k] in t;
    var v := DigitValues(t, s).value;
    assert forall k | 0 <= k < |s| :: v[k] == ds[k];
    assert v == ds;
    return Some(ds);
  }
}
