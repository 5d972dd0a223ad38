/** Fields inside byte strings. */
module ByteFields {
  import opened Common

  /** A piece of a piece is where it should be. */
  lemma Inside(b: seq<byte>, at: nat, s: seq<byte>, i: nat, j: nat)
    requires at + |s| <= |b| && b[at..at + |s|] == s && i <= j <= |s|
    ensures b[at + i..at + j] == s[i..j]
  {
    var part := b[at..at + |s|];
    assert forall k :: i <= k < j ==> b[at + k] == part[k];
    assert |b[at + i..at + j]| == |s[i..j]|;
  }

  lemma Thirds(a: seq<byte>, b: seq<byte>, c: seq<byte>)
    ensures (a + b + c)[0..|a|] == a && (a + b + c)[|a|..|a| + |b|] == b
  {
  }

  lemma ReadsBack(b: seq<byte>, at: nat, n: nat, width: nat)
    requires at + width <= |b| && b[at..at + width] == WriteLe(n, width)
    ensures ReadLe(b, at, width) == n % Pow2(8 * width)
  {
    var e := WriteLe(n, width);
    assert [] + e + [] == e && e[0..width] == e;
    LeRoundTrip([], n, width, []);
    ReadLeSame(b, at, e, 0, width);
  }

  /** A little-endian field of a known piece. */
  lemma FieldOf(b: seq<byte>, at: nat, s: seq<byte>, i: nat, n: nat, width: nat, limit: nat)
    requires at + |s| <= |b| && b[at..at + |s|] == s && i + width <= |s|
    requires s[i..i + width] == WriteLe(n, width) && n < limit == Pow2(8 * width)
    ensures ReadLe(b, at + i, width) == n
  {
    Inside(b, at, s, i, i + width);
    ReadsBack(b, at + i, n, width);
    DivisionUnique(n, limit, 0, n);
  }

  lemma PowersOfTwo()
    ensures Pow2(16) == U16_LIMIT && Pow2(32) == U32_LIMIT && Pow2(64) == U64_LIMIT
  {
    Pow2Eight(0);
    Doubled(8, 0x100);
    Doubled(16, U16_LIMIT);
    Doubled(32, U32_LIMIT);
  }

  lemma Doubled(n: nat, p: nat)
    requires Pow2(n) == p
    ensures Pow2(n + n) == p * p
  {
    Pow2Sum(n, n);
  }

  lemma Field2(b: seq<byte>, at: nat, s: seq<byte>, i: nat, n: nat)
    requires n < U16_LIMIT && at + |s| <= |b| && b[at..at + |s|] == s && i + 2 <= |s| && s[i..i + 2] == WriteLe(n, 2)
    ensures ReadLe(b, at + i, 2) == n
  {
    PowersOfTwo();
    FieldOf(b, at, s, i, n, 2, U16_LIMIT);
  }

  lemma Field4(b: seq<byte>, at: nat, s: seq<byte>, i: nat, n: nat)
    requires n < U32_LIMIT && at + |s| <= |b| && b[at..at + |s|] == s && i + 4 <= |s| && s[i..i + 4] == WriteLe(n, 4)
    ensures ReadLe(b, at + i, 4) == n
  {
    PowersOfTwo();
    FieldOf(b, at, s, i, n, 4, U32_LIMIT);
  }

  lemma Field8(b: seq<byte>, at: nat, s: seq<byte>, i: nat, n: nat)
    requires n < U64_LIMIT && at + |s| <= |b| && b[at..at + |s|] == s && i + 8 <= |s| && s[i..i + 8] == WriteLe(n, 8)
    ensures ReadLe(b, at + i, 8) == n
  {
    PowersOfTwo();
    FieldOf(b, at, s, i, n, 8, U64_LIMIT);
  }
}
