/** The Internet checksum of `src/net.rs` (RFC 1071). */
module NetChecksum {
  import opened Common

  const ONES := 0xffff

  // ------------------------------------------------------------------ what the sum is

  /** The sum of the big-endian 16-bit words, an odd last byte standing for the high half of a word. */
  function WordSum(b: seq<byte>): nat {
    if b == [] then 0
    else if |b| == 1 then 0x100 * b[0]
    else Word(b[0], b[1]) + WordSum(b[2..])
  }

  function Word(high: byte, low: byte): nat { 0x100 * (high as int) + low }

  /** The one's-complement sum: zero only for zero, otherwise the residue in 1..65535. */
  function OnesSum(n: nat): (r: nat)
    ensures r <= ONES
  {
    if n == 0 then 0 else (n - 1) % ONES + 1
  }

  function Complement(n: nat): (r: nat)
    ensures r <= ONES
  {
    ONES - OnesSum(n)
  }

  /** A field that holds the complement of the rest makes the whole sum to zero, and so does 0xffff in place
      of a complement of zero. */
  lemma ComplementCancels(n: nat)
    ensures Complement(n + Complement(n)) == 0
    ensures Complement(n) == 0 ==> Complement(n + ONES) == 0
  {
    if n > 0 {
      var q, r := (n - 1) / ONES, (n - 1) % ONES;
      assert n + Complement(n) - 1 == q * ONES + ONES - 1;
      DivisionUnique(n + Complement(n) - 1, ONES, q, ONES - 1);
      if r == ONES - 1 {
        DivisionUnique(n + ONES - 1, ONES, q + 1, ONES - 1);
      }
    }
  }

  /** A sum verifies exactly when it is a positive multiple of 65535. */
  lemma VerifiesExactly(n: nat)
    ensures Complement(n) == 0 <==> n > 0 && n % ONES == 0
  {
    if n > 0 {
      var q, r := (n - 1) / ONES, (n - 1) % ONES;
      if r == ONES - 1 {
        DivisionUnique(n, ONES, q + 1, 0);
      } else {
        DivisionUnique(n, ONES, q, r + 1);
      }
    }
  }

  /** Words may be summed piece by piece, as long as the pieces before the last have even length. */
  lemma {:induction false} WordSumAppends(a: seq<byte>, b: seq<byte>)
    requires |a| % 2 == 0
    ensures WordSum(a + b) == WordSum(a) + WordSum(b)
    decreases |a|
  {
    if a == [] {
      assert a + b == b;
    } else {
      assert (a + b)[2..] == a[2..] + b;
      WordSumAppends(a[2..], b);
    }
  }

  // ------------------------------------------------------------------ folding

  /** Equal as one's-complement sums. */
  predicate Alike(a: nat, b: nat) { a % ONES == b % ONES && (a == 0 <==> b == 0) }

  function Fold(sum: nat): nat { sum % 0x1_0000 + sum / 0x1_0000 }

  lemma FoldIsAlike(sum: nat, n: nat)
    requires Alike(sum, n)
    ensures Alike(Fold(sum), n)
  {
    var q, r := sum / 0x1_0000, sum % 0x1_0000;
    assert sum == ONES * q + Fold(sum);
    ModShift(Fold(sum), q);
  }

  lemma ModShift(n: nat, q: nat)
    ensures (n + ONES * q) % ONES == n % ONES
  {
    DivisionUnique(n + ONES * q, ONES, n / ONES + q, n % ONES);
  }

  lemma AlikeAdds(a: nat, b: nat, w: nat)
    requires Alike(a, b)
    ensures Alike(a + w, b + w)
  {
    ModAdds(a, w);
    ModAdds(b, w);
  }

  lemma ModAdds(a: nat, w: nat)
    ensures (a + w) % ONES == (a % ONES + w) % ONES
  {
    assert a == a % ONES + ONES * (a / ONES);
    ModShift(a % ONES + w, a / ONES);
  }

  lemma AlikeIsSum(sum: nat, n: nat)
    requires Alike(sum, n) && sum <= ONES
    ensures sum == OnesSum(n)
  {
    if n > 0 {
      var q, r := (n - 1) / ONES, (n - 1) % ONES;
      if r == ONES - 1 {
        DivisionUnique(n, ONES, q + 1, 0);
      } else {
        DivisionUnique(n, ONES, q, r + 1);
      }
    }
  }

  // ------------------------------------------------------------------ the loops

  /** Folds a running sum to sixteen bits and complements it. */
  method Finish(sum: nat, ghost n: nat) returns (r: nat)
    requires Alike(sum, n)
    ensures r == Complement(n)
  {
    var s := sum;
    while s >= 0x1_0000
      invariant Alike(s, n)
    {
      FoldIsAlike(s, n);
      s := Fold(s);
    }
    AlikeIsSum(s, n);
    return ONES - s;
  }

  /** Adds the words of the buffer to a running sum, folding after each, so that it stays far below 2^32. */
  method AddWords(start: nat, b: seq<byte>) returns (sum: nat)
    ensures Alike(sum, start + WordSum(b))
    ensures sum < start + 0x2_0000
  {
    sum := start;
    var at := 0;
    ghost var done: nat := start;
    assert b[0..] == b;
    while at < |b|
      invariant 0 <= at <= |b|
      invariant Alike(sum, done) && done + WordSum(b[at..]) == start + WordSum(b)
      invariant sum < start + 0x2_0000
    {
      var low: byte := if at + 1 < |b| then b[at + 1] else 0;
      var word := Word(b[at], low);
      NextWord(b, at);
      AlikeAdds(sum, done, word);
      FoldIsAlike(sum + word, done + word);
      FoldShrinks(sum, word, start);
      done := done + word;
      sum := Fold(sum + word);
      at := Min(at + 2, |b|);
    }
  }

  lemma NextWord(b: seq<byte>, at: nat)
    requires at < |b|
    ensures WordSum(b[at..])
            == Word(b[at], if at + 1 < |b| then b[at + 1] else 0) + WordSum(b[Min(at + 2, |b|)..])
  {
    if at + 1 < |b| {
      assert b[at..][2..] == b[at + 2..];
    } else {
      assert b[at..] == [b[at]] && b[|b|..] == [];
    }
  }

  lemma FoldShrinks(sum: nat, word: nat, start: nat)
    requires sum < start + 0x2_0000 && word <= ONES
    ensures Fold(sum + word) < start + 0x2_0000
  {
  }

  method Checksum(b: seq<byte>) returns (r: nat)
    ensures r == Complement(WordSum(b))
  {
    var sum := AddWords(0, b);
    r := Finish(sum, WordSum(b));
  }

  type Address = a: seq<byte> | |a| == 4 witness [0, 0, 0, 0]

  /** The sum of the pseudo-header and the segment (section 3.1 of RFC 9293, and RFC 768). */
  function TransportSum(source: Address, destination: Address, protocol: byte, segment: seq<byte>): nat {
    WordSum(source) + WordSum(destination) + protocol + |segment| + WordSum(segment)
  }

  method TransportChecksum(source: Address, destination: Address, protocol: byte, segment: seq<byte>) returns (r: nat)
    ensures r == Complement(TransportSum(source, destination, protocol, segment))
  {
    var sum := 0;
    for k := 0 to 2
      invariant sum == (if k > 0 then WordSum(source) else 0) + (if k > 1 then WordSum(destination) else 0)
    {
      var address := if k == 0 then source else destination;
      FourBytes(address);
      sum := sum + Word(address[0], address[1]) + Word(address[2], address[3]);
    }
    var start := sum + protocol + |segment|;
    sum := AddWords(start, segment);
    r := Finish(sum, start + WordSum(segment));
  }

  lemma FourBytes(a: Address)
    ensures WordSum(a) == Word(a[0], a[1]) + Word(a[2], a[3])
  {
    var b := a[2..];
    assert b[0] == a[2] && b[1] == a[3] && b[2..] == [];
    assert WordSum(b) == Word(b[0], b[1]) + WordSum(b[2..]);
  }
}
