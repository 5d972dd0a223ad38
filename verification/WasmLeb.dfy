/** LEB128 decoding, as the module cursor of `src/wasm.rs` does it.

    A decoder is a function from the bytes and a position to `Got(value, next)` or a failure.
    The source ORs 7-bit groups into place; the groups never overlap, so the model adds them.
 */
module WasmLeb {
  import opened Common

  datatype Error =
    | Truncated
    | InvalidLeb
    | InvalidSection
    | InvalidImport
    | InvalidMemory
    | InvalidCode
    | InvalidControl
    | InvalidStack
    | TypeMismatch
    | UnsupportedOpcode

  datatype Decoded = Got(value: int, next: nat) | Fail(error: Error)

  function DecodeU32(bytes: seq<byte>, pos: nat): (r: Decoded)
    requires pos <= |bytes|
    ensures r.Got? ==> pos < r.next <= |bytes| && r.value >= 0
  {
    FoldU32(bytes, pos, 0, 0)
  }

  /** The state of the unsigned loop: the next byte, its shift and what was read so far. */
  function FoldU32(bytes: seq<byte>, pos: nat, shift: nat, value: nat): (r: Decoded)
    requires pos <= |bytes|
    ensures r.Got? ==> pos < r.next <= |bytes| && r.value >= 0
    decreases |bytes| - pos
  {
    if pos == |bytes| then Fail(Truncated)
    else
      var b := bytes[pos];
      if shift >= 32 || (shift == 28 && b > 0x0f) then Fail(InvalidLeb)
      else
        var v := value + b % 128 * Pow2(shift);
        if b < 128 then Got(v, pos + 1) else FoldU32(bytes, pos + 1, shift + 7, v)
  }

  function DecodeI32(bytes: seq<byte>, pos: nat): (r: Decoded)
    requires pos <= |bytes|
    ensures r.Got? ==> pos < r.next <= |bytes|
  {
    FoldSigned(32, bytes, pos, 0, 0)
  }

  function DecodeI64(bytes: seq<byte>, pos: nat): (r: Decoded)
    requires pos <= |bytes|
    ensures r.Got? ==> pos < r.next <= |bytes|
  {
    FoldSigned(64, bytes, pos, 0, 0)
  }

  /** The state of the signed loops; `bits` is the register's bit pattern, `width` its size. */
  function FoldSigned(width: nat, bytes: seq<byte>, pos: nat, shift: nat, bits: nat): (r: Decoded)
    requires pos <= |bytes|
    ensures r.Got? ==> pos < r.next <= |bytes|
    decreases |bytes| - pos
  {
    if pos == |bytes| then Fail(Truncated)
    else
      var b := bytes[pos];
      if shift >= width then Fail(InvalidLeb)
      else
        var v := bits + b % 128 * Pow2(shift) % Pow2(width);
        if b >= 128 then FoldSigned(width, bytes, pos + 1, shift + 7, v)
        else if shift + 7 < width && b >= 64 then
          Got(AsSigned(width, v + Pow2(width) - Pow2(shift + 7)), pos + 1)
        else Got(AsSigned(width, v), pos + 1)
  }

  /** The two's complement reading of a bit pattern. */
  function AsSigned(width: nat, bits: int): int {
    if 2 * bits < Pow2(width) then bits else bits - Pow2(width)
  }

  // ------------------------------------------------------------------ what the decoders mean

  /** The number a byte string denotes: its low seven bits in base 128, least significant first. */
  function GroupSum(groups: seq<byte>): nat {
    if groups == [] then 0 else groups[0] % 128 + 128 * GroupSum(groups[1..])
  }

  ghost predicate IsLeb(groups: seq<byte>) {
    && groups != []
    && groups[|groups| - 1] < 128
    && forall i :: 0 <= i < |groups| - 1 ==> groups[i] >= 128
  }

  /** A successful unsigned decode is the exact sum of at most five groups, below 2^32. */
  lemma U32IsGroupSum(bytes: seq<byte>, pos: nat)
    requires pos <= |bytes|
    requires DecodeU32(bytes, pos).Got?
    ensures var r := DecodeU32(bytes, pos);
            && pos < r.next <= |bytes| && r.next <= pos + 5
            && IsLeb(bytes[pos..r.next])
            && r.value == GroupSum(bytes[pos..r.next])
            && 0 <= r.value < U32_LIMIT
  {
    assert Pow2(0) == 1;
    FoldU32Shape(bytes, pos, 0, 0);
    FoldU32Value(bytes, pos, 0, 0);
  }

  lemma {:induction false} FoldU32Shape(bytes: seq<byte>, pos: nat, shift: nat, value: nat)
    requires pos <= |bytes| && GroupShift(shift) && value < Pow2(shift)
    requires FoldU32(bytes, pos, shift, value).Got?
    ensures var r := FoldU32(bytes, pos, shift, value);
            && pos < r.next <= |bytes| && 7 * (r.next - pos) <= 35 - shift
            && IsLeb(bytes[pos..r.next])
            && 0 <= r.value < U32_LIMIT
    decreases |bytes| - pos
  {
    var b := bytes[pos];
    GroupStep(shift, value, b);
    if b >= 128 {
      FoldU32Shape(bytes, pos + 1, shift + 7, value + b % 128 * Pow2(shift));
      var whole := bytes[pos..FoldU32(bytes, pos, shift, value).next];
      assert forall i :: 0 < i < |whole| ==> whole[i] == whole[1..][i - 1];
      assert whole[1..] == bytes[pos + 1..pos + |whole|];
    }
  }

  lemma {:induction false} FoldU32Value(bytes: seq<byte>, pos: nat, shift: nat, value: nat)
    requires pos <= |bytes|
    requires FoldU32(bytes, pos, shift, value).Got?
    ensures var r := FoldU32(bytes, pos, shift, value);
            && pos < r.next <= |bytes|
            && r.value == value + Pow2(shift) * GroupSum(bytes[pos..r.next])
    decreases |bytes| - pos
  {
    var b, scale := bytes[pos], Pow2(shift);
    var next := FoldU32(bytes, pos, shift, value).next;
    Pow2Seven(shift);
    if b >= 128 {
      FoldU32Value(bytes, pos + 1, shift + 7, value + b % 128 * scale);
    }
    assert bytes[pos..next][1..] == bytes[pos + 1..next];
    SplitGroup(scale, b % 128, GroupSum(bytes[pos + 1..next]));
  }

  /** The five group positions of a 32-bit number. */
  predicate GroupShift(shift: nat) {
    shift <= 28 && shift % 7 == 0
  }

  lemma GroupStep(shift: nat, value: nat, b: byte)
    requires GroupShift(shift) && value < Pow2(shift) && (shift == 28 ==> b <= 0x0f)
    ensures 0 <= b % 128 * Pow2(shift)
    ensures if b < 128 then value + b % 128 * Pow2(shift) < U32_LIMIT
            else GroupShift(shift + 7) && value + b % 128 * Pow2(shift) < Pow2(shift + 7)
  {
    ScaleTable(shift);
    AddGroup(value, b % 128, Pow2(shift));
  }

  lemma AddGroup(value: nat, group: nat, scale: nat)
    requires value < scale && group < 128
    ensures 0 <= group * scale && value + group * scale < 128 * scale
    ensures group < 16 ==> value + group * scale < 16 * scale
  {
    MulLe(0, group, scale);
    MulLe(group, 127, scale);
    if group < 16 { MulLe(group, 15, scale); }
  }

  lemma SplitGroup(scale: int, group: int, rest: int)
    ensures scale * (group + 128 * rest) == group * scale + (128 * scale) * rest
  {
  }

  lemma ScaleTable(shift: nat)
    requires GroupShift(shift)
    ensures Pow2(shift + 7) == 128 * Pow2(shift)
    ensures Pow2(shift) <= 0x1000_0000
    ensures if shift < 28 then Pow2(shift) <= 0x20_0000 else Pow2(shift) == 0x1000_0000
  {
    Pow2Seven(shift);
    Pow2Table();
    assert Pow2(0) == 1;
  }

  lemma Pow2Table()
    ensures Pow2(7) == 0x80 && Pow2(14) == 0x4000 && Pow2(21) == 0x20_0000 && Pow2(28) == 0x1000_0000
    ensures Pow2(32) == U32_LIMIT
  {
    assert Pow2(0) == 1;
    Pow2Seven(0);
    Pow2Seven(7);
    Pow2Seven(14);
    Pow2Seven(21);
    assert Pow2(32) == 16 * Pow2(28);
  }

  /** Exactly which inputs fail: a missing last group, or a fifth byte over 0x0f. */
  lemma U32FailsExactly(bytes: seq<byte>, pos: nat)
    requires pos <= |bytes|
    ensures DecodeU32(bytes, pos) == Fail(InvalidLeb)
            <==> pos + 4 < |bytes| && bytes[pos + 4] > 0x0f
                 && bytes[pos] >= 128 && bytes[pos + 1] >= 128 && bytes[pos + 2] >= 128 && bytes[pos + 3] >= 128
    ensures DecodeU32(bytes, pos) == Fail(Truncated)
            <==> |bytes| - pos <= 4 && forall i :: pos <= i < |bytes| ==> bytes[i] >= 128
  {
    FoldU32Fails(bytes, pos, 0, 0);
  }

  lemma {:induction false} FoldU32Fails(bytes: seq<byte>, pos: nat, k: nat, value: nat)
    requires pos <= |bytes| && k <= 4
    ensures FoldU32(bytes, pos, 7 * k, value) == Fail(InvalidLeb)
            <==> pos + 4 - k < |bytes| && bytes[pos + 4 - k] > 0x0f
                 && forall i :: pos <= i < pos + 4 - k ==> bytes[i] >= 128
    ensures FoldU32(bytes, pos, 7 * k, value) == Fail(Truncated)
            <==> |bytes| - pos <= 4 - k && forall i :: pos <= i < |bytes| ==> bytes[i] >= 128
    decreases |bytes| - pos
  {
    if pos < |bytes| && bytes[pos] >= 128 && k < 4 {
      FoldU32Fails(bytes, pos + 1, k + 1, value + bytes[pos] % 128 * Pow2(7 * k));
    }
  }

  // ------------------------------------------------------------------ canonical encoders

  function EncodeUnsigned(n: nat): seq<byte> {
    if n < 128 then [n] else [n % 128 + 128] + EncodeUnsigned(n / 128)
  }

  function EncodeSigned(n: int): seq<byte>
    decreases if n < 0 then -n else n
  {
    if -64 <= n < 64 then [n % 128] else [n % 128 + 128] + EncodeSigned(n / 128)
  }

  /** Decoding a canonical unsigned encoding returns the number and consumes just the encoding. */
  lemma U32RoundTrip(n: nat, before: seq<byte>, after: seq<byte>)
    requires n < U32_LIMIT
    ensures var e := EncodeUnsigned(n);
            DecodeU32(before + e + after, |before|) == Got(n, |before| + |e|)
  {
    assert Pow2(0) == 1;
    FedU32(n, 0, 0);
    U32LoopFeeds(n, 0, 0, before + EncodeUnsigned(n) + after, |before|);
  }

  /** The encoding `e` stands in `bytes` at `pos`. */
  ghost predicate Holds(bytes: seq<byte>, pos: nat, e: seq<byte>) {
    pos + |e| <= |bytes| && bytes[pos..pos + |e|] == e
  }

  lemma HoldsTail(bytes: seq<byte>, pos: nat, b: byte, e: seq<byte>)
    requires Holds(bytes, pos, [b] + e)
    ensures pos < |bytes| && bytes[pos] == b && Holds(bytes, pos + 1, e)
  {
    var whole := bytes[pos..pos + 1 + |e|];
    assert whole[0] == b && whole[1..] == e;
  }

  /** The number the unsigned loop ends with when fed the groups of `n` from this state. */
  ghost function FeedU32(n: nat, shift: nat, value: int): int {
    var v := value + n % 128 * Pow2(shift);
    if n < 128 then v else FeedU32(n / 128, shift + 7, v)
  }

  /** Every group of `n` is accepted from this shift on. */
  ghost predicate RoomForU32(n: nat, shift: nat) {
    shift <= 28 && (shift == 28 ==> n < 16) && (n < 128 || RoomForU32(n / 128, shift + 7))
  }

  lemma {:induction false} U32LoopFeeds(n: nat, shift: nat, value: nat, bytes: seq<byte>, pos: nat)
    requires RoomForU32(n, shift) && Holds(bytes, pos, EncodeUnsigned(n))
    ensures FoldU32(bytes, pos, shift, value) == Got(FeedU32(n, shift, value), pos + |EncodeUnsigned(n)|)
    decreases n
  {
    if n < 128 {
      HoldsTail(bytes, pos, n, []);
    } else {
      HoldsTail(bytes, pos, n % 128 + 128, EncodeUnsigned(n / 128));
      assert (n % 128 + 128) % 128 == n % 128;
      MulLe(0, n % 128, Pow2(shift));
      U32LoopFeeds(n / 128, shift + 7, value + n % 128 * Pow2(shift), bytes, pos + 1);
    }
  }

  lemma {:induction false} FedU32(n: nat, shift: nat, value: nat)
    requires FitsU32(shift, value, n)
    ensures RoomForU32(n, shift) && FeedU32(n, shift, value) == value + n * Pow2(shift)
    decreases n
  {
    U32Group(shift, value, n);
    if n >= 128 {
      FedU32(n / 128, shift + 7, value + n % 128 * Pow2(shift));
    }
  }

  ghost predicate FitsU32(shift: nat, value: nat, n: nat) {
    GroupShift(shift) && value < Pow2(shift) && value + n * Pow2(shift) < U32_LIMIT
  }

  lemma U32Group(shift: nat, value: nat, n: nat)
    requires FitsU32(shift, value, n)
    ensures shift == 28 ==> n < 16
    ensures 0 <= n % 128 * Pow2(shift)
    ensures n >= 128 ==>
              && FitsU32(shift + 7, value + n % 128 * Pow2(shift), n / 128)
              && value + n * Pow2(shift) == value + n % 128 * Pow2(shift) + n / 128 * Pow2(shift + 7)
  {
    var scale := Pow2(shift);
    ScaleTable(shift);
    AddGroup(value, n % 128, scale);
    SplitNumber(n, scale);
    if shift == 28 && n >= 16 { MulLe(16, n, scale); }
  }

  lemma SplitNumber(n: int, scale: int)
    ensures n * scale == n % 128 * scale + n / 128 * (128 * scale)
  {
    var q, r := n / 128, n % 128;
    assert n == r + q * 128;
    Distribute(r, q * 128, scale);
    assert q * 128 * scale == q * (128 * scale);
  }

  lemma I32RoundTrip(n: int, before: seq<byte>, after: seq<byte>)
    requires -0x8000_0000 <= n < 0x8000_0000
    ensures var e := EncodeSigned(n);
            DecodeI32(before + e + after, |before|) == Got(n, |before| + |e|)
  {
    assert Pow2(0) == 1;
    Pow2Table();
    FedValue(32, n, 0, 0);
    SignedLoopFeeds(32, n, 0, 0, before + EncodeSigned(n) + after, |before|);
  }

  lemma I64RoundTrip(n: int, before: seq<byte>, after: seq<byte>)
    requires -0x8000_0000_0000_0000 <= n < 0x8000_0000_0000_0000
    ensures var e := EncodeSigned(n);
            DecodeI64(before + e + after, |before|) == Got(n, |before| + |e|)
  {
    assert Pow2(0) == 1;
    Pow2Table();
    Pow2Sum(32, 32);
    FedValue(64, n, 0, 0);
    SignedLoopFeeds(64, n, 0, 0, before + EncodeSigned(n) + after, |before|);
  }

  /** The value the remaining groups stand for still fits the register. */
  ghost predicate Fits(width: nat, shift: nat, bits: nat, n: int) {
    && shift < width && bits < Pow2(shift)
    && 0 <= 2 * (bits + n * Pow2(shift)) + Pow2(width) < 2 * Pow2(width)
  }

  /** The number the signed loop ends with when fed the groups of `n` from this state. */
  ghost function FeedSigned(width: nat, n: int, shift: nat, bits: nat): int
    decreases if n < 0 then -n else n
  {
    var v := bits + n % 128 * Pow2(shift) % Pow2(width);
    if !(-64 <= n < 64) then FeedSigned(width, n / 128, shift + 7, v)
    else if shift + 7 < width && n % 128 >= 64 then AsSigned(width, v + Pow2(width) - Pow2(shift + 7))
    else AsSigned(width, v)
  }

  /** The register is wide enough for every group of `n`. */
  ghost predicate RoomFor(width: nat, n: int, shift: nat)
    decreases if n < 0 then -n else n
  {
    shift < width && (-64 <= n < 64 || RoomFor(width, n / 128, shift + 7))
  }

  lemma {:induction false} SignedLoopFeeds(width: nat, n: int, shift: nat, bits: nat, bytes: seq<byte>, pos: nat)
    requires RoomFor(width, n, shift) && Holds(bytes, pos, EncodeSigned(n))
    ensures FoldSigned(width, bytes, pos, shift, bits)
            == Got(FeedSigned(width, n, shift, bits), pos + |EncodeSigned(n)|)
    decreases if n < 0 then -n else n
  {
    if -64 <= n < 64 {
      HoldsTail(bytes, pos, n % 128, []);
    } else {
      HoldsTail(bytes, pos, n % 128 + 128, EncodeSigned(n / 128));
      assert (n % 128 + 128) % 128 == n % 128;
      SignedLoopFeeds(width, n / 128, shift + 7, bits + n % 128 * Pow2(shift) % Pow2(width), bytes, pos + 1);
    }
  }

  lemma {:induction false} FedValue(width: nat, n: int, shift: nat, bits: nat)
    requires Fits(width, shift, bits, n)
    ensures RoomFor(width, n, shift) && FeedSigned(width, n, shift, bits) == bits + n * Pow2(shift)
    decreases if n < 0 then -n else n
  {
    if -64 <= n < 64 {
      LastSignedGroup(width, n, shift, bits);
    } else {
      MiddleSignedGroup(width, n, shift, bits);
      FedValue(width, n / 128, shift + 7, bits + n % 128 * Pow2(shift));
    }
  }

  /** A number that needs another group leaves room for it in the register. */
  lemma MiddleSignedGroup(width: nat, n: int, shift: nat, bits: nat)
    requires Fits(width, shift, bits, n) && !(-64 <= n < 64)
    ensures n % 128 * Pow2(shift) % Pow2(width) == n % 128 * Pow2(shift)
    ensures Fits(width, shift + 7, bits + n % 128 * Pow2(shift), n / 128)
    ensures bits + n * Pow2(shift) == bits + n % 128 * Pow2(shift) + n / 128 * Pow2(shift + 7)
  {
    var scale := Pow2(shift);
    Pow2Seven(shift);
    SplitNumber(n, scale);
    AddGroup(bits, n % 128, scale);
    if shift + 7 >= width {
      Pow2Monotone(width, shift + 7);
      if n >= 64 { MulLe(64, n, scale); } else { MulLe(n, -65, scale); }
      assert false;
    }
    Pow2Monotone(shift + 7, width);
    DivisionUnique(n % 128 * scale, Pow2(width), 0, n % 128 * scale);
  }

  /** The last group, with or without sign extension, completes the two's complement pattern. */
  lemma LastSignedGroup(width: nat, n: int, shift: nat, bits: nat)
    requires Fits(width, shift, bits, n) && -64 <= n < 64
    ensures var v := bits + n % 128 * Pow2(shift) % Pow2(width);
            (if shift + 7 < width && n % 128 >= 64 then AsSigned(width, v + Pow2(width) - Pow2(shift + 7))
             else AsSigned(width, v))
            == bits + n * Pow2(shift)
  {
    var scale, whole := Pow2(shift), Pow2(width);
    Pow2Seven(shift);
    if shift + 7 < width {
      Pow2Monotone(shift + 8, width);
      AddGroup(bits, n % 128, scale);
      DivisionUnique(n % 128 * scale, whole, 0, n % 128 * scale);
      if n < 0 {
        assert n % 128 == n + 128;
        Distribute(n, 128, scale);
        MulLe(-64, n, scale);
      } else {
        MulLe(n, 63, scale);
      }
    } else if n < 0 {
      // the part of the group past the register's top bit is dropped by the shift
      Pow2Sum(width, shift + 7 - width);
      Pow2Monotone(shift + 1, width);
      DroppedSign(n, scale, whole, Pow2(shift + 7 - width), bits);
    } else {
      MulLe(0, n, scale);
      DivisionUnique(n % 128 * scale, whole, 0, n * scale);
    }
  }

  lemma DroppedSign(n: int, scale: nat, whole: nat, extra: nat, bits: nat)
    requires -64 <= n < 0 && bits < scale && 128 * scale == whole * extra
    requires 0 <= 2 * (bits + n * scale) + whole && 2 * scale <= whole
    ensures n % 128 * scale % whole == n * scale + whole
    ensures n * scale < 0
  {
    assert n % 128 == n + 128;
    Distribute(n, 128, scale);
    MulLe(n, -1, scale);
    assert whole * extra == (extra - 1) * whole + whole;
    DivisionUnique(n % 128 * scale, whole, extra - 1, n * scale + whole);
  }

  lemma Pow2Monotone(m: nat, n: nat)
    requires m <= n
    ensures Pow2(m) <= Pow2(n)
  {
    Pow2Sum(m, n - m);
    MulLe(1, Pow2(n - m), Pow2(m));
  }
}
