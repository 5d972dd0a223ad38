/** The byte cursor of `src/wasm.rs`: a slice and a position that its readers move forward. */
module WasmCursor {
  import opened Common
  import opened WasmLeb

  class Cursor {
    const bytes: seq<byte>
    var position: nat

    ghost predicate Valid()
      reads this
    {
      position <= |bytes|
    }

    constructor (bytes: seq<byte>)
      ensures Valid() && this.bytes == bytes && position == 0
    {
      this.bytes := bytes;
      position := 0;
    }

    /** What a reader owes its caller: the value and the new position, or the error. */
    ghost predicate Reads(d: Decoded, r: Result<int, Error>)
      reads this
    {
      match d
      case Got(value, next) => r == Ok(value) && position == next
      case Fail(error) => r == Err(error)
    }

    method Byte() returns (r: Result<byte, Error>)
      requires Valid()
      modifies this
      ensures Valid()
      ensures if old(position) == |bytes| then r == Err(Truncated) && position == old(position)
              else r == Ok(bytes[old(position)]) && position == old(position) + 1
    {
      if position == |bytes| {
        return Err(Truncated);
      }
      r := Ok(bytes[position]);
      position := position + 1;
    }

    method LebU32() returns (r: Result<int, Error>)
      requires Valid()
      modifies this
      ensures Valid()
      ensures Reads(DecodeU32(bytes, old(position)), r)
    {
      var value, shift := 0, 0;
      while true
        invariant Valid() && value >= 0
        invariant FoldU32(bytes, position, shift, value) == DecodeU32(bytes, old(position))
        decreases |bytes| - position
      {
        var next := Byte();
        if next.Err? {
          return Err(next.error);
        }
        var b := next.value;
        if shift >= 32 || (shift == 28 && b > 0x0f) {
          return Err(InvalidLeb);
        }
        MulLe(0, b % 128, Pow2(shift));
        value := value + b % 128 * Pow2(shift);
        if b < 128 {
          return Ok(value);
        }
        shift := shift + 7;
      }
    }

    method LebI32() returns (r: Result<int, Error>)
      requires Valid()
      modifies this
      ensures Valid()
      ensures Reads(DecodeI32(bytes, old(position)), r)
    {
      r := LebSigned(32);
    }

    method LebI64() returns (r: Result<int, Error>)
      requires Valid()
      modifies this
      ensures Valid()
      ensures Reads(DecodeI64(bytes, old(position)), r)
    {
      r := LebSigned(64);
    }

    /** The loop that the 32-bit and the 64-bit reader each spell out for their register. */
    method LebSigned(width: nat) returns (r: Result<int, Error>)
      requires Valid() && width > 0
      modifies this
      ensures Valid()
      ensures Reads(FoldSigned(width, bytes, old(position), 0, 0), r)
    {
      var bits, shift := 0, 0;
      while true
        invariant Valid() && bits >= 0
        invariant FoldSigned(width, bytes, position, shift, bits) == FoldSigned(width, bytes, old(position), 0, 0)
        decreases |bytes| - position
      {
        var next := Byte();
        if next.Err? {
          return Err(next.error);
        }
        var b := next.value;
        if shift >= width {
          return Err(InvalidLeb);
        }
        bits := bits + b % 128 * Pow2(shift) % Pow2(width);
        shift := shift + 7;
        if b < 128 {
          if shift < width && b >= 64 {
            bits := bits + Pow2(width) - Pow2(shift);
          }
          return Ok(AsSigned(width, bits));
        }
      }
    }
  }
}
