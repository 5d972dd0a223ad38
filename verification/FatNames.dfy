/** Directory entries of a FAT32 volume written out byte by byte, with their long names, and what the reader of
    `src/fat32.rs` takes from them. */
module FatNames {
  import opened Common
  import opened Fat32
  import opened FatLayout

  const SPACE: byte := 0x20
  const DOT: byte := 0x2e

  // ------------------------------------------------------------------ names

  /** The number in the payload bits of a two-byte and of a three-byte sequence. */
  function TwoBytes(a: int, b: int): int { (a - 0xc0) * 0x40 + (b - 0x80) }

  function ThreeBytes(a: int, b: int, c: int): int { (a - 0xe0) * 0x1000 + (b - 0x80) * 0x40 + (c - 0x80) }

  /** The bytes are the UTF-8 form of the characters, each of 16 bits on its own. */
  predicate Spells(t: seq<byte>, chars: seq<nat>)
    decreases |chars|
  {
    if chars == [] then t == []
    else if chars[0] < 0x80 then |t| >= 1 && t[0] == chars[0] && Spells(t[1..], chars[1..])
    else if chars[0] < 0x800 then
      && |t| >= 2 && 0xc0 <= t[0] < 0xe0 && 0x80 <= t[1] < 0xc0
      && chars[0] == TwoBytes(t[0], t[1])
      && Spells(t[2..], chars[1..])
    else
      && |t| >= 3 && 0xe0 <= t[0] < 0xf0 && 0x80 <= t[1] < 0xc0 && 0x80 <= t[2] < 0xc0
      && chars[0] == ThreeBytes(t[0], t[1], t[2])
      && Spells(t[3..], chars[1..])
  }

  /** A letter in either case, or the same byte. */
  predicate Alike(a: byte, b: byte) {
    || a == b
    || (0x41 <= a <= 0x5a && b == a + 0x20)
    || (0x41 <= b <= 0x5a && a == b + 0x20)
  }

  predicate AlikeNames(a: seq<byte>, b: seq<byte>) { |a| == |b| && forall k :: 0 <= k < |a| ==> Alike(a[k], b[k]) }

  /** The checksum that ties a long name to its short entry: rotate right by one bit, add the next byte. */
  function Checksum(name: seq<byte>, sum: byte): byte {
    if name == [] then sum else Checksum(name[1..], (sum % 2 * 0x80 + sum / 2 + name[0]) % 0x100)
  }

  // ------------------------------------------------------------------ entries

  /** An entry of a directory. The attribute is made of its low four bits, the directory bit and the top three. */
  datatype Item =
    | Deleted(bytes: seq<byte>)
    | Listed(base: seq<byte>, extension: seq<byte>, long: Option<seq<nat>>, low: nat, directory: bool, top: nat,
             times: seq<byte>, stamp: seq<byte>, cluster: u32, size: u32)

  predicate IsCharacter(c: nat) { 0 < c < 0xffff }

  predicate ItemOk(item: Item) {
    match item
    case Deleted(bytes) => |bytes| == 31
    case Listed(base, extension, long, low, directory, top, times, stamp, _, _) =>
      && 1 <= |base| <= 8 && SPACE !in base && base[0] != 0 && base[0] != 0xe5
      && |extension| <= 3 && SPACE !in extension
      && (long.Some? ==> 1 <= |long.value| <= 260 && forall k :: 0 <= k < |long.value| ==> IsCharacter(long.value[k]))
      && low < 0x10 && top < 8 && !(low == 0x0f && !directory && top == 0) && |times| == 8 && |stamp| == 4
  }

  function Spaces(n: nat): (s: seq<byte>)
    ensures |s| == n
  {
    seq(n, _ => SPACE)
  }

  function Padded(s: seq<byte>, n: nat): (r: seq<byte>)
    requires |s| <= n
    ensures |r| == n
  {
    s + Spaces(n - |s|)
  }

  function Short(item: Item): (s: seq<byte>)
    requires ItemOk(item) && item.Listed?
    ensures |s| == 11
  {
    Padded(item.base, 8) + Padded(item.extension, 3)
  }

  function Attribute(item: Item): byte
    requires ItemOk(item) && item.Listed?
  {
    item.low + (if item.directory then 0x10 else 0) + 0x20 * item.top
  }

  function ShortBytes(item: Item): (e: Entry)
    requires ItemOk(item) && item.Listed?
  {
    Short(item) + [Attribute(item)] + item.times + Le2(item.cluster / 0x1_0000) + item.stamp
    + Le2(item.cluster % 0x1_0000) + Le4(item.size)
  }

  /** The characters of a long name filled up to whole entries: a zero behind them, and ones behind that. */
  function Filled(chars: seq<nat>): (r: seq<nat>)
    ensures |r| == 13 * ((|chars| + 12) / 13)
  {
    if |chars| % 13 == 0 then chars else chars + [0] + seq(12 - |chars| % 13, _ => 0xffff)
  }

  predicate Are16Bit(chars: seq<nat>) { forall k :: 0 <= k < |chars| ==> chars[k] < U16_LIMIT }

  /** Five characters, six and two, around the fixed fields of a long-name entry. */
  function LongPart(chars: seq<nat>, order: byte, checksum: byte): (e: Entry)
    requires |chars| == 13 && Are16Bit(chars)
  {
    [order] + Le2(chars[0]) + Le2(chars[1]) + Le2(chars[2]) + Le2(chars[3]) + Le2(chars[4])
    + [0x0f, 0, checksum]
    + Le2(chars[5]) + Le2(chars[6]) + Le2(chars[7]) + Le2(chars[8]) + Le2(chars[9]) + Le2(chars[10])
    + [0, 0] + Le2(chars[11]) + Le2(chars[12])
  }

  /** The k-th part of a filled long name of n parts; the last one comes first and is marked. */
  function PartOf(filled: seq<nat>, k: nat, n: nat, checksum: byte): (e: Entry)
    requires 1 <= k <= n <= 20 && |filled| == 13 * n && Are16Bit(filled)
  {
    LongPart(filled[13 * (k - 1)..13 * k], if k == n then 0x40 + k else k, checksum)
  }

  function PartsOf(filled: seq<nat>, checksum: byte): (parts: seq<Entry>)
    requires |filled| % 13 == 0 && |filled| <= 260 && Are16Bit(filled)
    ensures |parts| == |filled| / 13
  {
    var n := |filled| / 13;
    seq(n, k requires 0 <= k < n => PartOf(filled, k + 1, n, checksum))
  }

  /** The first k parts, the last of them first. */
  function LongBytes(parts: seq<Entry>, k: nat): (b: seq<byte>)
    requires k <= |parts|
    ensures |b| == 32 * k
  {
    if k == 0 then [] else parts[k - 1] + LongBytes(parts, k - 1)
  }

  lemma FilledOk(chars: seq<nat>)
    requires 1 <= |chars| <= 260 && forall k :: 0 <= k < |chars| ==> IsCharacter(chars[k])
    ensures var n := |Filled(chars)| / 13; 1 <= n <= 20 && |Filled(chars)| == 13 * n && Are16Bit(Filled(chars))
  {
  }

  /** An entry as it stands in its directory: the parts of its long name, then its short entry. */
  function ItemBytes(item: Item): seq<byte>
    requires ItemOk(item)
  {
    match item
    case Deleted(bytes) => [0xe5] + bytes
    case Listed(_, _, long, _, _, _, _, _, _, _) =>
      if long.None? then ShortBytes(item)
      else
        FilledOk(long.value);
        var parts := PartsOf(Filled(long.value), Checksum(Short(item), 0));
        LongBytes(parts, |parts|) + ShortBytes(item)
  }

  predicate AllOk(items: seq<Item>) { forall k :: 0 <= k < |items| ==> ItemOk(items[k]) }

  function ItemsBytes(items: seq<Item>): seq<byte>
    requires AllOk(items)
  {
    if items == [] then [] else ItemBytes(items[0]) + ItemsBytes(items[1..])
  }

  // ------------------------------------------------------------------ what an entry is called

  /** The short name as it is written in paths. */
  function DotName(item: Item): seq<byte>
    requires item.Listed?
  {
    item.base + if item.extension == [] then [] else [DOT] + item.extension
  }

  predicate Named(item: Item, target: seq<byte>) {
    item.Listed? && ((item.long.Some? && Spells(target, item.long.value)) || AlikeNames(DotName(item), target))
  }

  /** The first entry of that name. */
  function Lookup(items: seq<Item>, target: seq<byte>): Option<Item> {
    if items == [] then None else if Named(items[0], target) then Some(items[0]) else Lookup(items[1..], target)
  }

  // ------------------------------------------------------------------ reading names back

  lemma {:induction false} SpellsExactly(t: seq<byte>, chars: seq<nat>)
    requires forall k :: 0 <= k < |chars| ==> IsCharacter(chars[k])
    ensures EncodeName(chars) == t <==> Spells(t, chars)
    decreases |chars|
  {
    if chars != [] {
      var c, u, rest := chars[0], Utf8(chars[0]), EncodeName(chars[1..]);
      assert EncodeName(chars) == u + rest;
      OneCharacter(c, t);
      if |t| >= |u| && t[..|u|] == u {
        SpellsExactly(t[|u|..], chars[1..]);
        assert t == u + t[|u|..];
        assert (u + rest)[|u|..] == rest;
      } else {
        assert (u + rest)[..|u|] == u;
      }
    }
  }

  /** The front of a text is the UTF-8 form of a character exactly when it decodes to it. */
  lemma OneCharacter(c: nat, t: seq<byte>)
    requires IsCharacter(c)
    ensures var u := Utf8(c);
            && |u| == (if c < 0x80 then 1 else if c < 0x800 then 2 else 3)
            && (|t| >= |u| ==>
                  (t[..|u|] == u <==>
                   if c < 0x80 then t[0] == c
                   else if c < 0x800 then
                     0xc0 <= t[0] < 0xe0 && 0x80 <= t[1] < 0xc0 && c == TwoBytes(t[0], t[1])
                   else
                     && 0xe0 <= t[0] < 0xf0 && 0x80 <= t[1] < 0xc0 && 0x80 <= t[2] < 0xc0
                     && c == ThreeBytes(t[0], t[1], t[2])))
  {
    var u := Utf8(c);
    if |t| >= |u| {
      var f := t[..|u|];
      if c < 0x80 {
        assert f == [t[0]];
      } else if c < 0x800 {
        assert f == [t[0], t[1]];
        TwoExactly(c, t[0], t[1]);
      } else {
        assert f == [t[0], t[1], t[2]];
        ThreeExactly(c, t[0], t[1], t[2]);
      }
    }
  }

  lemma TwoExactly(c: nat, a: byte, b: byte)
    requires 0x80 <= c < 0x800
    ensures 0xc0 <= a < 0xe0 && 0x80 <= b < 0xc0 && c == TwoBytes(a, b) <==>
            a == 0xc0 + c / 0x40 && b == 0x80 + c % 0x40
  {
  }

  lemma ThreeExactly(c: nat, a: byte, b: byte, d: byte)
    requires 0x800 <= c < 0xffff
    ensures 0xe0 <= a < 0xf0 && 0x80 <= b < 0xc0 && 0x80 <= d < 0xc0 && c == ThreeBytes(a, b, d)
            <==> a == 0xe0 + c / 0x1000 % 0x10 && b == 0x80 + c / 0x40 % 0x40 && d == 0x80 + c % 0x40
  {
    var q := c / 0x40;
    assert q / 0x40 == c / 0x1000 < 0x10;
    if 0xe0 <= a < 0xf0 && 0x80 <= b < 0xc0 && 0x80 <= d < 0xc0 && c == ThreeBytes(a, b, d) {
      var i: int, j: int, k: int := a - 0xe0, b - 0x80, d - 0x80;
      DivisionUnique(c, 0x40, 0x40 * i + j, k);
      DivisionUnique(q, 0x40, i, j);
    }
  }

  lemma {:induction false} SumIs(name: seq<byte>, n: nat)
    requires n <= |name|
    ensures Checksum(name[n..], ShortChecksum(name[..n])) == ShortChecksum(name)
    decreases |name| - n
  {
    if n == |name| {
      assert name[n..] == [] && name[..n] == name;
    } else {
      assert name[..n + 1][..n] == name[..n] && name[..n + 1][n] == name[n];
      assert name[n..][1..] == name[n + 1..];
      SumIs(name, n + 1);
    }
  }

  lemma ChecksumIs(name: seq<byte>)
    ensures Checksum(name, 0) == ShortChecksum(name)
  {
    assert name[0..] == name && name[..0] == [];
    SumIs(name, 0);
  }

  lemma AlikeIs(a: byte, b: byte)
    ensures Alike(a, b) <==> Lower(a) == Lower(b)
  {
  }

  lemma AlikeNamesIs(a: seq<byte>, b: seq<byte>)
    ensures AlikeNames(a, b) <==> SameIgnoringCase(a, b)
  {
    if |a| == |b| {
      forall k | 0 <= k < |a| ensures Alike(a[k], b[k]) <==> Lower(a[k]) == Lower(b[k]) { AlikeIs(a[k], b[k]); }
    }
  }

  lemma {:induction false} SpacesDropped(s: seq<byte>, n: nat)
    requires |s| <= n && SPACE !in s
    ensures NoSpaces(Padded(s, n)) == s
    decreases n
  {
    var p := Padded(s, n);
    if s != [] {
      assert p[0] == s[0] && p[1..] == Padded(s[1..], n - 1);
      SpacesDropped(s[1..], n - 1);
      assert [s[0]] + s[1..] == s;
    } else if n > 0 {
      assert p[0] == SPACE && p[1..] == Padded([], n - 1);
      SpacesDropped([], n - 1);
    }
  }

  lemma ShortNameIs(item: Item)
    requires ItemOk(item) && item.Listed?
    ensures ShortName(Short(item)) == DotName(item)
  {
    var s := Short(item);
    assert s[..8] == Padded(item.base, 8) && s[8..11] == Padded(item.extension, 3);
    SpacesDropped(item.base, 8);
    SpacesDropped(item.extension, 3);
  }
}
