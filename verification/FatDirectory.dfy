/** Searching a FAT32 directory for a name: a listed name gives its own entry, an unlisted one gives nothing. */
module FatDirectory {
  import opened Common
  import opened Fat32
  import opened FatLayout
  import opened FatNames

  // ------------------------------------------------------------------ searching some bytes

  /** Which of the 32-byte entries the reader stops at, if it does. */
  function Search(bytes: seq<byte>, name: LongName, target: seq<byte>): (r: Option<nat>)
    ensures r.Some? ==> 32 * r.value + 32 <= |bytes|
    decreases |bytes|
  {
    if |bytes| < 32 then None
    else
      match Judge(name, bytes[..32], target)
      case Last => None
      case Matched => Some(0)
      case Keep(next) => Later(1, Search(bytes[32..], next, target))
  }

  function Later(n: nat, r: Option<nat>): Option<nat> { if r.Some? then Some(r.value + n) else None }

  lemma SearchStep(e: Entry, rest: seq<byte>, name: LongName, target: seq<byte>)
    ensures Search(e + rest, name, target)
            == match Judge(name, e, target)
               case Last => None
               case Matched => Some(0)
               case Keep(next) => Later(1, Search(rest, next, target))
  {
    assert (e + rest)[..32] == e && (e + rest)[32..] == rest;
  }

  // ------------------------------------------------------------------ one entry

  /** The fields of a short entry, as the reader takes them. */
  lemma ShortReads(item: Item)
    requires ItemOk(item) && item.Listed?
    ensures var e := ShortBytes(item);
            && e[..11] == Short(item) && e[11] == Attribute(item) && e[0] == item.base[0]
            && FoundAt(e) == Found(item.directory, item.cluster, item.size)
  {
    var e := ShortBytes(item);
    var high, low := item.cluster / 0x1_0000, item.cluster % 0x1_0000;
    assert e[..11] == Short(item) && e[11] == Attribute(item);
    assert e[0] == e[..11][0];
    assert e[20..22] == Le2(high) && e[26..28] == Le2(low) && e[28..32] == Le4(item.size);
    Reads2(e, 20, high);
    Reads2(e, 26, low);
    Reads4(e, 28, item.size);
    AttributeReads(item);
  }

  lemma AttributeReads(item: Item)
    requires ItemOk(item) && item.Listed?
    ensures (Attribute(item) / 0x10 % 2 == 1 <==> item.directory) && Attribute(item) != 0x0f
  {
  }

  lemma PairReads(e: Entry, at: nat, c: u16)
    requires at + 2 <= 32 && e[at] == c % 0x100 && e[at + 1] == c / 0x100
    ensures U16At(e, at) == c
  {
  }

  /** The thirteen characters of a long-name entry are where the reader looks for them. */
  lemma LongPartReads(chars: seq<nat>, order: byte, checksum: byte)
    requires |chars| == 13 && Are16Bit(chars)
    ensures var e := LongPart(chars, order, checksum);
            e[0] == order && e[11] == 0x0f && e[13] == checksum && Characters(e) == chars
  {
    var e := LongPart(chars, order, checksum);
    PairReads(e, 1, chars[0]);
    PairReads(e, 3, chars[1]);
    PairReads(e, 5, chars[2]);
    PairReads(e, 7, chars[3]);
    PairReads(e, 9, chars[4]);
    PairReads(e, 14, chars[5]);
    PairReads(e, 16, chars[6]);
    PairReads(e, 18, chars[7]);
    PairReads(e, 20, chars[8]);
    PairReads(e, 22, chars[9]);
    PairReads(e, 24, chars[10]);
    PairReads(e, 28, chars[11]);
    PairReads(e, 30, chars[12]);
  }

  // ------------------------------------------------------------------ the parts of a long name

  function Order(k: nat, n: nat): nat { if k == n then 0x40 + k else k }

  predicate PartFits(e: Entry, chars: seq<nat>, order: nat, checksum: byte) {
    e[0] == order && e[11] == 0x0f && e[13] == checksum && Characters(e) == chars
  }

  /** These are the parts of the filled name. */
  ghost predicate PartsFit(parts: seq<Entry>, filled: seq<nat>, checksum: byte) {
    && 1 <= |parts| <= 20 && |filled| == 13 * |parts|
    && forall k: nat :: 1 <= k <= |parts| ==>
         PartFits(parts[k - 1], filled[13 * (k - 1)..13 * k], Order(k, |parts|), checksum)
  }

  lemma PartsOfFit(filled: seq<nat>, checksum: byte)
    requires |filled| % 13 == 0 && 0 < |filled| <= 260 && Are16Bit(filled)
    ensures PartsFit(PartsOf(filled, checksum), filled, checksum)
  {
    var n := |filled| / 13;
    forall k: nat | 1 <= k <= n
      ensures PartFits(PartsOf(filled, checksum)[k - 1], filled[13 * (k - 1)..13 * k], Order(k, n), checksum)
    {
      LongPartReads(filled[13 * (k - 1)..13 * k], Order(k, n), checksum);
    }
  }

  function Nth(parts: seq<Entry>, j: nat): Entry
    requires 1 <= j <= |parts|
  {
    parts[j - 1]
  }

  /** The parts above the k-th. */
  function PartsAbove(parts: seq<Entry>, k: nat): map<nat, Entry> {
    map j: nat | k < j <= |parts| :: Nth(parts, j)
  }

  function Collected(parts: seq<Entry>, k: nat, checksum: byte): LongName {
    LongName(PartsAbove(parts, k), checksum, |parts|, true)
  }

  lemma OrderReads(k: nat, n: nat)
    requires 1 <= k <= n <= 20
    ensures Order(k, n) != 0 && Order(k, n) != 0xe5 && Order(k, n) % 0x20 == k
    ensures Order(k, n) / 0x40 % 2 == 1 <==> k == n
  {
  }

  /** The k-th part starts the name if it is the last one, and continues it otherwise. */
  lemma PartJudged(parts: seq<Entry>, filled: seq<nat>, k: nat, checksum: byte, name: LongName, target: seq<byte>)
    requires PartsFit(parts, filled, checksum) && 1 <= k <= |parts|
    requires k < |parts| ==> name == Collected(parts, k, checksum)
    ensures Judge(name, parts[k - 1], target) == Keep(Collected(parts, k - 1, checksum))
  {
    var e := parts[k - 1];
    assert PartFits(e, filled[13 * (k - 1)..13 * k], Order(k, |parts|), checksum);
    OrderReads(k, |parts|);
    AboveGrows(parts, k);
    assert e[0] % 0x20 == k;
    assert Judge(name, e, target) == Keep(Accept(name, e));
  }

  lemma AboveGrows(parts: seq<Entry>, k: nat)
    requires 1 <= k <= |parts|
    ensures PartsAbove(parts, k - 1) == PartsAbove(parts, k)[k := parts[k - 1]]
    ensures k == |parts| ==> PartsAbove(parts, k) == map[] && PartsAbove(parts, k - 1) == map[k := parts[k - 1]]
  {
  }

  lemma {:induction false} PartsSearched(parts: seq<Entry>, filled: seq<nat>, k: nat, checksum: byte,
                                         rest: seq<byte>, target: seq<byte>)
    requires PartsFit(parts, filled, checksum) && k < |parts|
    ensures Search(LongBytes(parts, k) + rest, Collected(parts, k, checksum), target)
            == Later(k, Search(rest, Collected(parts, 0, checksum), target))
    decreases k
  {
    if k == 0 {
      assert LongBytes(parts, 0) + rest == rest;
    } else {
      PartSearched(parts, filled, k, checksum, Collected(parts, k, checksum), rest, target);
      PartsSearched(parts, filled, k - 1, checksum, rest, target);
    }
  }

  lemma AllPartsSearched(parts: seq<Entry>, filled: seq<nat>, checksum: byte, rest: seq<byte>, target: seq<byte>)
    requires PartsFit(parts, filled, checksum)
    ensures Search(LongBytes(parts, |parts|) + rest, NO_NAME, target)
            == Later(|parts|, Search(rest, Collected(parts, 0, checksum), target))
  {
    var n := |parts| - 1;
    var last := Search(rest, Collected(parts, 0, checksum), target);
    PartSearched(parts, filled, n + 1, checksum, NO_NAME, rest, target);
    PartsSearched(parts, filled, n, checksum, rest, target);
    LaterTwice(n, last);
  }

  lemma LaterTwice(n: nat, r: Option<nat>)
    ensures Later(1, Later(n, r)) == Later(n + 1, r)
  {
  }

  lemma PartSearched(parts: seq<Entry>, filled: seq<nat>, k: nat, checksum: byte, name: LongName, rest: seq<byte>,
                     target: seq<byte>)
    requires PartsFit(parts, filled, checksum) && 1 <= k <= |parts|
    requires k < |parts| ==> name == Collected(parts, k, checksum)
    ensures Search(LongBytes(parts, k) + rest, name, target)
            == Later(1, Search(LongBytes(parts, k - 1) + rest, Collected(parts, k - 1, checksum), target))
  {
    var e, more := parts[k - 1], LongBytes(parts, k - 1);
    Concatenated(e, more, rest);
    PartJudged(parts, filled, k, checksum, name, target);
    SearchPasses(e, more + rest, name, Collected(parts, k - 1, checksum), target);
  }

  lemma SearchPasses(e: Entry, rest: seq<byte>, name: LongName, next: LongName, target: seq<byte>)
    requires Judge(name, e, target) == Keep(next)
    ensures Search(e + rest, name, target) == Later(1, Search(rest, next, target))
  {
    SearchStep(e, rest, name, target);
  }

  /** The collected parts spell the name. */
  lemma {:induction false} TextIs(parts: seq<Entry>, filled: seq<nat>, checksum: byte, count: nat)
    requires PartsFit(parts, filled, checksum) && count <= |parts|
    ensures Text(PartsAbove(parts, 0), count) == filled[..13 * count]
    decreases count
  {
    if count > 0 {
      TextIs(parts, filled, checksum, count - 1);
      assert PartFits(parts[count - 1], filled[13 * (count - 1)..13 * count], Order(count, |parts|), checksum);
      assert PartsAbove(parts, 0)[count] == parts[count - 1];
      assert filled[..13 * (count - 1)] + filled[13 * (count - 1)..13 * count] == filled[..13 * count];
    }
  }

  /** Reading stops at the filling. */
  lemma {:induction false} FillingEnds(chars: seq<nat>, filling: seq<nat>)
    requires forall k :: 0 <= k < |chars| ==> IsCharacter(chars[k])
    requires filling == [] || filling[0] == 0
    ensures EncodeName(chars + filling) == EncodeName(chars)
    decreases |chars|
  {
    if chars == [] {
      assert chars + filling == filling;
    } else {
      assert (chars + filling)[0] == chars[0] && (chars + filling)[1..] == chars[1..] + filling;
      FillingEnds(chars[1..], filling);
    }
  }

  lemma FilledIs(chars: seq<nat>)
    requires forall k :: 0 <= k < |chars| ==> IsCharacter(chars[k])
    ensures EncodeName(Filled(chars)) == EncodeName(chars)
  {
    if |chars| % 13 != 0 {
      var filling := [0] + seq(12 - |chars| % 13, _ => 0xffff);
      assert Filled(chars) == chars + filling;
      FillingEnds(chars, filling);
    }
  }

  // ------------------------------------------------------------------ items

  /** What the reader has collected when it comes to an item's short entry. */
  function Remembered(item: Item): LongName
    requires ItemOk(item) && item.Listed?
  {
    if item.long.None? then NO_NAME
    else
      FilledOk(item.long.value);
      var sum := Checksum(Short(item), 0);
      Collected(PartsOf(Filled(item.long.value), sum), 0, sum)
  }

  lemma ShortMatches(item: Item, name: LongName, target: seq<byte>)
    requires ItemOk(item) && item.Listed? && name == Remembered(item)
    ensures Judge(name, ShortBytes(item), target) == if Named(item, target) then Matched else Keep(NO_NAME)
  {
    ShortReads(item);
    AttributeReads(item);
    ShortNameIs(item);
    AlikeNamesIs(DotName(item), target);
    ChecksumIs(Short(item));
    if item.long.Some? {
      LongNameMatches(item, target);
    }
  }

  lemma LongNameMatches(item: Item, target: seq<byte>)
    requires ItemOk(item) && item.Listed? && item.long.Some?
    ensures LongMatches(Remembered(item), target, Checksum(Short(item), 0)) <==> Spells(target, item.long.value)
  {
    FilledOk(item.long.value);
    var filled, sum := Filled(item.long.value), Checksum(Short(item), 0);
    PartsOfFit(filled, sum);
    PartsMatch(PartsOf(filled, sum), item.long.value, sum, target);
  }

  lemma PartsMatch(parts: seq<Entry>, chars: seq<nat>, sum: byte, target: seq<byte>)
    requires forall k :: 0 <= k < |chars| ==> IsCharacter(chars[k])
    requires PartsFit(parts, Filled(chars), sum)
    ensures LongMatches(Collected(parts, 0, sum), target, sum) <==> Spells(target, chars)
  {
    TextIs(parts, Filled(chars), sum, |parts|);
    assert Filled(chars)[..13 * |parts|] == Filled(chars);
    FilledIs(chars);
    SpellsExactly(target, chars);
  }

  /** The entries an item takes. */
  function Entries(item: Item): nat
    requires ItemOk(item)
  {
    if item.Listed? && item.long.Some? then (|item.long.value| + 12) / 13 + 1 else 1
  }

  /** The search stops at an item's short entry exactly when the item has the name. */
  lemma ItemSearched(item: Item, rest: seq<byte>, target: seq<byte>)
    requires ItemOk(item)
    ensures |ItemBytes(item)| == 32 * Entries(item)
    ensures Search(ItemBytes(item) + rest, NO_NAME, target)
            == if Named(item, target) then Some(Entries(item) - 1)
               else Later(Entries(item), Search(rest, NO_NAME, target))
    ensures item.Listed? ==> ItemBytes(item)[32 * (Entries(item) - 1)..] == ShortBytes(item)
  {
    match item
    case Deleted(bytes) => SearchStep([0xe5] + bytes, rest, NO_NAME, target);
    case Listed(_, _, long, _, _, _, _, _, _, _) =>
      if long.None? {
        SearchStep(ShortBytes(item), rest, NO_NAME, target);
        ShortMatches(item, NO_NAME, target);
      } else {
        LongItemSearched(item, rest, target);
      }
  }

  lemma LongItemSearched(item: Item, rest: seq<byte>, target: seq<byte>)
    requires ItemOk(item) && item.Listed? && item.long.Some?
    ensures |ItemBytes(item)| == 32 * Entries(item)
    ensures Search(ItemBytes(item) + rest, NO_NAME, target)
            == if Named(item, target) then Some(Entries(item) - 1)
               else Later(Entries(item), Search(rest, NO_NAME, target))
    ensures ItemBytes(item)[32 * (Entries(item) - 1)..] == ShortBytes(item)
  {
    FilledOk(item.long.value);
    var filled, sum, e := Filled(item.long.value), Checksum(Short(item), 0), ShortBytes(item);
    var parts := PartsOf(filled, sum);
    PartsOfFit(filled, sum);
    LongItemParts(item, parts, rest);
    ShortMatches(item, Collected(parts, 0, sum), target);
    PartsThenShort(parts, filled, sum, e, rest, target);
  }

  lemma LongItemParts(item: Item, parts: seq<Entry>, rest: seq<byte>)
    requires ItemOk(item) && item.Listed? && item.long.Some?
    requires (FilledOk(item.long.value); parts == PartsOf(Filled(item.long.value), Checksum(Short(item), 0)))
    ensures |parts| + 1 == Entries(item) && |ItemBytes(item)| == 32 * Entries(item)
    ensures ItemBytes(item) + rest == LongBytes(parts, |parts|) + (ShortBytes(item) + rest)
    ensures ItemBytes(item)[32 * |parts|..] == ShortBytes(item)
  {
    LongItemBytes(item, parts);
    Joined(ItemBytes(item), LongBytes(parts, |parts|), ShortBytes(item), rest);
  }

  lemma LongItemBytes(item: Item, parts: seq<Entry>)
    requires ItemOk(item) && item.Listed? && item.long.Some?
    requires (FilledOk(item.long.value); parts == PartsOf(Filled(item.long.value), Checksum(Short(item), 0)))
    ensures ItemBytes(item) == LongBytes(parts, |parts|) + ShortBytes(item) && |parts| + 1 == Entries(item)
  {
  }

  lemma Joined(bytes: seq<byte>, a: seq<byte>, b: seq<byte>, c: seq<byte>)
    requires bytes == a + b
    ensures |bytes| == |a| + |b| && bytes + c == a + (b + c) && bytes[|a|..] == b
  {
  }

  lemma Concatenated(a: seq<byte>, b: seq<byte>, c: seq<byte>)
    ensures a + b + c == a + (b + c) && (a + b)[|a|..] == b
  {
  }

  /** The parts of a long name and the short entry behind them. */
  lemma PartsThenShort(parts: seq<Entry>, filled: seq<nat>, sum: byte, e: Entry, rest: seq<byte>, target: seq<byte>)
    requires PartsFit(parts, filled, sum)
    ensures Search(LongBytes(parts, |parts|) + (e + rest), NO_NAME, target)
            == match Judge(Collected(parts, 0, sum), e, target)
               case Last => None
               case Matched => Some(|parts|)
               case Keep(next) => Later(|parts| + 1, Search(rest, next, target))
  {
    AllPartsSearched(parts, filled, sum, e + rest, target);
    SearchStep(e, rest, Collected(parts, 0, sum), target);
  }

  /** Where the bytes behind the last item go: nowhere, or to an entry that ends the directory. */
  predicate Ending(tail: seq<byte>) { tail == [] || (|tail| >= 32 && tail[0] == 0) }

  /** The search stopped at the short entry of what was looked for, or there is no such thing. */
  predicate Answers(bytes: seq<byte>, at: Option<nat>, found: Option<Item>) {
    if found.None? then at.None?
    else
      && at.Some? && ItemOk(found.value) && found.value.Listed? && 32 * at.value + 32 <= |bytes|
      && bytes[32 * at.value..32 * at.value + 32] == ShortBytes(found.value)
  }

  lemma AnswersLater(a: seq<byte>, n: nat, bytes: seq<byte>, at: Option<nat>, found: Option<Item>)
    requires |a| == 32 * n && Answers(bytes, at, found)
    ensures Answers(a + bytes, Later(n, at), found)
  {
    if found.Some? {
      var k := 32 * at.value;
      assert (a + bytes)[|a| + k..|a| + k + 32] == bytes[k..k + 32];
    }
  }

  lemma AnswersHere(item: Item, rest: seq<byte>)
    requires ItemOk(item) && item.Listed? && |ItemBytes(item)| == 32 * Entries(item)
    requires ItemBytes(item)[32 * (Entries(item) - 1)..] == ShortBytes(item)
    ensures Answers(ItemBytes(item) + rest, Some(Entries(item) - 1), Some(item))
  {
    var a, k := ItemBytes(item), 32 * (Entries(item) - 1);
    assert (a + rest)[k..k + 32] == a[k..];
  }

  /** A listed name gives the first short entry of that name, an unlisted one nothing. */
  lemma {:induction false} ItemsSearched(items: seq<Item>, tail: seq<byte>, target: seq<byte>)
    requires AllOk(items) && Ending(tail)
    ensures var bytes := ItemsBytes(items) + tail;
            Answers(bytes, Search(bytes, NO_NAME, target), Lookup(items, target))
    decreases |items|
  {
    if items == [] {
      assert ItemsBytes(items) + tail == tail;
      EndingStops(tail, target);
    } else {
      var item, rest := items[0], ItemsBytes(items[1..]) + tail;
      Concatenated(ItemBytes(item), ItemsBytes(items[1..]), tail);
      ItemSearched(item, rest, target);
      if Named(item, target) {
        AnswersHere(item, rest);
      } else {
        ItemsSearched(items[1..], tail, target);
        AnswersLater(ItemBytes(item), Entries(item), rest, Search(rest, NO_NAME, target), Lookup(items[1..], target));
      }
    }
  }

  lemma EndingStops(tail: seq<byte>, target: seq<byte>)
    requires Ending(tail)
    ensures Search(tail, NO_NAME, target).None?
  {
    if tail != [] {
      assert Judge(NO_NAME, tail[..32], target) == Last;
    }
  }
}
