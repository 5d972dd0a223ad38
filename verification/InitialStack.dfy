/** The initial user stack of `src/elf.rs`: argument and environment strings at the top of the page,
    and below them the words a program finds at its stack pointer. */
module InitialStack {
  import opened Common
  import opened FrameMemory
  import opened AddressSpace

  const MAX_ARGUMENTS := 16
  const MAX_ENVIRONMENT := 16
  const MAX_STACK_WORDS := 64
  const MAX_STACK_BYTES := 4096
  const AT_PAGESZ := 6
  const AT_ENTRY := 9

  datatype StackError = TooManyStrings | InteriorNul | InvalidStack | StackOverflow

  /** The strings' bytes, from `top - MAX_STACK_BYTES` up, and the words from the stack pointer up. */
  datatype Image = Image(pointer: nat, wordCount: nat, words: seq<nat>, bytes: seq<byte>)

  // ------------------------------------------------------------------ where things go

  /** The room a list of strings takes, each with its NUL. */
  function Room(strings: seq<seq<byte>>): nat {
    if strings == [] then 0 else Room(strings[..|strings| - 1]) + |strings[|strings| - 1]| + 1
  }

  /** Strings are placed downward from the top, in order. */
  function AddressOf(top: nat, strings: seq<seq<byte>>, k: nat): int
    requires k < |strings|
  {
    top - Room(strings[..k + 1])
  }

  /** The string stands in the byte area at this offset, with its NUL. */
  predicate StandsAt(bytes: seq<byte>, offset: int, s: seq<byte>) {
    && 0 <= offset && offset + |s| + 1 <= |bytes|
    && bytes[offset..offset + |s|] == s && bytes[offset + |s|] == 0
  }

  function WordCount(arguments: nat, environment: nat): nat { 1 + arguments + 1 + environment + 1 + 6 }

  function Pointer(top: nat, room: nat, words: nat): int {
    var below := top - room - 8 * words;
    below - below % 16
  }

  /** The words in ABI order: the count, the argument pointers and a NULL, the environment pointers
      and a NULL, then the auxiliary vector. */
  ghost predicate InOrder(words: seq<int>, entry: int, arguments: seq<int>, environment: seq<int>) {
    var a, e := |arguments|, |environment|;
    && WordCount(a, e) <= |words|
    && words[0] == a
    && words[1..1 + a] == arguments
    && words[1 + a] == 0
    && words[2 + a..2 + a + e] == environment
    && words[2 + a + e] == 0
    && words[3 + a + e..9 + a + e] == [AT_PAGESZ, PAGE, AT_ENTRY, entry, 0, 0]
  }

  ghost function Pointers(top: nat, strings: seq<seq<byte>>, from: nat, until: nat): (p: seq<int>)
    requires from <= until <= |strings|
    ensures |p| == until - from
    decreases until
  {
    if from == until then [] else Pointers(top, strings, from, until - 1) + [AddressOf(top, strings, until - 1)]
  }

  /** The first `count` strings stand where they belong. */
  ghost predicate Placed(bytes: seq<byte>, top: nat, strings: seq<seq<byte>>, count: nat)
    requires count <= |strings|
  {
    forall k {:trigger AddressOf(top, strings, k)} :: 0 <= k < count ==>
      StandsAt(bytes, AddressOf(top, strings, k) - (top - MAX_STACK_BYTES), strings[k])
  }

  /** Everything the loader promises a program about its first page of stack. */
  ghost predicate Faithful(r: Image, entry: nat, top: nat, arguments: seq<seq<byte>>, environment: seq<seq<byte>>) {
    var all, bottom := arguments + environment, top - MAX_STACK_BYTES;
    && |r.bytes| == MAX_STACK_BYTES && |r.words| == MAX_STACK_WORDS
    && r.wordCount == WordCount(|arguments|, |environment|)
    && Placed(r.bytes, top, all, |all|)
    && r.pointer % 16 == 0 && bottom <= r.pointer
    && r.pointer + 8 * r.wordCount <= top - Room(all)
    && InOrder(r.words, entry, Pointers(top, all, 0, |arguments|), Pointers(top, all, |arguments|, |all|))
  }

  predicate NoNuls(strings: seq<seq<byte>>, from: nat, until: nat)
    requires until <= |strings|
  {
    forall k :: from <= k < until ==> 0 !in strings[k]
  }

  /** Exactly which inputs are accepted. */
  predicate Accepted(top: nat, arguments: seq<seq<byte>>, environment: seq<seq<byte>>) {
    var all := arguments + environment;
    && |arguments| <= MAX_ARGUMENTS && |environment| <= MAX_ENVIRONMENT
    && top % PAGE == 0 && MAX_STACK_BYTES + PAGE <= top <= USER_LIMIT
    && NoNuls(all, 0, |all|)
    && Pointer(top, Room(all), WordCount(|arguments|, |environment|)) >= top - MAX_STACK_BYTES
  }

  // ------------------------------------------------------------------ consequences

  lemma RoomStep(strings: seq<seq<byte>>, k: nat)
    requires k < |strings|
    ensures Room(strings[..k + 1]) == Room(strings[..k]) + |strings[k]| + 1
  {
    assert strings[..k + 1][..k] == strings[..k];
  }

  lemma {:induction false} RoomGrows(strings: seq<seq<byte>>, j: nat, k: nat)
    requires j <= k <= |strings|
    ensures Room(strings[..j]) <= Room(strings[..k])
    decreases k - j
  {
    if j < k {
      RoomGrows(strings, j, k - 1);
      RoomStep(strings, k - 1);
    }
  }

  /** Two strings never overlap, and none reaches into the words or past the top. */
  lemma StringsAreApart(top: nat, strings: seq<seq<byte>>, j: nat, k: nat)
    requires j < k < |strings|
    ensures AddressOf(top, strings, k) + |strings[k]| + 1 <= AddressOf(top, strings, j)
    ensures top - Room(strings) <= AddressOf(top, strings, k)
    ensures AddressOf(top, strings, j) + |strings[j]| + 1 <= top
  {
    RoomStep(strings, k);
    RoomStep(strings, j);
    RoomGrows(strings, j + 1, k);
    RoomGrows(strings, k + 1, |strings|);
    assert strings[..|strings|] == strings;
  }

  // ------------------------------------------------------------------ building it

  /** Copies one string and its NUL below the cursor. */
  method PlaceString(s: seq<byte>, bottom: nat, cursor: nat, bytes: array<byte>) returns (r: Result<nat, StackError>)
    requires bytes.Length == MAX_STACK_BYTES && bottom <= cursor <= bottom + MAX_STACK_BYTES
    modifies bytes
    ensures r.Ok? <==> 0 !in s && bottom + |s| + 1 <= cursor
    ensures 0 in s ==> r == Err(InteriorNul)
    ensures 0 !in s && r.Err? ==> r == Err(StackOverflow)
    ensures r.Ok? ==> r.value == cursor - |s| - 1 && StandsAt(bytes[..], r.value - bottom, s)
    ensures forall i :: cursor - bottom <= i < MAX_STACK_BYTES ==> bytes[i] == old(bytes[i])
  {
    if 0 in s {
      return Err(InteriorNul);
    }
    if cursor < |s| + 1 || cursor - (|s| + 1) < bottom {
      return Err(StackOverflow);
    }
    var start := cursor - (|s| + 1);
    var offset := start - bottom;
    forall i | 0 <= i < |s| {
      bytes[offset + i] := s[i];
    }
    bytes[offset + |s|] := 0;
    assert bytes[..][offset..offset + |s|] == s;
    return Ok(start);
  }

  lemma PlacedStays(before: seq<byte>, after: seq<byte>, top: nat, strings: seq<seq<byte>>, count: nat, free: nat)
    requires |before| == |after| == MAX_STACK_BYTES <= top && count <= |strings|
    requires Placed(before, top, strings, count) && free == MAX_STACK_BYTES - Room(strings[..count])
    requires forall i :: free <= i < MAX_STACK_BYTES ==> after[i] == before[i]
    ensures Placed(after, top, strings, count)
  {
    forall k | 0 <= k < count
      ensures StandsAt(after, AddressOf(top, strings, k) - (top - MAX_STACK_BYTES), strings[k])
    {
      RoomGrows(strings, k + 1, count);
      var offset := AddressOf(top, strings, k) - (top - MAX_STACK_BYTES);
      assert after[offset..offset + |strings[k]|] == before[offset..offset + |strings[k]|];
    }
  }

  lemma PlacedNext(bytes: seq<byte>, top: nat, strings: seq<seq<byte>>, k: nat, start: nat)
    requires k < |strings| && Placed(bytes, top, strings, k)
    requires start == top - Room(strings[..k]) - |strings[k]| - 1
    requires StandsAt(bytes, start - (top - MAX_STACK_BYTES), strings[k])
    ensures start == AddressOf(top, strings, k) && Placed(bytes, top, strings, k + 1)
  {
    RoomStep(strings, k);
  }

  /** Places the k-th string below the ones before it. */
  method PlaceNth(strings: seq<seq<byte>>, k: nat, top: nat, bytes: array<byte>) returns (r: Result<nat, StackError>)
    requires k < |strings| && bytes.Length == MAX_STACK_BYTES <= top
    requires Room(strings[..k]) <= MAX_STACK_BYTES && Placed(bytes[..], top, strings, k)
    modifies bytes
    ensures r.Ok? <==> 0 !in strings[k] && Room(strings[..k + 1]) <= MAX_STACK_BYTES
    ensures r.Ok? ==> Placed(bytes[..], top, strings, k + 1) && r.value == AddressOf(top, strings, k)
  {
    var bottom, cursor := top - MAX_STACK_BYTES, top - Room(strings[..k]);
    ghost var before := bytes[..];
    RoomStep(strings, k);
    r := PlaceString(strings[k], bottom, cursor, bytes);
    if r.Ok? {
      PlacedStays(before, bytes[..], top, strings, k, cursor - bottom);
      PlacedNext(bytes[..], top, strings, k, r.value);
    }
  }

  /** Places `strings[from..until]` below the ones before; answers the pointers. */
  method PlaceAll(strings: seq<seq<byte>>, from: nat, until: nat, top: nat, bytes: array<byte>)
    returns (r: Result<seq<nat>, StackError>)
    requires from <= until <= |strings| && bytes.Length == MAX_STACK_BYTES <= top
    requires Room(strings[..from]) <= MAX_STACK_BYTES && Placed(bytes[..], top, strings, from)
    modifies bytes
    ensures r.Ok? <==> NoNuls(strings, from, until) && Room(strings[..until]) <= MAX_STACK_BYTES
    ensures r.Ok? ==> Placed(bytes[..], top, strings, until) && r.value == Pointers(top, strings, from, until)
  {
    var pointers: seq<nat> := [];
    var k := from;
    while k < until
      invariant from <= k <= until && Room(strings[..k]) <= MAX_STACK_BYTES
      invariant NoNuls(strings, from, k)
      invariant Placed(bytes[..], top, strings, k)
      invariant pointers == Pointers(top, strings, from, k)
    {
      var placed := PlaceNth(strings, k, top, bytes);
      if placed.Err? {
        RoomGrows(strings, k + 1, until);
        return Err(placed.error);
      }
      pointers := pointers + [placed.value];
      k := k + 1;
    }
    return Ok(pointers);
  }

  /** Writes values at an index and moves it past them. */
  method Append(words: array<nat>, index: nat, values: seq<nat>) returns (next: nat)
    requires index + |values| <= words.Length
    modifies words
    ensures next == index + |values| && words[..next] == old(words[..index]) + values
  {
    forall i | 0 <= i < |values| {
      words[index + i] := values[i];
    }
    return index + |values|;
  }

  lemma InOrderOf(words: seq<nat>, entry: nat, arguments: seq<nat>, environment: seq<nat>)
    requires var n := WordCount(|arguments|, |environment|);
             && n <= |words|
             && words[..n] == [|arguments|] + arguments + [0] + environment + [0]
                              + [AT_PAGESZ, PAGE, AT_ENTRY, entry, 0, 0]
    ensures InOrder(words, entry, arguments, environment)
  {
    var a, e, n := |arguments|, |environment|, WordCount(|arguments|, |environment|);
    var w := words[..n];
    assert w[1..1 + a] == arguments && words[1..1 + a] == w[1..1 + a];
    assert w[2 + a..2 + a + e] == environment && words[2 + a..2 + a + e] == w[2 + a..2 + a + e];
    assert words[3 + a + e..n] == w[3 + a + e..n] == [AT_PAGESZ, PAGE, AT_ENTRY, entry, 0, 0];
    assert w[0] == words[0] && w[1 + a] == words[1 + a] && w[2 + a + e] == words[2 + a + e];
  }

  /** Writes the words in ABI order. */
  method WriteWords(entry: nat, arguments: seq<nat>, environment: seq<nat>) returns (words: array<nat>)
    requires WordCount(|arguments|, |environment|) <= MAX_STACK_WORDS
    ensures fresh(words) && words.Length == MAX_STACK_WORDS
    ensures InOrder(words[..], entry, arguments, environment)
  {
    words := new nat[MAX_STACK_WORDS](_ => 0);
    assert words[..0] == [];
    var index := Append(words, 0, [|arguments|]);
    index := Append(words, index, arguments);
    index := Append(words, index, [0]);
    index := Append(words, index, environment);
    index := Append(words, index, [0]);
    index := Append(words, index, [AT_PAGESZ, PAGE, AT_ENTRY, entry, 0, 0]);
    assert words[..index] == words[..][..index];
    InOrderOf(words[..], entry, arguments, environment);
  }

  lemma Prefixes(all: seq<seq<byte>>, split: nat)
    requires split <= |all|
    ensures Room(all[..0]) == 0 && Room(all[..|all|]) == Room(all) && Room(all[..split]) <= Room(all)
  {
    assert all[..|all|] == all;
    RoomGrows(all, split, |all|);
  }

  lemma KeepsPromises(r: Image, entry: nat, top: nat, arguments: seq<seq<byte>>, environment: seq<seq<byte>>,
                      first: seq<nat>, second: seq<nat>)
    requires var all := arguments + environment;
             && MAX_STACK_BYTES <= top && Room(all) <= MAX_STACK_BYTES
             && first == Pointers(top, all, 0, |arguments|) && second == Pointers(top, all, |arguments|, |all|)
             && |r.bytes| == MAX_STACK_BYTES && Placed(r.bytes, top, all, |all|)
             && r.pointer == Pointer(top, Room(all), r.wordCount) && top - MAX_STACK_BYTES <= r.pointer
    requires r.wordCount == WordCount(|arguments|, |environment|)
    requires |r.words| == MAX_STACK_WORDS && InOrder(r.words, entry, first, second)
    ensures Faithful(r, entry, top, arguments, environment)
  {
  }

  /** `InitialStack::build`: accepts exactly the inputs that fit, and then keeps every promise. */
  method Build(entry: nat, top: nat, arguments: seq<seq<byte>>, environment: seq<seq<byte>>)
    returns (r: Result<Image, StackError>)
    ensures r.Ok? <==> Accepted(top, arguments, environment)
    ensures r.Ok? ==> Faithful(r.value, entry, top, arguments, environment)
    ensures |arguments| > MAX_ARGUMENTS || |environment| > MAX_ENVIRONMENT ==> r == Err(TooManyStrings)
  {
    if |arguments| > MAX_ARGUMENTS || |environment| > MAX_ENVIRONMENT {
      return Err(TooManyStrings);
    }
    if top % PAGE != 0 || !(MAX_STACK_BYTES + PAGE <= top <= USER_LIMIT) {
      return Err(InvalidStack);
    }
    var wordCount := WordCount(|arguments|, |environment|);
    var all := arguments + environment;
    Prefixes(all, |arguments|);
    var bytes := new byte[MAX_STACK_BYTES](_ => 0);
    var first := PlaceAll(all, 0, |arguments|, top, bytes);
    if first.Err? {
      return Err(first.error);
    }
    var second := PlaceAll(all, |arguments|, |all|, top, bytes);
    if second.Err? {
      return Err(second.error);
    }
    var pointer := Pointer(top, Room(all), wordCount);
    if pointer < top - MAX_STACK_BYTES {
      return Err(StackOverflow);
    }
    var words := WriteWords(entry, first.value, second.value);
    r := Ok(Image(pointer, wordCount, words[..], bytes[..]));
    KeepsPromises(r.value, entry, top, arguments, environment, first.value, second.value);
  }
}
