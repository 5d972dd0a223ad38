/** What the program finds on its first stack page: the words, and zeros where the strings should be. */
module LoadedStack {
  import opened Common
  import opened FrameMemory
  import opened AddressSpace
  import opened UserSpace
  import opened InitialStack

  /** The top stack page holds the stack's words at its pointer and is zero elsewhere. */
  ghost predicate StackPage(page: Option<Page>, stack: Image) {
    && stack.wordCount <= |stack.words|
    && WrittenPage(Some(Page(USER_RW, Stack, ZeroPage())), page, STACK_TOP - PAGE,
                   stack.pointer, WordBytes(stack.words[..stack.wordCount]))
  }

  /** Above its words the page is zero. */
  lemma ZeroAbove(page: Option<Page>, stack: Image, i: nat)
    requires StackPage(page, stack) && stack.pointer + 8 * stack.wordCount <= STACK_TOP - PAGE + i && i < PAGE
    ensures page.Some? && |page.value.bytes| == PAGE && page.value.bytes[i] == 0
  {
    assert ZeroPage()[i] == 0;
  }

  /** The pointer to the k-th string leads to that string and its NUL. */
  ghost predicate LeadsTo(page: Option<Page>, strings: seq<seq<byte>>, k: nat)
    requires k < |strings|
  {
    page.Some? && StandsAt(page.value.bytes, AddressOf(STACK_TOP, strings, k) - (STACK_TOP - PAGE), strings[k])
  }

  lemma ZerosSpellNothing(bytes: seq<byte>, offset: nat, s: seq<byte>)
    requires offset + |s| + 1 <= |bytes| && 0 !in s && forall i :: offset <= i < |bytes| ==> bytes[i] == 0
    ensures StandsAt(bytes, offset, s) <==> s == []
  {
    if s != [] {
      assert s[0] != 0;
      assert bytes[offset..offset + |s|][0] == 0;
    }
  }

  /** Strings stand above the words. */
  lemma StringIsAbove(strings: seq<seq<byte>>, k: nat)
    requires k < |strings|
    ensures STACK_TOP - Room(strings) <= AddressOf(STACK_TOP, strings, k)
    ensures AddressOf(STACK_TOP, strings, k) + |strings[k]| + 1 <= STACK_TOP
  {
    RoomStep(strings, k);
    RoomGrows(strings, k + 1, |strings|);
    assert strings[..|strings|] == strings;
  }

  /** Only the words of the stack are copied to the page, the strings' bytes never: a pointer leads
      to its string if and only if the string is empty. */
  lemma StringsAreLostExactly(page: Option<Page>, stack: Image, entry: nat,
                              arguments: seq<seq<byte>>, environment: seq<seq<byte>>, k: nat)
    requires StackPage(page, stack) && Faithful(stack, entry, STACK_TOP, arguments, environment)
    requires InitialStack.Accepted(STACK_TOP, arguments, environment) && k < |arguments + environment|
    ensures LeadsTo(page, arguments + environment, k) <==> (arguments + environment)[k] == []
  {
    var all := arguments + environment;
    StringIsAbove(all, k);
    var offset := AddressOf(STACK_TOP, all, k) - (STACK_TOP - PAGE);
    forall i | offset <= i < PAGE ensures page.Some? && |page.value.bytes| == PAGE && page.value.bytes[i] == 0 {
      ZeroAbove(page, stack, i);
    }
    ZerosSpellNothing(page.value.bytes, offset, all[k]);
  }

  /** A program started with the one argument "a" finds an empty string there. */
  lemma ArgumentIsLost(page: Option<Page>, stack: Image, entry: nat)
    requires StackPage(page, stack) && Faithful(stack, entry, STACK_TOP, [[0x61]], [])
    ensures !LeadsTo(page, [[0x61]], 0)
  {
    var all: seq<seq<byte>> := [[0x61]];
    assert all + [] == all;
    StringIsAbove(all, 0);
    var offset := AddressOf(STACK_TOP, all, 0) - (STACK_TOP - PAGE);
    ZeroAbove(page, stack, offset);
    assert page.value.bytes[offset..offset + 1][0] == 0;
  }
}
