/** Character classifiers and the character-stack transfer helper of fairy-json
    (fairyjson/utils.h and fairyjson/utils.cpp). */
module Utils {

  /** True for the digits '1' .. '9', the first digit of a JSON integer
      part that is not a lone zero. */
  predicate IsDigitFrom1To9(ch: char): (b: bool)
    ensures b <==> ch in "123456789"
  {
    '1' <= ch <= '9'
  }

  /** True for the ten decimal digits '0' .. '9'. */
  predicate IsDigit(ch: char): (b: bool)
    ensures b <==> ch in "0123456789"
  {
    '0' <= ch <= '9'
  }

  /** The two classifiers are nested, and they differ on '0' alone. */
  lemma DigitFrom1To9IsDigit(ch: char)
    ensures IsDigitFrom1To9(ch) ==> IsDigit(ch)
    ensures (IsDigit(ch) && !IsDigitFrom1To9(ch)) <==> ch == '0'
  {
  }

  /** A `std::stack<char>` as used by fetchStrFromCharStack: the sequence
      lists the elements bottom first, so the top is the last element. */
  class CharStack {
    var elems: seq<char>

    constructor (init: seq<char>)
      ensures elems == init
    {
      elems := init;
    }

    /** The element most recently pushed. */
    method Top() returns (ch: char)
      requires elems != []
      ensures ch == elems[|elems| - 1]
    {
      ch := elems[|elems| - 1];
    }

    /** Removes the top element; the ones below it are untouched. */
    method Pop()
      requires elems != []
      modifies this
      ensures elems == old(elems)[..|old(elems)| - 1]
    {
      elems := elems[..|elems| - 1];
    }
  }

  /** Pops `len` characters off `cStack` into a fresh NUL-terminated buffer,
      filling it from the back, so that the buffer holds the top `len`
      elements in the order they were pushed. */
  method FetchStrFromCharStack(cStack: CharStack, len: nat) returns (buf: array<char>)
    requires len <= |cStack.elems|
    modifies cStack
    ensures fresh(buf) && buf.Length == len + 1
    ensures buf[len] == '\0'
    ensures buf[..len] == old(cStack.elems)[|old(cStack.elems)| - len..]
    ensures cStack.elems == old(cStack.elems)[..|old(cStack.elems)| - len]
  {
    ghost var s := cStack.elems;
    buf := new char[len + 1];
    buf[len] := '\0';
    var n := len;
    while n != 0
      invariant n <= len
      invariant buf[len] == '\0'
      // len - n characters have been popped, and exactly the slots n .. len - 1 are filled
      invariant cStack.elems == s[..|s| - (len - n)]
      invariant forall k :: n <= k < len ==> buf[k] == s[|s| - len + k]
      decreases n
    {
      n := n - 1;
      var top := cStack.Top();
      buf[n] := top;
      cStack.Pop();
    }
    assert buf[..len] == s[|s| - len..];
  }
}
