/**
 * An append-only character list. The singly linked list of characters
 * with its first and last pointers becomes the sequence `chars`.
 */
module Words {
  class Word {
    var chars: seq<char>

    /** EmptyWord: no characters. */
    constructor ()
      ensures chars == []
    {
      chars := [];
    }

    /** WordIsEmpty */
    predicate IsEmpty()
      reads this
    {
      chars == []
    }

    /** WordAppend: `c` goes after the last character; the earlier ones stay as they were. */
    method Append(c: char)
      modifies this
      ensures chars == old(chars) + [c]
    {
      chars := chars + [c];
    }

    /** WordSize: counts the characters by walking the list. */
    method Size() returns (size: nat)
      ensures size == |chars|
    {
      var iter := 0;
      size := 0;
      while iter < |chars|
        invariant 0 <= iter <= |chars|
        invariant size == iter
      {
        size := size + 1;
        iter := iter + 1;
      }
    }

    /**
     * WordEquals: the same length as `text` (the characters before the
     * terminating NUL of the C string) and the same character at every index.
     */
    method Equals(text: string) returns (b: bool)
      ensures b <==> chars == text
    {
      var size := Size();
      if size != |text| {
        return false;
      }
      var currIndex := 0;
      while currIndex < |chars|
        invariant 0 <= currIndex <= |chars|
        invariant chars[..currIndex] == text[..currIndex]
      {
        if chars[currIndex] != text[currIndex] {
          return false;
        }
        currIndex := currIndex + 1;
      }
      assert chars == chars[..currIndex];
      return true;
    }
  }
}
