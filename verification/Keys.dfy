/** Names of object members: when two of them are one key, with and without regard to case. */
module Keys {
  import opened Bytes
  import opened CHeap

  /** `tolower` in the C locale. */
  function Lower(c: byte): byte {
    if 65 <= c <= 90 then c + 32 else c
  }

  function Fold(s: bytes, cs: bool): (r: bytes)
    ensures |r| == |s|
  {
    if cs then s else seq(|s|, i requires 0 <= i < |s| => Lower(s[i]))
  }

  // ---------------------------------------------------------------- what folding means

  /** The same byte, or one letter in its two cases. */
  predicate SameLetter(b: byte, c: byte) {
    b == c || (65 <= b <= 90 && c == b + 32) || (65 <= c <= 90 && b == c + 32)
  }

  predicate SameKey(s: bytes, t: bytes, cs: bool) {
    if cs then s == t else |s| == |t| && forall i :: 0 <= i < |s| ==> SameLetter(s[i], t[i])
  }

  lemma LowerLetters(b: byte, c: byte)
    ensures Lower(b) == Lower(c) <==> SameLetter(b, c)
  {
  }

  /** Two names fold to the same text exactly if they are the same key: byte for byte, or up to the
      case of the letters A to Z. */
  lemma FoldKeys(s: bytes, t: bytes, cs: bool)
    ensures Fold(s, cs) == Fold(t, cs) <==> SameKey(s, t, cs)
  {
    hide Lower, SameLetter;
    if !cs && |s| == |t| {
      forall i | 0 <= i < |s|
        ensures SameLetter(s[i], t[i]) <==> Fold(s, false)[i] == Fold(t, false)[i]
      {
        LowerLetters(s[i], t[i]);
      }
    }
  }

  // ---------------------------------------------------------------- the code

  /** Byte `i` of a C string, its terminator included. */
  function CharAt(s: bytes, i: nat): byte {
    if i < |s| then s[i] else 0
  }

  /** The first place at which two C strings differ, up to case. */
  ghost predicate DifferAt(s: bytes, t: bytes, i: nat) {
    i <= |s| && i <= |t| && !SameLetter(CharAt(s, i), CharAt(t, i)) && SameKey(s[..i], t[..i], false)
  }

  /** `case_insensitive_strcmp`: 0 exactly for two names that are the same key up to case, otherwise
      the difference of the first two letters that differ. */
  method CaseCompare(mem: Memory, p: Ptr, q: Ptr) returns (r: int)
    requires (p != 0 ==> IsBlock(mem.cells, p)) && (q != 0 ==> IsBlock(mem.cells, q))
    ensures r == 0 <==> p != 0 && q != 0 && SameKey(StringOf(mem.cells, p), StringOf(mem.cells, q), false)
    ensures r != 0 && p != 0 && q != 0 ==>
      var s, t := StringOf(mem.cells, p), StringOf(mem.cells, q);
      exists i :: DifferAt(s, t, i) && r == Lower(CharAt(s, i)) as int - Lower(CharAt(t, i)) as int
  {
    hide CString, Lower;
    if p == 0 || q == 0 {
      return 1;
    }
    var s, t := CString(mem.cells[p].content), CString(mem.cells[q].content);
    if p == q {
      return 0;
    }
    var i := 0;
    LowerLetters(CharAt(s, 0), CharAt(t, 0));
    while Lower(CharAt(s, i)) == Lower(CharAt(t, i))
      invariant i <= |s| && i <= |t| && SameKey(s[..i], t[..i], false)
      invariant Lower(CharAt(s, i)) == Lower(CharAt(t, i)) <==> SameLetter(CharAt(s, i), CharAt(t, i))
      decreases |s| - i
    {
      if CharAt(s, i) == 0 {
        assert s[..i] == s && t[..i] == t;
        return 0;
      }
      i := i + 1;
      LowerLetters(CharAt(s, i), CharAt(t, i));
    }
    assert DifferAt(s, t, i);
    r := Lower(CharAt(s, i)) as int - Lower(CharAt(t, i)) as int;
  }
}
