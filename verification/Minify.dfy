/** `cJSON_Minify`: the filter it computes, its in-place run, and how it relates to printing. */
module Minifier {
  import opened Bytes

  const SLASH: byte := 47
  const STAR: byte := 42

  predicate IsBlank(c: byte) {
    c == SPACE || c == TAB || c == 13 || c == NEWLINE
  }

  // ---------------------------------------------------------------- the filter

  /** `skip_oneline_comment` from `i`: behind the newline, or the end. */
  function LineStop(s: bytes, i: nat): (e: nat)
    requires i <= |s|
    ensures i <= e <= |s|
    decreases |s| - i
  {
    if i == |s| then i else if s[i] == NEWLINE then i + 1 else LineStop(s, i + 1)
  }

  /** `skip_multiline_comment` from `i`: behind the closing mark, or the end. */
  function CommentStop(s: bytes, i: nat): (e: nat)
    requires i <= |s|
    ensures i <= e <= |s|
    decreases |s| - i
  {
    if i == |s| then i
    else if s[i] == STAR && i + 1 < |s| && s[i + 1] == SLASH then i + 2
    else CommentStop(s, i + 1)
  }

  /** `minify_string` from `i`, inside the string: behind the closing quote, or the end. A backslash
      protects a quote, and nothing else, not even another backslash. */
  function StringStop(s: bytes, i: nat): (e: nat)
    requires i <= |s|
    ensures i <= e <= |s|
    ensures i < |s| ==> i < e
    decreases |s| - i
  {
    if i == |s| then i
    else if s[i] == QUOTE then i + 1
    else if s[i] == BACKSLASH && i + 1 < |s| && s[i + 1] == QUOTE then StringStop(s, i + 2)
    else StringStop(s, i + 1)
  }

  /** Where the loop goes on after its turn on the first byte, and what the turn keeps. */
  function Turn(s: bytes): (r: (bytes, nat))
    requires s != []
    ensures 0 < r.1 <= |s| && |r.0| <= r.1
  {
    if IsBlank(s[0]) then ([], 1)
    else if s[0] == SLASH then
      if 1 < |s| && s[1] == SLASH then ([], LineStop(s, 2))
      else if 1 < |s| && s[1] == STAR then ([], CommentStop(s, 2))
      else ([], 1)
    else if s[0] == QUOTE then (s[..StringStop(s, 1)], StringStop(s, 1))
    else ([s[0]], 1)
  }

  function Minify(s: bytes): (r: bytes)
    ensures |r| <= |s|
    decreases |s|
  {
    if s == [] then [] else Turn(s).0 + Minify(s[Turn(s).1..])
  }

  // ---------------------------------------------------------------- idempotence

  /** A closed string ends at the same place whatever follows it. */
  lemma {:induction false} StringStopLocal(s: bytes, i: nat, x: bytes)
    requires i <= |s| && (StringStop(s, i) < |s| || (i < |s| && ClosedAt(s, i)))
    ensures StringStop(s[..StringStop(s, i)] + x, i) == StringStop(s, i)
    decreases |s| - i
  {
    var t := s[..StringStop(s, i)] + x;
    if s[i] == QUOTE {
      assert t[i] == QUOTE;
    } else if s[i] == BACKSLASH && i + 1 < |s| && s[i + 1] == QUOTE {
      StringStopLocal(s, i + 2, x);
      assert t[i] == s[i] && t[i + 1] == s[i + 1];
    } else {
      StringStopLocal(s, i + 1, x);
      assert t[i] == s[i] && t[i + 1] == s[i + 1];
    }
  }

  /** The string that is being read at `i` has its closing quote. */
  predicate ClosedAt(s: bytes, i: nat)
    requires i <= |s|
    decreases |s| - i
  {
    i < |s|
    && (s[i] == QUOTE
        || if s[i] == BACKSLASH && i + 1 < |s| && s[i + 1] == QUOTE then ClosedAt(s, i + 2) else ClosedAt(s, i + 1))
  }

  lemma {:induction false} OpenToEnd(s: bytes, i: nat)
    requires i <= |s|
    ensures StringStop(s, i) == |s| || ClosedAt(s, i)
    decreases |s| - i
  {
    if i < |s| && s[i] != QUOTE {
      OpenToEnd(s, if s[i] == BACKSLASH && i + 1 < |s| && s[i + 1] == QUOTE then i + 2 else i + 1);
    }
  }

  /** What one turn keeps is kept again, whatever is behind it, unless it is an unclosed string, and
      that is the last. */
  lemma KeptAgain(s: bytes, x: bytes)
    requires s != [] && (Turn(s).1 == |s| ==> x == [])
    ensures Minify(Turn(s).0 + x) == Turn(s).0 + Minify(x)
  {
    var (kept, n) := Turn(s);
    var t := kept + x;
    if kept == [] {
      assert t == x;
    } else if s[0] == QUOTE {
      OpenToEnd(s, 1);
      if n < |s| || (1 < |s| && ClosedAt(s, 1)) {
        StringStopLocal(s, 1, x);
      } else {
        assert t == s;
      }
      assert t[..n] == kept && t[n..] == x;
    } else {
      assert t[..1] == kept && t[1..] == x;
    }
  }

  /** Minifying twice is minifying once, for every text. */
  lemma {:induction false} MinifyIdempotent(s: bytes)
    ensures Minify(Minify(s)) == Minify(s)
    decreases |s|
  {
    if s != [] {
      var (kept, n) := Turn(s);
      MinifyIdempotent(s[n..]);
      KeptAgain(s, Minify(s[n..]));
    }
  }

  // ---------------------------------------------------------------- in place

  /** The rest of the text, not yet read, is as it was. */
  ghost predicate Unread(a: array<byte>, text: bytes, r: nat)
    reads a
  {
    r <= |text| < a.Length && a[|text|] == 0 && a[r..|text|] == text[r..]
  }

  method SkipLine(a: array<byte>, start: nat, ghost text: bytes) returns (r: nat)
    requires 0 !in text && start + 2 <= |text| && Unread(a, text, start)
    ensures r <= |text| && r == start + LineStop(text[start..], 2)
  {
    r := start + 2;
    ghost var s := text[start..];
    assert forall i :: start <= i < |text| ==> a[i] == a[start..|text|][i - start] == s[i - start];
    while a[r] != 0
      invariant start + 2 <= r <= |text|
      invariant LineStop(s, 2) == LineStop(s, r - start)
      decreases |text| - r
    {
      if a[r] == NEWLINE {
        r := r + 1;
        return;
      }
      r := r + 1;
    }
  }

  method SkipComment(a: array<byte>, start: nat, ghost text: bytes) returns (r: nat)
    requires 0 !in text && start + 2 <= |text| && Unread(a, text, start)
    ensures r <= |text| && r == start + CommentStop(text[start..], 2)
  {
    r := start + 2;
    ghost var s := text[start..];
    assert forall i :: start <= i < |text| ==> a[i] == a[start..|text|][i - start] == s[i - start];
    while a[r] != 0
      invariant start + 2 <= r <= |text|
      invariant CommentStop(s, 2) == CommentStop(s, r - start)
      decreases |text| - r
    {
      if a[r] == STAR && a[r + 1] == SLASH {
        r := r + 2;
        return;
      }
      r := r + 1;
    }
  }

  /** In the middle of a string token that starts at `start` and goes to `into`. */
  ghost predicate Copying(a: array<byte>, text: bytes, start: nat, into: nat, r: nat, w: nat)
    reads a
  {
    && into <= start < r <= |text| < a.Length && w == into + (r - start) && a[|text|] == 0
    && (forall i :: r <= i < |text| ==> a[i] == text[i])
    && (forall i :: into <= i < w ==> a[i] == text[start + (i - into)])
  }

  /** `minify_string`: copies a string token down, byte by byte, an escaped quote by two. */
  method CopyString(a: array<byte>, start: nat, into: nat, ghost text: bytes) returns (r: nat, w: nat)
    requires 0 !in text && start < |text| && into <= start && text[start] == QUOTE && Unread(a, text, start)
    modifies a
    ensures r <= |text| && r == start + StringStop(text[start..], 1) && w == into + (r - start)
    ensures a[into..w] == text[start..r] && a[..into] == old(a[..into]) && Unread(a, text, r)
  {
    hide StringStop, Copying;
    ghost var s := text[start..];
    ReadBytes(a, text, start);
    a[into] := a[start];
    r, w := start + 1, into + 1;
    CopyBegins(a, text, start, into);
    CopyingAt(a, text, start, into, r, w);
    var closed := false;
    while !closed && a[r] != 0
      invariant Copying(a, text, start, into, r, w) && a[..into] == old(a[..into])
      invariant r <= |text| < a.Length && (a[r] == 0 <==> r == |text|)
      invariant StringStop(s, 1) == if closed then r - start else StringStop(s, r - start)
      decreases |text| - r, !closed
    {
      closed, r, w := CopyByte(a, start, into, r, w, text);
      CopyingAt(a, text, start, into, r, w);
    }
    StopAtEnd(s);
    CopyEnds(a, text, start, into, r, w);
  }

  lemma CopyBegins(a: array<byte>, text: bytes, start: nat, into: nat)
    requires into <= start < |text| < a.Length && a[into] == text[start] && a[|text|] == 0
    requires forall i :: start < i < |text| ==> a[i] == text[i]
    ensures Copying(a, text, start, into, start + 1, into + 1)
  {
  }

  lemma CopyingAt(a: array<byte>, text: bytes, start: nat, into: nat, r: nat, w: nat)
    requires Copying(a, text, start, into, r, w) && 0 !in text
    ensures start < r <= |text| < a.Length && w <= r && (a[r] == 0 <==> r == |text|)
  {
  }

  lemma CopyEnds(a: array<byte>, text: bytes, start: nat, into: nat, r: nat, w: nat)
    requires Copying(a, text, start, into, r, w)
    ensures w == into + (r - start) && into <= w <= a.Length && start <= r <= |text|
    ensures a[into..w] == text[start..r] && Unread(a, text, r)
  {
    assert forall i :: 0 <= i < w - into ==> a[into..w][i] == text[start..r][i];
    assert forall i :: 0 <= i < |text| - r ==> a[r..|text|][i] == text[r..][i];
  }

  lemma StopAtEnd(s: bytes)
    ensures StringStop(s, |s|) == |s|
  {
  }

  /** One turn of the copying loop. */
  method CopyByte(a: array<byte>, ghost start: nat, ghost into: nat, r0: nat, w0: nat, ghost text: bytes)
    returns (closed: bool, r: nat, w: nat)
    requires Copying(a, text, start, into, r0, w0) && r0 < |text| && 0 !in text
    modifies a
    ensures Copying(a, text, start, into, r, w) && a[..into] == old(a[..into]) && r0 < r
    ensures StringStop(text[start..], r0 - start) == if closed then r - start else StringStop(text[start..], r - start)
  {
    ghost var s := text[start..];
    assert s[r0 - start] == text[r0] && (r0 + 1 < |text| ==> s[r0 + 1 - start] == text[r0 + 1]);
    r, w, closed := r0, w0, false;
    a[w] := a[r];
    if a[r] == QUOTE {
      a[w] := QUOTE;
      closed := true;
    } else if a[r] == BACKSLASH && a[r + 1] == QUOTE {
      a[w + 1] := a[r + 1];
      r, w := r + 1, w + 1;
    }
    r, w := r + 1, w + 1;
  }

  lemma ReadBytes(a: array<byte>, text: bytes, r: nat)
    requires Unread(a, text, r)
    ensures forall i :: r <= i < |text| ==> a[i] == text[i]
  {
    forall i | r <= i < |text| ensures a[i] == text[i] {
      assert a[r..|text|][i - r] == text[r..][i - r];
    }
  }

  /** `cJSON_Minify` on a NUL-terminated text. The block ends up holding the filtered text and its
      terminator: no byte is overwritten before it has been read. */
  method MinifyInPlace(a: array<byte>, ghost text: bytes)
    requires 0 !in text && Unread(a, text, 0)
    modifies a
    ensures |Minify(text)| <= |text| && a[..|Minify(text)|] == Minify(text) && a[|Minify(text)|] == 0
  {
    var r: nat, w: nat := 0, 0;
    assert text[0..] == text;
    while a[r] != 0
      invariant w <= r <= |text| && Unread(a, text, r)
      invariant a[..w] + Minify(text[r..]) == Minify(text)
      decreases |text| - r
    {
      r, w := MinifyTurn(a, r, w, text);
    }
    assert text[r..] == [];
    a[w] := 0;
  }

  /** One turn of the main loop. */
  method MinifyTurn(a: array<byte>, r0: nat, w0: nat, ghost text: bytes) returns (r: nat, w: nat)
    requires 0 !in text && w0 <= r0 < |text| && Unread(a, text, r0)
    modifies a
    ensures w <= r <= |text| && r0 < r && Unread(a, text, r)
    ensures a[..w] + Minify(text[r..]) == old(a[..w0]) + Minify(text[r0..])
  {
    hide Turn, StringStop, Minify;
    ReadBytes(a, text, r0);
    TurnFacts(text, r0);
    var c := a[r0];
    r, w := r0, w0;
    if IsBlank(c) || c == SLASH {
      r := SkipTurn(a, r0, text);
    } else if c == QUOTE {
      r, w := CopyString(a, r0, w0, text);
      assert a[..w] == a[..w0] + a[w0..w];
    } else {
      a[w0] := c;
      r, w := r0 + 1, w0 + 1;
      assert a[..w] == a[..w0] + [c];
      UnreadLater(a, text, r);
    }
  }

  /** The cases that keep nothing: blanks, comments, a lone slash. */
  method SkipTurn(a: array<byte>, r0: nat, ghost text: bytes) returns (r: nat)
    requires 0 !in text && r0 < |text| && Unread(a, text, r0) && (IsBlank(text[r0]) || text[r0] == SLASH)
    ensures r0 < r <= |text| && Unread(a, text, r) && r == r0 + Turn(text[r0..]).1
  {
    hide LineStop, CommentStop, StringStop;
    ReadBytes(a, text, r0);
    assert text[r0..][0] == text[r0] && (r0 + 1 < |text| ==> text[r0..][1] == text[r0 + 1]);
    r := r0 + 1;
    if a[r0] == SLASH {
      if a[r0 + 1] == SLASH {
        r := SkipLine(a, r0, text);
      } else if a[r0 + 1] == STAR {
        r := SkipComment(a, r0, text);
      }
    }
    UnreadLater(a, text, r);
  }

  lemma UnreadLater(a: array<byte>, text: bytes, r: nat)
    requires r <= |text| < a.Length && a[|text|] == 0
    requires forall i :: r <= i < |text| ==> a[i] == text[i]
    ensures Unread(a, text, r)
  {
  }

  /** The turn on the text from `r`, in positions of the whole text. */
  lemma TurnFacts(text: bytes, r: nat)
    requires r < |text|
    ensures var (kept, n) := Turn(text[r..]);
      && r + n <= |text| && Minify(text[r..]) == kept + Minify(text[r + n..])
      && (text[r] == QUOTE ==> n == StringStop(text[r..], 1) && kept == text[r..r + n])
      && (IsBlank(text[r]) || text[r] == SLASH ==> kept == [])
      && (!IsBlank(text[r]) && text[r] !in [SLASH, QUOTE] ==> n == 1 && kept == [text[r]])
  {
    hide LineStop, CommentStop, StringStop;
    assert text[r..][Turn(text[r..]).1..] == text[r + Turn(text[r..]).1..];
  }
}
