/** What `cJSON_Minify` does with each kind of token, told by the text of the token alone, and that this
    is all there is to say. */
module MinifyLaws {
  import opened Bytes
  import opened Minifier

  type Filter = bytes -> bytes

  // ---------------------------------------------------------------- tokens by their text

  /** The closing mark of a comment stands at `i`. */
  predicate MarkAt(c: bytes, i: nat) {
    i + 1 < |c| && c[i] == 42 && c[i + 1] == 47
  }

  /** No comment ends before `n`. */
  ghost predicate Endless(t: bytes, n: nat) {
    forall i :: 0 <= i < n ==> !MarkAt(t, i)
  }

  /** A string body as the filter understands it: a quote only right behind a backslash. */
  ghost predicate StringBody(c: bytes, closed: bool) {
    && (forall i :: 0 <= i < |c| && c[i] == 34 ==> i > 0 && c[i - 1] == 92)
    && (closed && c != [] ==> c[|c| - 1] != 92)
  }

  // ---------------------------------------------------------------- the laws

  ghost predicate ByteLaw(m: Filter, b: byte, x: bytes) {
    && (b in {32, 9, 13, 10} ==> m([b] + x) == m(x))
    && (b !in {32, 9, 13, 10, 34, 47} ==> m([b] + x) == [b] + m(x))
    && (b == 47 && (x == [] || x[0] !in {47, 42}) ==> m([b] + x) == m(x))
  }

  ghost predicate LineLaw(m: Filter, c: bytes, x: bytes) {
    10 !in c ==> m([47, 47] + c + [10] + x) == m(x) && m([47, 47] + c) == m([])
  }

  ghost predicate CommentLaw(m: Filter, c: bytes, x: bytes) {
    && (Endless(c + [42, 47], |c|) ==> m([47, 42] + c + [42, 47] + x) == m(x))
    && (Endless(c, |c|) ==> m([47, 42] + c) == m([]))
  }

  ghost predicate StringLaw(m: Filter, c: bytes, x: bytes) {
    && (StringBody(c, true) ==> m([34] + c + [34] + x) == [34] + c + [34] + m(x))
    && (StringBody(c, false) ==> m([34] + c) == [34] + c)
  }

  /** Blanks go, a lone slash goes, comments go up to their end or that of the text, strings stay up to
      theirs, and every other byte stays. */
  ghost predicate Laws(m: Filter) {
    && m([]) == []
    && (forall b, x :: ByteLaw(m, b, x))
    && (forall c, x :: LineLaw(m, c, x))
    && (forall c, x :: CommentLaw(m, c, x))
    && (forall c, x :: StringLaw(m, c, x))
  }

  // ---------------------------------------------------------------- where tokens end

  lemma {:induction false} LineStopMeans(s: bytes, i: nat)
    requires i <= |s|
    ensures var e := LineStop(s, i);
      if i < e && s[e - 1] == 10 then 10 !in s[i..e - 1] else e == |s| && 10 !in s[i..]
    decreases |s| - i
  {
    if i < |s| && s[i] != NEWLINE {
      LineStopMeans(s, i + 1);
      assert s[i..] == [s[i]] + s[i + 1..];
      var e := LineStop(s, i);
      if i + 1 < e {
        assert s[i..e - 1] == [s[i]] + s[i + 1..e - 1];
      }
    }
  }

  lemma {:induction false} LineStopAt(s: bytes, i: nat, e: nat)
    requires i <= e <= |s| && forall k :: i <= k < e ==> s[k] != 10
    ensures LineStop(s, i) == if e == |s| then e else LineStop(s, e)
    ensures e < |s| && s[e] == 10 ==> LineStop(s, i) == e + 1
    decreases e - i
  {
    if i < e {
      LineStopAt(s, i + 1, e);
    }
  }

  lemma {:induction false} CommentStopMeans(s: bytes, i: nat)
    requires i <= |s|
    ensures var e := CommentStop(s, i);
      if i + 2 <= e && MarkAt(s, e - 2) then forall k :: i <= k < e - 2 ==> !MarkAt(s, k)
      else e == |s| && forall k :: i <= k < e ==> !MarkAt(s, k)
    decreases |s| - i
  {
    if i < |s| && !MarkAt(s, i) {
      CommentStopMeans(s, i + 1);
    }
  }

  lemma {:induction false} CommentStopAt(s: bytes, i: nat, e: nat)
    requires i <= e <= |s| && forall k :: i <= k < e ==> !MarkAt(s, k)
    ensures e == |s| || MarkAt(s, e) ==> CommentStop(s, i) == if e == |s| then e else e + 2
    decreases e - i
  {
    if i < e {
      assert !MarkAt(s, i);
      CommentStopAt(s, i + 1, e);
    }
  }

  /** A quote at `k` that is not right behind a backslash, looking back no further than `i`. */
  predicate BareQuote(s: bytes, i: nat, k: nat) {
    i <= k < |s| && s[k] == 34 && (k == i || s[k - 1] != 92)
  }

  lemma {:induction false} StringStopMeans(s: bytes, i: nat)
    requires i <= |s|
    ensures var e := StringStop(s, i);
      if i < e && BareQuote(s, i, e - 1) then forall k :: i <= k < e - 1 ==> !BareQuote(s, i, k)
      else e == |s| && forall k :: i <= k < e ==> !BareQuote(s, i, k)
    decreases |s| - i
  {
    if i < |s| && s[i] != QUOTE {
      var j := if s[i] == BACKSLASH && i + 1 < |s| && s[i + 1] == QUOTE then i + 2 else i + 1;
      StringStopMeans(s, j);
      forall k | i <= k < |s| ensures BareQuote(s, i, k) <==> j <= k && BareQuote(s, j, k) {
      }
    }
  }

  lemma {:induction false} StringStopAt(s: bytes, i: nat, e: nat)
    requires i <= e <= |s| && forall k :: i <= k < e ==> !BareQuote(s, i, k)
    ensures e == |s| || BareQuote(s, i, e) ==> StringStop(s, i) == if e == |s| then e else e + 1
    decreases |s| - i
  {
    assert i < e ==> !BareQuote(s, i, i);
    if i < |s| && s[i] != QUOTE {
      var j := if s[i] == BACKSLASH && i + 1 < |s| && s[i + 1] == QUOTE then i + 2 else i + 1;
      forall k | i <= k < |s| ensures BareQuote(s, i, k) <==> j <= k && BareQuote(s, j, k) {
      }
      if j <= e {
        StringStopAt(s, j, e);
      }
    }
  }

  // ---------------------------------------------------------------- the filter obeys the laws

  lemma BytesObeyed(b: byte, x: bytes)
    ensures ByteLaw(Minify, b, x)
  {
    hide LineStop, CommentStop, StringStop;
    var s := [b] + x;
    assert s[1..] == x;
    assert x != [] ==> s[1] == x[0];
  }

  lemma ClosedLine(c: bytes, x: bytes)
    requires 10 !in c
    ensures Minify([47, 47] + c + [10] + x) == Minify(x)
  {
    hide LineStop;
    var s := [47, 47] + c + [10] + x;
    forall k | 2 <= k < 2 + |c| ensures s[k] != 10 {
      assert s[k] == c[k - 2];
    }
    LineStopAt(s, 2, 2 + |c|);
    assert s[3 + |c|..] == x;
  }

  lemma OpenLine(c: bytes)
    requires 10 !in c
    ensures Minify([47, 47] + c) == []
  {
    hide LineStop;
    var t := [47, 47] + c;
    forall k | 2 <= k < |t| ensures t[k] != 10 {
      assert t[k] == c[k - 2];
    }
    LineStopAt(t, 2, |t|);
    assert t[|t|..] == [];
  }

  lemma LinesObeyed(c: bytes, x: bytes)
    ensures LineLaw(Minify, c, x)
  {
    hide Turn, Minify;
    MinifyNothing();
    if 10 !in c {
      ClosedLine(c, x);
      OpenLine(c);
    }
  }

  /** The marks inside a comment, in positions of the whole text. */
  lemma EndlessIn(s: bytes, t: bytes, n: nat)
    requires 2 + |t| <= |s| && s[2..2 + |t|] == t && n <= |t| && (n < |t| || 2 + |t| == |s|)
    ensures Endless(t, n) <==> forall k :: 2 <= k < 2 + n ==> !MarkAt(s, k)
  {
    forall k | 0 <= k < n ensures MarkAt(t, k) <==> MarkAt(s, k + 2) {
      assert t[k] == s[k + 2] && (k + 1 < |t| ==> t[k + 1] == s[k + 3]);
    }
    if Endless(t, n) {
      forall k | 2 <= k < 2 + n ensures !MarkAt(s, k) {
        assert !MarkAt(t, k - 2);
      }
    } else {
      var k :| 0 <= k < n && MarkAt(t, k);
      assert MarkAt(s, k + 2);
    }
  }

  lemma CommentTurn(s: bytes)
    requires 1 < |s| && s[0] == 47 && s[1] == 42
    ensures Minify(s) == Minify(s[CommentStop(s, 2)..])
  {
    hide CommentStop, LineStop, StringStop;
  }

  lemma ClosedComment(c: bytes, x: bytes)
    requires Endless(c + [42, 47], |c|)
    ensures Minify([47, 42] + c + [42, 47] + x) == Minify(x)
  {
    hide CommentStop, Endless, Minify;
    var t := c + [42, 47];
    var s := [47, 42] + t + x;
    assert [47, 42] + c + [42, 47] + x == s;
    assert s[2..4 + |c|] == t && s[4 + |c|..] == x;
    EndlessIn(s, t, |c|);
    assert s[2 + |c|] == t[|c|] == 42 && s[3 + |c|] == t[|c| + 1] == 47;
    CommentStopAt(s, 2, 2 + |c|);
    CommentTurn(s);
  }

  lemma OpenComment(c: bytes)
    requires Endless(c, |c|)
    ensures Minify([47, 42] + c) == []
  {
    hide CommentStop, Endless, Minify;
    var s := [47, 42] + c;
    assert s[2..] == c;
    EndlessIn(s, c, |c|);
    CommentStopAt(s, 2, |s|);
    CommentTurn(s);
    assert s[|s|..] == [];
    MinifyNothing();
  }

  lemma CommentsObeyed(c: bytes, x: bytes)
    ensures CommentLaw(Minify, c, x)
  {
    hide Endless, Turn;
    MinifyNothing();
    if Endless(c + [42, 47], |c|) {
      ClosedComment(c, x);
    }
    if Endless(c, |c|) {
      OpenComment(c);
    }
  }

  lemma ClosedString(c: bytes, x: bytes)
    requires StringBody(c, true)
    ensures Minify([34] + c + [34] + x) == [34] + c + [34] + Minify(x)
  {
    hide StringStop;
    var s, n := [34] + c + [34] + x, 2 + |c|;
    assert forall k :: 1 <= k < 1 + |c| ==> s[k] == c[k - 1];
    StringStopAt(s, 1, 1 + |c|);
    assert s[..n] == [34] + c + [34] && s[n..] == x;
  }

  lemma OpenString(c: bytes)
    requires StringBody(c, false)
    ensures Minify([34] + c) == [34] + c
  {
    hide StringStop;
    var t := [34] + c;
    assert forall k :: 1 <= k < 1 + |c| ==> t[k] == c[k - 1];
    StringStopAt(t, 1, |t|);
    assert t[..|t|] == t && t[|t|..] == [];
  }

  lemma StringsObeyed(c: bytes, x: bytes)
    ensures StringLaw(Minify, c, x)
  {
    hide StringBody, Minify;
    if StringBody(c, true) {
      ClosedString(c, x);
    }
    if StringBody(c, false) {
      OpenString(c);
    }
  }

  lemma MinifyObeys()
    ensures Laws(Minify)
  {
    hide Minify, ByteLaw, LineLaw, CommentLaw, StringLaw;
    assert Minify([]) == [] by { MinifyNothing(); }
    forall b, x ensures ByteLaw(Minify, b, x) {
      BytesObeyed(b, x);
    }
    forall c, x ensures LineLaw(Minify, c, x) {
      LinesObeyed(c, x);
    }
    forall c, x ensures CommentLaw(Minify, c, x) {
      CommentsObeyed(c, x);
    }
    forall c, x ensures StringLaw(Minify, c, x) {
      StringsObeyed(c, x);
    }
  }

  lemma MinifyNothing()
    ensures Minify([]) == []
  {
  }

  // ---------------------------------------------------------------- and nothing else does

  lemma LawsAt(m: Filter, b: byte, c: bytes, x: bytes)
    requires Laws(m)
    ensures m([]) == [] && ByteLaw(m, b, x) && LineLaw(m, c, x) && CommentLaw(m, c, x) && StringLaw(m, c, x)
  {
    hide ByteLaw, LineLaw, CommentLaw, StringLaw;
  }

  lemma SlashForced(m: Filter, s: bytes)
    requires Laws(m) && s != [] && s[0] == 47
    ensures m(s) == m(s[Turn(s).1..])
  {
    hide Laws, LineStop, CommentStop, StringStop;
    if 1 < |s| && s[1] == SLASH {
      LineForced(m, s);
    } else if 1 < |s| && s[1] == STAR {
      CommentForced(m, s);
    } else {
      assert s == [47] + s[1..];
      LawsAt(m, 47, [], s[1..]);
    }
  }

  lemma LineForced(m: Filter, s: bytes)
    requires Laws(m) && 1 < |s| && s[0] == 47 && s[1] == 47
    ensures m(s) == m(s[LineStop(s, 2)..])
  {
    hide Laws, LineStop;
    LineStopMeans(s, 2);
    var e := LineStop(s, 2);
    if 2 < e && s[e - 1] == 10 {
      LineEndForced(m, s, e);
    } else {
      assert s == [47, 47] + s[2..] && s[e..] == [];
      LineLawAt(m, s[2..], []);
    }
  }

  lemma LineLawAt(m: Filter, c: bytes, x: bytes)
    requires Laws(m)
    ensures LineLaw(m, c, x)
  {
    hide Laws, LineLaw;
    LawsAt(m, 0, c, x);
  }

  lemma LineEndForced(m: Filter, s: bytes, e: nat)
    requires Laws(m) && 2 < e <= |s| && s[0] == 47 && s[1] == 47 && s[e - 1] == 10 && 10 !in s[2..e - 1]
    ensures m(s) == m(s[e..])
  {
    hide Laws;
    var c := s[2..e - 1];
    assert s == [47, 47] + c + [10] + s[e..];
    LineLawAt(m, c, s[e..]);
  }

  lemma CommentForced(m: Filter, s: bytes)
    requires Laws(m) && 1 < |s| && s[0] == 47 && s[1] == 42
    ensures m(s) == m(s[CommentStop(s, 2)..])
  {
    hide Laws, CommentStop, Endless;
    CommentStopMeans(s, 2);
    var e := CommentStop(s, 2);
    if 4 <= e && MarkAt(s, e - 2) {
      ClosedForced(m, s, e);
    } else {
      assert s == [47, 42] + s[2..] && s[e..] == [];
      EndlessIn(s, s[2..], |s| - 2);
      LawsAt(m, 0, s[2..], []);
    }
  }

  lemma ClosedForced(m: Filter, s: bytes, e: nat)
    requires Laws(m) && 4 <= e <= |s| && s[0] == 47 && s[1] == 42 && MarkAt(s, e - 2)
    requires forall k :: 2 <= k < e - 2 ==> !MarkAt(s, k)
    ensures m(s) == m(s[e..])
  {
    hide Laws, Endless, ByteLaw, LineLaw, StringLaw;
    var c, t := s[2..e - 2], s[2..e];
    assert t == c + [42, 47];
    EndlessIn(s, t, e - 4);
    assert [47, 42] + c + [42, 47] + s[e..] == s by {
      assert [47, 42] + t + s[e..] == s;
    }
    LawsAt(m, 0, c, s[e..]);
  }

  lemma StringForced(m: Filter, s: bytes)
    requires Laws(m) && s != [] && s[0] == 34
    ensures var n := StringStop(s, 1); m(s) == s[..n] + m(s[n..])
  {
    hide Laws, StringStop, ByteLaw, LineLaw, CommentLaw;
    StringStopMeans(s, 1);
    var e := StringStop(s, 1);
    if 1 < e && BareQuote(s, 1, e - 1) {
      var c := s[1..e - 1];
      BodyIs(s, e - 1);
      assert s[..e] == [34] + c + [34] && s == [34] + c + [34] + s[e..];
      LawsAt(m, 0, c, s[e..]);
    } else {
      var c := s[1..];
      BodyIs(s, |s|);
      assert s[..e] == [34] + c && s == [34] + c && s[e..] == [];
      LawsAt(m, 0, c, []);
    }
  }

  lemma BodyIs(s: bytes, e: nat)
    requires 1 <= e <= |s| && forall k :: 1 <= k < e ==> !BareQuote(s, 1, k)
    ensures StringBody(s[1..e], false)
    ensures e < |s| && BareQuote(s, 1, e) ==> StringBody(s[1..e], true)
  {
    var c := s[1..e];
    forall i | 0 <= i < |c| && c[i] == 34 ensures i > 0 && c[i - 1] == 92 {
      assert !BareQuote(s, 1, i + 1);
    }
  }

  lemma ByteForced(m: Filter, s: bytes)
    requires Laws(m) && s != [] && s[0] !in {34, 47}
    ensures m(s) == Turn(s).0 + m(s[1..])
  {
    hide Laws, LineLaw, CommentLaw, StringLaw, LineStop, CommentStop, StringStop;
    assert s == [s[0]] + s[1..];
    LawsAt(m, s[0], [], s[1..]);
  }

  /** A filter that obeys the laws is the one the code computes, on every text. */
  lemma {:induction false} LawsDetermine(m: Filter, s: bytes)
    requires Laws(m)
    ensures m(s) == Minify(s)
    decreases |s|
  {
    hide Laws, StringStop, LineStop, CommentStop;
    if s == [] {
      LawsAt(m, 0, [], []);
    } else {
      LawsDetermine(m, s[Turn(s).1..]);
      if s[0] == 47 {
        SlashForced(m, s);
      } else if s[0] == 34 {
        StringForced(m, s);
      } else {
        ByteForced(m, s);
      }
    }
  }
}
