/** String literals: the sizing scan and the decoding loop of `parse_string`. */
module Strings {
  import opened Bytes
  import opened Utf8
  import opened JsonTree

  // ---------------------------------------------------------------- the two passes

  /** First pass, from position `p`: where the closing quote is and how many backslashes were
      skipped on the way. None when the buffer ends first. */
  function Scan(s: bytes, p: nat): (r: Option<(nat, nat)>)
    ensures r.Some? ==> p <= r.value.0 < |s| && s[r.value.0] == QUOTE
    decreases |s| - p
  {
    if p >= |s| then None
    else if s[p] == QUOTE then Some((p, 0))
    else if s[p] == BACKSLASH then
      if p + 1 >= |s| then None
      else
        var rest := Scan(s, p + 2);
        if rest == None then None else Some((rest.value.0, rest.value.1 + 1))
    else Scan(s, p + 1)
  }

  /** Bytes written by the second pass, and where it gave up if it did. */
  datatype Decoding = Decoding(out: bytes, failedAt: Option<nat>)

  function SimpleEscape(c: byte): Option<byte> {
    if c == 98 then Some(8)
    else if c == 102 then Some(12)
    else if c == 110 then Some(10)
    else if c == 114 then Some(13)
    else if c == 116 then Some(9)
    else if c == QUOTE || c == BACKSLASH || c == 47 then Some(c)
    else None
  }

  /** One turn of the second pass on a backslash: bytes written and input consumed. */
  function EscapeAt(s: bytes, p: nat, e: nat): (r: Option<(bytes, nat)>)
    requires p < e < |s|
    ensures r.Some? ==> r.value.1 in {2, 6, 12} && (p + r.value.1 <= e || r.value.1 == 2)
    ensures r.Some? ==> 2 * |r.value.0| <= r.value.1
  {
    if s[p + 1] == LOWER_U then
      var u := Utf16Literal(s, p, e);
      if u == None then None else Some((EncodeUtf8(u.value.0), u.value.1))
    else
      var c := SimpleEscape(s[p + 1]);
      if c == None then None else Some(([c.value], 2))
  }

  /** Second pass, from `p` to the closing quote at `e`. */
  function Decode(s: bytes, p: nat, e: nat): Decoding
    requires e < |s|
    decreases |s| - p
  {
    if p >= e then Decoding([], None)
    else if s[p] != BACKSLASH then
      var rest := Decode(s, p + 1, e);
      rest.(out := [s[p]] + rest.out)
    else
      var step := EscapeAt(s, p, e);
      if step == None then Decoding([], Some(p))
      else
        var rest := Decode(s, p + step.value.1, e);
        rest.(out := step.value.0 + rest.out)
  }

  /** Result of `parse_string` at `off`, given that memory is available. */
  datatype StringResult = Parsed(text: bytes, next: nat) | Rejected(at: nat)

  function StringAt(s: bytes, off: nat): (r: StringResult)
    requires off < |s|
    ensures r.Parsed? ==> off + 2 <= r.next <= |s|
    ensures r.Rejected? ==> r.at <= |s|
  {
    if s[off] != QUOTE then Rejected(off + 1)
    else
      var end := Scan(s, off + 1);
      if end == None then Rejected(off + 1)
      else
        var d := Decode(s, off + 1, end.value.0);
        DecodeFailsInside(s, off + 1, end.value.0);
        if d.failedAt.Some? then Rejected(d.failedAt.value) else Parsed(d.out, end.value.0 + 1)
  }

  lemma DecodeFailsInside(s: bytes, p: nat, e: nat)
    requires e < |s|
    ensures var d := Decode(s, p, e); d.failedAt.Some? ==> p <= d.failedAt.value < e
    decreases |s| - p
  {
  }

  // ---------------------------------------------------------------- the sizing is sufficient

  /** Following the scan from one of its positions `q` to any later `t` lands on `t` or just behind
      it, and at most every second byte on the way is a skipped backslash. */
  lemma ScanAdvance(s: bytes, q: nat, t: nat) returns (q': nat)
    requires Scan(s, q).Some? && q <= t <= Scan(s, q).value.0
    ensures t <= q' <= t + 1 && q' <= Scan(s, q).value.0
    ensures Scan(s, q').Some? && Scan(s, q').value.0 == Scan(s, q).value.0
    ensures 2 * (Scan(s, q).value.1 - Scan(s, q').value.1) <= q' - q
    decreases |s| - q
  {
    if q == t {
      q' := q;
    } else if s[q] == BACKSLASH {
      if t == q + 1 {
        q' := q + 2;
      } else {
        q' := ScanAdvance(s, q + 2, t);
      }
    } else {
      q' := ScanAdvance(s, q + 1, t);
    }
  }

  /** The second pass, started at most one byte before a position `q` of the first pass, writes no
      more bytes than there are left, less the backslashes the first pass still skips. This holds
      on every input, also where malformed escapes make the two passes pair backslashes
      differently. */
  lemma {:induction false} DecodeBound(s: bytes, p: nat, q: nat)
    requires Scan(s, q).Some? && p <= q <= p + 1
    ensures var (e, skipped) := Scan(s, q).value; p <= e ==> |Decode(s, p, e).out| <= e - p - skipped
    decreases |s| - p
  {
    var (e, skipped) := Scan(s, q).value;
    var toEnd := ScanAdvance(s, q, e);
    if p < e {
      if s[p] != BACKSLASH {
        DecodeBound(s, p + 1, p + 1);
      } else {
        var step := EscapeAt(s, p, e);
        if step.Some? {
          if p + step.value.1 <= e {
            var q' := ScanAdvance(s, q, p + step.value.1);
            DecodeBound(s, p + step.value.1, q');
          } else {
            assert q == e;
          }
        }
      }
    }
  }

  /** Size asked of the allocator for the string at `off`, terminator included. */
  function AllocationSize(s: bytes, off: nat): nat
    requires off < |s| && Scan(s, off + 1).Some?
  {
    var (e, skipped) := Scan(s, off + 1).value;
    DecodeBound(s, off + 1, off + 1);
    e - off - skipped + 1
  }

  /** Two-pass sizing is sufficient on every input: everything the decoding loop writes, and the
      terminator, fit in the block, with one byte to spare. */
  lemma SizingSufficient(s: bytes, off: nat)
    requires off < |s| && Scan(s, off + 1).Some?
    ensures |Decode(s, off + 1, Scan(s, off + 1).value.0).out| + 1 < AllocationSize(s, off)
  {
    DecodeBound(s, off + 1, off + 1);
  }

  // ---------------------------------------------------------------- printing then parsing

  lemma {:induction false} ScanEscaped(s: bytes, p: nat, t: bytes)
    requires At(s, p, Escape(t)) && p + |Escape(t)| < |s| && s[p + |Escape(t)|] == QUOTE
    ensures Scan(s, p).Some? && Scan(s, p).value.0 == p + |Escape(t)|
    decreases |t|
  {
    hide Scan, EscapeByte;
    if t == [] {
      ScanAtQuote(s, p);
      return;
    }
    AtSplit(s, p, EscapeByte(t[0]), Escape(t[1..]));
    ScanEscaped(s, p + |EscapeByte(t[0])|, t[1..]);
    ScanOneEscape(s, p, t[0]);
  }

  lemma ScanAtQuote(s: bytes, p: nat)
    requires p < |s| && s[p] == QUOTE
    ensures Scan(s, p) == Some((p, 0))
  {
  }

  lemma DecodeAtEnd(s: bytes, p: nat, e: nat)
    requires e <= p && e < |s|
    ensures Decode(s, p, e) == Decoding([], None)
  {
  }

  lemma ScanStep(s: bytes, p: nat)
    requires p < |s| && s[p] != QUOTE
    ensures s[p] != BACKSLASH ==> Scan(s, p) == Scan(s, p + 1)
    ensures s[p] == BACKSLASH && p + 1 < |s| && Scan(s, p + 2).Some? ==>
      Scan(s, p).Some? && Scan(s, p).value.0 == Scan(s, p + 2).value.0
  {
  }

  /** The bytes of one escape, read in place. */
  lemma EscapeBytes(s: bytes, p: nat, c: byte)
    requires At(s, p, EscapeByte(c))
    ensures var t := EscapeByte(c);
      && |t| in {1, 2, 6} && p + |t| <= |s| && s[p] == t[0]
      && (|t| > 1 ==> s[p + 1] == t[1])
      && (|t| == 6 ==> s[p + 2] == t[2] && s[p + 3] == t[3] && s[p + 4] == t[4] && s[p + 5] == t[5])
  {
    hide At;
    var t := EscapeByte(c);
    AtBounds(s, p, t);
    forall i | 0 <= i < |t| ensures s[p + i] == t[i] {
      AtIndex(s, p, t, i);
    }
    if |t| == 6 {
      assert s[p + 2] == t[2] && s[p + 3] == t[3];
    }
  }

  lemma ScanOneEscape(s: bytes, p: nat, c: byte)
    requires At(s, p, EscapeByte(c)) && Scan(s, p + |EscapeByte(c)|).Some?
    ensures Scan(s, p).Some? && Scan(s, p).value.0 == Scan(s, p + |EscapeByte(c)|).value.0
  {
    hide Scan, At;
    EscapeBytes(s, p, c);
    if |EscapeByte(c)| == 6 {
      ScanStep(s, p + 5);
      ScanStep(s, p + 4);
      ScanStep(s, p + 3);
      ScanStep(s, p + 2);
    }
    ScanStep(s, p);
  }

  lemma DecodeStep(s: bytes, p: nat, e: nat)
    requires p < e < |s|
    ensures s[p] != BACKSLASH ==> Decode(s, p, e) == Decode(s, p + 1, e).(out := [s[p]] + Decode(s, p + 1, e).out)
    ensures s[p] == BACKSLASH && EscapeAt(s, p, e).Some? ==>
      var (written, used) := EscapeAt(s, p, e).value;
      Decode(s, p, e) == Decode(s, p + used, e).(out := written + Decode(s, p + used, e).out)
    ensures s[p] == BACKSLASH && EscapeAt(s, p, e) == None ==> Decode(s, p, e) == Decoding([], Some(p))
  {
    hide EscapeAt;
  }

  lemma DecodeOneEscape(s: bytes, p: nat, e: nat, c: byte)
    requires At(s, p, EscapeByte(c)) && p + |EscapeByte(c)| <= e < |s|
    ensures var rest := Decode(s, p + |EscapeByte(c)|, e); Decode(s, p, e) == rest.(out := [c] + rest.out)
  {
    hide Decode, At, EncodeUtf8, Utf16Literal;
    EscapeBytes(s, p, c);
    DecodeStep(s, p, e);
    if |EscapeByte(c)| == 6 {
      ControlEscape(s, p, e, c);
      EncodeAscii(c);
    }
  }

  lemma EncodeAscii(c: byte)
    requires c < 128
    ensures EncodeUtf8(c) == [c]
  {
  }

  /** The `\u00XX` spelling of a control byte reads back as that byte. */
  lemma ControlEscape(s: bytes, p: nat, e: nat, c: byte)
    requires c < 32 && p + 6 <= e < |s| && s[p + 2] == 48 && s[p + 3] == 48
    requires s[p + 4] == HexDigit(c / 16) && s[p + 5] == HexDigit(c % 16)
    ensures Utf16Literal(s, p, e) == Some((c as nat, 6))
  {
    assert HexValue(s[p + 4]) == Some(c / 16) && HexValue(s[p + 5]) == Some(c % 16);
    assert WellFormedHex(s, p + 2);
  }

  lemma {:induction false} DecodeEscaped(s: bytes, p: nat, t: bytes)
    requires At(s, p, Escape(t)) && p + |Escape(t)| < |s|
    ensures Decode(s, p, p + |Escape(t)|) == Decoding(t, None)
    decreases |t|
  {
    hide Decode, EscapeByte;
    if t == [] {
      DecodeAtEnd(s, p, p);
      return;
    }
    AtSplit(s, p, EscapeByte(t[0]), Escape(t[1..]));
    DecodeEscaped(s, p + |EscapeByte(t[0])|, t[1..]);
    DecodeOneEscape(s, p, p + |Escape(t)|, t[0]);
  }

  /** Parsing a printed string gives the string back and stops just behind its closing quote. */
  lemma StringRoundTrip(s: bytes, off: nat, t: bytes)
    requires At(s, off, RenderString(t))
    ensures StringAt(s, off) == Parsed(t, off + |RenderString(t)|)
  {
    hide At, Escape, Scan, Decode;
    AtSplit(s, off, [QUOTE] + Escape(t), [QUOTE]);
    AtSplit(s, off, [QUOTE], Escape(t));
    AtIndex(s, off, [QUOTE], 0);
    AtIndex(s, off + |[QUOTE] + Escape(t)|, [QUOTE], 0);
    ScanEscaped(s, off + 1, t);
    DecodeEscaped(s, off + 1, t);
  }

  // ---------------------------------------------------------------- the imperative loops

  /** The sizing loop. */
  method ScanLiteral(s: bytes, start: nat) returns (r: Option<(nat, nat)>)
    requires start <= |s|
    ensures r == Scan(s, start)
  {
    var p, skipped := start, 0;
    while p < |s| && s[p] != QUOTE
      invariant start <= p <= |s|
      invariant Scan(s, start)
        == (var rest := Scan(s, p); if rest == None then None else Some((rest.value.0, rest.value.1 + skipped)))
    {
      if s[p] == BACKSLASH {
        if p + 1 >= |s| {
          return None;
        }
        skipped := skipped + 1;
        p := p + 1;
      }
      p := p + 1;
    }
    return if p >= |s| then None else Some((p, skipped));
  }

  /** The decoding loop, writing into a block of the size the first pass computed. Every write is
      inside the block. On success the block holds the decoded bytes and a terminator; on failure
      `at` is the input position reached. */
  method DecodeLiteral(s: bytes, off: nat, e: nat, output: array<byte>) returns (ok: bool, n: nat, at: nat)
    requires off < |s| && Scan(s, off + 1).Some? && Scan(s, off + 1).value.0 == e
    requires output.Length == AllocationSize(s, off)
    modifies output
    ensures ok <==> Decode(s, off + 1, e).failedAt == None
    ensures ok ==> n < output.Length && output[..n] == Decode(s, off + 1, e).out && output[n] == 0
    ensures !ok ==> Decode(s, off + 1, e).failedAt == Some(at)
  {
    hide Scan, Decode, EscapeAt, AllocationSize;
    SizingSufficient(s, off);
    ghost var all := Decode(s, off + 1, e);
    var p := off + 1;
    n := 0;
    ghost var rest := all;
    while p < e
      invariant n + |rest.out| == |all.out| && output[..n] + rest.out == all.out
      invariant Decode(s, p, e) == rest && rest.failedAt == all.failedAt
      decreases |s| - p
    {
      DecodeStep(s, p, e);
      if s[p] != BACKSLASH {
        output[n] := s[p];
        assert output[..n + 1] == output[..n] + [s[p]];
        n, p := n + 1, p + 1;
        rest := Decode(s, p, e);
      } else {
        ghost var before := output[..n];
        var written, used := WriteEscape(s, p, e, output, n, rest.out);
        if used == 0 {
          return false, n, p;
        }
        Advance(before, rest.out, written);
        n, p := n + written, p + used;
        rest := Decode(s, p, e);
      }
    }
    DecodeAtEnd(s, p, e);
    output[n] := 0;
    return true, n, p;
  }

  lemma Advance(before: bytes, ahead: bytes, n: nat)
    requires n <= |ahead|
    ensures before + ahead[..n] + ahead[n..] == before + ahead
  {
  }

  /** The escape switch: `ahead` is what remains to be written. */
  method WriteEscape(s: bytes, p: nat, e: nat, output: array<byte>, n: nat, ghost ahead: bytes)
    returns (written: nat, used: nat)
    requires p < e < |s| && s[p] == BACKSLASH
    requires Decode(s, p, e).out == ahead && n + |ahead| <= output.Length
    modifies output
    ensures used == 0 <==> EscapeAt(s, p, e) == None
    ensures used == 0 ==> written == 0
    ensures used != 0 ==>
      used == EscapeAt(s, p, e).value.1 && written == |EscapeAt(s, p, e).value.0|
      && n + written <= output.Length && written <= |ahead|
      && output[..n + written] == old(output[..n]) + ahead[..written]
      && ahead[written..] == Decode(s, p + used, e).out
  {
    var c := SimpleEscape(s[p + 1]);
    if s[p + 1] == LOWER_U {
      used, written := WriteUtf16Literal(s, p, e, output, n);
      if used != 0 {
        assert output[..n + written] == output[..n] + output[n..n + written];
      }
    } else if c == None {
      return 0, 0;
    } else {
      output[n] := c.value;
      written, used := 1, 2;
    }
  }
}
