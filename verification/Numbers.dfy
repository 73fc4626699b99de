/** Number literals: the copy loop of `parse_number` and an exact decimal `strtod`. */
module Numbers {
  import opened Bytes
  import opened JsonTree

  /** Size of the temporary text buffer, less its terminator. */
  const RUN_LIMIT := 63

  predicate IsDigit(c: byte) { 48 <= c <= 57 }

  predicate IsNumberByte(c: byte) {
    IsDigit(c) || c in [43, 45, 46, 69, 101]
  }

  /** End of the run of number bytes that starts at `off`, at most `room` bytes long. */
  function RunEnd(s: bytes, off: nat, room: nat): (e: nat)
    requires off <= |s|
    ensures off <= e <= |s| && e <= off + room
    decreases room
  {
    if room == 0 || off >= |s| || !IsNumberByte(s[off]) then off else RunEnd(s, off + 1, room - 1)
  }

  function DigitsEnd(t: bytes, p: nat): (e: nat)
    requires p <= |t|
    ensures p <= e <= |t|
    ensures forall i :: p <= i < e ==> IsDigit(t[i])
    decreases |t| - p
  {
    if p < |t| && IsDigit(t[p]) then DigitsEnd(t, p + 1) else p
  }

  function DigitsValue(t: bytes): nat
    requires forall i :: 0 <= i < |t| ==> IsDigit(t[i])
  {
    if t == [] then 0
    else
      var last := t[|t| - 1];
      assert IsDigit(last);
      DigitsValue(t[..|t| - 1]) as int * 10 + (last as int - 48)
  }

  function Pow10(e: int): real
    decreases if e < 0 then -e else e
  {
    if e == 0 then 1.0 else if e > 0 then 10.0 * Pow10(e - 1) else Pow10(e + 1) / 10.0
  }

  function SignEnd(t: bytes, p: nat): (e: nat)
    requires p <= |t|
    ensures p <= e <= |t|
  {
    if p < |t| && (t[p] == 43 || t[p] == 45) then p + 1 else p
  }

  function Signed(t: bytes, p: nat, magnitude: real): real {
    if p < |t| && t[p] == MINUS then -magnitude else magnitude
  }

  function Magnitude(whole: bytes, frac: bytes, exponent: int): real
    requires (forall i :: 0 <= i < |whole| ==> IsDigit(whole[i])) && forall i :: 0 <= i < |frac| ==> IsDigit(frac[i])
  {
    DigitsValue(whole) as real * Pow10(exponent) + DigitsValue(frac) as real * Pow10(exponent - |frac|)
  }

  /** Value and consumed length of the longest decimal number at the start of `t`. */
  function Strtod(t: bytes): (r: Option<(real, nat)>)
    ensures r.Some? ==> 0 < r.value.1 <= |t|
  {
    var first := SignEnd(t, 0);
    var whole := DigitsEnd(t, first);
    var frac := if whole < |t| && t[whole] == 46 then DigitsEnd(t, whole + 1) else whole;
    var fracDigits := if frac > whole then t[whole + 1..frac] else [];
    if whole == first && fracDigits == [] then None
    else
      var (exponent, e) := Exponent(t, frac);
      Some((Signed(t, 0, Magnitude(t[first..whole], fracDigits, exponent)), e))
  }

  /** The optional exponent at `p`; ignored when no digit follows the letter. */
  function Exponent(t: bytes, p: nat): (r: (int, nat))
    requires p <= |t|
    ensures p <= r.1 <= |t|
  {
    if p < |t| && t[p] in [69, 101] then
      var first := SignEnd(t, p + 1);
      var e := DigitsEnd(t, first);
      if e > first then (Signed(t, p + 1, DigitsValue(t[first..e]) as real).Floor, e) else (0, p)
    else (0, p)
  }

  /** `parse_number`: value and next offset. */
  function NumberAt(s: bytes, off: nat): (r: Option<(real, nat)>)
    requires off <= |s|
    ensures r.Some? ==> off < r.value.1 <= |s|
  {
    var n := Strtod(s[off..RunEnd(s, off, RUN_LIMIT)]);
    if n == None then None else Some((n.value.0, off + n.value.1))
  }

  /** The saturating conversion that fills `valueint`: towards 0, and to the bounds beyond them. */
  function Saturate(d: real): (n: int)
    ensures INT_MIN <= n <= INT_MAX
    ensures IntValued(d) ==> n == d.Floor
    ensures 0.0 <= d <= INT_MAX as real ==> n as real <= d < n as real + 1.0
    ensures INT_MIN as real <= d <= 0.0 ==> n as real - 1.0 < d <= n as real
    ensures (d > INT_MAX as real ==> n == INT_MAX) && (d < INT_MIN as real ==> n == INT_MIN)
  {
    if d >= INT_MAX as real then INT_MAX
    else if d <= INT_MIN as real then INT_MIN
    else if d >= 0.0 then d.Floor
    else -(-d).Floor
  }

  // ---------------------------------------------------------------- printing then parsing

  lemma {:induction false} DigitsAreValue(n: nat)
    ensures DigitsValue(Digits(n)) == n
  {
    if n >= 10 {
      DigitsAreValue(n / 10);
      assert Digits(n)[..|Digits(n)| - 1] == Digits(n / 10);
    } else {
      assert Digits(n)[..0] == [];
    }
  }

  lemma {:induction false} DigitsShort(n: nat, k: nat)
    requires 0 < k && n < IntPow10(k)
    ensures |Digits(n)| <= k
  {
    if n >= 10 {
      DigitsShort(n / 10, k - 1);
    }
  }

  lemma DecimalShort(n: int)
    requires INT_MIN <= n <= INT_MAX
    ensures |Decimal(n)| <= 11
  {
    assert IntPow10(5) == 100000;
    assert IntPow10(10) == 100000 * IntPow10(5);
    DigitsShort(if n < 0 then -n else n, 10);
  }

  function IntPow10(k: nat): nat {
    if k == 0 then 1 else 10 * IntPow10(k - 1)
  }

  lemma {:induction false} DigitsEndAll(t: bytes, p: nat)
    requires p <= |t| && forall i :: p <= i < |t| ==> IsDigit(t[i])
    ensures DigitsEnd(t, p) == |t|
    decreases |t| - p
  {
    if p < |t| {
      DigitsEndAll(t, p + 1);
    }
  }

  lemma {:induction false} RunEndAll(s: bytes, off: nat, e: nat, room: nat)
    requires off <= e <= |s| && e - off <= room
    requires forall i :: off <= i < e ==> IsNumberByte(s[i])
    requires e < |s| ==> !IsNumberByte(s[e])
    ensures RunEnd(s, off, room) == e
    decreases e - off
  {
    if off < e {
      RunEndAll(s, off + 1, e, room - 1);
    }
  }

  lemma NoDigits()
    ensures DigitsValue([]) == 0
  {
  }

  lemma StrtodDecimal(n: int)
    ensures Strtod(Decimal(n)) == Some((n as real, |Decimal(n)|))
  {
    hide DigitsEnd, DigitsValue, Digits;
    var t := Decimal(n);
    var first := if n < 0 then 1 else 0;
    var m := if n < 0 then -n else n;
    assert t[first..|t|] == Digits(m);
    DigitsEndAll(t, first);
    DigitsAreValue(m);
    NoDigits();
    assert Pow10(0) == 1.0;
  }

  /** A printed int that no number byte follows reads back as itself. */
  lemma NumberRoundTrip(s: bytes, off: nat, n: int)
    requires INT_MIN <= n <= INT_MAX && At(s, off, Decimal(n))
    requires off + |Decimal(n)| < |s| ==> !IsNumberByte(s[off + |Decimal(n)|])
    ensures NumberAt(s, off) == Some((n as real, off + |Decimal(n)|))
  {
    hide Strtod, Digits;
    var t := Decimal(n);
    DecimalShort(n);
    forall i | off <= i < off + |t| ensures IsNumberByte(s[i]) {
      AtIndex(s, off, t, i - off);
    }
    RunEndAll(s, off, off + |t|, RUN_LIMIT);
    StrtodDecimal(n);
  }
}
