/** The numbers of section 6 of RFC 8259, spelled out without the parser or the printer, what the parser
    makes of them, and the form in which integers are printed. */
module NumberTexts {
  import opened Bytes
  import opened JsonTree
  import opened Numbers

  // ---------------------------------------------------------------- spellings

  datatype Sign = Unsigned | Plus | Minus

  /** The exponent part: its letter, its sign and its digits. */
  datatype Exponents = Absent | Present(capital: bool, sign: Sign, digits: seq<nat>)

  /** A number as it is written, digit by digit. */
  datatype NumberText = NumberText(negative: bool, whole: seq<nat>, frac: Option<seq<nat>>, exp: Exponents)

  predicate AllDigits(ds: seq<nat>) {
    forall i :: 0 <= i < |ds| ==> ds[i] < 10
  }

  /** Section 6 of RFC 8259: no leading zeros, and no part without digits. */
  predicate StrictNumber(n: NumberText) {
    && LenientNumber(n) && n.whole != [] && (n.whole[0] == 0 ==> |n.whole| == 1)
    && (n.frac.Some? ==> n.frac.value != [])
  }

  /** What `strtod` takes of a text that starts with a minus sign or a digit: the digits before the
      point or those behind it may be missing, and leading zeros do not matter. */
  predicate LenientNumber(n: NumberText) {
    && AllDigits(n.whole) && (n.frac.Some? ==> AllDigits(n.frac.value))
    && (n.whole != [] || (n.negative && Fraction(n) != []))
    && (n.exp.Present? ==> n.exp.digits != [] && AllDigits(n.exp.digits))
  }

  function Fraction(n: NumberText): seq<nat> {
    if n.frac.Some? then n.frac.value else []
  }

  function DigitsText(ds: seq<nat>): (r: bytes)
    requires AllDigits(ds)
    ensures |r| == |ds| && forall i :: 0 <= i < |r| ==> r[i] == 48 + ds[i]
  {
    seq(|ds|, i requires 0 <= i < |ds| => 48 + ds[i])
  }

  function SignText(s: Sign): bytes {
    match s
    case Unsigned => []
    case Plus => [43]
    case Minus => [45]
  }

  function FracText(f: Option<seq<nat>>): bytes
    requires f.Some? ==> AllDigits(f.value)
  {
    if f.Some? then [46] + DigitsText(f.value) else []
  }

  function ExpText(e: Exponents): bytes
    requires e.Present? ==> AllDigits(e.digits)
  {
    if e.Present? then [if e.capital then 69 else 101] + SignText(e.sign) + DigitsText(e.digits) else []
  }

  function NumText(n: NumberText): bytes
    requires LenientNumber(n)
  {
    SignText(if n.negative then Minus else Unsigned) + DigitsText(n.whole) + FracText(n.frac) + ExpText(n.exp)
  }

  // ---------------------------------------------------------------- values

  function NatOf(ds: seq<nat>): nat {
    if ds == [] then 0 else NatOf(ds[..|ds| - 1]) * 10 + ds[|ds| - 1]
  }

  function TenTo(k: nat): (r: nat)
    ensures r > 0
  {
    if k == 0 then 1 else 10 * TenTo(k - 1)
  }

  /** Ten to an integer power. */
  function Ten(k: int): real {
    if k >= 0 then TenTo(k) as real else 1.0 / TenTo(-k) as real
  }

  function ExponentOf(e: Exponents): int {
    if e.Absent? then 0 else if e.sign.Minus? then -(NatOf(e.digits) as int) else NatOf(e.digits)
  }

  /** All digits as one whole number, with the point put in its place. */
  function NumMeaning(n: NumberText): real {
    var f := Fraction(n);
    var magnitude := NatOf(n.whole + f) as real * Ten(ExponentOf(n.exp) - |f|);
    if n.negative then -magnitude else magnitude
  }

  // ---------------------------------------------------------------- digits and powers

  lemma {:induction false} DigitsTextValue(ds: seq<nat>)
    requires AllDigits(ds)
    ensures DigitsValue(DigitsText(ds)) == NatOf(ds)
    decreases |ds|
  {
    if ds != [] {
      var front := ds[..|ds| - 1];
      DigitsTextValue(front);
      assert DigitsText(ds)[..|ds| - 1] == DigitsText(front);
    }
  }

  lemma {:induction false} NatOfConcat(a: seq<nat>, b: seq<nat>)
    ensures NatOf(a + b) == NatOf(a) * TenTo(|b|) + NatOf(b)
    decreases |b|
  {
    if b == [] {
      assert a + b == a;
    } else {
      var front := b[..|b| - 1];
      NatOfConcat(a, front);
      assert (a + b)[..|a + b| - 1] == a + front;
      Distribute(NatOf(a), TenTo(|b| - 1), NatOf(front));
    }
  }

  lemma Distribute(a: nat, p: nat, f: nat)
    ensures (a * p + f) * 10 == a * (10 * p) + f * 10
  {
  }

  lemma {:induction false} Pow10IsTen(k: int)
    ensures Pow10(k) == Ten(k) && Ten(k) > 0.0
    decreases if k < 0 then -k else k
  {
    if k > 0 {
      Pow10IsTen(k - 1);
    } else if k < 0 {
      Pow10IsTen(k + 1);
      TenthOf(TenTo(-k - 1));
    }
  }

  lemma TenthOf(x: nat)
    requires x > 0
    ensures 1.0 / x as real / 10.0 == 1.0 / (10 * x) as real
  {
  }

  /** Moving the point by `m` places. */
  lemma {:induction false} TenShift(k: int, m: nat)
    ensures Ten(k) == TenTo(m) as real * Ten(k - m)
    decreases m
  {
    hide Ten;
    if m > 0 {
      TenShift(k, m - 1);
      TenStep(k - m);
      Tenfold(TenTo(m - 1), Ten(k - m));
    }
  }

  lemma TenStep(k: int)
    ensures Ten(k + 1) == 10.0 * Ten(k)
  {
    hide Ten;
    Pow10IsTen(k);
    Pow10IsTen(k + 1);
  }

  lemma Tenfold(p: nat, t: real)
    ensures p as real * (10.0 * t) == (10 * p) as real * t
  {
    var x := p as real;
    assert (10 * p) as real == 10.0 * x;
    assert x * (10.0 * t) == (10.0 * x) * t;
  }

  /** The two summands of the conversion are the number as a whole. */
  lemma PartsSum(whole: seq<nat>, f: seq<nat>, e: int)
    requires AllDigits(whole) && AllDigits(f)
    ensures Magnitude(DigitsText(whole), DigitsText(f), e) == NatOf(whole + f) as real * Ten(e - |f|)
  {
    hide DigitsValue, NatOf, Ten, Pow10, TenTo;
    DigitsTextValue(whole);
    DigitsTextValue(f);
    NatOfConcat(whole, f);
    Pow10IsTen(e);
    Pow10IsTen(e - |f|);
    TenShift(e, |f|);
    Sum(NatOf(whole), TenTo(|f|), NatOf(f), Ten(e - |f|));
  }

  lemma Sum(a: nat, p: nat, b: nat, t: real)
    ensures a as real * (p as real * t) + b as real * t == (a * p + b) as real * t
  {
    var x, y := a as real, p as real;
    assert (a * p + b) as real == x * y + b as real;
    assert (x * y) * t == x * (y * t);
  }

  // ---------------------------------------------------------------- reading

  lemma {:induction false} DigitsEndIs(t: bytes, p: nat, e: nat)
    requires p <= e <= |t| && (forall i :: p <= i < e ==> IsDigit(t[i])) && (e < |t| ==> !IsDigit(t[e]))
    ensures DigitsEnd(t, p) == e
    decreases e - p
  {
    if p < e {
      DigitsEndIs(t, p + 1, e);
    }
  }

  lemma ExponentReads(t: bytes, p: nat, e: Exponents)
    requires e.Present? ==> e.digits != [] && AllDigits(e.digits)
    requires p <= |t| && t[p..] == ExpText(e)
    ensures Exponent(t, p) == (ExponentOf(e), |t|)
  {
    hide DigitsValue, NatOf, DigitsEnd;
    if e.Present? {
      var first := p + 1 + |SignText(e.sign)|;
      ExponentPlaces(t, p, e);
      DigitsEndIs(t, first, |t|);
      DigitsTextValue(e.digits);
      assert t[first..|t|] == DigitsText(e.digits);
    }
  }

  /** The letter, the sign and the digits of an exponent. */
  lemma ExponentPlaces(t: bytes, p: nat, e: Exponents)
    requires e.Present? && e.digits != [] && AllDigits(e.digits) && p <= |t| && t[p..] == ExpText(e)
    ensures p < |t| && t[p] in [69, 101] && SignEnd(t, p + 1) == p + 1 + |SignText(e.sign)| < |t|
    ensures t[p + 1 + |SignText(e.sign)|..] == DigitsText(e.digits)
    ensures forall i :: p + 1 + |SignText(e.sign)| <= i < |t| ==> IsDigit(t[i])
    ensures t[p + 1] == 45 <==> e.sign.Minus?
  {
    var sign := SignText(e.sign);
    var x := ExpText(e);
    var first := p + 1 + |sign|;
    assert forall i :: 0 <= i < |x| ==> t[p + i] == x[i];
    assert t[first..] == DigitsText(e.digits);
    assert t[p] == x[0] && t[p + 1] == x[1];
    forall i | first <= i < |t| ensures IsDigit(t[i]) {
      assert t[i] == t[first..][i - first];
    }
  }

  /** A number in the middle of its four parts. */
  ghost predicate Parts(t: bytes, n: NumberText, a: nat, b: nat, c: nat)
    requires LenientNumber(n)
  {
    && a <= b <= c <= |t| && a == (if n.negative then 1 else 0) && b == a + |n.whole| && c == b + |FracText(n.frac)|
    && (n.negative ==> t[0] == 45)
    && t[a..b] == DigitsText(n.whole) && t[b..c] == FracText(n.frac) && t[c..] == ExpText(n.exp)
  }

  lemma NumParts(n: NumberText) returns (a: nat, b: nat, c: nat)
    requires LenientNumber(n)
    ensures Parts(NumText(n), n, a, b, c)
  {
    var t := NumText(n);
    a := if n.negative then 1 else 0;
    b := a + |n.whole|;
    c := b + |FracText(n.frac)|;
    Reassociate(SignText(if n.negative then Minus else Unsigned), DigitsText(n.whole), FracText(n.frac), ExpText(n.exp));
  }

  lemma PartsText(t: bytes, n: NumberText, a: nat, b: nat, c: nat)
    requires LenientNumber(n) && Parts(t, n, a, b, c)
    ensures t == NumText(n)
  {
    assert t == t[..a] + t[a..b] + t[b..c] + t[c..];
    assert t[..a] == SignText(if n.negative then Minus else Unsigned);
  }

  /** What the conversion sees of the four parts. */
  lemma PartEnds(t: bytes, n: NumberText, a: nat, b: nat, c: nat)
    requires LenientNumber(n) && Parts(t, n, a, b, c)
    ensures t != [] && SignEnd(t, 0) == a && DigitsEnd(t, a) == b
    ensures t[0] == 45 <==> n.negative
    ensures b < |t| && t[b] == 46 <==> n.frac.Some?
    ensures n.frac.Some? ==> b < c && DigitsEnd(t, b + 1) == c && t[b + 1..c] == DigitsText(n.frac.value)
    ensures n.frac == None ==> b == c
  {
    hide DigitsEnd;
    var d, f, x := DigitsText(n.whole), FracText(n.frac), ExpText(n.exp);
    assert forall i :: a <= i < b ==> t[i] == d[i - a];
    assert forall i :: b <= i < c ==> t[i] == f[i - b];
    assert forall i :: c <= i < |t| ==> t[i] == x[i - c];
    assert b < |t| ==> !IsDigit(t[b]);
    DigitsEndIs(t, a, b);
    if n.frac.Some? {
      DigitsEndIs(t, b + 1, c);
      assert t[b + 1..c] == f[1..] == DigitsText(n.frac.value);
    }
  }

  /** The conversion, put together from its parts. */
  lemma StrtodOf(t: bytes, a: nat, b: nat, c: nat, f: bytes, k: int, e: nat)
    requires a <= b <= c <= |t| && SignEnd(t, 0) == a && DigitsEnd(t, a) == b && Exponent(t, c) == (k, e)
    requires if b < |t| && t[b] == 46 then c == DigitsEnd(t, b + 1) && f == t[b + 1..c] else c == b && f == []
    requires (forall i :: 0 <= i < |f| ==> IsDigit(f[i])) && (b > a || f != [])
    ensures forall i :: 0 <= i < |t[a..b]| ==> IsDigit(t[a..b][i])
    ensures 0 < e <= |t|
    ensures Strtod(t) == Some((Signed(t, 0, Magnitude(t[a..b], f, k)), e))
  {
    hide SignEnd, DigitsEnd, Exponent, Magnitude;
    var fd := if c > b then t[b + 1..c] else [];
    assert fd == f;
  }

  lemma MeaningOfParts(n: NumberText)
    requires LenientNumber(n)
    ensures var m := Magnitude(DigitsText(n.whole), DigitsText(Fraction(n)), ExponentOf(n.exp));
      NumMeaning(n) == if n.negative then -m else m
  {
    hide Magnitude, NatOf, Ten, ExponentOf;
    PartsSum(n.whole, Fraction(n), ExponentOf(n.exp));
  }

  /** A number is converted, all of it, to what it stands for. */
  lemma StrtodReads(n: NumberText)
    requires LenientNumber(n)
    ensures Strtod(NumText(n)) == Some((NumMeaning(n), |NumText(n)|))
  {
    hide Strtod, DigitsEnd, NumText, Exponent, SignEnd, Magnitude, NumMeaning;
    var t := NumText(n);
    var a, b, c := NumParts(n);
    PartEnds(t, n, a, b, c);
    ExponentReads(t, c, n.exp);
    MeaningOfParts(n);
    var f := DigitsText(Fraction(n));
    assert n.frac == None ==> f == [];
    StrtodOf(t, a, b, c, f, ExponentOf(n.exp), |t|);
    assert t[a..b] == DigitsText(n.whole);
  }

  function DigitsIn(t: bytes): (ds: seq<nat>)
    requires forall i :: 0 <= i < |t| ==> IsDigit(t[i])
    ensures AllDigits(ds) && DigitsText(ds) == t
  {
    seq(|t|, i requires 0 <= i < |t| && IsDigit(t[i]) => t[i] as int - 48)
  }

  /** Whatever the conversion takes, it takes as a number of these forms, for what that stands for. */
  lemma ReadsNumber(t: bytes) returns (n: NumberText)
    requires Strtod(t).Some? && t != [] && (t[0] == 45 || IsDigit(t[0]))
    ensures LenientNumber(n) && NumText(n) == t[..Strtod(t).value.1] && NumMeaning(n) == Strtod(t).value.0
  {
    hide Strtod, DigitsEnd, NumText, Exponent, Magnitude, NumMeaning;
    var a := SignEnd(t, 0);
    var b := DigitsEnd(t, a);
    var c := if b < |t| && t[b] == 46 then DigitsEnd(t, b + 1) else b;
    var (k, e) := Exponent(t, c);
    var exp := ReadsExponent(t, c);
    var f := if c > b then t[b + 1..c] else [];
    SomeDigits(t, a, b, c, f);
    StrtodOf(t, a, b, c, f, k, e);
    n := NumberText(t[0] == 45, DigitsIn(t[a..b]), if c > b then Some(DigitsIn(f)) else None, exp);
    assert DigitsText([]) == [];
    MeaningOfParts(n);
    PrefixParts(t, n, a, b, c, e);
  }

  /** A conversion that does not fail has seen a digit, and not behind a plus sign. */
  lemma SomeDigits(t: bytes, a: nat, b: nat, c: nat, f: bytes)
    requires Strtod(t).Some? && t != [] && (t[0] == 45 || IsDigit(t[0]))
    requires a == SignEnd(t, 0) && a <= b == DigitsEnd(t, a)
    requires c == if b < |t| && t[b] == 46 then DigitsEnd(t, b + 1) else b
    requires b <= c <= |t| && f == if c > b then t[b + 1..c] else []
    ensures b > a || f != []
    ensures a == (if t[0] == 45 then 1 else 0) && (b == a ==> t[0] == 45)
    ensures forall i :: 0 <= i < |f| ==> IsDigit(f[i])
  {
    hide Exponent, DigitsValue, Pow10;
  }

  lemma PrefixParts(t: bytes, n: NumberText, a: nat, b: nat, c: nat, e: nat)
    requires LenientNumber(n) && a <= b <= c <= e <= |t| && a == (if n.negative then 1 else 0) && (n.negative ==> t[0] == 45)
    requires t[a..b] == DigitsText(n.whole) && t[c..e] == ExpText(n.exp)
    requires if n.frac.Some? then b < c && t[b] == 46 && t[b + 1..c] == DigitsText(n.frac.value) else b == c
    ensures NumText(n) == t[..e]
  {
    hide NumText;
    var u := t[..e];
    assert u[a..b] == t[a..b] && u[c..] == t[c..e];
    assert u[b..c] == t[b..c];
    if n.frac.Some? {
      assert t[b..c] == [t[b]] + t[b + 1..c];
    }
    PartsText(u, n, a, b, c);
  }

  lemma ReadsExponent(t: bytes, p: nat) returns (x: Exponents)
    requires p <= |t|
    ensures x.Present? ==> x.digits != [] && AllDigits(x.digits)
    ensures var (k, e) := Exponent(t, p); ExponentOf(x) == k && t[p..e] == ExpText(x)
  {
    x := Absent;
    var (k, e) := Exponent(t, p);
    if e > p {
      var first := SignEnd(t, p + 1);
      var ds := DigitsIn(t[first..e]);
      x := Present(t[p] == 69, if first == p + 1 then Unsigned else if t[p + 1] == 43 then Plus else Minus, ds);
      DigitsTextValue(ds);
      assert t[p..e] == [t[p]] + t[p + 1..first] + t[first..e];
      assert t[p + 1..first] == SignText(x.sign);
    }
  }

  // ---------------------------------------------------------------- in a buffer

  lemma NumTextBytes(n: NumberText)
    requires LenientNumber(n)
    ensures NumText(n) != [] && (NumText(n)[0] == 45 || IsDigit(NumText(n)[0]))
    ensures forall i :: 0 <= i < |NumText(n)| ==> IsNumberByte(NumText(n)[i])
  {
    hide NumText;
    var t := NumText(n);
    var a, b, c := NumParts(n);
    var d, f, x := DigitsText(n.whole), FracText(n.frac), ExpText(n.exp);
    assert t != [] && (t[0] == 45 <==> n.negative) by { PartEnds(t, n, a, b, c); }
    forall i | 0 <= i < |t| ensures IsNumberByte(t[i]) {
      assert a <= i < b ==> t[i] == t[a..b][i - a];
      assert b <= i < c ==> t[i] == t[b..c][i - b];
      assert c <= i ==> t[i] == t[c..][i - c];
    }
    assert !n.negative ==> t[0] == t[a..b][0];
  }

  lemma {:induction false} RunTo(s: bytes, off: nat, e: nat, room: nat)
    requires off <= e <= |s| && forall i :: off <= i < e ==> IsNumberByte(s[i])
    ensures e - off <= room && (e < |s| ==> !IsNumberByte(s[e])) ==> RunEnd(s, off, room) == e
    ensures e - off > room ==> RunEnd(s, off, room) == off + room
    decreases room
  {
    if off < e && room > 0 {
      RunTo(s, off + 1, e, room - 1);
    }
  }

  /** A number that no number byte follows is read as what it stands for, and to its end, exactly if it
      fits the 63 bytes of the copy. */
  lemma NumberReads(s: bytes, off: nat, n: NumberText)
    requires LenientNumber(n) && At(s, off, NumText(n))
    requires off + |NumText(n)| < |s| ==> !IsNumberByte(s[off + |NumText(n)|])
    ensures NumberAt(s, off) == Some((NumMeaning(n), off + |NumText(n)|)) <==> |NumText(n)| <= 63
    ensures |NumText(n)| > 63 && NumberAt(s, off).Some? ==>
      NumberAt(s, off).value.1 < |s| && IsNumberByte(s[NumberAt(s, off).value.1])
  {
    hide NumText, Strtod, NumMeaning;
    var t := NumText(n);
    var e := off + |t|;
    NumTextBytes(n);
    forall i | off <= i < e ensures IsNumberByte(s[i]) {
      AtIndex(s, off, t, i - off);
    }
    RunTo(s, off, e, RUN_LIMIT);
    if |t| <= RUN_LIMIT {
      StrtodReads(n);
    }
  }

  /** What is read as a number is one of at most 63 bytes, for what it stands for. */
  lemma ReadsNumberAt(s: bytes, off: nat) returns (n: NumberText)
    requires off < |s| && (s[off] == 45 || IsDigit(s[off])) && NumberAt(s, off).Some?
    ensures LenientNumber(n) && At(s, off, NumText(n)) && |NumText(n)| <= 63
    ensures NumberAt(s, off) == Some((NumMeaning(n), off + |NumText(n)|))
  {
    hide NumText, Strtod, NumMeaning;
    var r := RunEnd(s, off, RUN_LIMIT);
    var t := s[off..r];
    assert r > off;
    n := ReadsNumber(t);
    var k := Strtod(t).value.1;
    assert t[..k] == s[off..off + k];
  }

  // ---------------------------------------------------------------- printed integers

  /** The integers of section 6 of RFC 8259, with a minus sign exactly for those below 0. */
  predicate IntForm(t: bytes, n: int) {
    var first := if n < 0 then 1 else 0;
    && first < |t| && (n < 0 ==> t[0] == 45)
    && (forall i :: first <= i < |t| ==> 48 <= t[i] <= 57)
    && (t[first] == 48 ==> |t| == first + 1)
  }

  lemma {:induction false} DigitsNoZero(n: nat)
    ensures Digits(n)[0] == 48 ==> n == 0 && |Digits(n)| == 1
  {
    if n >= 10 {
      DigitsNoZero(n / 10);
    }
  }

  lemma {:induction false} DigitsUnique(ds: seq<nat>)
    requires AllDigits(ds) && ds != [] && (ds[0] == 0 ==> |ds| == 1)
    ensures DigitsText(ds) == Digits(NatOf(ds))
    ensures ds[0] != 0 ==> NatOf(ds) > 0
    decreases |ds|
  {
    var front, last := ds[..|ds| - 1], ds[|ds| - 1];
    if front == [] {
      assert NatOf(ds) == last;
    } else {
      DigitsUnique(front);
      assert DigitsText(ds) == DigitsText(front) + [48 + last];
    }
  }

  /** A printed int has that form, and no other text of that form is converted to the same int. */
  lemma DecimalForm(n: int, t: bytes)
    ensures t == Decimal(n) <==> IntForm(t, n) && Strtod(t) == Some((n as real, |t|))
  {
    hide Strtod, Digits, DigitsValue;
    StrtodDecimal(n);
    DigitsNoZero(if n < 0 then -n else n);
    if IntForm(t, n) && Strtod(t) == Some((n as real, |t|)) {
      DecimalOnly(n, t);
    }
  }

  lemma PlainNumber(negative: bool, ds: seq<nat>)
    ensures NumMeaning(NumberText(negative, ds, None, Absent)) == (if negative then -(NatOf(ds) as int) else NatOf(ds)) as real
  {
    hide NatOf;
    assert ds + [] == ds;
    Pow10IsTen(0);
    assert Pow10(0) == 1.0;
  }

  lemma PlainText(negative: bool, ds: seq<nat>)
    requires AllDigits(ds) && ds != []
    ensures NumText(NumberText(negative, ds, None, Absent)) == SignText(if negative then Minus else Unsigned) + DigitsText(ds)
  {
  }

  lemma DecimalOnly(n: int, t: bytes)
    requires IntForm(t, n) && Strtod(t) == Some((n as real, |t|))
    ensures t == Decimal(n)
  {
    hide Strtod, Digits, NatOf, NumText, NumMeaning;
    var first := if n < 0 then 1 else 0;
    var ds := DigitsIn(t[first..]);
    assert t == t[..first] + t[first..];
    assert t[..first] == SignText(if n < 0 then Minus else Unsigned);
    PlainText(n < 0, ds);
    PlainNumber(n < 0, ds);
    StrtodReads(NumberText(n < 0, ds, None, Absent));
    assert DigitsText(ds)[0] == 48 + ds[0];
    DigitsUnique(ds);
  }
}
