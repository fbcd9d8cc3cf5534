/** The numerals and the string literals that the parser reads, what they mean, and that it reads no others
    (sections 6 and 7 of RFC 8259, and what cJSON.c takes beyond them). */
module JsonTokens {
  import opened Bytes
  import opened JsonValue
  import opened JsonParser
  import opened JsonStrings

  // ---- numerals ----

  type Digit = d: nat | d < 10

  /** `minus` is nothing for an exponent without a sign. */
  datatype Exponent = Exponent(upper: bool, minus: Option<bool>, digits: seq<Digit>)

  datatype Numeral =
    Numeral(minus: bool, whole: seq<Digit>, point: bool, frac: seq<Digit>, exponent: Option<Exponent>)

  /** Digits before or behind the point; those before it may be missing only behind a minus. */
  predicate IsNumeral(n: Numeral) {
    && (n.point || n.frac == []) && n.whole + n.frac != [] && (n.minus || n.whole != [])
    && (n.exponent.Some? ==> n.exponent.value.digits != [])
  }

  function DigitText(ds: seq<Digit>): (t: Text)
    ensures |t| == |ds|
  {
    seq(|ds|, i requires 0 <= i < |ds| => '0' as int + ds[i])
  }

  function ExponentHead(e: Exponent): (t: Text)
    ensures 1 <= |t| <= 2
  {
    [if e.upper then 'E' as int else 'e' as int]
    + match e.minus
      case None => []
      case Some(minus) => [if minus then '-' as int else '+' as int]
  }

  function ExponentText(e: Option<Exponent>): Text
  {
    match e
    case None => []
    case Some(e) => ExponentHead(e) + DigitText(e.digits)
  }

  function SignText(minus: bool): (t: Text)
    ensures |t| == if minus then 1 else 0
  {
    if minus then ['-' as int] else []
  }

  function FractionText(point: bool, frac: seq<Digit>): (t: Text)
    ensures |t| == if point then 1 + |frac| else 0
  {
    if point then ['.' as int] + DigitText(frac) else []
  }

  function NumeralText(n: Numeral): Text
  {
    SignText(n.minus) + (DigitText(n.whole) + (FractionText(n.point, n.frac) + ExponentText(n.exponent)))
  }

  function Ten(n: nat): (r: nat)
    ensures r > 0
  {
    if n == 0 then 1 else 10 * Ten(n - 1)
  }

  /** Each digit times the power of ten of its place. */
  function Places(ds: seq<nat>): nat {
    if ds == [] then 0 else ds[0] * Ten(|ds| - 1) + Places(ds[1..])
  }

  /** The number before the exponent. */
  function Mantissa(n: Numeral): real {
    Places(n.whole + n.frac) as real / Ten(|n.frac|) as real
  }

  /** The number that a numeral stands for. */
  function NumberOf(n: Numeral): real {
    var m := Mantissa(n);
    var x := match n.exponent
             case None => m
             case Some(e) =>
               if e.minus == Some(true) then m / Ten(Places(e.digits)) as real else m * Ten(Places(e.digits)) as real;
    if n.minus then -x else x
  }

  // ---- the decimal scanner on them ----

  lemma {:induction false} PlacesAppend(a: seq<nat>, b: seq<nat>)
    ensures Places(a + b) == Places(a) * Ten(|b|) + Places(b)
    decreases |a|
  {
    if a == [] {
      assert a + b == b;
    } else {
      assert (a + b)[1..] == a[1..] + b;
      PlacesAppend(a[1..], b);
      TenTimes(|a| - 1, |b|);
      Distribute(a[0], Ten(|a| - 1), Places(a[1..]), Ten(|b|));
    }
  }

  lemma Distribute(d: nat, t: nat, p: nat, q: nat)
    ensures (d * t + p) * q == d * (t * q) + p * q
  {
  }

  lemma {:induction false} TenTimes(a: nat, b: nat)
    ensures Ten(a + b) == Ten(a) * Ten(b)
    decreases a
  {
    if a > 0 {
      TenTimes(a - 1, b);
      assert Ten(a + b) == 10 * Ten(a - 1 + b);
    }
  }

  lemma {:induction false} TenIsPow(n: nat)
    ensures Pow10(n) == Ten(n) as real
  {
    if n > 0 { TenIsPow(n - 1); }
  }

  lemma {:induction false} DigitsAreValue(ds: seq<Digit>)
    ensures DigitsValue(DigitText(ds)) == Places(ds)
  {
    if ds != [] {
      var n := |ds| - 1;
      var front, last := ds[..n], ds[n..];
      assert ds == front + last;
      assert DigitText(ds)[..n] == DigitText(front);
      DigitsAreValue(front);
      PlacesAppend(front, last);
      assert last == [ds[n]] && Ten(1) == 10 && Ten(0) == 1;
      assert Places(last) == ds[n] * Ten(0) + Places([]) by { assert last[1..] == []; }
    }
  }

  lemma {:induction false} DigitsEndIs(t: Text, i: nat, e: nat)
    requires i <= e <= |t| && forall k :: i <= k < e ==> IsDigit(t[k])
    requires e < |t| ==> !IsDigit(t[e])
    ensures DigitsEnd(t, i) == e
    decreases e - i
  {
    if i < e { DigitsEndIs(t, i + 1, e); }
  }

  /** A run of digits in a text, and no digit behind it. */
  lemma DigitRun(t: Text, i: nat, ds: seq<Digit>)
    requires At(t, i, DigitText(ds)) && (i + |ds| < |t| ==> !IsDigit(t[i + |ds|]))
    ensures DigitsEnd(t, i) == i + |ds| && DigitsValue(t[i..i + |ds|]) == Places(ds)
  {
    hide DigitText, DigitsEnd, DigitsValue, Places, IsDigit, At;
    DigitsInside(t, i, ds);
    DigitsEndIs(t, i, i + |ds|);
    DigitsAreValue(ds);
  }

  lemma DigitsInside(t: Text, i: nat, ds: seq<Digit>)
    requires At(t, i, DigitText(ds))
    ensures i + |ds| <= |t| && t[i..i + |ds|] == DigitText(ds)
    ensures forall k :: i <= k < i + |ds| ==> IsDigit(t[k])
  {
    forall k | i <= k < i + |ds| ensures IsDigit(t[k]) { AtByte(t, i, DigitText(ds), k - i); }
  }

  lemma HeadIsRead(t: Text, b: nat, e: Exponent)
    requires At(t, b, ExponentHead(e)) && b + |ExponentHead(e)| < |t|
    requires IsDigit(t[b + |ExponentHead(e)|])
    ensures t[b] == 101 || t[b] == 69
    ensures |ExponentHead(e)| == (if t[b + 1] == 43 || t[b + 1] == 45 then 2 else 1)
    ensures e.minus == (if |ExponentHead(e)| == 1 then None else Some(t[b + 1] == 45))
  {
    AtByte(t, b, ExponentHead(e), 0);
    if e.minus.Some? { AtByte(t, b, ExponentHead(e), 1); }
  }

  lemma ExponentIsRead(t: Text, b: nat, e: Exponent)
    requires e.digits != [] && At(t, b, ExponentText(Some(e))) && b + |ExponentText(Some(e))| == |t|
    ensures ExponentEnd(t, b) == |t| && b < |t| && !IsDigit(t[b]) && t[b] != 46
    ensures ExponentValue(t, b, |t|)
         == if e.minus == Some(true) then -(Places(e.digits) as int) else Places(e.digits)
  {
    hide DigitsEnd, DigitsValue, Places, ExponentHead, DigitText, At, ExponentText, ExponentEnd, ExponentValue;
    var i := b + |ExponentHead(e)|;
    ExponentIs(e);
    AtSplit(t, b, ExponentHead(e), DigitText(e.digits));
    FirstDigit(t, i, e.digits);
    HeadIsRead(t, b, e);
    DigitRun(t, i, e.digits);
    ExponentSeen(t, b, i);
  }

  lemma ExponentIs(e: Exponent)
    ensures ExponentText(Some(e)) == ExponentHead(e) + DigitText(e.digits)
  {
    hide ExponentHead, DigitText;
  }

  lemma FirstDigit(t: Text, i: nat, ds: seq<Digit>)
    requires ds != [] && At(t, i, DigitText(ds))
    ensures i < |t| && IsDigit(t[i])
  {
    AtByte(t, i, DigitText(ds), 0);
  }

  /** An exponent whose digits start at `i` and go on to the end. */
  lemma ExponentSeen(t: Text, b: nat, i: nat)
    requires b < i < |t| && (t[b] == 101 || t[b] == 69) && DigitsEnd(t, i) == |t|
    requires i == if t[b + 1] == 43 || t[b + 1] == 45 then b + 2 else b + 1
    ensures ExponentEnd(t, b) == |t|
    ensures ExponentValue(t, b, |t|)
         == if t[b + 1] == 45 then -DigitsValue(t[i..|t|]) else DigitsValue(t[i..|t|])
  {
    hide DigitsEnd, DigitsValue;
  }

  /** `s`, `a` and `b` are where the numeral's digits start, those before the point end and those after it end. */
  predicate Places3(n: Numeral, s: nat, a: nat, b: nat)
    requires IsNumeral(n)
  {
    s == |SignText(n.minus)| && a == s + |n.whole| && b == a + |FractionText(n.point, n.frac)|
  }

  lemma NumeralParts(n: Numeral, t: Text, s: nat, a: nat, b: nat)
    requires IsNumeral(n) && t == NumeralText(n) && Places3(n, s, a, b)
    ensures b + |ExponentText(n.exponent)| == |t| && At(t, s, DigitText(n.whole))
    ensures At(t, a, FractionText(n.point, n.frac)) && At(t, b, ExponentText(n.exponent))
  {
    var sign, whole := SignText(n.minus), DigitText(n.whole);
    var fraction, exponent := FractionText(n.point, n.frac), ExponentText(n.exponent);
    hide At, SignText, DigitText, FractionText, ExponentText, IsNumeral;
    Whole(t);
    AtSplit(t, 0, sign, whole + (fraction + exponent));
    AtSplit(t, s, whole, fraction + exponent);
    AtSplit(t, a, fraction, exponent);
  }

  lemma NumeralStarts(n: Numeral)
    requires IsNumeral(n)
    ensures var t := NumeralText(n);
            t != [] && (t[0] == 45 <==> n.minus) && (!n.minus ==> IsDigit(t[0]))
  {
    hide ExponentText, FractionText;
  }

  lemma Whole(t: Text)
    ensures At(t, 0, t)
  {
  }

  lemma FractionIsRead(t: Text, a: nat, b: nat, n: Numeral)
    requires IsNumeral(n) && At(t, a, FractionText(n.point, n.frac)) && b == a + |FractionText(n.point, n.frac)|
    requires b < |t| ==> !IsDigit(t[b]) && t[b] != 46
    ensures a < |t| ==> !IsDigit(t[a])
    ensures a < |t| && t[a] == 46 <==> n.point
    ensures n.point ==> b > a && DigitsEnd(t, a + 1) == b && DigitsValue(t[a + 1..b]) == Places(n.frac)
  {
    hide At, DigitText, FractionText, DigitsEnd, DigitsValue, Places;
    FractionIs(n.point, n.frac);
    if n.point {
      AtSplit(t, a, ['.' as int], DigitText(n.frac));
      AtByte(t, a, ['.' as int], 0);
      DigitRun(t, a + 1, n.frac);
    }
  }

  lemma FractionIs(point: bool, frac: seq<Digit>)
    ensures FractionText(point, frac) == if point then ['.' as int] + DigitText(frac) else []
  {
    hide DigitText;
  }

  lemma OverPoint(w: nat, f: nat, p: nat)
    requires p > 0
    ensures w as real + f as real / p as real == (w * p + f) as real / p as real
  {
    var q := p as real;
    assert (w * p + f) as real == w as real * q + f as real;
    assert (w as real * q + f as real) / q == w as real + f as real / q;
  }

  /** The mantissa is scaled as the places say. */
  lemma MantissaIs(n: Numeral)
    requires IsNumeral(n)
    ensures n.point ==>
              Mantissa(n) == Places(n.whole) as real + Scale(Places(n.frac) as real, -(|n.frac| as int))
    ensures !n.point ==> Mantissa(n) == Places(n.whole) as real
  {
    var k := |n.frac|;
    PlacesAppend(n.whole, n.frac);
    OverPoint(Places(n.whole), Places(n.frac), Ten(k));
    TenIsPow(k);
    assert Pow10(0) == 1.0;
    assert !n.point ==> n.whole + n.frac == n.whole && Ten(0) == 1;
    hide Places;
  }

  lemma ScaleIs(m: real, minus: bool, k: nat)
    ensures Scale(m, if minus then -(k as int) else k) == if minus then m / Ten(k) as real else m * Ten(k) as real
  {
    TenIsPow(k);
  }

  function Start(t: Text): (s: nat)
    ensures s <= |t|
  {
    if |t| > 0 && (t[0] == 43 || t[0] == 45) then 1 else 0
  }

  function WholeEnd(t: Text): (a: nat)
    ensures Start(t) <= a <= |t|
  {
    DigitsEnd(t, Start(t))
  }

  function FractionEnd(t: Text): (b: nat)
    ensures WholeEnd(t) <= b <= |t|
  {
    var a := WholeEnd(t);
    if a < |t| && t[a] == 46 then DigitsEnd(t, a + 1) else a
  }

  function MantissaSeen(t: Text): real {
    var s, a, b := Start(t), WholeEnd(t), FractionEnd(t);
    var w := DigitsValue(t[s..a]) as real;
    if b > a then w + Scale(DigitsValue(t[a + 1..b]) as real, a + 1 - b) else w
  }

  lemma StrtodParts(t: Text)
    ensures var s, a, b := Start(t), WholeEnd(t), FractionEnd(t);
            var e := ExponentEnd(t, b);
            var x := Scale(MantissaSeen(t), ExponentValue(t, b, e));
            Strtod(t) == if a > s || b > a + 1 then Ok(if t[0] == 45 then -x else x, e) else Fail
  {
    hide DigitsEnd, DigitsValue, Scale, ExponentEnd, ExponentValue;
  }

  /** The digits before the point, and those after it. */
  lemma MantissaEnds(n: Numeral, t: Text, s: nat, a: nat, b: nat)
    requires IsNumeral(n) && t == NumeralText(n) && Places3(n, s, a, b)
    ensures b <= |t| && DigitsEnd(t, s) == a && DigitsValue(t[s..a]) == Places(n.whole)
    ensures a < |t| && t[a] == 46 <==> n.point
    ensures n.point ==> b > a && DigitsEnd(t, a + 1) == b && DigitsValue(t[a + 1..b]) == Places(n.frac)
  {
    hide NumeralText, ExponentText, DigitText, At, ExponentEnd, ExponentValue, DigitsEnd, DigitsValue, Places,
         ExponentOf, FractionText, IsNumeral;
    NumeralParts(n, t, s, a, b);
    BehindMantissa(n, t, b);
    FractionIsRead(t, a, b, n);
    DigitRun(t, s, n.whole);
  }

  lemma MantissaIsSeen(n: Numeral, t: Text, s: nat, a: nat, b: nat)
    requires IsNumeral(n) && t == NumeralText(n) && Places3(n, s, a, b)
    ensures Start(t) == s && WholeEnd(t) == a && FractionEnd(t) == b && MantissaSeen(t) == Mantissa(n)
  {
    NumeralStarts(n);
    MantissaEnds(n, t, s, a, b);
    MantissaIs(n);
    hide NumeralText, DigitText, DigitsEnd, DigitsValue, Places, Scale, Mantissa;
  }

  /** Every numeral is read as its number. */
  lemma NumeralIsRead(n: Numeral)
    requires IsNumeral(n)
    ensures Strtod(NumeralText(n)) == Ok(NumberOf(n), |NumeralText(n)|)
  {
    hide NumeralText, ExponentText, DigitText, At, ExponentEnd, ExponentValue, Start, WholeEnd, FractionEnd, Mantissa,
         MantissaSeen, ExponentOf, Scale, Strtod, NumberOf, SignText, FractionText, IsDigit;
    var t, s := NumeralText(n), |SignText(n.minus)|;
    var a := s + |n.whole|;
    var b := a + |FractionText(n.point, n.frac)|;
    NumeralParts(n, t, s, a, b);
    NumeralStarts(n);
    MantissaIsSeen(n, t, s, a, b);
    BehindMantissa(n, t, b);
    StrtodParts(t);
    NumberIs(n);
  }

  /** The exponent's scale, or none. */
  lemma BehindMantissa(n: Numeral, t: Text, b: nat)
    requires IsNumeral(n) && At(t, b, ExponentText(n.exponent)) && b + |ExponentText(n.exponent)| == |t|
    ensures b < |t| ==> !IsDigit(t[b]) && t[b] != 46
    ensures ExponentEnd(t, b) == |t|
    ensures ExponentValue(t, b, |t|) == ExponentOf(n)
  {
    if n.exponent.Some? { ExponentIsRead(t, b, n.exponent.value); }
  }

  function ExponentOf(n: Numeral): int {
    match n.exponent
    case None => 0
    case Some(e) => if e.minus == Some(true) then -(Places(e.digits) as int) else Places(e.digits)
  }

  lemma NumberIs(n: Numeral)
    ensures var x := Scale(Mantissa(n), ExponentOf(n));
            NumberOf(n) == if n.minus then -x else x
  {
    match n.exponent
    case None => ScaleIs(Mantissa(n), false, 0);
    case Some(e) => ScaleIs(Mantissa(n), e.minus == Some(true), Places(e.digits));
    hide Places, Scale, Mantissa;
  }

  // ---- nothing else is read as a number ----

  lemma {:induction false} DigitsEndWithin(t: Text, i: nat, e: nat)
    requires i <= |t| && DigitsEnd(t, i) <= e <= |t|
    ensures DigitsEnd(t[..e], i) == DigitsEnd(t, i)
    decreases |t| - i
  {
    if i < |t| && IsDigit(t[i]) { DigitsEndWithin(t, i + 1, e); }
  }

  lemma {:induction false} DigitsUpTo(t: Text, i: nat)
    requires i <= |t|
    ensures forall k :: i <= k < DigitsEnd(t, i) ==> IsDigit(t[k])
    decreases |t| - i
  {
    if i < |t| && IsDigit(t[i]) { DigitsUpTo(t, i + 1); }
  }

  lemma SliceWithin(t: Text, i: nat, j: nat, e: nat)
    requires i <= j <= e <= |t|
    ensures t[..e][i..j] == t[i..j]
  {
  }

  lemma MantissaWithin(t: Text, e: nat)
    requires 0 < e && FractionEnd(t) <= e <= |t|
    ensures Start(t[..e]) == Start(t) && WholeEnd(t[..e]) == WholeEnd(t) && FractionEnd(t[..e]) == FractionEnd(t)
    ensures MantissaSeen(t[..e]) == MantissaSeen(t)
  {
    hide DigitsEnd, DigitsValue, Scale;
    var u, s, a, b := t[..e], Start(t), WholeEnd(t), FractionEnd(t);
    DigitsEndWithin(t, s, e);
    if a < |t| && t[a] == 46 {
      DigitsEndWithin(t, a + 1, e);
      SliceWithin(t, a + 1, b, e);
    }
    SliceWithin(t, s, a, e);
  }

  /** The scanner does not depend on what stands behind the bytes that it used. */
  lemma StrtodWithin(t: Text)
    requires Strtod(t).Ok?
    ensures Strtod(t[..Strtod(t).next]) == Strtod(t)
  {
    hide Strtod, WholeEnd, FractionEnd, MantissaSeen, Scale, ExponentEnd, ExponentValue;
    StrtodParts(t);
    var e := Strtod(t).next;
    StrtodParts(t[..e]);
    MantissaWithin(t, e);
    ExponentWithin(t, FractionEnd(t));
  }

  lemma ExponentWithin(t: Text, b: nat)
    requires b <= |t|
    ensures var e := ExponentEnd(t, b);
            ExponentEnd(t[..e], b) == e && ExponentValue(t[..e], b, e) == ExponentValue(t, b, e)
  {
    var e := ExponentEnd(t, b);
    var u := t[..e];
    if e > b {
      var i := if b + 1 < |t| && (t[b + 1] == 43 || t[b + 1] == 45) then b + 2 else b + 1;
      DigitsEndWithin(t, i, e);
      SliceWithin(t, i, e, e);
    }
  }

  /** The digits that a text shows. */
  function Shown(t: Text): (ds: seq<Digit>)
    requires forall k :: 0 <= k < |t| ==> IsDigit(t[k])
    ensures |ds| == |t| && DigitText(ds) == t
  {
    var ds := seq(|t|, i requires 0 <= i < |t| => DigitOf(t[i]));
    assert forall i :: 0 <= i < |t| ==> ds[i] + 48 == t[i];
    assert DigitText(ds) == t;
    ds
  }

  function DigitOf(b: Byte): Digit { if IsDigit(b) then b - 48 else 0 }

  lemma ExponentShown(t: Text, b: nat) returns (e: Option<Exponent>)
    requires b <= |t| && ExponentEnd(t, b) == |t|
    ensures (e.Some? ==> e.value.digits != []) && ExponentText(e) == t[b..]
  {
    if b == |t| {
      e := None;
    } else {
      var i := if b + 1 < |t| && (t[b + 1] == 43 || t[b + 1] == 45) then b + 2 else b + 1;
      DigitsUpTo(t, i);
      var x := Exponent(t[b] == 69, if i == b + 1 then None else Some(t[b + 1] == 45), Shown(t[i..]));
      assert ExponentHead(x) == t[b..i];
      assert t[b..i] + t[i..] == t[b..];
      e := Some(x);
    }
  }

  lemma MantissaShown(t: Text) returns (whole: seq<Digit>, frac: seq<Digit>)
    ensures DigitText(whole) == t[Start(t)..WholeEnd(t)] && |whole| == WholeEnd(t) - Start(t)
    ensures FractionText(FractionEnd(t) > WholeEnd(t), frac) == t[WholeEnd(t)..FractionEnd(t)]
    ensures |frac| == if FractionEnd(t) > WholeEnd(t) then FractionEnd(t) - WholeEnd(t) - 1 else 0
  {
    var s, a, b := Start(t), WholeEnd(t), FractionEnd(t);
    DigitsUpTo(t, s);
    if b > a { DigitsUpTo(t, a + 1); }
    hide DigitsEnd, FractionText, DigitText;
    whole, frac := Shown(t[s..a]), if b > a then Shown(t[a + 1..b]) else [];
    FractionShown(t, a, b, frac);
  }

  /** What the scanner uses up, when it started at a minus or a digit, is a numeral. */
  lemma NumeralShown(t: Text) returns (n: Numeral)
    requires Strtod(t).Ok? && Strtod(t).next == |t| && (t[0] == 45 || IsDigit(t[0]))
    ensures IsNumeral(n) && NumeralText(n) == t
  {
    var s, a, b := Start(t), WholeEnd(t), FractionEnd(t);
    StrtodParts(t);
    assert IsDigit(t[0]) ==> a >= 1;
    var whole, frac := MantissaShown(t);
    hide WholeEnd, FractionEnd, Strtod, MantissaSeen, ExponentEnd, ExponentText, FractionText, DigitText, Scale,
         ExponentValue;
    var exponent := ExponentShown(t, b);
    n := Numeral(t[0] == 45, whole, b > a, frac, exponent);
    assert |whole| + |frac| > 0 && (b > a || frac == []) && (n.minus || whole != []);
    assert |whole + frac| == |whole| + |frac|;
    assert SignText(n.minus) == t[..s];
    Assembled(n, t, s, a, b);
  }

  lemma FractionShown(t: Text, a: nat, b: nat, frac: seq<Digit>)
    requires a <= b <= |t|
    requires if a < b then t[a] == 46 && DigitText(frac) == t[a + 1..b] else frac == []
    ensures FractionText(b > a, frac) == t[a..b]
  {
    if a < b { assert t[a..b] == [t[a]] + t[a + 1..b]; }
  }

  lemma Assembled(n: Numeral, t: Text, s: nat, a: nat, b: nat)
    requires IsNumeral(n) && s <= a <= b <= |t| && SignText(n.minus) == t[..s] && DigitText(n.whole) == t[s..a]
    requires FractionText(n.point, n.frac) == t[a..b] && ExponentText(n.exponent) == t[b..]
    ensures NumeralText(n) == t
  {
    hide SignText, DigitText, FractionText, ExponentText, IsNumeral;
    assert t == t[..s] + (t[s..a] + (t[a..b] + t[b..]));
  }

  // ---- literals ----

  /** `t` between quotes is a literal of the standard, and `s` is the C string that it stands for. */
  ghost predicate Proper(t: Text, s: Text) {
    exists xs: seq<Item> :: Spelled(t, xs, s)
  }

  ghost predicate Spelled(t: Text, xs: seq<Item>, s: Text) {
    EscapesTo(t, xs) && (forall i :: 0 <= i < |xs| ==> IsItem(xs[i])) && s == CString(Meaning(xs))
  }

  /** A \u that four hexadecimal digits do not follow. */
  predicate WrongEscape(t: Text) {
    |t| >= 6 && t[0] == BACKSLASH && t[1] == 117 && !IsHex4(t, 2)
  }

  /** Four bytes that are no digits count as zero, and with that the C string ends. */
  ghost predicate Broken(t: Text, s: Text) {
    exists k: nat :: k <= |t| && WrongEscape(t[k..]) && Proper(t[..k], s)
  }

  lemma ShortKnown(b: Byte) returns (k: nat)
    requires SimpleEscape(b).Some?
    ensures k < |SHORT_ESCAPES| && b == SHORT_ESCAPES[k].0 as int
  {
    if forall k :: 0 <= k < |SHORT_ESCAPES| ==> b != SHORT_ESCAPES[k].0 as int {
      UnknownEscape(b);
    }
    k :| 0 <= k < |SHORT_ESCAPES| && b == SHORT_ESCAPES[k].0 as int;
  }

  lemma UnitShown(c: Text, p: nat)
    requires p + 6 <= |c| && c[p] == BACKSLASH && c[p + 1] == 117 && IsHex4(c, p + 2)
    ensures UnitAt(c[p..], Hex4(c, p + 2))
  {
    var h := c[p..][2..6];
    assert h[0] == c[p + 2] && h[1] == c[p + 3] && h[2] == c[p + 4] && h[3] == c[p + 5];
    hide HexValue, Spells;
    HexIsRead(h, Hex4(c, p + 2));
  }

  /** What the second pass makes of an escape, and it is no wrong one, stands there as an element. */
  lemma UnicodeShown(c: Text, p: nat, end: nat)
    requires p < end < |c| && c[p] == BACKSLASH && c[p + 1] == 117 && Utf16Literal(c, p, end).Ok? && IsHex4(c, p + 2)
    ensures var cp := Utf16Literal(c, p, end).value;
            IsScalar(cp) && Utf16Literal(c, p, end).next == ItemLength(Unicode(cp)) && ItemAt(c[p..], Unicode(cp))
  {
    hide UnitAt, IsHex4, Hex4;
    var first, cp := Hex4(c, p + 2), Utf16Literal(c, p, end).value;
    UnitShown(c, p);
    if IsHighSurrogate(first) {
      UnitShown(c, p + 6);
      UnitsOf(first, Hex4(c, p + 8), cp);
      assert c[p..][6..] == c[p + 6..];
    }
  }

  lemma UnitsOf(first: nat, second: nat, cp: nat)
    requires IsHighSurrogate(first) && IsLowSurrogate(second)
    requires cp == 0x10000 + 1024 * (first - 0xD800) + (second - 0xDC00)
    ensures 0x10000 <= cp < 0x110000
    ensures first == 0xD800 + (cp - 0x10000) / 1024 && second == 0xDC00 + (cp - 0x10000) % 1024
  {
  }

  /** One turn of the second pass is one element, or a wrong escape. */
  lemma ElementShown(c: Text, p: nat, end: nat) returns (x: Item)
    requires p < end < |c| && ScanEnd(c, p).Ok? && ScanEnd(c, p).value == end && Decode(c, p, end).Some?
    requires !WrongEscape(c[p..end])
    ensures IsItem(x) && ItemAt(c[p..], x)
  {
    if c[p] != BACKSLASH {
      x := Raw(c[p]);
    } else if c[p + 1] == 117 {
      assert Utf16Literal(c, p, end).Ok?;
      hide Decode, ScanEnd, ItemAt, Hex4;
      WrongSeen(c, p, end);
      UnicodeShown(c, p, end);
      x := Unicode(Utf16Literal(c, p, end).value);
    } else {
      var k := ShortKnown(c[p + 1]);
      x := Short(k);
    }
  }

  lemma WrongSeen(c: Text, p: nat, end: nat)
    requires p + 6 <= end < |c|
    ensures WrongEscape(c[p..end]) <==> c[p] == BACKSLASH && c[p + 1] == 117 && !IsHex4(c, p + 2)
  {
    hide HexValue;
  }

  lemma NothingEscapes(r: Option<Text>)
    ensures EscapesTo([], []) && Prefixed(Meaning([]), r) == r
  {
    if r.Some? { assert [] + r.value == r.value; }
  }

  lemma ItemCut(t: Text, n: nat, x: Item)
    requires IsItem(x) && ItemAt(t, x) && ItemLength(x) <= n <= |t|
    ensures ItemAt(t[..n], x)
  {
    hide UnitAt;
    if x.Unicode? {
      if x.cp < 0x10000 {
        UnitCut(t, n, x.cp);
      } else {
        UnitCut(t, n, 0xD800 + (x.cp - 0x10000) / 1024);
        UnitCut(t[6..], n - 6, 0xDC00 + (x.cp - 0x10000) % 1024);
        assert t[..n][6..] == t[6..][..n - 6];
      }
    }
  }

  lemma UnitCut(t: Text, n: nat, unit: nat)
    requires UnitAt(t, unit) && 6 <= n <= |t|
    ensures UnitAt(t[..n], unit)
  {
    assert t[..n][2..6] == t[2..6];
    hide Spells;
  }

  lemma OneMore(c: Text, p: nat, k: nat, x: Item, ys: seq<Item>)
    requires p + ItemLength(x) <= k <= |c| && IsItem(x) && ItemAt(c[p..], x)
    requires EscapesTo(c[p + ItemLength(x)..k], ys) && forall i :: 0 <= i < |ys| ==> IsItem(ys[i])
    ensures EscapesTo(c[p..k], [x] + ys) && forall i :: 0 <= i < |[x] + ys| ==> IsItem(([x] + ys)[i])
    ensures Meaning([x] + ys) == ItemBytes(x) + Meaning(ys)
  {
    hide ItemAt, IsItem, ItemBytes;
    assert c[p..][..k - p] == c[p..k];
    ItemCut(c[p..], k - p, x);
    assert ([x] + ys)[1..] == ys && c[p..k][ItemLength(x)..] == c[p + ItemLength(x)..k];
  }

  lemma SomePrefixed(t: Text, r: Option<Text>)
    ensures Prefixed(t, r).Some? == r.Some?
  {
  }

  /** Elements up to the end of the literal or to the first wrong escape. */
  lemma {:induction false} ElementsShown(c: Text, p: nat, end: nat) returns (k: nat, xs: seq<Item>)
    requires p <= end < |c| && ScanEnd(c, p).Ok? && ScanEnd(c, p).value == end && Decode(c, p, end).Some?
    ensures p <= k <= end && EscapesTo(c[p..k], xs) && (k < end ==> WrongEscape(c[k..end]))
    ensures forall i :: 0 <= i < |xs| ==> IsItem(xs[i])
    ensures Decode(c, p, end) == Prefixed(Meaning(xs), Decode(c, k, end)) && Decode(c, k, end).Some?
    decreases end - p
  {
    hide ScanEnd, Decode, ItemAt, IsItem, EscapesTo, WrongEscape, Prefixed, Meaning;
    if p == end || WrongEscape(c[p..end]) {
      k, xs := p, [];
      NothingEscapes(Decode(c, p, end));
      assert c[p..k] == [];
    } else {
      var x := ElementShown(c, p, end);
      var q := p + ItemLength(x);
      assert At(c, p, c[p..]);
      ItemScan(c, p, c[p..], x);
      ItemDecodes(c, p, c[p..], x, end);
      SomePrefixed(ItemBytes(x), Decode(c, q, end));
      var ys;
      k, ys := ElementsShown(c, q, end);
      xs := [x] + ys;
      OneMore(c, p, k, x, ys);
      PrefixedTwice(ItemBytes(x), Meaning(ys), Decode(c, k, end));
    }
  }

  lemma {:induction false} CStringStops(a: Text, b: Text)
    requires b != [] && b[0] == 0
    ensures CString(a + b) == CString(a)
    decreases |a|
  {
    if a == [] {
      assert a + b == b;
    } else {
      assert (a + b)[1..] == a[1..] + b;
      CStringStops(a[1..], b);
    }
  }

  lemma WrongIsZero(c: Text, p: nat, end: nat)
    requires p <= end < |c| && WrongEscape(c[p..end]) && Decode(c, p, end).Some?
    ensures Decode(c, p, end).value != [] && Decode(c, p, end).value[0] == 0
  {
    WrongSeen(c, p, end);
    hide HexValue;
  }

  lemma StringParts(c: Text, off: nat)
    requires off < |c| && ParseString(c, off).Ok?
    ensures var end := ParseString(c, off).next - 1;
            && off < end < |c| && c[off] == QUOTE && c[end] == QUOTE && ScanEnd(c, off + 1).Ok?
            && ScanEnd(c, off + 1).value == end && Decode(c, off + 1, end).Some?
            && ParseString(c, off).value == CString(Decode(c, off + 1, end).value)
  {
    hide ScanEnd, Decode, CString;
  }

  /** Whatever is read as a string is a literal of the standard, or one up to a wrong escape that ends it. */
  lemma LiteralShown(c: Text, off: nat)
    requires off < |c| && ParseString(c, off).Ok?
    ensures var s, n := ParseString(c, off).value, ParseString(c, off).next;
            && n >= off + 2 && c[off] == QUOTE && c[n - 1] == QUOTE
            && (Proper(c[off + 1..n - 1], s) || Broken(c[off + 1..n - 1], s))
  {
    hide ParseString, ScanEnd, Decode, Meaning, EscapesTo, WrongEscape, CString, Proper, Broken, IsItem, Prefixed;
    StringParts(c, off);
    var end := ParseString(c, off).next - 1;
    var k, xs := ElementsShown(c, off + 1, end);
    assert c[off + 1..end][..k - (off + 1)] == c[off + 1..k] && c[off + 1..end][k - (off + 1)..] == c[k..end];
    if k < end { WrongIsZero(c, k, end); } else { NothingLeft(c, end); }
    PrefixedValue(Meaning(xs), Decode(c, k, end), Decode(c, off + 1, end));
    ShownLiteral(c[off + 1..end], k - (off + 1), xs, Decode(c, off + 1, end).value, Decode(c, k, end).value);
  }

  lemma PrefixedValue(t: Text, r: Option<Text>, whole: Option<Text>)
    requires r.Some? && whole == Prefixed(t, r)
    ensures whole.Some? && whole.value == t + r.value
  {
  }

  lemma NothingLeft(c: Text, end: nat)
    requires end < |c|
    ensures Decode(c, end, end) == Some([])
  {
  }

  lemma ShownLiteral(t: Text, k: nat, xs: seq<Item>, r: Text, rest: Text)
    requires k <= |t| && EscapesTo(t[..k], xs) && forall i :: 0 <= i < |xs| ==> IsItem(xs[i])
    requires r == Meaning(xs) + rest
    requires if k < |t| then WrongEscape(t[k..]) && rest != [] && rest[0] == 0 else rest == []
    ensures Proper(t, CString(r)) || Broken(t, CString(r))
  {
    hide CString, Meaning, EscapesTo, IsItem, WrongEscape;
    assert Spelled(t[..k], xs, CString(Meaning(xs)));
    if k < |t| {
      CStringStops(Meaning(xs), rest);
    } else {
      assert t[..k] == t && r == Meaning(xs);
    }
  }
}
