/** The decimal form of VarDouble and VarFloat (serializer.cpp): from the printed
    absolute value to scale and mantissa, and from sign, scale and mantissa to bytes. */
module VarDecimal {
  import opened Types
  import VarInt
  import BigEndian

  const MAX_SAFE_INT: nat := 9007199254740991
  const MAX_SCALE: nat := 63

  // ---------- Decimal strings ----------

  predicate IsDigit(c: char) { '0' <= c <= '9' }

  predicate AllDigits(s: string) { forall i :: 0 <= i < |s| ==> IsDigit(s[i]) }

  function Digit(c: char): (d: nat)
    requires IsDigit(c)
    ensures d < 10
  {
    c as int - '0' as int
  }

  function NatOf(s: string): nat
    requires AllDigits(s)
  {
    if s == "" then 0 else 10 * NatOf(s[..|s| - 1]) + Digit(s[|s| - 1])
  }

  function Pow10(n: nat): (p: nat)
    ensures p > 0
  {
    if n == 0 then 1 else 10 * Pow10(n - 1)
  }

  function TrimZeros(f: string): (t: string)
    ensures |t| <= |f| && t == f[..|t|]
    ensures t != "" ==> t[|t| - 1] != '0'
    ensures forall i :: |t| <= i < |f| ==> f[i] == '0'
  {
    if f != "" && f[|f| - 1] == '0' then TrimZeros(f[..|f| - 1]) else f
  }

  /** Scale and mantissa of the number printed as whole.fraction, or None when it does not fit. */
  function Form(whole: string, fraction: string): Option<(nat, nat)>
    requires AllDigits(whole) && AllDigits(fraction)
  {
    var t := TrimZeros(fraction);
    var m := NatOf(whole + t);
    if |t| > MAX_SCALE || m > MAX_SAFE_INT then None else Some((|t|, m))
  }

  // ---------- What the form means ----------

  lemma {:induction false} AppendZeros(s: string, zeros: string)
    requires AllDigits(s) && forall i :: 0 <= i < |zeros| ==> zeros[i] == '0'
    ensures AllDigits(s + zeros)
    ensures NatOf(s + zeros) == NatOf(s) * Pow10(|zeros|)
  {
    if zeros == "" {
      assert s + zeros == s;
    } else {
      var z := zeros[..|zeros| - 1];
      AppendZeros(s, z);
      assert (s + zeros)[..|s + zeros| - 1] == s + z;
      assert 10 * (NatOf(s) * Pow10(|z|)) == NatOf(s) * (10 * Pow10(|z|));
    }
  }

  lemma TrimmingIsExact(whole: string, fraction: string)
    requires AllDigits(whole) && AllDigits(fraction)
    ensures
      var t := TrimZeros(fraction);
      && NatOf(whole + t) * Pow10(|fraction| - |t|) == NatOf(whole + fraction)
      && (t != "" ==> NatOf(whole + t) % 10 != 0)
  {
    var t := TrimZeros(fraction);
    var zeros := fraction[|t|..];
    hide NatOf, TrimZeros, Pow10;
    AppendZeros(whole + t, zeros);
    assert whole + t + zeros == whole + fraction;
    if t != "" {
      assert (whole + t)[|whole + t| - 1] == t[|t| - 1];
      LastDigit(whole + t);
    }
  }

  /** mantissa / 10^scale is exactly whole.fraction, in lowest terms: no
      shorter scale denotes the same number. */
  lemma {:induction false} FormIsExact(whole: string, fraction: string)
    requires AllDigits(whole) && AllDigits(fraction)
    ensures Form(whole, fraction).Some? ==>
      var (scale, m) := Form(whole, fraction).value;
      && scale <= |fraction|
      && m * Pow10(|fraction| - scale) == NatOf(whole + fraction)
      && (scale > 0 ==> m % 10 != 0)
  {
    TrimmingIsExact(whole, fraction);
    hide NatOf, TrimZeros, Pow10;
  }

  lemma LastDigit(s: string)
    requires AllDigits(s) && s != ""
    ensures NatOf(s) % 10 == Digit(s[|s| - 1])
  {
  }

  lemma {:induction false} PowSplit(a: nat, b: nat)
    ensures Pow10(a + b) == Pow10(a) * Pow10(b)
  {
    if a > 0 {
      PowSplit(a - 1, b);
      assert Pow10(a) * Pow10(b) == 10 * (Pow10(a - 1) * Pow10(b));
    }
  }

  /** Two reduced forms of one number are the same form. */
  lemma FormIsUnique(s1: nat, m1: nat, s2: nat, m2: nat)
    requires m1 * Pow10(s2) == m2 * Pow10(s1)
    requires s1 > 0 ==> m1 % 10 != 0
    requires s2 > 0 ==> m2 % 10 != 0
    ensures s1 == s2 && m1 == m2
  {
    if s1 > s2 {
      NotShorter(s1, m1, s2, m2);
    } else if s2 > s1 {
      NotShorter(s2, m2, s1, m1);
    } else {
      Cancel(m1, m2, Pow10(s1));
    }
  }

  lemma NotShorter(s1: nat, m1: nat, s2: nat, m2: nat)
    requires s1 > s2 && m1 * Pow10(s2) == m2 * Pow10(s1)
    ensures m1 % 10 == 0
  {
    PowSplit(s1 - s2, s2);
    Assoc(m2, Pow10(s1 - s2), Pow10(s2));
    Cancel(m1, m2 * Pow10(s1 - s2), Pow10(s2));
    Assoc'(m2, Pow10(s1 - s2 - 1));
  }

  lemma Assoc(a: nat, b: nat, c: nat)
    ensures a * (b * c) == (a * b) * c
  {
  }

  lemma Assoc'(a: nat, b: nat)
    ensures a * (10 * b) == 10 * (a * b)
  {
  }

  lemma Cancel(a: nat, b: nat, p: nat)
    requires p > 0 && a * p == b * p
    ensures a == b
  {
    assert a < b ==> (b - a) * p >= p;
    assert b < a ==> (a - b) * p >= p;
  }

  // ---------- Printed numbers ----------

  datatype Exponent = Exponent(mark: char, negative: bool, digits: string)

  /** What the stream prints for a finite absolute value: digits, perhaps a dot
      and more digits, perhaps an exponent. */
  datatype Print = Print(whole: string, fraction: Option<string>, exponent: Option<Exponent>)

  /** With 17 significant digits: no more than that before the dot; below 10^-4 and
      from 10^17 on an exponent, and a single non-zero digit before the dot. */
  predicate Printed(p: Print) {
    && p.whole != "" && AllDigits(p.whole)
    && (p.fraction.Some? ==> AllDigits(p.fraction.value))
    && (p.exponent.None? ==> |p.whole| <= 17)
    && (p.exponent.Some? ==>
          && (p.exponent.value.mark == 'e' || p.exponent.value.mark == 'E')
          && AllDigits(p.exponent.value.digits)
          && NatOf(p.exponent.value.digits) >= (if p.exponent.value.negative then 5 else 17)
          && |p.whole| == 1 && p.whole[0] != '0')
  }

  function Dotted(p: Print): string {
    p.whole + if p.fraction.Some? then "." + p.fraction.value else ""
  }

  function Tail(p: Print): string {
    match p.exponent
    case None => ""
    case Some(e) => [e.mark] + [if e.negative then '-' else '+'] + e.digits
  }

  function Text(p: Print): string { Dotted(p) + Tail(p) }

  function FractionOf(p: Print): string { if p.fraction.Some? then p.fraction.value else "" }

  /** Ten to the printed exponent, when it is positive (negative). */
  function Power(p: Print, negative: bool): (n: nat)
    requires Printed(p)
    ensures n > 0
  {
    if p.exponent.Some? && p.exponent.value.negative == negative then Pow10(NatOf(p.exponent.value.digits)) else 1
  }

  lemma AllDigitsConcat(a: string, b: string)
    requires AllDigits(a) && AllDigits(b)
    ensures AllDigits(a + b)
  {
  }

  /** The printed number is Numerator / Denominator. */
  function Numerator(p: Print): nat
    requires Printed(p)
  {
    AllDigitsConcat(p.whole, FractionOf(p));
    NatOf(p.whole + FractionOf(p)) * Power(p, false)
  }

  function Denominator(p: Print): (n: nat)
    requires Printed(p)
    ensures n > 0
  {
    PositiveProduct(Pow10(|FractionOf(p)|), Power(p, true));
    Pow10(|FractionOf(p)|) * Power(p, true)
  }

  lemma PositiveProduct(a: nat, b: nat)
    requires a > 0 && b > 0
    ensures a * b > 0
  {
  }

  /** The cast to uint64_t is the integer part when that fits; otherwise it is
      undefined, and may be anything. */
  predicate Cast(p: Print, truncated: u64)
    requires Printed(p)
  {
    Numerator(p) / Denominator(p) < TWO_64 ==> truncated == Numerator(p) / Denominator(p)
  }

  /** Scale and mantissa the writer takes, or None for its raw fallback. */
  function WrittenForm(p: Print, truncated: u64): Option<(nat, nat)>
    requires Printed(p)
  {
    if p.fraction.None? then (if truncated > MAX_SAFE_INT then None else Some((0, truncated)))
    else if p.exponent.Some? then None
    else Form(p.whole, p.fraction.value)
  }

  /** The form denotes the printed number: mantissa / 10^scale is Numerator / Denominator. */
  predicate Denotes(p: Print, form: (nat, nat))
    requires Printed(p)
  {
    form.1 * Denominator(p) == Numerator(p) * Pow10(form.0)
  }

  /** A dot, no exponent, or a positive exponent and a value the cast can hold. */
  predicate Safe(p: Print)
    requires Printed(p)
  {
    p.fraction.Some? || p.exponent.None? || (!p.exponent.value.negative && Numerator(p) < TWO_64)
  }

  lemma PlainDenotes(p: Print)
    requires Printed(p) && p.fraction.Some? && p.exponent.None? && Form(p.whole, p.fraction.value).Some?
    ensures Denotes(p, Form(p.whole, p.fraction.value).value)
  {
    hide NatOf, TrimZeros, Pow10, Form;
    var f := p.fraction.value;
    FormIsExact(p.whole, f);
    var (scale, m) := Form(p.whole, f).value;
    PowSplit(|f| - scale, scale);
    Assoc(m, Pow10(|f| - scale), Pow10(scale));
  }

  lemma WholeDenotes(p: Print)
    requires Printed(p) && p.fraction.None? && (p.exponent.Some? ==> !p.exponent.value.negative)
    ensures Denominator(p) == 1 && Numerator(p) / Denominator(p) == Numerator(p)
    ensures p.exponent.None? ==> Numerator(p) < TWO_64
  {
    assert p.whole + "" == p.whole;
    if p.exponent.None? { DigitsBound(p.whole); SeventeenDigits(|p.whole|); }
  }

  lemma {:induction false} DigitsBound(s: string)
    requires AllDigits(s)
    ensures NatOf(s) < Pow10(|s|)
  {
    if s != "" { DigitsBound(s[..|s| - 1]); }
  }

  lemma SeventeenDigits(n: nat)
    requires n <= 17
    ensures Pow10(n) < TWO_64
  {
    hide Pow10;
    PowSeventeen();
    PowSplit(n, 17 - n);
    PositiveFactor(Pow10(n), Pow10(17 - n));
  }

  lemma PowSeventeen()
    ensures Pow10(17) == 100_000_000_000_000_000
  {
    assert Pow10(3) == 1000;
    PowSplit(3, 3);
    PowSplit(6, 6);
    PowSplit(12, 3);
    assert Pow10(2) == 100;
    PowSplit(15, 2);
  }

  lemma PositiveFactor(a: nat, b: nat)
    requires b > 0
    ensures a <= a * b
  {
  }

  /** A single non-zero digit over a positive power of ten is a positive number below one. */
  lemma FractionalIsLost(p: Print)
    requires Printed(p) && p.fraction.None? && p.exponent.Some? && p.exponent.value.negative
    ensures 0 < Numerator(p) < Denominator(p) && Numerator(p) / Denominator(p) == 0
  {
    hide NatOf, Pow10;
    assert p.whole + "" == p.whole;
    OneDigit(p.whole);
    AtLeastTen(NatOf(p.exponent.value.digits));
    PowZero();
  }

  lemma OneDigit(s: string)
    requires AllDigits(s) && |s| == 1 && s[0] != '0'
    ensures 0 < NatOf(s) < 10
  {
    assert s[..0] == "";
  }

  lemma AtLeastTen(k: nat)
    requires k > 0
    ensures Pow10(k) >= 10
  {
  }

  /** m / 10^s is numerator / 10^decimals, with s and m within the limits of the form. */
  predicate IsForm(numerator: nat, decimals: nat, s: nat, m: nat) {
    s <= 63 && m <= 0x1F_FFFF_FFFF_FFFF && m * Pow10(decimals) == numerator * Pow10(s)
  }

  ghost predicate HasForm(numerator: nat, decimals: nat) {
    exists s: nat, m: nat :: IsForm(numerator, decimals, s, m)
  }

  /** The decimal form is taken whenever the printed number has one at all. */
  lemma FormExistsIff(whole: string, fraction: string)
    requires AllDigits(whole) && AllDigits(fraction) && AllDigits(whole + fraction)
    ensures Form(whole, fraction).Some? <==> HasForm(NatOf(whole + fraction), |fraction|)
  {
    TrimmingIsExact(whole, fraction);
    hide NatOf, TrimZeros, Pow10;
    var n, d := NatOf(whole + fraction), |fraction|;
    var t := |TrimZeros(fraction)|;
    var m := NatOf(whole + TrimZeros(fraction));
    Rescale(n, d, t, m);
    if Form(whole, fraction).Some? {
      assert IsForm(n, d, t, m);
    }
    if s: nat, m': nat :| IsForm(n, d, s, m') {
      Rescale'(n, d, t, m, s, m');
      Smallest(t, m, s, m');
    }
  }

  lemma Rescale(n: nat, d: nat, t: nat, m: nat)
    requires t <= d && m * Pow10(d - t) == n
    ensures m * Pow10(d) == n * Pow10(t)
  {
    hide Pow10;
    PowSplit(d - t, t);
    Assoc(m, Pow10(d - t), Pow10(t));
  }

  /** Two forms of one number, compared. */
  lemma Rescale'(n: nat, d: nat, t: nat, m: nat, s: nat, m': nat)
    requires m * Pow10(d) == n * Pow10(t) && m' * Pow10(d) == n * Pow10(s)
    ensures m * Pow10(s) == m' * Pow10(t)
  {
    hide Pow10;
    var pd, ps, pt := Pow10(d), Pow10(s), Pow10(t);
    assert m * ps * pd == m' * pt * pd by {
      Assoc(m, ps, pd);
      Assoc(m', pt, pd);
      CrossMultiply(n, m, m', pd, ps, pt);
    }
    Cancel(m * ps, m' * pt, pd);
  }

  lemma CrossMultiply(n: nat, m: nat, m': nat, pd: nat, ps: nat, pt: nat)
    requires m * pd == n * pt && m' * pd == n * ps
    ensures m * (ps * pd) == m' * (pt * pd)
  {
    assert m * (ps * pd) == (m * pd) * ps == n * pt * ps;
    assert m' * (pt * pd) == (m' * pd) * pt == n * ps * pt;
  }

  /** A reduced form has the smallest scale and mantissa. */
  lemma Smallest(t: nat, m: nat, s: nat, m': nat)
    requires m * Pow10(s) == m' * Pow10(t) && (t > 0 ==> m % 10 != 0)
    ensures t <= s && m <= m'
  {
    hide *;
    if t > s {
      NotShorter(t, m, s, m');
    } else {
      PowSplit(s - t, t);
      Assoc(m, Pow10(s - t), Pow10(t));
      Cancel(m * Pow10(s - t), m', Pow10(t));
      AtLeastOne(m, Pow10(s - t));
    }
  }

  lemma AtLeastOne(m: nat, p: nat)
    requires p > 0
    ensures m <= m * p
  {
  }

  /** A number printed without an exponent is written in decimal form if and only if
      it has one; printed with an exponent and a dot it is always written raw. */
  lemma WrittenWhenItFits(p: Print, truncated: u64)
    requires Printed(p) && Cast(p, truncated)
    ensures p.exponent.None? ==> (WrittenForm(p, truncated).Some? <==> HasForm(Numerator(p), |FractionOf(p)|))
    ensures p.exponent.Some? && p.fraction.Some? ==> WrittenForm(p, truncated).None?
  {
    hide HasForm, Cast, Form, NatOf, Pow10;
    if p.exponent.None? {
      NumeratorIs(p);
      FormExistsIff(p.whole, FractionOf(p));
      if p.fraction.None? { WholeIsCast(p, truncated); }
    }
  }

  lemma NumeratorIs(p: Print)
    requires Printed(p) && p.exponent.None?
    ensures AllDigits(p.whole + FractionOf(p)) && Numerator(p) == NatOf(p.whole + FractionOf(p))
  {
  }

  lemma WholeIsCast(p: Print, truncated: u64)
    requires Printed(p) && Cast(p, truncated) && p.exponent.None? && p.fraction.None?
    ensures WrittenForm(p, truncated).Some? <==> Form(p.whole, "").Some?
  {
    hide NatOf, Pow10;
    assert p.whole + "" == p.whole;
    WholeDenotes(p);
  }

  /** Whatever the cast gives, the written form denotes the printed number or is
      the fallback, if and only if the print is Safe. A number that prints as a
      digit and a negative exponent is written as zero; one too large for the
      cast depends on what that gives. */
  lemma WrittenIff(p: Print)
    requires Printed(p)
    ensures (forall t: u64 :: Cast(p, t) && WrittenForm(p, t).Some? ==> Denotes(p, WrittenForm(p, t).value)) <==> Safe(p)
  {
    hide NatOf, Pow10, Form, Numerator, Denominator;
    assert Pow10(0) == 1 by { PowZero(); }
    if p.fraction.Some? {
      if p.exponent.None? && Form(p.whole, p.fraction.value).Some? { PlainDenotes(p); }
    } else if p.exponent.Some? && p.exponent.value.negative {
      FractionalIsLost(p);
      assert Cast(p, 0) && WrittenForm(p, 0) == Some((0, 0)) && !Denotes(p, (0, 0));
    } else {
      WholeDenotes(p);
      if !Safe(p) {
        assert Cast(p, 0) && WrittenForm(p, 0) == Some((0, 0)) && !Denotes(p, (0, 0));
      }
    }
  }

  lemma PowZero()
    ensures Pow10(0) == 1
  {
  }

  const TINY: Print := Print("1", None, Some(Exponent('e', true, "10")))

  /** 1e-10 prints without a dot, so the exponent is not seen: it is written as zero. */
  lemma TinyIsWrittenAsZero()
    ensures Printed(TINY) && Text(TINY) == "1e-10" && !Safe(TINY)
    ensures forall t: u64 :: Cast(TINY, t) ==> WrittenForm(TINY, t) == Some((0, 0)) && !Denotes(TINY, (0, 0))
  {
    assert NatOf("10") == 10 by { assert "10"[..1] == "1"; assert "1"[..0] == ""; }
    FractionalIsLost(TINY);
    PowZero();
  }

  // ---------- Operations ----------

  method Find(s: string, c: char) returns (idx: int)
    ensures -1 <= idx < |s|
    ensures idx >= 0 ==> s[idx] == c && c !in s[..idx]
    ensures idx < 0 ==> c !in s
  {
    idx := 0;
    while idx < |s|
      invariant 0 <= idx <= |s|
      invariant c !in s[..idx]
    {
      if s[idx] == c { return; }
      idx := idx + 1;
    }
    idx := -1;
  }

  method FindLastNotOf(s: string, c: char) returns (idx: int)
    ensures -1 <= idx < |s|
    ensures idx >= 0 ==> s[idx] != c
    ensures forall i :: idx < i < |s| ==> s[i] == c
  {
    idx := |s| - 1;
    while idx >= 0 && s[idx] == c
      invariant -1 <= idx < |s|
      invariant forall i :: idx < i < |s| ==> s[i] == c
    {
      idx := idx - 1;
    }
  }

  /** std::stoull on a digit string: None stands for the exceptions. */
  method Stoull(s: string) returns (r: Option<u64>)
    requires AllDigits(s)
    ensures r == if s == "" || NatOf(s) >= TWO_64 then None else Some(NatOf(s))
  {
    if s == "" { return None; }
    var n: nat := 0;
    var i := 0;
    while i < |s|
      invariant 0 <= i <= |s|
      invariant n == NatOf(s[..i])
    {
      assert s[..i + 1][..i] == s[..i];
      n := 10 * n + Digit(s[i]);
      i := i + 1;
    }
    assert s[..i] == s;
    if n >= TWO_64 { return None; }
    return Some(n);
  }

  lemma TrimIsPrefix(f: string, n: nat)
    requires n <= |f| && (n > 0 ==> f[n - 1] != '0')
    requires forall i :: n <= i < |f| ==> f[i] == '0'
    ensures TrimZeros(f) == f[..n]
  {
    var t := TrimZeros(f);
    assert t != "" ==> t[|t| - 1] == f[|t| - 1];
    assert |t| <= n && n <= |t|;
  }

  lemma SliceOfPrefix(s: string, dot: nat, end: nat)
    requires dot < end <= |s|
    ensures s[..end][dot + 1..] == s[dot + 1..][..end - dot - 1] && s[..end][..dot] == s[..dot]
  {
  }

  /** Cutting a dotted text after its last character but zeros trims its fraction. */
  lemma TrimSplits(s: string, dot: nat, last: int)
    requires dot < |s| && s[dot] == '.' && -1 <= last < |s| && AllDigits(s[dot + 1..])
    requires (last >= 0 ==> s[last] != '0') && forall i :: last < i < |s| ==> s[i] == '0'
    ensures last >= dot
    ensures
      var t := TrimZeros(s[dot + 1..]);
      |t| == last - dot && AllDigits(t) && s[..last + 1][..dot] == s[..dot] && (last > dot ==> s[..last + 1][dot + 1..] == t)
  {
    hide TrimZeros;
    TrimIsPrefix(s[dot + 1..], last - dot);
    if last > dot { SliceOfPrefix(s, dot, last + 1); }
  }

  /** The dotted branch: trim, recompute the scale, drop the dot, parse. */
  method TrimmedForm(printed: string, dot: nat, truncated: u64) returns (r: Option<(nat, nat)>)
    requires dot < |printed| && printed[dot] == '.' && AllDigits(printed[..dot]) && AllDigits(printed[dot + 1..])
    requires truncated == NatOf(printed[..dot])
    ensures r.Some? ==> r.value == (|TrimZeros(printed[dot + 1..])|, NatOf(printed[..dot] + TrimZeros(printed[dot + 1..])))
    ensures r.Some? ==> r.value.0 <= MAX_SCALE
    ensures r.None? ==> Form(printed[..dot], printed[dot + 1..]).None?
  {
    ghost var t := TrimZeros(printed[dot + 1..]);
    hide NatOf, TrimZeros;
    var str := printed;
    var lastNonZero := FindLastNotOf(str, '0');
    TrimSplits(printed, dot, lastNonZero);
    AllDigitsConcat(printed[..dot], t);
    if lastNonZero > dot {
      str := str[..lastNonZero + 1];
      var scale := |str| - dot - 1;
      if scale > MAX_SCALE { return None; }
      var m := Stoull(str[..dot] + str[dot + 1..]);
      if m.None? { return None; }
      return Some((scale, m.value));
    } else {
      assert printed[..dot] + t == printed[..dot];
      return Some((0, truncated));
    }
  }

  /** serializeVarDouble from the printed absolute value to scale and mantissa;
      `truncated` is what the cast to uint64_t gave. None means the raw fallback. */
  method ScaleAndMantissa(printed: string, truncated: u64, ghost p: Print) returns (r: Option<(nat, nat)>)
    requires Printed(p) && printed == Text(p) && Cast(p, truncated)
    ensures r == WrittenForm(p, truncated)
    ensures Safe(p) && r.Some? ==> Denotes(p, r.value)
  {
    hide NatOf, TrimZeros, AllDigits, Printed, Text, Cast, Denotes, Safe;
    SafeDenotes(p, truncated);
    var scale, mantissa: nat := 0, truncated;
    var dotIdx := Find(printed, '.');
    TextShape(p);
    if dotIdx >= 0 {
      var e := Find(printed, 'e');
      var e' := Find(printed, 'E');
      if e >= 0 || e' >= 0 {
        return None;
      }
      CastOfPlain(p, truncated);
      var trimmed := TrimmedForm(printed, dotIdx, truncated);
      if trimmed.None? { return None; }
      scale, mantissa := trimmed.value.0, trimmed.value.1;
    }
    if mantissa > MAX_SAFE_INT { return None; }
    return Some((scale, mantissa));
  }

  lemma SafeDenotes(p: Print, truncated: u64)
    requires Printed(p) && Cast(p, truncated)
    ensures Safe(p) && WrittenForm(p, truncated).Some? ==> Denotes(p, WrittenForm(p, truncated).value)
  {
    hide Printed, Safe, Cast, WrittenForm, Denotes;
    WrittenIff(p);
  }

  /** Where the dot and the exponent mark are. */
  lemma TextShape(p: Print)
    requires Printed(p)
    ensures var s, d := Text(p), |p.whole|;
      && (p.fraction.None? ==> '.' !in s)
      && (p.fraction.Some? ==> d < |s| && s[d] == '.' && '.' !in s[..d] && s[..d] == p.whole)
      && (p.exponent.None? <==> 'e' !in s && 'E' !in s)
      && (p.exponent.None? && p.fraction.Some? ==> s[d + 1..] == p.fraction.value && AllDigits(p.fraction.value))
      && AllDigits(p.whole)
  {
    var s := Text(p);
    if p.exponent.Some? { assert s[|Dotted(p)|] == p.exponent.value.mark; }
  }

  /** Without an exponent the cast is the digits before the dot. */
  lemma CastOfPlain(p: Print, truncated: u64)
    requires Printed(p) && p.exponent.None? && Cast(p, truncated)
    ensures truncated == NatOf(p.whole)
  {
    hide NatOf, Pow10;
    var f := FractionOf(p);
    AllDigitsConcat(p.whole, f);
    WholeAndRest(p.whole, f);
    var n, r, t := NatOf(p.whole), NatOf(f), Pow10(|f|);
    BigEndian.QuotientIs(n * t + r, n, r, t);
    DigitsBound(p.whole);
    SeventeenDigits(|p.whole|);
  }

  lemma {:induction false} WholeAndRest(whole: string, f: string)
    requires AllDigits(whole) && AllDigits(f)
    ensures AllDigits(whole + f) && NatOf(whole + f) == NatOf(whole) * Pow10(|f|) + NatOf(f) && NatOf(f) < Pow10(|f|)
  {
    hide NatOf, Digit;
    DigitsBound(f);
    if f == "" {
      assert whole + f == whole;
      NatOfNothing();
    } else {
      var g := f[..|f| - 1];
      WholeAndRest(whole, g);
      assert (whole + f)[..|whole + f| - 1] == whole + g;
      NatOfSnoc(whole + f);
      NatOfSnoc(f);
      assert Pow10(|f|) == 10 * Pow10(|g|);
      Assoc'(NatOf(whole), Pow10(|g|));
    }
  }

  lemma NatOfNothing()
    ensures NatOf("") == 0
  {
  }

  lemma NatOfSnoc(s: string)
    requires s != "" && AllDigits(s)
    ensures NatOf(s) == 10 * NatOf(s[..|s| - 1]) + Digit(s[|s| - 1])
  {
  }

  // ---------- Bytes ----------

  predicate InForm(scale: nat, mantissa: nat) { scale <= MAX_SCALE && mantissa <= MAX_SAFE_INT }

  function Write(negative: bool, scale: nat, mantissa: nat): seq<byte>
    requires InForm(scale, mantissa)
  {
    [if negative then scale + 64 else scale] + VarInt.Bytes(mantissa)
  }

  /** Sign, scale and mantissa of a decimal-form payload. */
  function Read(data: seq<byte>): (bool, nat, nat)
    requires data != []
  {
    var negative := data[0] >= 64;
    (negative, if negative then data[0] - 64 else data[0], VarInt.Sum(data[1..]) % TWO_64)
  }

  lemma ReadWrite(negative: bool, scale: nat, mantissa: nat)
    requires InForm(scale, mantissa)
    ensures Write(negative, scale, mantissa)[0] < 0x80
    ensures Read(Write(negative, scale, mantissa)) == (negative, scale, mantissa)
  {
    VarInt.DecodeEncode(mantissa, []);
    assert Write(negative, scale, mantissa)[1..] == VarInt.Bytes(mantissa) + [];
  }
}
