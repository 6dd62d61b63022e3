/** serializeVarDouble as a whole (serializer.cpp): which form a double takes
    follows from how the stream prints its absolute value. */
module Doubles {
  import opened Types
  import opened Serializer
  import opened VarDecimal
  import BigEndian

  /** What the writer looks at before it prints: MinusZero is 0.0 with the sign bit. */
  datatype Shape = NotFinite | MinusZero | Prints(p: Print)

  datatype Double = Double(bits: u64, negative: bool, shape: Shape)

  predicate WellFormed(d: Double) {
    d.shape.Prints? ==> Printed(d.shape.p) && (d.negative ==> Numerator(d.shape.p) > 0)
  }

  /** truncated is what the cast of the absolute value to uint64_t can give. */
  predicate CastOf(d: Double, truncated: u64)
    requires WellFormed(d)
  {
    d.shape.Prints? ==> Cast(d.shape.p, truncated)
  }

  // ---------- The writer ----------

  function Fallback(d: Double): seq<byte> { [0x80] + BigEndian.Bytes(8, d.bits) }

  function WriteDouble(d: Double, truncated: u64): seq<byte>
    requires WellFormed(d)
  {
    if !d.shape.Prints? then Fallback(d)
    else
      match WrittenForm(d.shape.p, truncated)
      case None => Fallback(d)
      case Some(form) => Write(d.negative, form.0, form.1)
  }

  method SerializeVarDouble(d: Double, printed: string, truncated: u64) returns (out: seq<byte>)
    requires WellFormed(d) && CastOf(d, truncated) && (d.shape.Prints? ==> printed == Text(d.shape.p))
    ensures out == WriteDouble(d, truncated)
  {
    hide Printed, Text, WrittenForm, Cast, Numerator;
    if d.shape.NotFinite? || d.shape.MinusZero? {
      var bytes := BigEndian.WriteBE64(d.bits);
      return [0x80] + bytes;
    }
    var form := ScaleAndMantissa(printed, truncated, d.shape.p);
    if form.None? {
      var bytes := BigEndian.WriteBE64(d.bits);
      return [0x80] + bytes;
    }
    var (scale, mantissa) := form.value;
    FitsForm(d.shape.p, truncated);
    var varint := VarInt.EncodeVarInt(mantissa);
    return [if d.negative then scale + 64 else scale] + varint;
  }

  lemma FitsForm(p: Print, truncated: u64)
    requires Printed(p) && WrittenForm(p, truncated).Some?
    ensures InForm(WrittenForm(p, truncated).value.0, WrittenForm(p, truncated).value.1)
  {
  }

  // ---------- Doubles as payloads ----------

  /** The payload that stands for a double. */
  function AsPayload(d: Double): Payload
    requires WellFormed(d)
  {
    if !d.shape.Prints? then F64(d.bits)
    else
      var p := d.shape.p;
      if p.fraction.Some? then
        if p.exponent.None? && Form(p.whole, p.fraction.value).Some? then
          var (scale, mantissa) := Form(p.whole, p.fraction.value).value;
          Decimal(d.negative, scale, mantissa)
        else F64(d.bits)
      else if p.exponent.None? then
        if NatOf(p.whole) <= MAX_SAFE_INT then Decimal(d.negative, 0, NatOf(p.whole)) else F64(d.bits)
      else if Safe(p) then F64(d.bits)
      else
        var k: int := NatOf(p.exponent.value.digits);
        Scientific(d.negative, NatOf(p.whole), if p.exponent.value.negative then -k else k)
  }

  predicate SafeDouble(d: Double)
    requires WellFormed(d)
  {
    d.shape.Prints? ==> Safe(d.shape.p)
  }

  /** It is a decimal if and only if it prints without an exponent and has a form that fits. */
  lemma DecimalIff(d: Double)
    requires WellFormed(d)
    ensures AsPayload(d).Decimal?
       <==> d.shape.Prints? && d.shape.p.exponent.None? && HasForm(Numerator(d.shape.p), |FractionOf(d.shape.p)|)
  {
    hide HasForm, NatOf, TrimZeros, Safe, Numerator;
    if d.shape.Prints? && d.shape.p.exponent.None? {
      var p := d.shape.p;
      NumeratorIs(p);
      FormExistsIff(p.whole, FractionOf(p));
      assert p.whole + "" == p.whole && TrimZeros("") == "";
    }
  }

  /** It stands for the printed number: a Decimal denotes it exactly, and every
      payload chosen is one the stream prints that way. */
  lemma AsPayloadDenotes(d: Double)
    requires WellFormed(d)
    ensures Canonical(AsPayload(d)) && (AsPayload(d).Scientific? <==> !SafeDouble(d))
    ensures AsPayload(d).Decimal? ==>
      && d.shape.Prints? && AsPayload(d).negative == d.negative
      && Denotes(d.shape.p, (AsPayload(d).scale, AsPayload(d).mantissa))
  {
    hide NatOf, Pow10, Form, Numerator, Denominator, TrimZeros;
    if d.shape.Prints? {
      var p := d.shape.p;
      if p.fraction.Some? {
        if p.exponent.None? && Form(p.whole, p.fraction.value).Some? {
          FormFits(p.whole, p.fraction.value);
          FormIsExact(p.whole, p.fraction.value);
          PlainDenotes(p);
          PositiveMantissa(p, Form(p.whole, p.fraction.value).value);
        }
      } else if p.exponent.None? {
        IntegerDenotes(p);
        PositiveMantissa(p, (0, NatOf(p.whole)));
      } else {
        OneDigit(p.whole);
        if !p.exponent.value.negative { LargeExponent(p); }
      }
    }
  }

  lemma FormFits(whole: string, fraction: string)
    requires AllDigits(whole) && AllDigits(fraction) && Form(whole, fraction).Some?
    ensures InForm(Form(whole, fraction).value.0, Form(whole, fraction).value.1)
  {
  }

  lemma IntegerDenotes(p: Print)
    requires Printed(p) && p.fraction.None? && p.exponent.None?
    ensures Numerator(p) == NatOf(p.whole) && Denominator(p) == 1 && Denotes(p, (0, NatOf(p.whole)))
  {
    assert p.whole + "" == p.whole;
    PowZero();
  }

  /** A positive number has a positive mantissa. */
  lemma PositiveMantissa(p: Print, form: (nat, nat))
    requires Printed(p) && Denotes(p, form)
    ensures Numerator(p) > 0 ==> form.1 > 0
  {
    if Numerator(p) > 0 { PositiveProduct(Numerator(p), Pow10(form.0)); }
  }

  /** With a positive exponent, an unsafe print is digit * 10^exponent, too large for the cast. */
  lemma LargeExponent(p: Print)
    requires Printed(p) && p.fraction.None? && p.exponent.Some? && !p.exponent.value.negative
    ensures Numerator(p) == NatOf(p.whole) * Pow10(NatOf(p.exponent.value.digits))
  {
    assert p.whole + "" == p.whole;
  }

  // ---------- What is read back ----------

  /** The writer writes a double as its payload serializes, whatever an undefined cast gives. */
  lemma WritesAsPayload(d: Double, truncated: u64)
    requires WellFormed(d) && CastOf(d, truncated) && SafeDouble(d)
    ensures Modelled(TY_VAR_DOUBLE, AsPayload(d))
    ensures Serialize(TY_VAR_DOUBLE, AsPayload(d)) == Ok(WriteDouble(d, truncated))
  {
    AsPayloadDenotes(d);
    hide NatOf, Pow10, Form, Numerator, Denominator, TrimZeros, Denotes, Truncated;
    if d.shape.Prints? && d.shape.p.fraction.None? {
      SafeCast(d.shape.p, truncated);
    }
  }

  /** Without a dot: a small integer is the cast, and every other safe number is above the mantissa limit. */
  lemma SafeCast(p: Print, truncated: u64)
    requires Printed(p) && Safe(p) && p.fraction.None? && Cast(p, truncated)
    ensures p.exponent.None? ==> truncated == NatOf(p.whole)
    ensures p.exponent.Some? ==> truncated > MAX_SAFE_INT
  {
    hide NatOf, Pow10, Numerator, Denominator;
    WholeDenotes(p);
    if p.exponent.None? {
      IntegerDenotes(p);
    } else {
      LargeExponent(p);
      OneDigit(p.whole);
      TenToTheSeventeenth(NatOf(p.exponent.value.digits));
      PositiveFactor(Pow10(NatOf(p.exponent.value.digits)), NatOf(p.whole));
    }
  }

  lemma TenToTheSeventeenth(k: nat)
    requires k >= 17
    ensures Pow10(k) > MAX_SAFE_INT
  {
    hide Pow10;
    PowSeventeen();
    PowSplit(17, k - 17);
    PositiveFactor(Pow10(17), Pow10(k - 17));
  }

  /** A double reads back as itself if and only if its print has a dot, or has no
      exponent, or has a positive exponent and a value the cast can hold. */
  lemma DoubleReadsBackIff(d: Double)
    requires WellFormed(d)
    ensures (forall t: u64 :: CastOf(d, t) ==> Deserialize(TY_VAR_DOUBLE, WriteDouble(d, t)) == Ok(AsPayload(d))) <==> SafeDouble(d)
  {
    hide Deserialize, Serialize, Modelled, Canonical, WrittenForm, Cast, Safe, AsPayload, WriteDouble;
    AsPayloadDenotes(d);
    if SafeDouble(d) {
      forall t: u64 | CastOf(d, t) ensures Deserialize(TY_VAR_DOUBLE, WriteDouble(d, t)) == Ok(AsPayload(d)) {
        WritesAsPayload(d, t);
        ReadsBack(AsPayload(d));
      }
    } else {
      ZeroIsWritten(d);
      DecimalReads(TY_VAR_DOUBLE, d.negative, 0, 0);
    }
  }

  lemma ReadsBack(p: Payload)
    requires Modelled(TY_VAR_DOUBLE, p) && Serialize(TY_VAR_DOUBLE, p).Ok? && !p.Scientific?
    ensures Deserialize(TY_VAR_DOUBLE, Serialize(TY_VAR_DOUBLE, p).value) == Ok(p)
  {
    hide Deserialize;
    RoundTrip(TY_VAR_DOUBLE, p);
  }

  /** An unsafe double can be written as zero, and one below one is. */
  lemma ZeroIsWritten(d: Double)
    requires WellFormed(d) && !SafeDouble(d)
    ensures CastOf(d, 0) && WriteDouble(d, 0) == Write(d.negative, 0, 0)
    ensures d.shape.p.exponent.value.negative ==> forall t: u64 :: CastOf(d, t) ==> t == 0
  {
    hide NatOf, Pow10, Numerator, Denominator;
    if d.shape.p.exponent.value.negative {
      FractionalIsLost(d.shape.p);
    } else {
      WholeDenotes(d.shape.p);
    }
  }

  /** So 1e-10 reads back as zero, and its negative as negative zero. */
  lemma TinyReadsAsZero(bits: u64, negative: bool)
    ensures
      var d := Double(bits, negative, Prints(TINY));
      && WellFormed(d) && AsPayload(d) == Scientific(negative, 1, -10)
      && forall t: u64 :: CastOf(d, t) ==> Deserialize(TY_VAR_DOUBLE, WriteDouble(d, t)) == Ok(Decimal(negative, 0, 0))
  {
    hide Deserialize, Numerator, Denominator;
    TinyIsWrittenAsZero();
    TinyDigits();
    FractionalIsLost(TINY);
    ZeroIsWritten(Double(bits, negative, Prints(TINY)));
    DecimalReads(TY_VAR_DOUBLE, negative, 0, 0);
  }

  lemma TinyDigits()
    ensures NatOf("1") == 1 && NatOf("10") == 10
  {
    assert "10"[..1] == "1" && "1"[..0] == "";
  }
}
