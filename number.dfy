/** GunnyScript numbers: a 64-bit unsigned integer, a 64-bit signed integer
    or an I64F64 fixed-point value (a signed 128-bit count of 2^-64 units),
    their conversions, and `Number::from_str`, which picks the base from the
    shape of the text. Integer text is read the way Rust's `from_str_radix`
    reads it; the fixed-point reader is a parameter. */
module ScriptNumber {
  import opened Wrappers
  import opened Ints

  datatype Number = Unsigned(u: u64) | Signed(i: i64) | Fixed(f: I64F64)

  /** `Number::as_u64`. A fixed-point value must be strictly positive and
      whole, so the fixed-point zero gives `None`. */
  function AsU64(n: Number): (r: Option<u64>)
    ensures n.Unsigned? ==> r == Some(n.u)
    ensures n.Signed? ==> (r.Some? <==> n.i >= 0) && (r.Some? ==> r.value == n.i)
    ensures n.Fixed? ==> (r.Some? <==> n.f > 0 && n.f % FIXED_ONE == 0)
    ensures n.Fixed? && r.Some? ==> r.value * FIXED_ONE == n.f
  {
    match n
    case Unsigned(u) => Some(u)
    case Signed(i) => if i >= 0 then Some(i) else None
    case Fixed(f) => if f > 0 && f % FIXED_ONE == 0 then Some(f / FIXED_ONE) else None
  }

  /** `Number::as_i64` as written: an unsigned value is accepted only when
      strictly below `i64::MAX`. */
  function AsI64(n: Number): (r: Option<i64>)
    ensures n.Unsigned? ==> (r.Some? <==> n.u < I64_MAX) && (r.Some? ==> r.value == n.u)
    ensures n.Signed? ==> r == Some(n.i)
    ensures n.Fixed? ==> (r.Some? <==> n.f % FIXED_ONE == 0)
    ensures n.Fixed? && r.Some? ==> r.value * FIXED_ONE == n.f
  {
    match n
    case Unsigned(u) => if u < I64_MAX then Some(u) else None
    case Signed(i) => Some(i)
    case Fixed(f) => if f % FIXED_ONE == 0 then Some(f / FIXED_ONE) else None
  }

  /** `Number::as_i64` with the bound the conversion evidently intends:
      every unsigned value that fits in an `i64`. */
  function AsI64Intended(n: Number): (r: Option<i64>)
    ensures n.Unsigned? ==> (r.Some? <==> n.u <= I64_MAX) && (r.Some? ==> r.value == n.u)
    ensures !n.Unsigned? ==> r == AsI64(n)
  {
    match n
    case Unsigned(u) => if u <= I64_MAX then Some(u) else None
    case _ => AsI64(n)
  }

  /** `i64::MAX` itself fits in an `i64`, yet `as_i64` refuses it. */
  lemma AsI64RefusesMax()
    ensures AsI64(Unsigned(I64_MAX)) == None
    ensures AsI64Intended(Unsigned(I64_MAX)) == Some(I64_MAX)
  {
  }

  /** `Number::as_fixed`. `Fixed::from_num` panics on an unsigned value
      above the largest whole `I64F64`, so callers must stay below it. */
  function AsFixed(n: Number): (r: I64F64)
    requires n.Unsigned? ==> n.u <= I64_MAX
    ensures n.Unsigned? ==> r == n.u * FIXED_ONE
    ensures n.Signed? ==> r == n.i * FIXED_ONE
    ensures n.Fixed? ==> r == n.f
  {
    match n
    case Unsigned(u) => u * FIXED_ONE
    case Signed(i) => i * FIXED_ONE
    case Fixed(f) => f
  }

  /** Converting an integer to fixed point and back gives the integer back
      (for `as_u64`, except for zero, which is not strictly positive). */
  lemma FixedRoundTrip(n: Number)
    requires n.Unsigned? || n.Signed?
    requires n.Unsigned? ==> n.u <= I64_MAX
    ensures AsI64Intended(Fixed(AsFixed(n))) == Some(if n.Unsigned? then n.u else n.i)
    ensures AsU64(Fixed(AsFixed(n))).Some? <==> AsU64(n).Some? && AsU64(n).value > 0
    ensures AsU64(Fixed(AsFixed(n))).Some? ==> AsU64(Fixed(AsFixed(n))) == AsU64(n)
  {
    var v := if n.Unsigned? then n.u else n.i;
    assert AsFixed(n) == v * FIXED_ONE;
    assert (v * FIXED_ONE) % FIXED_ONE == 0;
    assert (v * FIXED_ONE) / FIXED_ONE == v;
  }

  /** The derived equality tells the variants apart: the same integer held
      as unsigned, signed and fixed point gives three different numbers. */
  lemma VariantsDiffer()
    ensures Unsigned(1) != Signed(1) && Signed(1) != Fixed(FIXED_ONE) && Unsigned(1) != Fixed(FIXED_ONE)
  {
  }

  // ---------------------------------------------------------------------
  // Integer text, as Rust's `from_str_radix` reads it

  datatype IntErrorKind = Empty | InvalidDigit | PosOverflow | NegOverflow

  /** The two integer types the parser reads into. */
  datatype IntType = U64 | I64 {
    function Min(): int { if this == U64 then 0 else I64_MIN }
    function Max(): int { if this == U64 then U64_MAX else I64_MAX }
  }

  /** `char::to_digit`: the value of a digit in `radix`, with letters of
      either case standing for 10 and above. */
  function ToDigit(c: char, radix: nat): (r: Option<nat>)
    requires 2 <= radix <= 36
    ensures r.Some? ==> r.value < radix
  {
    var d :=
      if '0' <= c <= '9' then c as int - '0' as int
      else if 'a' <= c <= 'z' then c as int - 'a' as int + 10
      else if 'A' <= c <= 'Z' then c as int - 'A' as int + 10
      else radix;
    if d < radix then Some(d) else None
  }

  /** The digit loop of `from_str_radix`: left to right, a character that is
      not a digit is `InvalidDigit`, and a running value leaving the type's
      range is `PosOverflow` (above it) or `NegOverflow` (below it). */
  function Accumulate(ds: string, radix: nat, negative: bool, acc: int, ty: IntType): (r: Result<int, IntErrorKind>)
    requires 2 <= radix <= 36 && ty.Min() <= acc <= ty.Max()
    ensures r.Ok? ==> ty.Min() <= r.value <= ty.Max()
    ensures r.Err? ==> r.error != Empty
  {
    if |ds| == 0 then Ok(acc)
    else
      match ToDigit(ds[0], radix)
      case None => Err(InvalidDigit)
      case Some(d) =>
        var next := if negative then acc * radix - d else acc * radix + d;
        if next > ty.Max() then Err(PosOverflow)
        else if next < ty.Min() then Err(NegOverflow)
        else Accumulate(ds[1..], radix, negative, next, ty)
  }

  /** `u64::from_str_radix` / `i64::from_str_radix` (and `str::parse`, which
      is the radix-10 case): an optional `+`, or for a signed type `-`, then
      digits; a lone sign is `InvalidDigit`. */
  function FromStrRadix(s: string, radix: nat, ty: IntType): (r: Result<int, IntErrorKind>)
    requires 2 <= radix <= 36
    ensures r.Ok? ==> ty.Min() <= r.value <= ty.Max()
    ensures r == Err(Empty) <==> |s| == 0
  {
    if |s| == 0 then Err(Empty)
    else if (s[0] == '+' || s[0] == '-') && |s| == 1 then Err(InvalidDigit)
    else if s[0] == '+' then Accumulate(s[1..], radix, false, 0, ty)
    else if s[0] == '-' && ty == I64 then Accumulate(s[1..], radix, true, 0, ty)
    else Accumulate(s, radix, false, 0, ty)
  }

  predicate AllDigits(ds: string, radix: nat)
    requires 2 <= radix <= 36
  {
    forall i :: 0 <= i < |ds| ==> ToDigit(ds[i], radix).Some?
  }

  /** The positional value of a digit string, read from its last digit. */
  function DigitsValue(ds: string, radix: nat): (v: nat)
    requires 2 <= radix <= 36 && AllDigits(ds, radix)
  {
    if |ds| == 0 then 0
    else DigitsValue(ds[..|ds| - 1], radix) * radix + ToDigit(ds[|ds| - 1], radix).value
  }

  function Pow(b: nat, k: nat): (p: nat)
    ensures b >= 1 ==> p >= 1
  {
    if k == 0 then 1 else b * Pow(b, k - 1)
  }

  lemma ShiftDigit(d: int, p: int, m: int, r: int, l: int)
    ensures (d * p + m) * r + l == d * (r * p) + (m * r + l)
  {
  }

  lemma ShiftAcc(acc: int, r: int, p: int, d: int, rest: int)
    ensures acc * (r * p) + (d * p + rest) == (acc * r + d) * p + rest
    ensures acc * (r * p) - (d * p + rest) == (acc * r - d) * p - rest
  {
  }

  lemma ScaleUp(x: int, p: int)
    requires p >= 1
    ensures x >= 0 ==> x * p >= x
    ensures x <= 0 ==> x * p <= x
  {
  }

  /** The value of a digit string, split at its first digit. */
  lemma {:induction false} DigitsValueFront(ds: string, radix: nat)
    requires 2 <= radix <= 36 && AllDigits(ds, radix) && |ds| > 0
    ensures AllDigits(ds[1..], radix)
    ensures DigitsValue(ds, radix) == ToDigit(ds[0], radix).value * Pow(radix, |ds| - 1) + DigitsValue(ds[1..], radix)
  {
    assert AllDigits(ds[1..], radix) by {
      forall i | 0 <= i < |ds| - 1 ensures ToDigit(ds[1..][i], radix).Some? {
        assert ds[1..][i] == ds[i + 1];
      }
    }
    if |ds| > 1 {
      var init := ds[..|ds| - 1];
      assert AllDigits(init, radix) by {
        forall i | 0 <= i < |init| ensures ToDigit(init[i], radix).Some? {
          assert init[i] == ds[i];
        }
      }
      DigitsValueFront(init, radix);
      assert init[0] == ds[0];
      assert init[1..] == ds[1..][..|ds| - 2];
      assert ds[1..][|ds| - 2] == ds[|ds| - 1];
      var d0, dl := ToDigit(ds[0], radix).value, ToDigit(ds[|ds| - 1], radix).value;
      var mid := DigitsValue(init[1..], radix);
      assert DigitsValue(ds[1..], radix) == mid * radix + dl;
      ShiftDigit(d0, Pow(radix, |ds| - 2), mid, radix, dl);
    }
  }

  /** The value the digit loop reaches from running value `acc`, when every
      character is a digit and no range check intervenes. */
  function Reached(ds: string, radix: nat, negative: bool, acc: int): int
    requires 2 <= radix <= 36 && AllDigits(ds, radix)
  {
    if negative then acc * Pow(radix, |ds|) - DigitsValue(ds, radix)
    else acc * Pow(radix, |ds|) + DigitsValue(ds, radix)
  }

  /** One round of the digit loop, seen on `Reached`. */
  lemma FrontStep(ds: string, radix: nat, negative: bool, acc: int)
    requires 2 <= radix <= 36 && |ds| > 0 && ToDigit(ds[0], radix).Some?
    ensures AllDigits(ds, radix) <==> AllDigits(ds[1..], radix)
    ensures AllDigits(ds, radix) ==>
      var d := ToDigit(ds[0], radix).value;
      Reached(ds, radix, negative, acc) == Reached(ds[1..], radix, negative, if negative then acc * radix - d else acc * radix + d)
  {
    if AllDigits(ds[1..], radix) {
      forall i | 0 <= i < |ds| ensures ToDigit(ds[i], radix).Some? {
        if i > 0 { assert ds[i] == ds[1..][i - 1]; }
      }
    }
    if AllDigits(ds, radix) {
      var d := ToDigit(ds[0], radix).value;
      DigitsValueFront(ds, radix);
      ShiftAcc(acc, radix, Pow(radix, |ds| - 1), d, DigitsValue(ds[1..], radix));
    }
  }

  lemma KeepsSign(acc: int, r: nat, d: nat, negative: bool)
    requires if negative then acc <= 0 else acc >= 0
    ensures negative ==> acc * r - d <= 0
    ensures !negative ==> acc * r + d >= 0
  {
  }

  /** The running value only moves away from zero. */
  lemma ReachedBeyond(ds: string, radix: nat, negative: bool, acc: int)
    requires 2 <= radix <= 36 && AllDigits(ds, radix)
    ensures !negative && acc >= 0 ==> Reached(ds, radix, negative, acc) >= acc
    ensures negative && acc <= 0 ==> Reached(ds, radix, negative, acc) <= acc
  {
    ScaleUp(acc, Pow(radix, |ds|));
  }

  /** The digit loop succeeds exactly when every character is a digit and
      the value reached stays in the type's range; it then returns that
      value, and with all digits but the value out of range it reports the
      overflow in the direction of the sign. */
  lemma {:induction false} AccumulateReaches(ds: string, radix: nat, negative: bool, acc: int, ty: IntType)
    requires 2 <= radix <= 36 && ty.Min() <= acc <= ty.Max()
    requires if negative then acc <= 0 else acc >= 0
    ensures Accumulate(ds, radix, negative, acc, ty).Ok? <==>
      AllDigits(ds, radix) && ty.Min() <= Reached(ds, radix, negative, acc) <= ty.Max()
    ensures Accumulate(ds, radix, negative, acc, ty).Ok? ==>
      Accumulate(ds, radix, negative, acc, ty).value == Reached(ds, radix, negative, acc)
    ensures AllDigits(ds, radix) && !negative && Reached(ds, radix, negative, acc) > ty.Max() ==>
      Accumulate(ds, radix, negative, acc, ty) == Err(PosOverflow)
    ensures AllDigits(ds, radix) && negative && Reached(ds, radix, negative, acc) < ty.Min() ==>
      Accumulate(ds, radix, negative, acc, ty) == Err(NegOverflow)
    decreases |ds|
  {
    if |ds| > 0 {
      match ToDigit(ds[0], radix)
      case None =>
      case Some(d) =>
        var next := if negative then acc * radix - d else acc * radix + d;
        FrontStep(ds, radix, negative, acc);
        KeepsSign(acc, radix, d, negative);
        if ty.Min() <= next <= ty.Max() {
          assert Accumulate(ds, radix, negative, acc, ty) == Accumulate(ds[1..], radix, negative, next, ty);
          AccumulateReaches(ds[1..], radix, negative, next, ty);
        } else if AllDigits(ds, radix) {
          assert Reached(ds, radix, negative, acc) == Reached(ds[1..], radix, negative, next);
          ReachedBeyond(ds[1..], radix, negative, next);
        }
    }
  }

  /** Unsigned digits without a sign parse to their positional value when it
      fits the type, and overflow otherwise. */
  lemma DigitsParse(ds: string, radix: nat, ty: IntType)
    requires 2 <= radix <= 36 && |ds| > 0 && AllDigits(ds, radix)
    ensures FromStrRadix(ds, radix, ty) ==
      if DigitsValue(ds, radix) <= ty.Max() then Ok(DigitsValue(ds, radix)) else Err(PosOverflow)
  {
    assert ToDigit(ds[0], radix).Some?;
    AccumulateReaches(ds, radix, false, 0, ty);
  }

  /** A minus sign followed by digits parses, as a signed number, to the
      negated positional value when it fits, and underflows otherwise. */
  lemma NegativeDigitsParse(ds: string, radix: nat)
    requires 2 <= radix <= 36 && |ds| > 0 && AllDigits(ds, radix)
    ensures var v := -(DigitsValue(ds, radix) as int);
      FromStrRadix("-" + ds, radix, I64) == if v >= I64_MIN then Ok(v) else Err(NegOverflow)
  {
    assert ("-" + ds)[1..] == ds;
    AccumulateReaches(ds, radix, true, 0, I64);
  }

  // ---------------------------------------------------------------------
  // Number::from_str

  datatype NumberError<E> =
    | InvalidHexNumber(kind: IntErrorKind)
    | InvalidSignedNumber(kind: IntErrorKind)
    | InvalidUnsignedNumber(kind: IntErrorKind)
    | InvalidFixedPointNumber(fixedError: E)
    | InvalidOctalNumber(kind: IntErrorKind)

  /** `Number::from_str`: `0x` selects hexadecimal (of the text after the
      prefix), a `.` anywhere selects fixed point, a leading `-` a signed
      decimal, a leading `0` with more after it octal, and anything else an
      unsigned decimal. `parseFixed` stands for `I64F64::from_str`. */
  function FromStr<E>(s: string, parseFixed: string -> Result<I64F64, E>): (r: Result<Number, NumberError<E>>)
    ensures r.Ok? && r.value.Signed? ==> |s| > 0 && s[0] == '-'
    ensures r.Ok? && r.value.Fixed? ==> '.' in s
    ensures r.Ok? && r.value.Unsigned? ==> '.' !in s || (|s| >= 2 && s[..2] == "0x")
    ensures |s| >= 2 && s[..2] == "0x" ==>
      (r.Ok? ==> r.value.Unsigned?) && (r.Err? ==> r.error.InvalidHexNumber?)
    ensures !(|s| >= 2 && s[..2] == "0x") && '.' in s ==>
      (r.Ok? <==> parseFixed(s).Ok?) && (r.Ok? ==> r.value == Fixed(parseFixed(s).value))
      && (r.Err? ==> r.error == InvalidFixedPointNumber(parseFixed(s).error))
    ensures !(|s| >= 2 && s[..2] == "0x") && '.' !in s && |s| > 0 && s[0] == '-' ==>
      (r.Ok? ==> r.value.Signed?) && (r.Err? ==> r.error.InvalidSignedNumber?)
    ensures !(|s| >= 2 && s[..2] == "0x") && '.' !in s && |s| > 1 && s[0] == '0' ==>
      (r.Ok? ==> r.value.Unsigned?) && (r.Err? ==> r.error.InvalidOctalNumber?)
    ensures '.' !in s && !(|s| > 1 && s[0] == '0') && !(|s| > 0 && s[0] == '-') ==>
      (r.Ok? ==> r.value.Unsigned?) && (r.Err? ==> r.error.InvalidUnsignedNumber?)
  {
    if |s| >= 2 && s[..2] == "0x" then
      match FromStrRadix(s[2..], 16, U64)
      case Ok(v) => Ok(Unsigned(v))
      case Err(k) => Err(InvalidHexNumber(k))
    else if '.' in s then
      match parseFixed(s)
      case Ok(f) => Ok(Fixed(f))
      case Err(e) => Err(InvalidFixedPointNumber(e))
    else if |s| > 0 && s[0] == '-' then
      match FromStrRadix(s, 10, I64)
      case Ok(v) => Ok(Signed(v))
      case Err(k) => Err(InvalidSignedNumber(k))
    else if |s| > 1 && s[0] == '0' then
      match FromStrRadix(s, 8, U64)
      case Ok(v) => Ok(Unsigned(v))
      case Err(k) => Err(InvalidOctalNumber(k))
    else
      match FromStrRadix(s, 10, U64)
      case Ok(v) => Ok(Unsigned(v))
      case Err(k) => Err(InvalidUnsignedNumber(k))
  }

  /** The digit character for a value below 16, in lower case. */
  function DigitChar(d: nat): (c: char)
    requires d < 16
  {
    if d < 10 then ('0' as int + d) as char else ('a' as int + d - 10) as char
  }

  /** `n` written in `radix` without leading zeros. */
  function Render(n: nat, radix: nat): (s: string)
    requires 2 <= radix <= 16
    ensures |s| > 0
  {
    if n < radix then [DigitChar(n)] else Render(n / radix, radix) + [DigitChar(n % radix)]
  }

  lemma DigitCharIsDigit(d: nat, radix: nat)
    requires 2 <= radix <= 16 && d < radix
    ensures ToDigit(DigitChar(d), radix) == Some(d)
    ensures DigitChar(d) != '.' && DigitChar(d) != '-' && DigitChar(d) != '+' && DigitChar(d) != 'x'
  {
  }

  lemma DivMod(n: nat, r: nat)
    requires r >= 2 && n >= r
    ensures n == (n / r) * r + n % r && 0 < n / r < n && n % r < r
  {
  }

  /** Rendering is read back as the same value, and only zero renders with a
      leading `0`. */
  lemma {:induction false} RenderDigits(n: nat, radix: nat)
    requires 2 <= radix <= 16
    ensures AllDigits(Render(n, radix), radix)
    ensures DigitsValue(Render(n, radix), radix) == n
    ensures '.' !in Render(n, radix) && '-' !in Render(n, radix) && '+' !in Render(n, radix)
    ensures Render(n, radix)[0] != 'x'
    ensures Render(n, radix)[0] == '0' <==> n == 0
    decreases n
  {
    var s := Render(n, radix);
    if n < radix {
      DigitCharIsDigit(n, radix);
    } else {
      DivMod(n, radix);
      var front := Render(n / radix, radix);
      RenderDigits(n / radix, radix);
      DigitCharIsDigit(n % radix, radix);
      assert s == front + [DigitChar(n % radix)];
      assert AllDigits(s, radix) by {
        forall i | 0 <= i < |s| ensures ToDigit(s[i], radix).Some? {
          if i < |front| { assert s[i] == front[i]; }
        }
      }
      assert s[..|s| - 1] == front;
      assert s[0] == front[0];
    }
  }

  /** Every unsigned value written in decimal is read back as itself. */
  lemma DecimalRoundTrip<E>(n: u64, parseFixed: string -> Result<I64F64, E>)
    ensures FromStr(Render(n, 10), parseFixed) == Ok(Unsigned(n))
  {
    var s := Render(n, 10);
    RenderDigits(n, 10);
    DigitsParse(s, 10, U64);
    assert s[0] != '-' && s[0] != '+';
    if |s| >= 2 {
      assert n >= 10;
      assert s[..2][0] == s[0] != '0';
    }
  }

  /** Every negative `i64` written in decimal after a minus sign is read back
      as itself. */
  lemma NegativeRoundTrip<E>(n: nat, parseFixed: string -> Result<I64F64, E>)
    requires 0 < n <= -I64_MIN
    ensures FromStr("-" + Render(n, 10), parseFixed) == Ok(Signed(-(n as int)))
  {
    var s := "-" + Render(n, 10);
    RenderDigits(n, 10);
    NegativeDigitsParse(Render(n, 10), 10);
    assert s[..2] != "0x" by { assert s[0] == '-'; }
    assert '.' !in s by { assert s[1..] == Render(n, 10); }
  }

  /** Every unsigned value written in hexadecimal after `0x` is read back as
      itself. */
  lemma HexRoundTrip<E>(n: u64, parseFixed: string -> Result<I64F64, E>)
    ensures FromStr("0x" + Render(n, 16), parseFixed) == Ok(Unsigned(n))
  {
    var s := "0x" + Render(n, 16);
    RenderDigits(n, 16);
    assert s[..2] == "0x";
    assert s[2..] == Render(n, 16);
    DigitsParse(Render(n, 16), 16, U64);
    assert Render(n, 16)[0] != '+';
  }

  /** Every unsigned value written in octal after a `0` is read back as
      itself. */
  lemma OctalRoundTrip<E>(n: u64, parseFixed: string -> Result<I64F64, E>)
    ensures FromStr("0" + Render(n, 8), parseFixed) == Ok(Unsigned(n))
  {
    var r := Render(n, 8);
    var s := "0" + r;
    RenderDigits(n, 8);
    assert s[1] == r[0];
    assert s[..2] != "0x" by { assert s[1] != 'x'; }
    assert '.' !in s by { assert s[1..] == r; }
    assert AllDigits(s, 8) by {
      forall i | 0 <= i < |s| ensures ToDigit(s[i], 8).Some? {
        if i > 0 { assert s[i] == r[i - 1]; }
      }
    }
    assert s[..|s| - 1] == "0" + r[..|r| - 1];
    OctalLeadingZero(r);
    DigitsParse(s, 8, U64);
  }

  /** A leading zero does not change an octal value. */
  lemma {:induction false} OctalLeadingZero(r: string)
    requires AllDigits(r, 8) && AllDigits("0" + r, 8)
    ensures DigitsValue("0" + r, 8) == DigitsValue(r, 8)
    decreases |r|
  {
    if |r| > 0 {
      var init := r[..|r| - 1];
      assert ("0" + r)[..|r|] == "0" + init;
      assert ("0" + r)[|r|] == r[|r| - 1];
      assert AllDigits(init, 8) by {
        forall i | 0 <= i < |init| ensures ToDigit(init[i], 8).Some? { assert init[i] == r[i]; }
      }
      assert AllDigits("0" + init, 8) by {
        forall i | 0 <= i < |init| + 1 ensures ToDigit(("0" + init)[i], 8).Some? {
          assert ("0" + init)[i] == ("0" + r)[i];
        }
      }
      OctalLeadingZero(init);
    }
  }

  /** The error cases: empty text, a bare `0x`, a bare `-` and a
      non-octal digit after a leading zero; and a quirk of `from_str_radix`:
      a `+` after `0x` is accepted. */
  lemma FromStrErrors<E>(parseFixed: string -> Result<I64F64, E>)
    ensures FromStr("", parseFixed) == Err(InvalidUnsignedNumber(Empty))
    ensures FromStr("0x", parseFixed) == Err(InvalidHexNumber(Empty))
    ensures FromStr("-", parseFixed) == Err(InvalidSignedNumber(InvalidDigit))
    ensures FromStr("08", parseFixed) == Err(InvalidOctalNumber(InvalidDigit))
    ensures FromStr("0x+f", parseFixed) == Ok(Unsigned(15))
  {
    assert "0x"[..2] == "0x" && "0x"[2..] == "";
    assert "0x+f"[..2] == "0x" && "0x+f"[2..] == "+f";
    assert "+f"[1..] == "f";
    assert "08"[1..] == "8" && "08"[..2] != "0x" && '.' !in "08";
    assert Accumulate("08", 8, false, 0, U64) == Accumulate("8", 8, false, 0, U64) == Err(InvalidDigit);
  }

  /** A decimal value above `u64::MAX` overflows. */
  lemma FromStrOverflow<E>(n: nat, parseFixed: string -> Result<I64F64, E>)
    requires n > U64_MAX
    ensures FromStr(Render(n, 10), parseFixed) == Err(InvalidUnsignedNumber(PosOverflow))
  {
    var s := Render(n, 10);
    RenderDigits(n, 10);
    DigitsParse(s, 10, U64);
    assert s[0] != '-' && s[0] != '+' && s[0] != '0';
    assert |s| >= 2 ==> s[..2][0] == s[0];
  }

  /** Text with a `.` that does not start with `0x` is whatever the
      fixed-point reader makes of it. */
  lemma FromStrFixed<E>(s: string, parseFixed: string -> Result<I64F64, E>)
    requires '.' in s && !(|s| >= 2 && s[..2] == "0x")
    ensures parseFixed(s).Ok? ==> FromStr(s, parseFixed) == Ok(Fixed(parseFixed(s).value))
    ensures parseFixed(s).Err? ==> FromStr(s, parseFixed) == Err(InvalidFixedPointNumber(parseFixed(s).error))
  {
  }
}
