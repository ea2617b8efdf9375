/**
 * `fmt_f64` (src/main.rs): rewrites Rust's scientific rendering of a float
 * (`format!("{:.precision$e}", num)`, e.g. "1.2345e6" or "-3.0000e-5") into
 * a fixed-width form with an explicit exponent sign and a zero-padded
 * exponent ("1.2345e+006" for an exponent pad of 3), right-aligned with
 * spaces to a field width.
 *
 * The float-to-text step is not modelled: its output is the `rendered`
 * input string. Rust's `unwrap` on a missing 'e' panics; here that outcome
 * is `None`.
 */
module SciFormat {
  import opened StrOps

  /** A rendering taken apart: the mantissa, the exponent's sign ('+' or '-') and its digits. */
  datatype Parts = Parts(mantissa: string, sign: char, digits: string)

  /** The text a `Parts` came from: Rust writes a positive exponent with no sign. */
  function Join(p: Parts): string
  {
    p.mantissa + (if p.sign == '-' then "e-" else "e") + p.digits
  }

  /**
   * The sign and digits of an exponent text `exp` that begins at the 'e':
   * '-' and the text after "e-" when it starts with "e-", otherwise '+'
   * and the text after the 'e'.
   */
  function SignAndDigits(exp: string): (r: (char, string))
    requires |exp| >= 1
    ensures r.0 == '-' <==> StartsWith(exp, "e-")
    ensures r.0 == '-' || r.0 == '+'
    ensures exp[0] == 'e' ==> exp == ['e'] + (if r.0 == '-' then ['-'] else []) + r.1
  {
    if StartsWith(exp, "e-") then ('-', exp[2..]) else ('+', exp[1..])
  }

  /**
   * Splitting the rendering at its first 'e': None when there is no 'e'
   * (the `unwrap` panics). Otherwise the mantissa is everything before the
   * first 'e', the sign follows the "e-" rule, and joining the parts gives
   * the rendering back.
   */
  function Split(s: string): (r: Option<Parts>)
    ensures r.None? <==> 'e' !in s
    ensures r.Some? ==> 'e' !in r.value.mantissa && Join(r.value) == s
    ensures r.Some? ==> (r.value.sign == '-' || r.value.sign == '+')
    ensures r.Some? ==> (r.value.sign == '-' <==> StartsWith(s[|r.value.mantissa|..], "e-"))
  {
    match Find(s, 'e')
    case None => None
    case Some(i) =>
      var sd := SignAndDigits(s[i..]);
      JoinAt(s, i);
      Some(Parts(s[..i], sd.0, sd.1))
  }

  /** Cutting at an 'e' and splitting the exponent there loses no text. */
  lemma JoinAt(s: string, i: nat)
    requires i < |s| && s[i] == 'e'
    ensures var sd := SignAndDigits(s[i..]);
            && Join(Parts(s[..i], sd.0, sd.1)) == s
            && sd.1 == s[i + (if sd.0 == '-' then 2 else 1)..]
  {
    var exp := s[i..];
    var sd := SignAndDigits(exp);
    assert s == s[..i] + exp;
    if sd.0 == '-' {
      assert exp == "e-" + sd.1;
      assert s[i + 2..] == exp[2..];
    } else {
      assert exp == "e" + sd.1;
      assert s[i + 1..] == exp[1..];
    }
  }

  /** The buffer after the exponent is rebuilt: mantissa, 'e', sign, digits zero-padded to `expPad`. */
  function Unpadded(p: Parts, expPad: nat): string
  {
    p.mantissa + ['e', p.sign] + PadLeft(p.digits, '0', expPad)
  }

  /** The whole of `fmt_f64`, as a function of the rendering, the field width and the exponent pad. */
  function FmtExp(s: string, width: nat, expPad: nat): (r: Option<string>)
    ensures r.Some? <==> 'e' in s
  {
    match Split(s)
    case None => None
    case Some(p) => Some(PadLeft(Unpadded(p, expPad), ' ', width))
  }

  /**
   * `fmt_f64` step by step: the buffer `num` is cut at the first 'e'
   * (`split_off`), the rebuilt exponent is appended (`push_str`), and the
   * result is right-aligned to `width`.
   */
  method FmtF64(rendered: string, width: nat, expPad: nat) returns (r: Option<string>)
    ensures r == FmtExp(rendered, width, expPad)
    ensures r.None? <==> 'e' !in rendered
  {
    var num := rendered;
    var at := Find(num, 'e');
    if at.None? {
      return None;
    }
    var exp := num[at.value..];
    num := num[..at.value];
    var sign: char;
    var digits: string;
    if StartsWith(exp, "e-") {
      sign, digits := '-', exp[2..];
    } else {
      sign, digits := '+', exp[1..];
    }
    num := num + ['e', sign] + PadLeft(digits, '0', expPad);
    r := Some(PadLeft(num, ' ', width));
  }

  /**
   * The shape of the result: only spaces are added in front, only '0's in
   * front of the exponent digits, the mantissa and the digits are kept
   * whole, and the length is the larger of the field width and what the
   * rebuilt rendering needs.
   */
  lemma FmtExpShape(s: string, width: nat, expPad: nat)
    requires 'e' in s
    ensures var p := Split(s).value;
            var o := FmtExp(s, width, expPad).value;
            && |o| == Max(width, |p.mantissa| + 2 + Max(|p.digits|, expPad))
            && o == Repeat(' ', |o| - |Unpadded(p, expPad)|) + Unpadded(p, expPad)
            && Unpadded(p, expPad)
               == p.mantissa + ['e', p.sign]
                  + Repeat('0', Max(|p.digits|, expPad) - |p.digits|) + p.digits
  {
    assert Split(s).Some?;
    var p := Split(s).value;
    assert FmtExp(s, width, expPad) == Some(PadLeft(Unpadded(p, expPad), ' ', width));
    OutputShape(p, width, expPad);
  }

  /** `FmtExpShape` for the output built from given parts. */
  lemma OutputShape(p: Parts, width: nat, expPad: nat)
    ensures var u := Unpadded(p, expPad);
            var o := PadLeft(u, ' ', width);
            && |o| == Max(width, |p.mantissa| + 2 + Max(|p.digits|, expPad))
            && o == Repeat(' ', |o| - |u|) + u
            && u == p.mantissa + ['e', p.sign]
                    + Repeat('0', Max(|p.digits|, expPad) - |p.digits|) + p.digits
  {
    PadLeftShape(Unpadded(p, expPad), ' ', width);
    PadLeftShape(p.digits, '0', expPad);
  }

  /** Right-alignment is the fill repeated in front of the text. */
  lemma PadLeftShape(t: string, fill: char, width: nat)
    ensures PadLeft(t, fill, width) == Repeat(fill, Max(|t|, width) - |t|) + t
  {
  }

  /**
   * Before the zero padding, the rebuilt rendering is one character longer
   * than the input when the exponent is positive (the inserted '+') and the
   * same length when it is negative.
   */
  lemma SignCharCount(s: string)
    requires 'e' in s
    ensures var p := Split(s).value;
            |Unpadded(p, 0)| == |s| + (if p.sign == '+' then 1 else 0)
  {
  }

  /** The form Rust's `{:e}` gives the exponent digits: non-empty, and no leading '0' unless it is "0". */
  predicate CanonicalDigits(d: string)
  {
    |d| >= 1 && (|d| == 1 || d[0] != '0')
  }

  /** Drops the leading '0's added by exponent padding, keeping at least one character. */
  function StripPadZeros(t: string): (r: string)
    ensures |r| <= |t| && r == t[|t| - |r|..]
    ensures |t| >= 1 ==> CanonicalDigits(r)
  {
    if |t| > 1 && t[0] == '0' then StripPadZeros(t[1..]) else t
  }

  /**
   * Reading a result of `fmt_f64` back: strip the leading spaces, then
   * read the rebuilt rendering.
   */
  function ParseOutput(o: string): Option<Parts>
  {
    ParseRebuilt(TrimStart(o, ' '))
  }

  /**
   * Reading a rebuilt rendering: split at the first 'e', take the sign
   * after it and strip the exponent's padding zeros.
   */
  function ParseRebuilt(u: string): Option<Parts>
  {
    match Find(u, 'e')
    case None => None
    case Some(i) =>
      if i + 1 < |u| && (u[i + 1] == '+' || u[i + 1] == '-') then
        Some(Parts(u[..i], u[i + 1], StripPadZeros(u[i + 2..])))
      else None
  }

  lemma {:induction false} StripPadZerosRepeat(n: nat, d: string)
    requires CanonicalDigits(d)
    ensures StripPadZeros(Repeat('0', n) + d) == d
  {
    if n > 0 {
      var x := Repeat('0', n - 1) + d;
      assert Repeat('0', n) + d == ['0'] + x;
      assert (['0'] + x)[1..] == x;
      StripPadZerosRepeat(n - 1, d);
    } else {
      assert Repeat('0', n) + d == d;
    }
  }

  /** Stripping the padding zeros undoes the exponent's zero padding. */
  lemma StripPadZerosPadLeft(d: string, expPad: nat)
    requires CanonicalDigits(d)
    ensures StripPadZeros(PadLeft(d, '0', expPad)) == d
  {
    var z := PadLeft(d, '0', expPad);
    assert z == Repeat('0', |z| - |d|) + d;
    StripPadZerosRepeat(|z| - |d|, d);
  }

  /**
   * The parts Rust's `{:e}` can produce: a mantissa without 'e' that does
   * not start with a space, a sign, and canonical decimal exponent digits.
   */
  predicate Canonical(p: Parts)
  {
    && 'e' !in p.mantissa
    && (p.mantissa == [] || p.mantissa[0] != ' ')
    && (p.sign == '-' || p.sign == '+')
    && IsDigits(p.digits) && CanonicalDigits(p.digits)
  }

  /**
   * Splitting undoes joining, so a rendering determines its parts: the
   * mantissa holds no 'e', and a '+' exponent's digits do not begin with '-'.
   */
  lemma SplitJoin(p: Parts)
    requires 'e' !in p.mantissa && (p.sign == '-' || p.sign == '+')
    requires p.sign == '+' ==> p.digits == [] || p.digits[0] != '-'
    ensures Split(Join(p)) == Some(p)
  {
    var t := if p.sign == '-' then "e-" else "e";
    var s := Join(p);
    var i := |p.mantissa|;
    assert s == p.mantissa + (t + p.digits);
    assert Find(s, 'e') == Some(i) by {
      FindAfter(p.mantissa, t + p.digits, 'e');
    }
    assert s[..i] == p.mantissa;
    assert SignAndDigits(s[i..]) == (p.sign, p.digits) by {
      var exp := s[i..];
      assert exp == t + p.digits;
      if p.sign == '-' {
        assert StartsWith(exp, "e-");
        assert exp[2..] == p.digits;
      } else {
        assert !StartsWith(exp, "e-") by {
          if |exp| >= 2 { assert exp[1] == p.digits[0]; }
        }
        assert exp[1..] == p.digits;
      }
    }
  }

  /** The rebuilt rendering reads back as the parts it was built from. */
  lemma ParseUnpadded(p: Parts, expPad: nat)
    requires Canonical(p)
    ensures ParseRebuilt(Unpadded(p, expPad)) == Some(p)
  {
    ParseExponent(p.mantissa, p.sign, PadLeft(p.digits, '0', expPad));
    StripPadZerosPadLeft(p.digits, expPad);
  }

  /** Reading back a mantissa without 'e', then 'e', a sign and exponent text `z`. */
  lemma ParseExponent(m: string, sign: char, z: string)
    requires 'e' !in m && (sign == '-' || sign == '+')
    ensures ParseRebuilt(m + ['e', sign] + z) == Some(Parts(m, sign, StripPadZeros(z)))
  {
    var t := ['e', sign] + z;
    var u := m + t;
    assert m + ['e', sign] + z == u;
    FindAfter(m, t, 'e');
    var i := |m|;
    assert u[i + 1] == sign;
    assert u[..i] == m;
    assert u[i + 2..] == z;
  }

  /**
   * The padding loses nothing: the output of `fmt_f64` for the rendering
   * of canonical parts reads back as exactly those parts.
   */
  lemma RoundTrip(p: Parts, width: nat, expPad: nat)
    requires Canonical(p)
    ensures FmtExp(Join(p), width, expPad).Some?
    ensures ParseOutput(FmtExp(Join(p), width, expPad).value) == Some(p)
  {
    assert '0' <= p.digits[0] <= '9';
    SplitJoin(p);
    var u := Unpadded(p, expPad);
    assert u[0] != ' ' by {
      if p.mantissa == [] { assert u[0] == 'e'; } else { assert u[0] == p.mantissa[0]; }
    }
    assert FmtExp(Join(p), width, expPad) == Some(PadLeft(u, ' ', width));
    TrimStartPadLeft(u, ' ', width);
    ParseUnpadded(p, expPad);
  }

  /**
   * Stated on the rendering itself: stripping the leading spaces and the
   * exponent's padding zeros of the output gives back the mantissa, sign
   * and digits, and so the original rendering.
   */
  lemma RenderingRoundTrip(s: string, width: nat, expPad: nat)
    requires 'e' in s && Canonical(Split(s).value)
    ensures ParseOutput(FmtExp(s, width, expPad).value) == Split(s)
    ensures Join(ParseOutput(FmtExp(s, width, expPad).value).value) == s
  {
    RoundTrip(Split(s).value, width, expPad);
  }

  /** The text consists of decimal digits only. */
  predicate IsDigits(d: string)
  {
    forall k :: 0 <= k < |d| ==> '0' <= d[k] <= '9'
  }

  function Pow10(n: nat): nat
  {
    if n == 0 then 1 else 10 * Pow10(n - 1)
  }

  /** The number a string of decimal digits denotes. */
  function DecValue(d: string): nat
    requires IsDigits(d)
  {
    if d == [] then 0
    else
      var digit: nat := d[0] as int - '0' as int;
      var weight := Pow10(|d| - 1);
      assert digit * weight >= 0;
      digit * weight + DecValue(d[1..])
  }

  lemma {:induction false} DecValueZeros(n: nat, d: string)
    requires IsDigits(d)
    ensures IsDigits(Repeat('0', n) + d)
    ensures DecValue(Repeat('0', n) + d) == DecValue(d)
  {
    if n > 0 {
      var w := Repeat('0', n) + d;
      assert w[0] == '0' && w[1..] == Repeat('0', n - 1) + d;
      DecValueZeros(n - 1, d);
      assert IsDigits(w) by {
        forall k | 0 <= k < |w| ensures '0' <= w[k] <= '9' {
          if k > 0 { assert w[k] == w[1..][k - 1]; }
        }
      }
      assert (w[0] as int - '0' as int) * Pow10(|w| - 1) == 0;
      assert DecValue(w) == DecValue(w[1..]);
    } else {
      assert Repeat('0', n) + d == d;
    }
  }

  /** Zero-padding the exponent digits does not change the exponent they denote. */
  lemma PadKeepsExponent(d: string, expPad: nat)
    requires IsDigits(d)
    ensures IsDigits(PadLeft(d, '0', expPad))
    ensures DecValue(PadLeft(d, '0', expPad)) == DecValue(d)
  {
    var z := PadLeft(d, '0', expPad);
    assert z == Repeat('0', |z| - |d|) + d;
    DecValueZeros(|z| - |d|, d);
  }
}
