/** Exact decimal amounts: `parse_amount` and `format_amount` of app/core/src/chain.rs. */
module Amount {
  import opened Wrappers
  import opened Arith
  import opened Text

  const MAX_U128: int := 0x1_0000_0000_0000_0000 * 0x1_0000_0000_0000_0000 - 1

  /** The largest power of ten that fits in 128 bits. */
  const MAX_DECIMALS: nat := 38

  function Pow10(n: nat): (p: nat)
    ensures p > 0
  {
    if n == 0 then 1 else 10 * Pow10(n - 1)
  }

  lemma PowStep(n: nat)
    ensures Pow10(0) == 1 && Pow10(n + 1) == 10 * Pow10(n)
  {
  }

  lemma Regroup(c: nat, x: nat, y: nat)
    ensures c * (x * y) == (c * x) * y
  {
  }

  lemma {:induction false} PowSum(a: nat, b: nat)
    ensures Pow10(a + b) == Pow10(a) * Pow10(b)
    decreases a
  {
    hide Pow10;
    PowStep(0);
    if a > 0 {
      PowSum(a - 1, b);
      PowStep(a - 1);
      PowStep(a - 1 + b);
      Regroup(10, Pow10(a - 1), Pow10(b));
    }
  }

  lemma {:induction false} PowMono(a: nat, b: nat)
    requires a <= b
    ensures Pow10(a) <= Pow10(b)
  {
    PowSum(a, b - a);
    MulAtLeast(Pow10(a), Pow10(b - a));
  }

  /** 10^38 fits in 128 bits and 10^39 does not. */
  lemma LargestPower()
    ensures Pow10(MAX_DECIMALS) <= MAX_U128 < Pow10(MAX_DECIMALS + 1)
  {
    assert Pow10(10) == 10_000_000_000;
    PowSum(10, 10);
    assert Pow10(20) == 100_000_000_000_000_000_000;
    assert Pow10(8) == 100_000_000;
    PowSum(10, 8);
    PowSum(20, 18);
    assert Pow10(38) == 100_000_000_000_000_000_000 * 1_000_000_000_000_000_000;
  }

  // -------------------------------------------------------------------- strings ---

  predicate IsDigit(c: char) {
    '0' <= c <= '9'
  }

  predicate AllDigits(s: string) {
    forall i :: 0 <= i < |s| ==> IsDigit(s[i])
  }

  /** Where the first dot is; the length if there is none. */
  function DotAt(s: string): (i: nat)
    ensures i <= |s| && (forall k :: 0 <= k < i ==> s[k] != '.') && (i < |s| ==> s[i] == '.')
  {
    if s == [] || s[0] == '.' then 0 else 1 + DotAt(s[1..])
  }

  function WholePart(t: string): string {
    t[..DotAt(t)]
  }

  function FracPart(t: string): string {
    if DotAt(t) == |t| then "" else t[DotAt(t) + 1..]
  }

  function Value(s: string): nat
    requires AllDigits(s)
  {
    if s == [] then 0 else Value(s[..|s| - 1]) * 10 + (s[|s| - 1] as int - '0' as int)
  }

  // -------------------------------------------------------------------- parsing ---

  /** Digits with at most one dot among them, and at least one digit. */
  predicate Grammar(t: string) {
    AllDigits(WholePart(t)) && AllDigits(FracPart(t)) && (WholePart(t) != "" || FracPart(t) != "")
  }

  function Scaled(t: string, decimals: nat): nat
    requires Grammar(t) && |FracPart(t)| <= decimals
  {
    Value(WholePart(t)) * Pow10(decimals) + Value(FracPart(t)) * Pow10(decimals - |FracPart(t)|)
  }

  lemma {:induction false} DotAfter(w: string, rest: string)
    requires AllDigits(w)
    ensures DotAt(w + "." + rest) == |w| && DotAt(w) == |w|
  {
    var t := w + "." + rest;
    assert t[|w|] == '.' && forall k :: 0 <= k < |w| ==> t[k] == w[k];
  }

  /** The grammar, said without the search for the dot: some digits, or digits around one dot, not both
      empty; and the value is that of the digits, the last of which counts 10^(decimals - |f|). */
  lemma {:induction false} GrammarExactly(w: string, f: string, decimals: nat)
    requires AllDigits(w) && AllDigits(f) && |f| <= decimals
    ensures Grammar(w) <==> w != ""
    ensures Grammar(w + "." + f) <==> w != "" || f != ""
    ensures w != "" ==> FracPart(w) == "" && Scaled(w, decimals) == Value(w) * Pow10(decimals)
    ensures w != "" || f != "" ==>
              && FracPart(w + "." + f) == f
              && Scaled(w + "." + f, decimals) == Value(w) * Pow10(decimals) + Value(f) * Pow10(decimals - |f|)
  {
    hide DotAt, Value, Pow10;
    DotAfter(w, f);
    NoFraction(decimals);
    assert (w + "." + f)[..|w|] == w && (w + "." + f)[|w| + 1..] == f && w[..|w|] == w;
  }

  lemma NoFraction(decimals: nat)
    ensures Value("") * Pow10(decimals) == 0
  {
    assert Value("") == 0;
  }

  /** Nothing else is in the grammar. */
  lemma GrammarOnly(t: string)
    requires Grammar(t)
    ensures (t != "" && AllDigits(t))
            || exists w, f :: t == w + "." + f && AllDigits(w) && AllDigits(f) && (w != "" || f != "")
  {
    var i := DotAt(t);
    if i < |t| {
      assert t == t[..i] + "." + t[i + 1..];
    } else {
      assert t[..i] == t;
    }
  }

  datatype AmountError = InvalidAmount | TooManyDecimals | Overflow

  /** Which inputs parse, and to what. */
  ghost predicate ParsesTo(input: string, decimals: nat, v: nat) {
    var t := Trim(input);
    && Grammar(t) && |FracPart(t)| <= decimals <= MAX_DECIMALS
    && Scaled(t, decimals) == v <= MAX_U128
  }

  /** The library's decimal parser: fails on a value that does not fit. */
  method ParseU128(s: string) returns (r: Option<nat>)
    requires AllDigits(s)
    ensures r == if Value(s) <= MAX_U128 then Some(Value(s)) else None
  {
    var v := 0;
    var i := 0;
    while i < |s|
      invariant 0 <= i <= |s| && v == Value(s[..i]) <= MAX_U128
    {
      assert s[..i + 1][..i] == s[..i];
      v := v * 10 + (s[i] as int - '0' as int);
      i := i + 1;
      if v > MAX_U128 {
        ValuePrefix(s, i);
        return None;
      }
    }
    assert s[..i] == s;
    return Some(v);
  }

  lemma {:induction false} ValuePrefix(s: string, i: nat)
    requires AllDigits(s) && i <= |s|
    ensures Value(s[..i]) <= Value(s)
    decreases |s|
  {
    if i < |s| {
      ValuePrefix(s[..|s| - 1], i);
      assert s[..|s| - 1][..i] == s[..i];
    } else {
      assert s[..i] == s;
    }
  }

  method ParseAmount(input: string, decimals: nat) returns (r: Result<nat, AmountError>)
    requires decimals <= 255
    ensures r.Ok? ==> ParsesTo(input, decimals, r.value)
    ensures r == Err(InvalidAmount) <==> !Grammar(Trim(input))
    ensures r == Err(TooManyDecimals) <==> Grammar(Trim(input)) && |FracPart(Trim(input))| > decimals
    ensures r == Err(Overflow) <==> && Grammar(Trim(input)) && |FracPart(Trim(input))| <= decimals
                                    && (decimals > MAX_DECIMALS || Scaled(Trim(input), decimals) > MAX_U128)
  {
    hide Trim, TrimStart, TrimEnd, DotAt, Pow10, Value;
    var trimmed := Trim(input);
    if trimmed == "" {
      assert WholePart(trimmed) == "" && FracPart(trimmed) == "";
      return Err(InvalidAmount);
    }
    var whole, frac := WholePart(trimmed), FracPart(trimmed);
    if (whole == "" && frac == "") || '.' in frac {
      assert '.' in frac ==> !AllDigits(frac);
      return Err(InvalidAmount);
    }
    if !AllDigits(whole) || !AllDigits(frac) {
      return Err(InvalidAmount);
    }
    if |frac| > decimals {
      return Err(TooManyDecimals);
    }
    LargestPower();
    if decimals > MAX_DECIMALS {
      // checked_pow: 10^39 is already out of range.
      return Err(Overflow);
    }
    var scale := Pow10(decimals);
    PartsBound(trimmed, decimals);
    var w := ParseU128(whole);
    if w.None? {
      return Err(Overflow);
    }
    var f := ParseU128(frac);
    if f.None? {
      return Err(Overflow);
    }
    var fracUnits := f.value;
    fracUnits := fracUnits * Pow10(decimals - |frac|);
    if w.value * scale > MAX_U128 || w.value * scale + fracUnits > MAX_U128 {
      return Err(Overflow);
    }
    return Ok(w.value * scale + fracUnits);
  }

  lemma {:induction false} ValueBound(s: string)
    requires AllDigits(s)
    ensures Value(s) < Pow10(|s|)
    decreases |s|
  {
    if s != [] {
      ValueBound(s[..|s| - 1]);
    }
  }

  lemma FracBound(frac: string, decimals: nat)
    requires AllDigits(frac) && |frac| <= decimals
    ensures Value(frac) * Pow10(decimals - |frac|) < Pow10(decimals)
    ensures Value(frac) <= Value(frac) * Pow10(decimals - |frac|)
  {
    ValueBound(frac);
    PowSum(|frac|, decimals - |frac|);
    MulLess(Value(frac), Pow10(|frac|), Pow10(decimals - |frac|));
    MulAtLeast(Value(frac), Pow10(decimals - |frac|));
  }

  /** No part can exceed the range unless the scaled value does. */
  lemma {:induction false} PartsBound(t: string, decimals: nat)
    requires Grammar(t) && |FracPart(t)| <= decimals <= MAX_DECIMALS
    ensures Value(WholePart(t)) <= Value(WholePart(t)) * Pow10(decimals) <= Scaled(t, decimals)
    ensures Value(FracPart(t)) <= MAX_U128
  {
    MulAtLeast(Value(WholePart(t)), Pow10(decimals));
    FracBound(FracPart(t), decimals);
    LargestPower();
    PowMono(decimals, MAX_DECIMALS);
  }

  // ------------------------------------------------------------------- printing ---

  function DigitChar(d: nat): (c: char)
    requires d < 10
    ensures IsDigit(c) && c as int - '0' as int == d
  {
    ('0' as int + d) as char
  }

  /** `to_string` of an integer. */
  function Dec(n: nat): (s: string)
    ensures s != [] && AllDigits(s)
  {
    if n < 10 then [DigitChar(n)] else Dec(n / 10) + [DigitChar(n % 10)]
  }

  function Zeros(n: nat): (s: string)
    ensures |s| == n && AllDigits(s)
  {
    seq(n, _ => '0')
  }

  /** `{:0>width$}`. */
  function PadStart(s: string, width: nat): string {
    if |s| < width then Zeros(width - |s|) + s else s
  }

  /** `trim_end_matches('0')`. */
  function TrimZeros(s: string): (r: string)
    ensures r <= s
  {
    if s != [] && s[|s| - 1] == '0' then TrimZeros(s[..|s| - 1]) else s
  }

  function FormatAmount(v: nat, decimals: nat): string
    requires v <= MAX_U128 && decimals <= MAX_DECIMALS
  {
    var scale := Pow10(decimals);
    var whole := Quotient(v, scale);
    var frac := Remainder(v, scale);
    if frac == 0 then Dec(whole)
    else Dec(whole) + "." + TrimZeros(PadStart(Dec(frac), decimals))
  }

  // ---------------------------------------------------------- digits and values ---

  lemma {:induction false} DecValue(n: nat)
    ensures Value(Dec(n)) == n
    decreases n
  {
    var s := Dec(n);
    if n < 10 {
      assert s[..0] == [];
    } else {
      DecValue(n / 10);
      assert s[..|s| - 1] == Dec(n / 10);
    }
  }

  lemma {:induction false} DecLength(n: nat, d: nat)
    requires n < Pow10(d) && d > 0
    ensures |Dec(n)| <= d
    decreases d
  {
    if n >= 10 {
      assert d > 1 by {
        assert Pow10(1) == 10 * Pow10(0);
      }
      DecLength(n / 10, d - 1);
    }
  }

  /** Digit strings of one length are told apart by their values. */
  lemma {:induction false} SameValueSameDigits(a: string, b: string)
    requires AllDigits(a) && AllDigits(b) && |a| == |b| && Value(a) == Value(b)
    ensures a == b
    decreases |a|
  {
    if a != [] {
      var n := |a| - 1;
      SameValueSameDigits(a[..n], b[..n]);
      assert a == a[..n] + [a[n]] && b == b[..n] + [b[n]];
    }
  }

  lemma ShiftDigit(va: int, p: int, vb: int, d: int)
    ensures (va * p + vb) * 10 + d == va * (10 * p) + (vb * 10 + d)
  {
  }

  lemma {:induction false} ValueConcat(a: string, b: string)
    requires AllDigits(a) && AllDigits(b)
    ensures AllDigits(a + b) && Value(a + b) == Value(a) * Pow10(|b|) + Value(b)
    decreases |b|
  {
    if b == [] {
      assert a + b == a;
    } else {
      var n := |b| - 1;
      ValueConcat(a, b[..n]);
      assert (a + b)[..|a + b| - 1] == a + b[..n];
      var d := b[n] as int - '0' as int;
      var va, vb, p := Value(a), Value(b[..n]), Pow10(n);
      assert Value(a + b) == (va * p + vb) * 10 + d;
      ShiftDigit(va, p, vb, d);
    }
  }

  lemma {:induction false} ZerosValue(n: nat)
    ensures Value(Zeros(n)) == 0
    decreases n
  {
    if n > 0 {
      ZerosValue(n - 1);
      assert Zeros(n)[..n - 1] == Zeros(n - 1);
    }
  }

  lemma {:induction false} PadValue(s: string, width: nat)
    requires AllDigits(s)
    ensures AllDigits(PadStart(s, width)) && Value(PadStart(s, width)) == Value(s)
  {
    if |s| < width {
      ZerosValue(width - |s|);
      ValueConcat(Zeros(width - |s|), s);
    }
  }

  lemma {:induction false} TrimZerosTail(s: string)
    ensures s == TrimZeros(s) + Zeros(|s| - |TrimZeros(s)|)
    ensures TrimZeros(s) != [] ==> TrimZeros(s)[|TrimZeros(s)| - 1] != '0'
    decreases |s|
  {
    if s != [] && s[|s| - 1] == '0' {
      var init := s[..|s| - 1];
      TrimZerosTail(init);
      var k := |init| - |TrimZeros(init)|;
      assert Zeros(k + 1) == Zeros(k) + "0";
      assert s == init + "0";
    } else {
      assert Zeros(0) == [];
    }
  }

  lemma {:induction false} TrimOne(s: string)
    ensures TrimZeros(s + "0") == TrimZeros(s)
  {
    assert (s + "0")[..|s|] == s;
  }

  lemma {:induction false} TrimZerosAbsorbs(s: string, n: nat)
    ensures TrimZeros(s + Zeros(n)) == TrimZeros(s)
    decreases n
  {
    hide TrimZeros;
    if n == 0 {
      assert s + Zeros(0) == s;
    } else {
      TrimZerosAbsorbs(s, n - 1);
      TrimOne(s + Zeros(n - 1));
      assert s + Zeros(n) == s + Zeros(n - 1) + "0";
    }
  }

  lemma {:induction false} TrimZerosValue(s: string)
    requires AllDigits(s)
    ensures var t := TrimZeros(s);
            AllDigits(t) && Value(s) == Value(t) * Pow10(|s| - |t|)
  {
    var t := TrimZeros(s);
    TrimZerosTail(s);
    assert forall i :: 0 <= i < |t| ==> t[i] == s[i];
    ZerosValue(|s| - |t|);
    ValueConcat(t, Zeros(|s| - |t|));
  }

  // ----------------------------------------------------------------- round trips ---

  lemma TrimKeeps(s: string)
    requires s != [] && !IsWhite(s[0]) && !IsWhite(s[|s| - 1])
    ensures Trim(s) == s
  {
  }

  lemma Parts(whole: string, frac: string)
    requires AllDigits(whole) && AllDigits(frac)
    ensures WholePart(whole) == whole && FracPart(whole) == ""
    ensures WholePart(whole + "." + frac) == whole && FracPart(whole + "." + frac) == frac
  {
    var t := whole + "." + frac;
    assert t[|whole|] == '.';
    assert DotAt(t) == |whole| by {
      assert DotAt(t) <= |whole|;
      assert DotAt(t) < |whole| ==> IsDigit(t[DotAt(t)]);
    }
    assert t[|whole| + 1..] == frac;
    assert DotAt(whole) == |whole| by {
      assert DotAt(whole) < |whole| ==> IsDigit(whole[DotAt(whole)]);
    }
    assert whole[..|whole|] == whole;
  }

  lemma {:induction false} FormatWhole(whole: nat, decimals: nat)
    requires decimals <= MAX_DECIMALS && whole * Pow10(decimals) <= MAX_U128
    ensures ParsesTo(Dec(whole), decimals, whole * Pow10(decimals))
  {
    hide DotAt, TrimStart, TrimEnd;
    Parts(Dec(whole), "");
    TrimKeeps(Dec(whole));
    DecValue(whole);
    assert Value("") == 0;
  }

  lemma {:induction false} NotEmpty(t: string, p: nat, frac: nat)
    requires AllDigits(t) && Value(t) * p == frac && frac > 0
    ensures t != ""
  {
    if t == "" {
      NoDigits();
    }
  }

  /** The printed fraction: its digits, and what they are worth. */
  lemma FormatFrac(frac: nat, decimals: nat)
    requires 0 < frac < Pow10(decimals)
    ensures var t := TrimZeros(PadStart(Dec(frac), decimals));
            AllDigits(t) && t != "" && |t| <= decimals && Value(t) * Pow10(decimals - |t|) == frac
  {
    hide Value, Dec, TrimZeros, Pow10;
    PowStep(0);
    if decimals == 0 {
      assert false;
    }
    var padded := PadStart(Dec(frac), decimals);
    DecLength(frac, decimals);
    DecValue(frac);
    PadValue(Dec(frac), decimals);
    TrimZerosValue(padded);
    var t := TrimZeros(padded);
    NotEmpty(t, Pow10(|padded| - |t|), frac);
  }

  lemma FormatBoth(whole: nat, t: string, decimals: nat, units: nat)
    requires AllDigits(t) && t != "" && |t| <= decimals <= MAX_DECIMALS
    requires units == whole * Pow10(decimals) + Value(t) * Pow10(decimals - |t|) && units <= MAX_U128
    ensures ParsesTo(Dec(whole) + "." + t, decimals, units)
  {
    hide DotAt, TrimStart, TrimEnd, Pow10;
    var s := Dec(whole) + "." + t;
    assert s[0] == Dec(whole)[0] && s[|s| - 1] == t[|t| - 1];
    Parts(Dec(whole), t);
    TrimKeeps(s);
    DecValue(whole);
  }

  /** Printing and parsing again gives the amount back, for every 128-bit value. */
  lemma FormatParses(v: nat, decimals: nat)
    requires v <= MAX_U128 && decimals <= MAX_DECIMALS
    ensures ParsesTo(FormatAmount(v, decimals), decimals, v)
  {
    hide ParsesTo, Pow10, Quotient, Remainder, TrimZeros, PadStart, Dec, Value;
    var scale := Pow10(decimals);
    var whole, frac := Quotient(v, scale), Remainder(v, scale);
    QuotientRemainder(v, scale);
    if frac == 0 {
      FormatWhole(whole, decimals);
    } else {
      FormatFrac(frac, decimals);
      FormatBoth(whole, TrimZeros(PadStart(Dec(frac), decimals)), decimals, v);
    }
  }

  function StripLeading(s: string): string {
    if |s| > 1 && s[0] == '0' then StripLeading(s[1..]) else if s == [] then "0" else s
  }

  /** No superfluous zeros on either side, no dot without a fraction, "0" for nothing. */
  function NormalForm(t: string): string {
    var w, f := StripLeading(WholePart(t)), TrimZeros(FracPart(t));
    if f == "" then w else w + "." + f
  }

  lemma {:induction false} LeadingZero(s: string)
    requires AllDigits(s) && s != [] && s[0] == '0'
    ensures AllDigits(s[1..]) && Value(s) == Value(s[1..])
  {
    ValueConcat(s[..1], s[1..]);
    assert s[..1] + s[1..] == s && s[..1][..0] == [];
    assert Value(s[..1]) == 0;
  }

  lemma {:induction false} OneDigit(s: string)
    requires AllDigits(s) && |s| == 1
    ensures Dec(Value(s)) == s
  {
    assert s[..0] == [];
  }

  lemma NoDigits()
    ensures Value("") == 0 && Dec(0) == "0"
  {
  }

  lemma {:induction false} StripLeadingIsDec(s: string)
    requires AllDigits(s)
    ensures StripLeading(s) == Dec(Value(s))
    decreases |s|
  {
    hide Value, Dec;
    if s == [] {
      NoDigits();
    } else if |s| == 1 {
      OneDigit(s);
    } else if s[0] == '0' {
      LeadingZero(s);
      StripLeadingIsDec(s[1..]);
    } else {
      DecOfDigits(s);
    }
  }

  lemma {:induction false} DecOfDigits(s: string)
    requires AllDigits(s) && s != [] && s[0] != '0'
    ensures Dec(Value(s)) == s && Value(s) > 0
    decreases |s|
  {
    var n := |s| - 1;
    var d := s[n] as int - '0' as int;
    if n == 0 {
      assert s[..0] == [];
      assert s == [DigitChar(d)];
    } else {
      DecOfDigits(s[..n]);
      assert Value(s) == Value(s[..n]) * 10 + d;
      assert Value(s) / 10 == Value(s[..n]) && Value(s) % 10 == d;
      assert s == s[..n] + [s[n]];
    }
  }

  /** The digits of a fraction are the printed ones up to trailing zeros. */
  lemma FracFormats(f: string, decimals: nat)
    requires AllDigits(f) && |f| <= decimals
    ensures var units := Value(f) * Pow10(decimals - |f|);
            && (units == 0 <==> TrimZeros(f) == "")
            && (units > 0 ==> TrimZeros(PadStart(Dec(units), decimals)) == TrimZeros(f))
  {
    hide PadStart, Dec, Zeros, Pow10;
    var k := decimals - |f|;
    var units := Value(f) * Pow10(k);
    FracBound(f, decimals);
    TrimZerosValue(f);
    TrimZerosTail(f);
    if units == 0 {
      NonZeroTail(TrimZeros(f), Value(f), |f| - |TrimZeros(f)|, Pow10(k));
    } else {
      assert Value("") == 0;
      SamePadding(f, k, units);
      TrimZerosAbsorbs(f, k);
    }
  }

  lemma SamePadding(f: string, k: nat, units: nat)
    requires AllDigits(f) && units == Value(f) * Pow10(k) && 0 < units < Pow10(|f| + k)
    ensures PadStart(Dec(units), |f| + k) == f + Zeros(k)
  {
    var padded := PadStart(Dec(units), |f| + k);
    assert Pow10(0) == 1;
    DecLength(units, |f| + k);
    DecValue(units);
    PadValue(Dec(units), |f| + k);
    ZerosValue(k);
    ValueConcat(f, Zeros(k));
    SameValueSameDigits(padded, f + Zeros(k));
  }

  /** Parsing and printing again gives the normal form of what was typed. */
  lemma ParseFormats(input: string, decimals: nat, v: nat)
    requires ParsesTo(input, decimals, v)
    ensures FormatAmount(v, decimals) == NormalForm(Trim(input))
  {
    hide DotAt, Trim, Pow10, TrimZeros, PadStart, Dec, Value, StripLeading;
    var t := Trim(input);
    var w, f := WholePart(t), FracPart(t);
    FracBound(f, decimals);
    DivMod(Value(w), Pow10(decimals), Value(f) * Pow10(decimals - |f|));
    StripLeadingIsDec(w);
    FracFormats(f, decimals);
  }

  /** A digit string that does not end in zero is zero only if it is empty. */
  lemma {:induction false} NonZeroTail(t: string, value: nat, n: nat, p: nat)
    requires AllDigits(t) && (t != [] ==> t[|t| - 1] != '0')
    requires value == Value(t) * Pow10(n) && value * p == 0 && p > 0
    ensures t == ""
  {
    if t != "" {
      assert Value(t) > 0;
      MulAtLeast(Value(t), Pow10(n));
      MulAtLeast(value, p);
    }
  }
}
