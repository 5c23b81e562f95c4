/** `Position`: one axis of an action's placement, resolved to pixel offsets. */
module Positions {
  import opened Results
  import opened Strings
  import opened JsModel

  type pos = x: int | x > 0 witness 1

  /** The outcome of `parseFloat`: NaN, an infinity, or an exact rational
      `num / den` (floating-point rounding is not modelled). */
  datatype ParsedNumber = NotANumber | Finite(num: int, den: pos) | PosInfinity | NegInfinity

  /** The whitespace `parseFloat` skips (Unicode space separators beyond
      no-break space are not modelled). */
  predicate IsSpace(c: char) {
    c == ' ' || c == '\t' || c == '\n' || c == '\r' ||
    (c as int) in {0x0B, 0x0C, 0xA0, 0x2028, 0x2029, 0xFEFF}
  }

  function TrimStart(s: string): (r: string)
    ensures |r| <= |s|
  {
    if |s| > 0 && IsSpace(s[0]) then TrimStart(s[1..]) else s
  }

  function Pow10(n: nat): pos {
    if n == 0 then 1 else 10 * Pow10(n - 1)
  }

  /** The value of an optional exponent part `e[+-]digits` at the start of `s`
      (0 when there is none: `parseFloat` stops before an incomplete exponent). */
  function ExponentOf(s: string): int {
    if |s| == 0 || (s[0] != 'e' && s[0] != 'E') then 0
    else
      var t := s[1..];
      var sign := if |t| > 0 && t[0] == '-' then -1 else 1;
      var u := if |t| > 0 && (t[0] == '-' || t[0] == '+') then t[1..] else t;
      var d := DigitPrefix(u);
      if |d| == 0 then 0 else sign * DigitsToNat(d)
  }

  /** `parseFloat`: reads the longest prefix that is a decimal literal and
      ignores the rest (such as a trailing '%'). */
  function ParseFloat(s: string): ParsedNumber {
    var t := TrimStart(s);
    var negative := |t| > 0 && t[0] == '-';
    var u := if |t| > 0 && (t[0] == '-' || t[0] == '+') then t[1..] else t;
    if |u| >= 8 && u[..8] == "Infinity" then
      if negative then NegInfinity else PosInfinity
    else
      var intDigits := DigitPrefix(u);
      var rest := u[|intDigits|..];
      var hasPoint := |rest| > 0 && rest[0] == '.';
      var fracDigits := if hasPoint then DigitPrefix(rest[1..]) else "";
      if |intDigits| == 0 && |fracDigits| == 0 then NotANumber
      else
        var after := if hasPoint then rest[1 + |fracDigits|..] else rest;
        var magnitude: int := DigitsToNat(intDigits + fracDigits);
        var signed := if negative then -magnitude else magnitude;
        var scale := |fracDigits| - ExponentOf(after);
        if scale >= 0 then Finite(signed, Pow10(scale)) else Finite(signed * Pow10(-scale), 1)
  }

  datatype PositionError =
    | NotAPercent(text: string)          // a string that does not end in '%'
    | PercentOutOfRange                  // a percent below 0 or above 100
    | NotStringOrNumber(value: JsValue)  // anything else, including undefined and null

  /** A `start` or `end` spec: a percent string, a pixel count, or a
      negative pixel offset from the far edge. */
  datatype Position = Position(start: JsValue, end: JsValue)

  /** The class defaults: the whole axis. */
  const DefaultPosition := Position(Num(0), Str("100%"))

  /** `Position.from(json)`: the JSON's `start`/`end` override the defaults. */
  function PositionFrom(start: Option<JsValue>, end: Option<JsValue>): (p: Position)
    ensures p.start == (if start.Some? then start.value else DefaultPosition.start)
    ensures p.end == (if end.Some? then end.value else DefaultPosition.end)
  {
    Position(
      match start case Some(v) => v case None => DefaultPosition.start,
      match end case Some(v) => v case None => DefaultPosition.end)
  }

  /** Resolved pixel offsets of one axis. */
  datatype Span = Span(start: int, end: int)

  /** `maybeValuePercent`: `Ok(None)` stands for its `undefined` (not a
      string) and for a NaN result (a '%' string with no number in front). */
  function MaybeValuePercent(value: JsValue, size: int): Result<Option<int>, PositionError> {
    match value
    case Str(s) =>
      if |s| == 0 || s[|s| - 1] != '%' then Err(NotAPercent(s))
      else
        (match ParseFloat(s)
         case NotANumber => Ok(None)
         case PosInfinity => Err(PercentOutOfRange)
         case NegInfinity => Err(PercentOutOfRange)
         case Finite(num, den) =>
           if num < 0 || num > 100 * den then Err(PercentOutOfRange)
           // Math.floor(size * percent / 100); division by a positive number floors
           else Ok(Some(size * num / (100 * den))))
    case _ => Ok(None)
  }

  /** `getValueNumber`: a pixel count clamped to the axis; negative values
      count back from the far edge. */
  function GetValueNumber(value: JsValue, size: int): Result<int, PositionError> {
    match value
    case Num(n) => if n < 0 then Ok(Max(0, size + n)) else Ok(Min(size, n))
    case _ => Err(NotStringOrNumber(value))
  }

  function Min(a: int, b: int): int { if a <= b then a else b }
  function Max(a: int, b: int): int { if a >= b then a else b }

  /** One value resolved on its own: the percent reading, else the number reading. */
  function ResolveValue(value: JsValue, size: int): Result<int, PositionError> {
    var p :- MaybeValuePercent(value, size);
    if p.Some? then Ok(p.value) else GetValueNumber(value, size)
  }

  /** `Position.calculate(size)`. Both percent readings happen before either
      number reading, so errors surface in that order. When `size` is not
      negative, both offsets lie in [0, size], as the source comment promises. */
  function Calculate(p: Position, size: int): (r: Result<Span, PositionError>)
    ensures r.Ok? && size >= 0 ==> 0 <= r.value.start <= size && 0 <= r.value.end <= size
  {
    var start :- MaybeValuePercent(p.start, size);
    var end :- MaybeValuePercent(p.end, size);
    var startPx :- if start.Some? then Ok(start.value) else GetValueNumber(p.start, size);
    var endPx :- if end.Some? then Ok(end.value) else GetValueNumber(p.end, size);
    PercentInRange(p.start, size);
    PercentInRange(p.end, size);
    Ok(Span(startPx, endPx))
  }

  /** An accepted percent lies in [0, size]. */
  lemma PercentInRange(value: JsValue, size: int)
    ensures size >= 0 && MaybeValuePercent(value, size).Ok? && MaybeValuePercent(value, size).value.Some? ==>
              0 <= MaybeValuePercent(value, size).value.value <= size
  {
    if size >= 0 && value.Str? && MaybeValuePercent(value, size).Ok? {
      var s := value.s;
      if |s| > 0 && s[|s| - 1] == '%' && ParseFloat(s).Finite? {
        var num, den := ParseFloat(s).num, ParseFloat(s).den;
        if 0 <= num <= 100 * den {
          FloorScaleBounds(size, num, 100 * den);
        }
      }
    }
  }

  /** 0 <= floor(size * num / den) <= size for 0 <= num <= den. */
  lemma FloorScaleBounds(size: nat, num: nat, den: pos)
    requires num <= den
    ensures 0 <= size * num / den <= size
  {
    MulMono(size, num, den);
    DivMono(size * num, size * den, den);
    assert size * den / den == size by {
      DivExact(size, den);
    }
  }

  lemma MulMono(a: nat, b: nat, c: nat)
    requires b <= c
    ensures a * b <= a * c
  {
  }

  lemma DivExact(a: int, d: pos)
    ensures a * d / d == a
  {
    var q, r := a * d / d, a * d % d;
    assert a * d == d * q + r && 0 <= r < d;
    assert d * (a - q) == r;
    if a - q > 0 {
      MulMono(d, 1, a - q);
    }
  }

  lemma DivMono(x: nat, y: nat, d: pos)
    requires x <= y
    ensures x / d <= y / d
  {
    var qx, qy := x / d, y / d;
    assert d * qx <= x;
    assert y < d * qy + d;
    if qx > qy {
      MulMono(d, qy + 1, qx);
    }
  }

  /** The percent string "<p>%" for a natural number p. */
  function PercentText(p: nat): string {
    NatToString(p) + "%"
  }

  lemma {:induction false} ParsePercentText(p: nat)
    ensures ParseFloat(PercentText(p)) == Finite(p, 1)
  {
    var d := NatToString(p);
    var s := d + "%";
    assert s[0] == d[0] && IsDigit(s[0]);
    assert TrimStart(s) == s;
    assert |s| < 8 || s[..8][0] != 'I';
    DigitPrefixOf(d, "%");
    assert s[|d|..] == "%";
    assert d + "" == d;
    DigitsRoundTrip(p);
  }

  /** A percent p in [0, 100] resolves to floor(size * p / 100). */
  lemma PercentResolves(p: nat, size: int)
    requires p <= 100
    ensures ResolveValue(Str(PercentText(p)), size) == Ok(size * p / 100)
  {
    ParsePercentText(p);
  }

  /** A percent above 100 is an error, wherever it appears. */
  lemma PercentAboveHundredRejected(p: nat, other: JsValue, size: int)
    requires p > 100
    ensures ResolveValue(Str(PercentText(p)), size) == Err(PercentOutOfRange)
    ensures Calculate(Position(Str(PercentText(p)), other), size).Err?
    ensures Calculate(Position(other, Str(PercentText(p))), size).Err?
  {
    ParsePercentText(p);
  }

  /** A '%' string whose number lies below 0 or above 100, or is an infinity,
      is an error, wherever it appears. */
  lemma PercentOutOfRangeRejected(s: string, other: JsValue, size: int)
    requires |s| > 0 && s[|s| - 1] == '%'
    requires ParseFloat(s).PosInfinity? || ParseFloat(s).NegInfinity? ||
      (ParseFloat(s).Finite? && (ParseFloat(s).num < 0 || ParseFloat(s).num > 100 * ParseFloat(s).den))
    ensures ResolveValue(Str(s), size) == Err(PercentOutOfRange)
    ensures Calculate(Position(Str(s), other), size).Err?
    ensures Calculate(Position(other, Str(s)), size).Err?
  {
  }

  /** The percent string "-<p>%" for a natural number p. */
  function NegativePercentText(p: nat): string {
    "-" + PercentText(p)
  }

  lemma ParseNegativePercentText(p: nat)
    ensures ParseFloat(NegativePercentText(p)) == Finite(-(p as int), 1)
  {
    var s := NegativePercentText(p);
    var u := PercentText(p);
    ParsePercentText(p);
    assert s[0] == '-' && s[1..] == u;
    assert TrimStart(s) == s;
    assert u[0] == NatToString(p)[0] && IsDigit(u[0]);
    assert |u| < 8 || u[..8][0] != 'I';
  }

  /** A negative percent is an error, wherever it appears. */
  lemma NegativePercentRejected(p: nat, other: JsValue, size: int)
    requires p > 0
    ensures ResolveValue(Str(NegativePercentText(p)), size) == Err(PercentOutOfRange)
    ensures Calculate(Position(Str(NegativePercentText(p)), other), size).Err?
    ensures Calculate(Position(other, Str(NegativePercentText(p))), size).Err?
  {
    ParseNegativePercentText(p);
    PercentOutOfRangeRejected(NegativePercentText(p), other, size);
  }

  /** The percent string "<i>.<f>%" with integer part `i` and fraction digits `f`. */
  function DecimalPercentText(i: nat, f: string): string
    requires AllDigits(f)
  {
    NatToString(i) + ("." + (f + "%"))
  }

  /** `parseFloat` reads "<i>.<f>%" as the exact decimal i + f / 10^|f|. */
  lemma ParseDecimalPercentText(i: nat, f: string)
    requires AllDigits(f) && |f| > 0
    ensures ParseFloat(DecimalPercentText(i, f)) == Finite(i * Pow10(|f|) + DigitsToNat(f), Pow10(|f|))
  {
    var d := NatToString(i);
    ParseDecimalText(d, f);
    DigitsRoundTrip(i);
    DigitsToNatAppend(d, f);
  }

  /** `parseFloat` on "<d>.<f>%" for digit strings d and f, d not empty. */
  lemma ParseDecimalText(d: string, f: string)
    requires AllDigits(d) && |d| > 0 && AllDigits(f)
    ensures AllDigits(d + f)
    ensures ParseFloat(d + ("." + (f + "%"))) == Finite(DigitsToNat(d + f), Pow10(|f|))
  {
    var ft := f + "%";
    var rest := "." + ft;
    var s := d + rest;
    LeadingDigits(d, rest);
    IntPart(d, rest);
    assert rest[1..] == ft;
    IntPart(f, "%");
    assert rest[1 + |f|..] == "%";
    DigitsConcat(d, f);
    ParseUnsignedDecimal(s, d, rest, f, "%");
  }

  /** `parseFloat` on a text that starts with the digits `d`, a point, the
      digits `f`, and then no exponent. */
  lemma ParseUnsignedDecimal(s: string, d: string, rest: string, f: string, after: string)
    requires |s| > 0 && IsDigit(s[0]) && TrimStart(s) == s
    requires DigitPrefix(s) == d && s[|d|..] == rest
    requires |rest| > 0 && rest[0] == '.'
    requires DigitPrefix(rest[1..]) == f && rest[1 + |f|..] == after && ExponentOf(after) == 0
    requires AllDigits(d + f)
    ensures ParseFloat(s) == Finite(DigitsToNat(d + f), Pow10(|f|))
  {
    assert |s| < 8 || s[..8][0] != 'I';
  }

  lemma LeadingDigits(d: string, rest: string)
    requires AllDigits(d) && |d| > 0
    ensures TrimStart(d + rest) == d + rest
    ensures (d + rest)[0] == d[0] && IsDigit(d[0])
  {
    assert (d + rest)[0] == d[0];
  }

  lemma IntPart(d: string, rest: string)
    requires AllDigits(d) && (|rest| == 0 || !IsDigit(rest[0]))
    ensures DigitPrefix(d + rest) == d
    ensures (d + rest)[|d|..] == rest
  {
    DigitPrefixOf(d, rest);
  }

  lemma DigitsConcat(d: string, f: string)
    requires AllDigits(d) && AllDigits(f)
    ensures AllDigits(d + f)
  {
    forall k | 0 <= k < |d + f|
      ensures IsDigit((d + f)[k])
    {
      if k >= |d| { assert (d + f)[k] == f[k - |d|]; }
    }
  }

  /** The value of the digits `d` followed by the digits `f`. */
  lemma {:induction false} DigitsToNatAppend(d: string, f: string)
    requires AllDigits(d) && AllDigits(f)
    ensures AllDigits(d + f)
    ensures DigitsToNat(d + f) == DigitsToNat(d) * Pow10(|f|) + DigitsToNat(f)
    decreases |f|
  {
    DigitsConcat(d, f);
    if |f| == 0 {
      assert d + f == d;
    } else {
      var f', c := f[..|f| - 1], f[|f| - 1];
      var df := d + f;
      assert df[..|df| - 1] == d + f';
      assert df[|df| - 1] == c;
      DigitsToNatAppend(d, f');
      var a, b := DigitsToNat(d), DigitsToNat(f');
      assert DigitsToNat(df) == DigitsToNat(d + f') * 10 + DigitValue(c);
      assert DigitsToNat(f) == b * 10 + DigitValue(c);
      ShiftByTen(a, Pow10(|f'|), b);
    }
  }

  lemma NatProduct(a: nat, b: nat)
    ensures a * b >= 0
  {
  }

  lemma ShiftByTen(a: int, q: int, b: int)
    ensures (a * q + b) * 10 == a * (10 * q) + b * 10
  {
  }

  /** A percent string `s` whose number n/m lies in [0, 100] resolves to the
      floor of its share of the axis. */
  lemma PercentInRangeResolves(s: string, n: int, m: pos, size: int)
    requires |s| > 0 && s[|s| - 1] == '%'
    requires ParseFloat(s) == Finite(n, m) && 0 <= n <= 100 * m
    ensures ResolveValue(Str(s), size) == Ok(size * n / (100 * m))
  {
  }

  /** A decimal percent "<i>.<f>%" within [0, 100] resolves to the floor of its
      share of the axis: its value is n / m with n = i * 10^|f| + f and m = 10^|f|. */
  lemma DecimalPercentResolves(i: nat, f: string, n: int, m: pos, size: int)
    requires AllDigits(f) && |f| > 0
    requires n == i * Pow10(|f|) + DigitsToNat(f) && m == Pow10(|f|)
    requires n <= 100 * m
    ensures ResolveValue(Str(DecimalPercentText(i, f)), size) == Ok(size * n / (100 * m))
  {
    var s := DecimalPercentText(i, f);
    assert n >= 0 by { NatProduct(i, m); }
    ParseDecimalPercentText(i, f);
    assert s[|s| - 1] == '%';
    PercentInRangeResolves(s, n, m, size);
  }

  /** A string that does not end in '%' is an error, wherever it appears;
      as `start` it is reported before anything else. */
  lemma NonPercentStringRejected(s: string, other: JsValue, size: int)
    requires |s| == 0 || s[|s| - 1] != '%'
    ensures Calculate(Position(Str(s), other), size) == Err(NotAPercent(s))
    ensures Calculate(Position(other, Str(s)), size).Err?
  {
  }

  /** Undefined, null, booleans, objects, and '%' strings with no number in
      front are errors, wherever they appear. */
  lemma OtherValuesRejected(v: JsValue, other: JsValue, size: int)
    requires v.Undefined? || v.Null? || v.Bool? || v.Obj? || (v.Str? && ParseFloat(v.s) == NotANumber)
    ensures ResolveValue(v, size).Err?
    ensures Calculate(Position(v, other), size).Err?
    ensures Calculate(Position(other, v), size).Err?
  {
  }

  /** A pixel count is clamped to the axis; a negative one counts back from the
      far edge and stops at 0. */
  lemma NumberResolves(n: int, size: int)
    requires size >= 0
    ensures 0 <= n <= size ==> ResolveValue(Num(n), size) == Ok(n)
    ensures n >= size ==> ResolveValue(Num(n), size) == Ok(size)
    ensures -size <= n < 0 ==> ResolveValue(Num(n), size) == Ok(size + n)
    ensures n < -size ==> ResolveValue(Num(n), size) == Ok(0)
  {
  }

  /** `start` and `end` are resolved independently of each other: `calculate`
      succeeds exactly when both resolve, with no check that start <= end. */
  lemma CalculateIsPerValue(a: JsValue, b: JsValue, size: int)
    ensures Calculate(Position(a, b), size).Ok? <==> ResolveValue(a, size).Ok? && ResolveValue(b, size).Ok?
    ensures Calculate(Position(a, b), size).Ok? ==>
              Calculate(Position(a, b), size).value == Span(ResolveValue(a, size).value, ResolveValue(b, size).value)
  {
  }

  /** A range whose end precedes its start is accepted as is. */
  lemma InvertedSpanAccepted(p: nat, q: nat, size: int)
    requires p <= 100 && q <= 100
    ensures Calculate(Position(Str(PercentText(p)), Str(PercentText(q))), size) ==
              Ok(Span(size * p / 100, size * q / 100))
  {
    PercentResolves(p, size);
    PercentResolves(q, size);
    CalculateIsPerValue(Str(PercentText(p)), Str(PercentText(q)), size);
  }

  /** The default position covers the whole axis. */
  lemma DefaultPositionSpansAxis(size: int)
    requires size >= 0
    ensures Calculate(DefaultPosition, size) == Ok(Span(0, size))
  {
    HundredPercentResolves(size);
    assert ResolveValue(Num(0), size) == Ok(0);
    CalculateIsPerValue(Num(0), Str("100%"), size);
  }

  lemma HundredPercentResolves(size: int)
    ensures ResolveValue(Str("100%"), size) == Ok(size)
  {
    assert PercentText(100) == "100%" by {
      assert NatToString(1) == "1";
      assert NatToString(10) == "10";
      assert NatToString(100) == "100";
    }
    PercentResolves(100, size);
    DivExact(size, 100);
  }
}
