/**
 Decimal literals as bounds of fixed-point columns: the accepted literals, and the integer each one
 stands for at a given scale.
 */
module Decimal {
  import opened Arithmetic
  import opened Bytes
  import opened Records

  const I128_MAX: nat := 0x7fff_ffff_ffff_ffff_ffff_ffff_ffff_ffff

  type i8 = x: int | -128 <= x < 128

  /** The parts of a plain base-10 literal. */
  datatype Literal = Literal(negative: bool, integer: string, fraction: string)

  predicate Digit(c: char) { '0' <= c <= '9' }

  predicate AllDigits(s: string) { forall c | c in s :: Digit(c) }

  predicate AllZeros(s: string) { forall c | c in s :: c == '0' }

  function Pow10(n: nat): (p: nat)
    ensures p > 0
  {
    if n == 0 then 1 else 10 * Pow10(n - 1)
  }

  /** The number a digit string spells. */
  function Number(s: string): nat
    requires AllDigits(s)
  {
    if s == [] then 0
    else
      assert s[|s| - 1] in s;
      10 * Number(s[..|s| - 1]) + DigitValue(s[|s| - 1])
  }

  function DigitValue(c: char): (d: nat)
    requires Digit(c)
    ensures d < 10 && (d == 0 <==> c == '0')
  {
    c as int - '0' as int
  }

  // ----- reading the literal -------------------------------------------------------------------------

  predicate IsWhitespace(c: char) {
    || c == ' ' || '\t' <= c <= '\r' || c == '\U{0085}' || c == '\U{00A0}' || c == '\U{1680}'
    || '\U{2000}' <= c <= '\U{200A}' || c == '\U{2028}' || c == '\U{2029}' || c == '\U{202F}' || c == '\U{205F}' ||
      c == '\U{3000}'
  }

  /** `source.trim() == source`. */
  predicate Trimmed(s: string) { s != [] ==> !IsWhitespace(s[0]) && !IsWhitespace(s[|s| - 1]) }

  /** `split('.')`. */
  function Pieces(s: string): (r: seq<string>)
    ensures |r| > 0
  {
    if s == [] then [[]]
    else
      var rest := Pieces(s[1..]);
      if s[0] == '.' then [[]] + rest else [[s[0]] + rest[0]] + rest[1..]
  }

  function Scan(source: string): Option<Literal> {
    if source == [] || !Trimmed(source) || 'e' in source || 'E' in source then None
    else ScanUnsigned(source[0] == '-', if source[0] == '-' || source[0] == '+' then source[1..] else source)
  }

  function ScanUnsigned(negative: bool, unsigned: string): Option<Literal> {
    if unsigned == [] then None
    else
      var pieces := Pieces(unsigned);
      var integer, fraction := pieces[0], if |pieces| > 1 then pieces[1] else [];
      if |pieces| > 2 || integer == [] || !AllDigits(integer) || !AllDigits(fraction) then None
      else Some(Literal(negative, integer, fraction))
  }

  /** `digits.parse::<i128>()`. */
  function ParseI128(digits: string): Option<nat>
    requires AllDigits(digits)
  {
    if Number(digits) <= I128_MAX then Some(Number(digits)) else None
  }

  function Zeros(n: nat): (s: string)
    ensures |s| == n && AllZeros(s) && AllDigits(s)
  {
    seq(n, _ => '0')
  }

  function Magnitude(l: Literal, scale: i8): Option<nat>
    requires AllDigits(l.integer) && AllDigits(l.fraction)
  {
    if scale >= 0 then
      if |l.fraction| > scale && !AllZeros(l.fraction[scale..]) then None
      else
        var retained := l.fraction[..Smaller(|l.fraction|, scale)];
        DigitsConcat(l.integer, retained);
        DigitsConcat(l.integer + retained, Zeros(scale - |retained|));
        ParseI128(l.integer + retained + Zeros(scale - |retained|))
    else if !AllZeros(l.fraction) then None
    else
      match ParseI128(l.integer)
      case None => None
      case Some(value) =>
        var divisor := Pow10(-(scale as int));
        if divisor > I128_MAX || value % divisor != 0 then None else Some(value / divisor)
  }

  /** `decimal_digits`: zero has one digit. */
  function DecimalDigits(value: int): nat {
    Log10(if value < 0 then -value else value) + 1
  }

  /** `ilog10`, zero at zero. */
  function Log10(n: nat): nat { if n < 10 then 0 else 1 + Log10(n / 10) }

  function ParseDecimal(source: string, precision: nat, scale: i8): Option<int> {
    match Scan(source)
    case None => None
    case Some(l) =>
      ScanDigits(source);
      match Magnitude(l, scale)
      case None => None
      case Some(magnitude) =>
        var signed: int := if l.negative then 0 - magnitude as int else magnitude as int;
        if DecimalDigits(signed) > precision then None else Some(signed)
  }

  lemma ScanDigits(source: string)
    requires Scan(source).Some?
    ensures AllDigits(Scan(source).value.integer) && AllDigits(Scan(source).value.fraction)
  {
  }

  // ----- the grammar and the value it assigns --------------------------------------------------------

  predicate WellFormed(l: Literal) { l.integer != [] && AllDigits(l.integer) && AllDigits(l.fraction) }

  /** The spellings of a literal: an optional plus sign, and an optional point when no fraction follows. */
  function Spell(l: Literal, plus: bool, point: bool): string {
    (if l.negative then "-" else if plus then "+" else "") + l.integer +
      (if point || l.fraction != [] then "." + l.fraction else "")
  }

  ghost predicate Spells(source: string, l: Literal) { WellFormed(l) && exists plus, point ::
                                                      source == Spell(l, plus, point) }

  /** All digits of the literal as one signed integer. */
  ghost function Signed(l: Literal): int
    requires WellFormed(l)
  {
    DigitsConcat(l.integer, l.fraction);
    var n := Number(l.integer + l.fraction);
    if l.negative then 0 - n as int else n as int
  }

  /** `r` is exactly the literal's value times 10^scale. */
  ghost predicate Represents(l: Literal, scale: int, r: int)
    requires WellFormed(l)
  {
    if scale >= 0 then r * Pow10(|l.fraction|) == Signed(l) * Pow10(scale)
    else r * Pow10(-scale) * Pow10(|l.fraction|) == Signed(l)
  }

  // ----- the scanner accepts the grammar -------------------------------------------------------------

  lemma DigitsConcat(a: string, b: string)
    requires AllDigits(a) && AllDigits(b)
    ensures AllDigits(a + b)
  {
  }

  lemma {:induction false} PiecesWithoutPoint(s: string)
    requires '.' !in s
    ensures Pieces(s) == [s]
    decreases |s|
  {
    if s != [] {
      PiecesWithoutPoint(s[1..]);
      assert s == [s[0]] + s[1..];
    }
  }

  lemma {:induction false} PiecesAtPoint(a: string, b: string)
    requires '.' !in a
    ensures Pieces(a + "." + b) == [a] + Pieces(b)
    decreases |a|
  {
    if a == [] {
      assert ("" + "." + b)[1..] == b;
    } else {
      assert (a + "." + b)[1..] == a[1..] + "." + b;
      PiecesAtPoint(a[1..], b);
      assert a == [a[0]] + a[1..];
    }
  }

  function Join(pieces: seq<string>): string
    requires |pieces| > 0
  {
    if |pieces| == 1 then pieces[0] else pieces[0] + "." + Join(pieces[1..])
  }

  lemma {:induction false} JoinPieces(s: string)
    ensures Join(Pieces(s)) == s
    decreases |s|
  {
    if s != [] {
      var rest := Pieces(s[1..]);
      JoinPieces(s[1..]);
      if s[0] == '.' {
        assert ([[]] + rest)[1..] == rest;
        assert s == "." + s[1..];
      } else {
        assert ([[s[0]] + rest[0]] + rest[1..])[1..] == rest[1..];
        assert s == [s[0]] + s[1..];
      }
    }
  }

  lemma ScanSpells(source: string)
    requires Scan(source).Some?
    ensures Spells(source, Scan(source).value)
  {
    var l := Scan(source).value;
    var signed := source[0] == '-' || source[0] == '+';
    var unsigned := if signed then source[1..] else source;
    var sign := if l.negative then "-" else if signed then "+" else "";
    PiecesSpell(unsigned, l.integer, l.fraction);
    assert source == sign + unsigned;
    assert source == sign + l.integer + if |Pieces(unsigned)| == 2 then "." + l.fraction else "" by {
      Reassociate(sign, l.integer, if |Pieces(unsigned)| == 2 then "." + l.fraction else "");
    }
    assert source == Spell(l, signed, |Pieces(unsigned)| == 2);
  }

  lemma Reassociate(a: string, b: string, c: string)
    ensures a + (b + c) == a + b + c
  {
  }

  lemma PiecesSpell(unsigned: string, integer: string, fraction: string)
    requires |Pieces(unsigned)| <= 2 && integer == Pieces(unsigned)[0]
    requires fraction == if |Pieces(unsigned)| == 2 then Pieces(unsigned)[1] else []
    ensures unsigned == integer + if |Pieces(unsigned)| == 2 then "." + fraction else ""
  {
    var pieces := Pieces(unsigned);
    JoinPieces(unsigned);
    if |pieces| == 2 {
      assert pieces[1..] == [fraction];
      assert Join(pieces) == integer + "." + fraction;
      Reassociate(integer, ".", fraction);
    } else {
      assert integer + "" == integer;
    }
  }

  lemma SpelledPlain(source: string)
    requires source != [] && forall c | c in source :: Digit(c) || c == '.' || c == '+' || c == '-'
    ensures Trimmed(source) && 'e' !in source && 'E' !in source
  {
    assert source[0] in source && source[|source| - 1] in source;
  }

  lemma SpelledCharacters(l: Literal, sign: string, pointed: bool)
    requires WellFormed(l) && (sign == "" || sign == "+" || sign == "-")
    ensures forall c | c in sign + (l.integer + if pointed then "." + l.fraction else "") ::
            Digit(c) || c == '.' || c == '+' || c == '-'
  {
  }

  lemma SpelledPieces(l: Literal, pointed: bool)
    requires WellFormed(l) && (l.fraction != [] ==> pointed)
    ensures Pieces(l.integer + if pointed then "." + l.fraction else "") == if pointed then [l.integer, l.fraction]
            else [l.integer]
  {
    if pointed {
      Reassociate(l.integer, ".", l.fraction);
      PiecesAtPoint(l.integer, l.fraction);
      PiecesWithoutPoint(l.fraction);
    } else {
      assert l.integer + "" == l.integer;
      PiecesWithoutPoint(l.integer);
    }
  }

  lemma UnsignedScans(l: Literal, pointed: bool)
    requires WellFormed(l) && (l.fraction != [] ==> pointed)
    ensures ScanUnsigned(l.negative, l.integer + if pointed then "." + l.fraction else "") == Some(l)
  {
    SpelledPieces(l, pointed);
  }

  lemma SpelledScans(l: Literal, plus: bool, point: bool)
    requires WellFormed(l)
    ensures Scan(Spell(l, plus, point)) == Some(l)
  {
    var source := Spell(l, plus, point);
    var sign := if l.negative then "-" else if plus then "+" else "";
    var pointed := point || l.fraction != [];
    var unsigned := l.integer + if pointed then "." + l.fraction else "";
    Reassociate(sign, l.integer, if pointed then "." + l.fraction else "");
    assert source == sign + unsigned;
    SpelledCharacters(l, sign, pointed);
    SpelledPlain(source);
    assert l.integer[0] in l.integer && unsigned[0] == l.integer[0];
    UnsignedScans(l, pointed);
    if sign == "" {
      assert source == unsigned;
    } else {
      assert source[0] == sign[0] && source[1..] == unsigned;
    }
  }

  /** The scanner accepts exactly the grammar, and each source spells one literal. */
  lemma ScanIsGrammar(source: string, l: Literal)
    ensures Scan(source) == Some(l) <==> Spells(source, l)
  {
    if Scan(source) == Some(l) {
      ScanSpells(source);
    }
    if Spells(source, l) {
      var plus, point :| source == Spell(l, plus, point);
      SpelledScans(l, plus, point);
    }
  }

  // ----- digit arithmetic ----------------------------------------------------------------------------

  lemma {:induction false} Pow10Sum(a: nat, b: nat)
    ensures Pow10(a + b) == Pow10(a) * Pow10(b)
    decreases b
  {
    if b > 0 {
      Pow10Sum(a, b - 1);
      assert Pow10(a) * Pow10(b) == 10 * (Pow10(a) * Pow10(b - 1));
    }
  }

  lemma {:induction false} NumberConcat(a: string, b: string)
    requires AllDigits(a) && AllDigits(b)
    ensures AllDigits(a + b) && Number(a + b) == Number(a) * Pow10(|b|) + Number(b)
    decreases |b|
  {
    DigitsConcat(a, b);
    if b == [] {
      assert a + b == a;
    } else {
      var n := |b| - 1;
      NumberConcat(a, b[..n]);
      assert (a + b)[..|a| + n] == a + b[..n];
      assert Number(a) * Pow10(|b|) == 10 * (Number(a) * Pow10(n));
    }
  }

  lemma {:induction false} NumberBound(s: string)
    requires AllDigits(s)
    ensures Number(s) < Pow10(|s|)
    ensures Number(s) == 0 <==> AllZeros(s)
    decreases |s|
  {
    if s != [] {
      var init, last := s[..|s| - 1], s[|s| - 1];
      NumberBound(init);
      assert s == init + [last] && last in s;
      assert Pow10(|s|) == 10 * Pow10(|init|);
      assert AllZeros(s) <==> AllZeros(init) && last == '0' by {
        assert forall c :: c in s <==> c in init || c == last;
      }
    }
  }

  /** At most p digits means below 10^p. */
  lemma {:induction false} DigitsMeanMagnitude(n: nat, p: nat)
    ensures Log10(n) + 1 <= p <==> p > 0 && n < Pow10(p)
    decreases n
  {
    if p > 0 {
      if n >= 10 {
        DigitsMeanMagnitude(n / 10, p - 1);
        if p == 1 {
          assert Pow10(1) == 10;
        }
      } else {
        assert Pow10(p) >= 10;
      }
    }
  }

  // ----- what the parser returns ---------------------------------------------------------------------

  /** The unsigned literal at a scale: every accepted magnitude is exact. */
  ghost predicate RepresentsMagnitude(l: Literal, scale: int, m: nat)
    requires WellFormed(l)
  {
    DigitsConcat(l.integer, l.fraction);
    var n := Number(l.integer + l.fraction);
    if scale >= 0 then m * Pow10(|l.fraction|) == n * Pow10(scale)
    else m * Pow10(-scale) * Pow10(|l.fraction|) == n
  }

  /** The integers the parser handles on the way stay within 128 bits. */
  ghost predicate Fits(l: Literal, scale: i8, m: nat)
    requires WellFormed(l)
  {
    if scale >= 0 then m <= I128_MAX else Number(l.integer) <= I128_MAX && Pow10(-(scale as int)) <= I128_MAX
  }

  lemma CancelFactor(a: int, b: int, p: nat)
    requires p > 0 && a * p == b * p
    ensures a == b
  {
    Multiple(a - b, p);
    assert (a - b) * p == 0;
  }

  /** A fraction no longer than the scale is padded with zeros. */
  lemma Padded(l: Literal, scale: nat, m: nat)
    requires WellFormed(l) && |l.fraction| <= scale
    ensures var digits := l.integer + l.fraction + Zeros(scale - |l.fraction|);
            AllDigits(digits) && (RepresentsMagnitude(l, scale, m) <==> m == Number(digits))
  {
    var f := |l.fraction|;
    var pad := scale - f;
    DigitsConcat(l.integer, l.fraction);
    NumberConcat(l.integer + l.fraction, Zeros(pad));
    NumberBound(Zeros(pad));
    var n := Number(l.integer + l.fraction);
    Pow10Sum(pad, f);
    Regroup(n, Pow10(pad), Pow10(f));
    assert n * Pow10(scale) == n * Pow10(pad) * Pow10(f);
    if m * Pow10(f) == n * Pow10(pad) * Pow10(f) {
      CancelFactor(m, n * Pow10(pad), Pow10(f));
    }
  }

  /** A longer fraction must end in zeros. */
  lemma Dropped(l: Literal, scale: nat, m: nat)
    requires WellFormed(l) && |l.fraction| > scale
    ensures AllDigits(l.integer + l.fraction[..scale])
    ensures RepresentsMagnitude(l, scale, m) <==>
            AllZeros(l.fraction[scale..]) && m == Number(l.integer + l.fraction[..scale])
  {
    var kept, tail := l.fraction[..scale], l.fraction[scale..];
    assert AllDigits(kept) && AllDigits(tail);
    DigitsConcat(l.integer, kept);
    assert l.integer + l.fraction == l.integer + kept + tail;
    NumberConcat(l.integer + kept, tail);
    NumberBound(tail);
    var k, p := |tail|, Pow10(scale);
    var a, b := Number(l.integer + kept), Number(tail);
    Pow10Sum(k, scale);
    Regroup(m, Pow10(k), p);
    assert m * Pow10(|l.fraction|) == m * Pow10(k) * p;
    if RepresentsMagnitude(l, scale, m) {
      CancelFactor(m * Pow10(k), a * Pow10(k) + b, p);
      NoRemainder(m, a, b, Pow10(k));
    }
  }

  lemma NoRemainder(m: nat, a: nat, b: nat, d: nat)
    requires b < d && m * d == a * d + b
    ensures b == 0 && m == a
  {
    Multiple(m - a, d);
    assert (m - a) * d == b;
  }

  lemma DivideExactly(m: nat, a: nat, b: nat, p: nat, d: nat)
    requires b < d && p > 0
    ensures m * p * d == a * d + b <==> b == 0 && a % p == 0 && m == a / p
  {
    if m * p * d == a * d + b {
      NoRemainder(m * p, a, b, d);
      Quotient(a, m, p);
    }
    if b == 0 && a % p == 0 && m == a / p {
      assert a == m * p;
    }
  }

  /** A negative scale asks for a whole number, divisible by the power of ten. */
  lemma Divided(l: Literal, k: nat, m: nat)
    requires WellFormed(l) && k > 0
    ensures RepresentsMagnitude(l, -(k as int), m) <==>
            AllZeros(l.fraction) && Number(l.integer) % Pow10(k) == 0 && m == Number(l.integer) / Pow10(k)
  {
    NumberConcat(l.integer, l.fraction);
    NumberBound(l.fraction);
    DivideExactly(m, Number(l.integer), Number(l.fraction), Pow10(k), Pow10(|l.fraction|));
  }

  lemma Quotient(a: nat, m: nat, d: nat)
    requires d > 0 && a == m * d
    ensures a % d == 0 && a / d == m
  {
    var q, r := a / d, a % d;
    assert a == q * d + r;
    NoRemainder(m, q, r, d);
  }

  lemma MagnitudeIsExact(l: Literal, scale: i8, m: nat)
    requires WellFormed(l)
    ensures Magnitude(l, scale) == Some(m) <==> RepresentsMagnitude(l, scale, m) && Fits(l, scale, m)
  {
    if scale >= 0 {
      if |l.fraction| <= scale {
        Padded(l, scale, m);
        assert l.fraction[..|l.fraction|] == l.fraction;
      } else {
        Dropped(l, scale, m);
        assert l.integer + l.fraction[..scale] + Zeros(0) == l.integer + l.fraction[..scale];
      }
    } else {
      Divided(l, -(scale as int), m);
    }
  }

  lemma SignedMagnitude(l: Literal, scale: int, r: int)
    requires WellFormed(l)
    ensures Represents(l, scale, r) <==>
            (if l.negative then r <= 0 && RepresentsMagnitude(l, scale, -r)
             else r >= 0 && RepresentsMagnitude(l, scale, r))
  {
    var m := if l.negative then -r else r;
    var n := if l.negative then -Signed(l) else Signed(l);
    var f := Pow10(|l.fraction|);
    if scale >= 0 {
      var p := Pow10(scale);
      Negated(r, f);
      Negated(Signed(l), p);
      if Represents(l, scale, r) {
        SameSign(m, f, n * p);
      }
    } else {
      var p := Pow10(-scale);
      Negated(r, p);
      Negated(r * p, f);
      Regroup(m, p, f);
      if Represents(l, scale, r) {
        SameSign(m, p * f, n);
      }
    }
  }

  lemma Negated(a: int, b: int)
    ensures -a * b == -(a * b)
  {
  }

  lemma SameSign(m: int, p: nat, n: int)
    requires p > 0 && n >= 0 && m * p == n
    ensures m >= 0
  {
    Multiple(m, p);
  }

  /**
   A literal is accepted exactly when it is well formed, its value at the scale is an integer with at
   most `precision` digits, and the integers on the way fit 128 bits; the result is that integer.
   */
  lemma ParseIsExact(source: string, l: Literal, precision: nat, scale: i8, r: int)
    requires Spells(source, l)
    ensures ParseDecimal(source, precision, scale) == Some(r) <==>
            Represents(l, scale, r) && DecimalDigits(r) <= precision && Fits(l, scale, if r < 0 then -r else r)
  {
    ScanIsGrammar(source, l);
    var m: nat := if r < 0 then -r else r;
    MagnitudeIsExact(l, scale, m);
    SignedMagnitude(l, scale, r);
  }

  /** Text that spells no literal is refused. */
  lemma OnlyLiterals(source: string, precision: nat, scale: i8)
    requires !exists l :: Spells(source, l)
    ensures ParseDecimal(source, precision, scale).None?
  {
    if Scan(source).Some? {
      ScanSpells(source);
    }
  }

  /** For the scales and precisions of ordinary decimal columns, 128 bits never stand in the way. */
  lemma OrdinaryScales(source: string, l: Literal, precision: nat, scale: i8, r: int)
    requires Spells(source, l) && scale >= 0 && precision <= 38
    ensures ParseDecimal(source, precision, scale) == Some(r) <==>
            Represents(l, scale, r) && DecimalDigits(r) <= precision
  {
    ParseIsExact(source, l, precision, scale, r);
    var m: nat := if r < 0 then -r else r;
    if DecimalDigits(r) <= precision {
      DigitsMeanMagnitude(m, 38);
      TenToThe38(38);
    }
  }

  lemma TenToThe38(n: nat)
    requires n == 38
    ensures Pow10(n) <= I128_MAX < 2 * Pow10(n)
  {
    TenToThe32(32);
    Pow10Sum(32, 6);
    assert Pow10(6) == 1_000_000;
  }

  lemma TenToThe32(n: nat)
    requires n == 32
    ensures Pow10(n) == 100_000_000_000_000_000_000_000_000_000_000
  {
    assert Pow10(4) == 10_000;
    Pow10Sum(4, 4);
    Pow10Sum(8, 8);
    Pow10Sum(16, 16);
  }

  lemma TwoAndZeros(k: nat)
    ensures AllDigits("2" + Zeros(k)) && Number("2" + Zeros(k)) == 2 * Pow10(k)
  {
    NumberConcat("2", Zeros(k));
    NumberBound(Zeros(k));
    assert "2"[..0] == "" && Number("2") == 2;
  }

  /** With a negative scale an exact, short value can still be refused: the undivided integer is too large. */
  lemma NegativeScaleCounterexample(k: nat)
    requires k == 38
    ensures ParseDecimal("2" + Zeros(k), 38, -38).None?
    ensures WellFormed(Literal(false, "2" + Zeros(k), "")) &&
            Represents(Literal(false, "2" + Zeros(k), ""), -(k as int), 2)
  {
    var digits := "2" + Zeros(k);
    var l := Literal(false, digits, "");
    TwoAndZeros(k);
    TenToThe38(k);
    assert digits + "" == digits && Pow10(0) == 1;
    assert "" + digits + "" == digits;
    assert digits == Spell(l, false, false);
    var parsed := ParseDecimal(digits, 38, -38);
    if parsed.Some? {
      ParseIsExact(digits, l, 38, -38, parsed.value);
    }
  }

  // ----- the value in plain terms ----------------------------------------------------------------------

  /** A digit stands for its place in the row of digits. */
  lemma DigitMeans(c: char)
    requires Digit(c)
    ensures DigitValue(c) < |"0123456789"| && "0123456789"[DigitValue(c)] == c
  {
  }

  /** Digit by digit, in base ten. */
  lemma NumberSnoc(s: string, c: char)
    requires AllDigits(s) && Digit(c)
    ensures Number("") == 0 && AllDigits(s + [c]) && Number(s + [c]) == 10 * Number(s) + DigitValue(c)
  {
    assert (s + [c])[..|s|] == s;
  }

  /** Cross multiplication over positive denominators. */
  lemma EqualFractions(a: int, q: int, b: int, p: int)
    requires p > 0 && q > 0
    ensures a * p == b * q <==> a as real / q as real == b as real / p as real
  {
    var x, y := a as real / q as real, b as real / p as real;
    var pq := p as real * q as real;
    assert x * pq == (a * p) as real;
    assert y * pq == (b * q) as real;
    assert pq > 0.0;
    if x < y {
      assert x * pq < y * pq;
    } else if x > y {
      assert x * pq > y * pq;
    }
  }

  lemma MixedNumber(i: int, f: int, p: int, negative: bool)
    requires p > 0
    ensures var v := i as real + f as real / p as real;
            (if negative then 0 - (i * p + f) else i * p + f) as real / p as real == if negative then -v else v
  {
    var x := i as real + f as real / p as real;
    assert x * p as real == (i * p + f) as real;
  }

  lemma ScaledMixed(r: int, q: int, i: int, f: int, p: int, negative: bool)
    requires p > 0 && q > 0
    ensures var v := i as real + f as real / p as real;
            r * p == (if negative then 0 - (i * p + f) else i * p + f) * q <==>
            r as real / q as real == if negative then -v else v
  {
    MixedNumber(i, f, p, negative);
    EqualFractions(r, q, if negative then 0 - (i * p + f) else i * p + f, p);
  }

  lemma SignedIs(l: Literal)
    requires WellFormed(l)
    ensures var n := Number(l.integer) * Pow10(|l.fraction|) + Number(l.fraction);
            Signed(l) == if l.negative then 0 - n as int else n as int
  {
    NumberConcat(l.integer, l.fraction);
  }

  /** A literal stands for its integer digits plus its fraction digits over a power of ten, with its sign. */
  lemma RepresentsMeans(l: Literal, scale: int, r: int)
    requires WellFormed(l)
    ensures var magnitude := Number(l.integer) as real + Number(l.fraction) as real / Pow10(|l.fraction|) as real;
            var value := if l.negative then -magnitude else magnitude;
            Represents(l, scale, r) <==>
              if scale >= 0 then r as real / Pow10(scale) as real == value
              else (r * Pow10(-scale)) as real == value
  {
    SignedIs(l);
    if scale >= 0 {
      ScaledMixed(r, Pow10(scale), Number(l.integer), Number(l.fraction), Pow10(|l.fraction|), l.negative);
    } else {
      ScaledMixed(r * Pow10(-scale), 1, Number(l.integer), Number(l.fraction), Pow10(|l.fraction|), l.negative);
    }
  }

  /** A spelling is an optional sign, the integer digits, and an optional point with the fraction digits. */
  lemma SpellsMeans(source: string, l: Literal)
    requires Spells(source, l)
    ensures source != [] && (l.negative <==> source[0] == '-')
    ensures source == (if source[0] == '-' || source[0] == '+' then [source[0]] else "") + l.integer ||
            source == (if source[0] == '-' || source[0] == '+' then [source[0]] else "") + l.integer + "." + l.fraction
  {
    var plus, point :| source == Spell(l, plus, point);
    assert l.integer[0] in l.integer;
  }

  /** Every such spelling is one: a minus sign when negative, otherwise a plus sign or none. */
  lemma Spelled(l: Literal, sign: string)
    requires l.integer != "" && forall c | c in l.integer + l.fraction :: '0' <= c <= '9'
    requires if l.negative then sign == "-" else sign == "" || sign == "+"
    ensures Spells(sign + l.integer + "." + l.fraction, l)
    ensures l.fraction == "" ==> Spells(sign + l.integer, l)
  {
    assert forall c | c in l.integer || c in l.fraction :: c in l.integer + l.fraction;
    assert sign + l.integer + ("." + l.fraction) == sign + l.integer + "." + l.fraction;
    assert Spell(l, sign == "+", true) == sign + l.integer + "." + l.fraction;
    if l.fraction == "" {
      assert Spell(l, sign == "+", false) == sign + l.integer;
    }
  }

  /** The precision counts decimal digits, and the machine integers have 127 bits beside the sign. */
  lemma PrecisionMeans(r: int, p: nat)
    ensures DecimalDigits(r) <= p <==> p > 0 && -(Pow10(p) as int) < r < Pow10(p)
  {
    DigitsMeanMagnitude(if r < 0 then -r else r, p);
  }

  lemma FitsMeans(l: Literal, scale: i8, m: nat)
    requires WellFormed(l)
    ensures scale >= 0 ==> (Fits(l, scale, m) <==> m <= 170141183460469231731687303715884105727)
    ensures scale < 0 ==>
              (Fits(l, scale, m) <==>
               && Number(l.integer) <= 170141183460469231731687303715884105727
               && Pow10(-(scale as int)) <= 170141183460469231731687303715884105727)
  {
  }

  lemma OneDigit(a: char)
    requires Digit(a)
    ensures AllDigits([a]) && Number([a]) == DigitValue(a)
  {
    assert [a][..0] == [];
  }

  lemma TwoDigits(a: char, b: char)
    requires Digit(a) && Digit(b)
    ensures AllDigits([a]) && Number([a]) == DigitValue(a)
    ensures AllDigits([a, b]) && Number([a, b]) == 10 * DigitValue(a) + DigitValue(b)
  {
    OneDigit(a);
    assert [a] + [b] == [a, b];
    NumberSnoc([a], b);
  }

  lemma SmallPowers()
    ensures Pow10(0) == 1 && Pow10(1) == 10 && Pow10(2) == 100
  {
    assert Pow10(1) == 10 * Pow10(0);
  }

  /** The sign is kept and trailing zeros are dropped. */
  lemma NegativeExample()
    ensures ParseDecimal("-12.50", 10, 1) == Some(-125)
  {
    var l := Literal(true, "12", "50");
    TwoDigits('1', '2');
    TwoDigits('5', '0');
    SmallPowers();
    SignedIs(l);
    assert "-12.50" == Spell(l, false, true);
    assert Log10(125) == 1 + Log10(12) && Log10(12) == 1 + Log10(1);
    ParseIsExact("-12.50", l, 10, 1, -125);
  }

  /** A literal with more decimals than the scale has no value. */
  lemma InexactExample()
    ensures ParseDecimal("12.5", 10, 0).None?
  {
    var l := Literal(false, "12", "5");
    TwoDigits('1', '2');
    TwoDigits('5', '0');
    SmallPowers();
    SignedIs(l);
    assert "12.5" == Spell(l, false, true);
    var parsed := ParseDecimal("12.5", 10, 0);
    if parsed.Some? {
      ParseIsExact("12.5", l, 10, 0, parsed.value);
    }
  }
}
