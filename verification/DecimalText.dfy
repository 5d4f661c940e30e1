/**
Amounts as decimal text and as base units: the parser and the printer of the transaction page.
*/
module DecimalText {
  import opened Common
  import Trimming

  const TOKEN_DECIMALS: nat := 7

  datatype Error = NotADecimal | NoDigits | TooManyDecimalPlaces | NegativeAmount

  // ---------------------------------------------------------------- digits

  predicate IsDigit(c: char) {
    '0' <= c <= '9'
  }

  predicate AllDigits(s: string) {
    forall i | 0 <= i < |s| :: IsDigit(s[i])
  }

  function Pow10(n: nat): (p: nat)
    ensures p > 0
  {
    if n == 0 then 1 else 10 * Pow10(n - 1)
  }

  /** The number a string of digits denotes; zero for the empty string. */
  function DigitsValue(s: string): nat
    requires AllDigits(s)
  {
    if s == "" then 0 else 10 * DigitsValue(s[..|s| - 1]) + (s[|s| - 1] as int - '0' as int)
  }

  lemma OneDigit(c: char)
    requires '0' <= c <= '9'
    ensures DigitsValue([c]) == c as int - 48
  {
    assert [c][..0] == "";
  }

  function DigitChar(d: nat): (c: char)
    requires d < 10
    ensures IsDigit(c) && c as int - '0' as int == d
  {
    (d + '0' as int) as char
  }

  /** The decimal digits of a number, without leading zeros. */
  function NatText(n: nat): (s: string)
    ensures AllDigits(s) && |s| > 0 && DigitsValue(s) == n
  {
    if n < 10 then
      assert [DigitChar(n)][..0] == "";
      [DigitChar(n)]
    else
      var s := NatText(n / 10) + [DigitChar(n % 10)];
      assert s[..|s| - 1] == NatText(n / 10);
      s
  }

  function Repeat(c: char, n: nat): (s: string)
    ensures |s| == n && forall i | 0 <= i < n :: s[i] == c
  {
    seq(n, _ => c)
  }

  function PadStart(s: string, n: nat, c: char): string {
    if |s| >= n then s else Repeat(c, n - |s|) + s
  }

  function PadEnd(s: string, n: nat, c: char): string {
    if |s| >= n then s else s + Repeat(c, n - |s|)
  }

  lemma {:induction false} DigitsConcat(a: string, b: string)
    requires AllDigits(a) && AllDigits(b)
    ensures DigitsValue(a + b) == DigitsValue(a) * Pow10(|b|) + DigitsValue(b)
    decreases |b|
  {
    if b == "" {
      assert a + b == a;
    } else {
      var init, last := b[..|b| - 1], b[|b| - 1];
      assert (a + b)[..|a + b| - 1] == a + init;
      DigitsConcat(a, init);
      ShiftByTen(DigitsValue(a), Pow10(|init|), DigitsValue(init));
    }
  }

  lemma ShiftByTen(x: nat, p: nat, y: nat)
    ensures 10 * (x * p + y) == x * (10 * p) + 10 * y
  {
  }

  lemma {:induction false} ZerosAreZero(n: nat)
    ensures AllDigits(Repeat('0', n)) && DigitsValue(Repeat('0', n)) == 0
  {
    if n > 0 {
      assert Repeat('0', n)[..n - 1] == Repeat('0', n - 1);
      ZerosAreZero(n - 1);
    }
  }

  lemma {:induction false} Pow10Sum(m: nat, n: nat)
    ensures Pow10(m + n) == Pow10(m) * Pow10(n)
  {
    if m > 0 {
      Pow10Sum(m - 1, n);
      assert Pow10(m) * Pow10(n) == 10 * (Pow10(m - 1) * Pow10(n));
    }
  }

  // ---------------------------------------------------------------- trimming

  /** What JavaScript's `trim` removes: white space and line terminators. */
  predicate IsSpace(c: char) {
    || '\U{9}' <= c <= '\U{D}' || c == ' ' || c == '\U{A0}' || c == '\U{1680}'
    || '\U{2000}' <= c <= '\U{200A}' || c == '\U{2028}' || c == '\U{2029}' || c == '\U{202F}'
    || c == '\U{205F}' || c == '\U{3000}' || c == '\U{FEFF}'
  }

  function Trim(s: string): string {
    Trimming.Trim(IsSpace, s)
  }

  // ---------------------------------------------------------------- the pattern

  datatype Match = Match(sign: string, intPart: string, pointed: bool, fracPart: string)

  function Tail(pointed: bool, fracPart: string): string {
    if pointed then ['.'] + fracPart else ""
  }

  /** Sign, digits, and optionally a point and more digits: what the pattern accepts. */
  ghost predicate Splits(s: string, m: Match) {
    && (m.sign == "" || m.sign == "+" || m.sign == "-")
    && AllDigits(m.intPart) && AllDigits(m.fracPart) && (!m.pointed ==> m.fracPart == "")
    && s == m.sign + (m.intPart + Tail(m.pointed, m.fracPart))
  }

  /** The longest run of digits at the front. */
  function DigitRun(s: string): (n: nat)
    ensures n <= |s| && AllDigits(s[..n]) && (n < |s| ==> !IsDigit(s[n]))
  {
    if s == "" || !IsDigit(s[0]) then 0
    else
      var n := 1 + DigitRun(s[1..]);
      assert s[..n] == [s[0]] + s[1..][..n - 1];
      assert n < |s| ==> s[n] == s[1..][n - 1];
      n
  }

  function SignOf(s: string): (sign: string)
    ensures sign <= s && (sign == "" || sign == "+" || sign == "-")
    ensures s != "" && (s[0] == '+' || s[0] == '-') ==> sign == [s[0]]
    ensures s == "" || (s[0] != '+' && s[0] != '-') ==> sign == ""
  {
    if s != "" && (s[0] == '+' || s[0] == '-') then s[..1] else ""
  }

  /** Digits, an optional point, digits, and nothing else. */
  function MatchUnsigned(rest: string): (r: Option<(string, bool, string)>)
    ensures r.Some? ==> AllDigits(r.value.0) && AllDigits(r.value.2) && (!r.value.1 ==> r.value.2 == "")
    ensures r.Some? ==> rest == r.value.0 + Tail(r.value.1, r.value.2)
  {
    var n := DigitRun(rest);
    if n == |rest| then
      assert rest[..n] == rest;
      assert rest + "" == rest;
      Some((rest, false, ""))
    else if rest[n] == '.' && DigitRun(rest[n + 1..]) == |rest| - n - 1 then
      assert rest[n + 1..][..|rest| - n - 1] == rest[n + 1..];
      assert rest == rest[..n] + (['.'] + rest[n + 1..]);
      Some((rest[..n], true, rest[n + 1..]))
    else None
  }

  /** Match the whole text, or fail. */
  function MatchDecimal(s: string): (r: Option<Match>)
    ensures r.Some? ==> Splits(s, r.value)
  {
    var sign := SignOf(s);
    assert s == sign + s[|sign|..];
    match MatchUnsigned(s[|sign|..])
    case None => None
    case Some((intPart, pointed, fracPart)) => Some(Match(sign, intPart, pointed, fracPart))
  }

  lemma {:induction false} DigitRunOf(a: string, rest: string)
    requires AllDigits(a) && (rest == "" || !IsDigit(rest[0]))
    ensures DigitRun(a + rest) == |a|
    decreases |a|
  {
    if a == "" {
      assert a + rest == rest;
    } else {
      assert (a + rest)[1..] == a[1..] + rest;
      DigitRunOf(a[1..], rest);
    }
  }

  lemma UnsignedFound(a: string, pointed: bool, b: string)
    requires AllDigits(a) && AllDigits(b) && (!pointed ==> b == "")
    ensures MatchUnsigned(a + Tail(pointed, b)) == Some((a, pointed, b))
  {
    var rest := a + Tail(pointed, b);
    DigitRunOf(a, Tail(pointed, b));
    if pointed {
      assert rest[|a|] == '.' && rest[..|a|] == a && rest[|a| + 1..] == b;
      assert b + "" == b;
      DigitRunOf(b, "");
    } else {
      assert rest == a;
    }
  }

  /** The matcher finds a split exactly when there is one, and there is at most one. */
  lemma MatchExact(s: string, m: Match)
    ensures MatchDecimal(s) == Some(m) <==> Splits(s, m)
  {
    if Splits(s, m) {
      var rest := m.intPart + Tail(m.pointed, m.fracPart);
      SignFound(m.sign, rest);
      assert s[|m.sign|..] == rest;
      UnsignedFound(m.intPart, m.pointed, m.fracPart);
    }
  }

  lemma SignFound(sign: string, rest: string)
    requires sign == "" || sign == "+" || sign == "-"
    requires rest == "" || (rest[0] != '+' && rest[0] != '-')
    ensures SignOf(sign + rest) == sign
  {
    if sign == "" {
      assert sign + rest == rest;
    } else {
      assert (sign + rest)[0] == sign[0] && [sign[0]] == sign;
    }
  }

  // ---------------------------------------------------------------- parsing and printing

  lemma PadEndDigits(s: string, n: nat)
    requires AllDigits(s)
    ensures AllDigits(PadEnd(s, n, '0'))
  {
  }

  /** Base units denoted by the digits of a decimal, for tokens with `k` decimals. */
  function UnitsAt(intPart: string, fracPart: string, k: nat): nat
    requires AllDigits(intPart) && AllDigits(fracPart)
  {
    PadEndDigits(fracPart, k);
    DigitsValue(intPart) * Pow10(k) + DigitsValue(PadEnd(fracPart, k, '0'))
  }

  function BaseUnits(intPart: string, fracPart: string): nat
    requires AllDigits(intPart) && AllDigits(fracPart)
  {
    UnitsAt(intPart, fracPart, TOKEN_DECIMALS)
  }

  /** What a matched text is worth, or why it is refused. */
  function Evaluate(m: Match, allowNegative: bool): Result<int, Error>
    requires AllDigits(m.intPart) && AllDigits(m.fracPart)
  {
    if m.intPart == "" && m.fracPart == "" then Err(NoDigits)
    else if |m.fracPart| > 7 then Err(TooManyDecimalPlaces)
    else
      var abs: int := BaseUnits(m.intPart, m.fracPart);
      if m.sign == "-" && !allowNegative && abs != 0 then Err(NegativeAmount)
      else Ok(if m.sign == "-" then -abs else abs)
  }

  function TryParse(text: string, allowNegative: bool): Result<int, Error> {
    var s := Trim(text);
    if s == "" then Ok(0)
    else
      match MatchDecimal(s)
      case None => Err(NotADecimal)
      case Some(m) => Evaluate(m, allowNegative)
  }

  /** Parsing a text with known parts is evaluating the parts. */
  lemma ParseParts(text: string, m: Match, allowNegative: bool)
    requires Trim(text) != "" && Splits(Trim(text), m)
    ensures TryParse(text, allowNegative) == Evaluate(m, allowNegative)
  {
    MatchExact(Trim(text), m);
  }

  function StripZeros(s: string): (t: string)
    ensures t <= s && (t == "" || t[|t| - 1] != '0')
  {
    if s != "" && s[|s| - 1] == '0' then StripZeros(s[..|s| - 1]) else s
  }

  /** The digits before the point and the digits after it, trailing zeros removed. */
  function PrintPartsAt(n: nat, k: nat): (string, string) {
    var absStr := PadStart(NatText(n), k + 1, '0');
    (absStr[..|absStr| - k], StripZeros(absStr[|absStr| - k..]))
  }

  function PrintParts(n: nat): (string, string) {
    PrintPartsAt(n, TOKEN_DECIMALS)
  }

  function Print(v: int): string {
    var (intPart, frac) := PrintParts(if v < 0 then -v else v);
    var out := intPart + Tail(frac != "", frac);
    if v < 0 then "-" + out else out
  }

  // ---------------------------------------------------------------- the round trip

  lemma {:induction false} StripThenPad(s: string)
    ensures PadEnd(StripZeros(s), |s|, '0') == s
    decreases |s|
  {
    if s != "" && s[|s| - 1] == '0' {
      var init := s[..|s| - 1];
      StripThenPad(init);
      assert PadEnd(StripZeros(s), |s|, '0') == PadEnd(StripZeros(init), |init|, '0') + "0";
      assert s == init + "0";
    }
  }

  lemma TrimNothing(s: string)
    requires s != "" && !IsSpace(s[0]) && !IsSpace(s[|s| - 1])
    ensures Trim(s) == s
  {
    assert "" + s + "" == s;
    Trimming.TrimOf(IsSpace, "", s, "");
  }

  lemma PadStartValue(s: string, n: nat)
    requires AllDigits(s)
    ensures AllDigits(PadStart(s, n, '0')) && DigitsValue(PadStart(s, n, '0')) == DigitsValue(s)
  {
    if |s| < n {
      ZerosAreZero(n - |s|);
      DigitsConcat(Repeat('0', n - |s|), s);
    }
  }

  /** The parts the printer assembles stand for the number. */
  lemma PrintedParts(n: nat)
    ensures var (intPart, frac) := PrintParts(n);
            && AllDigits(intPart) && |intPart| > 0 && AllDigits(frac) && |frac| <= 7
            && BaseUnits(intPart, frac) == n
  {
    var absStr := PadStart(NatText(n), TOKEN_DECIMALS + 1, '0');
    PadStartValue(NatText(n), TOKEN_DECIMALS + 1);
    var intPart, fracRaw := absStr[..|absStr| - TOKEN_DECIMALS], absStr[|absStr| - TOKEN_DECIMALS..];
    assert absStr == intPart + fracRaw;
    DigitsConcat(intPart, fracRaw);
    StripThenPad(fracRaw);
  }

  /** No leading zero but a lone one, and no trailing zero after the point. */
  predicate Tight(intPart: string, fracPart: string) {
    && intPart != "" && (|intPart| == 1 || intPart[0] != '0')
    && (fracPart == "" || fracPart[|fracPart| - 1] != '0')
  }

  lemma {:induction false} NatTextTight(n: nat)
    ensures |NatText(n)| == 1 || NatText(n)[0] != '0'
    ensures n > 0 ==> NatText(n)[0] != '0'
  {
    if n >= 10 {
      NatTextTight(n / 10);
    }
  }

  /** The printer's parts carry no superfluous zeros. */
  lemma PrintedTight(n: nat, k: nat)
    ensures var (intPart, frac) := PrintPartsAt(n, k); Tight(intPart, frac)
  {
    NatTextTight(n);
    var absStr := PadStart(NatText(n), k + 1, '0');
    assert |NatText(n)| > k + 1 ==> absStr[0] == NatText(n)[0];
  }

  lemma SignedText(v: int, out: string)
    ensures (if v < 0 then "-" + out else out) == (if v < 0 then "-" else "") + out
  {
  }

  /** The printed text is one the pattern accepts, with these parts. */
  lemma PrintMatches(v: int) returns (m: Match)
    ensures Splits(Print(v), m) && Trim(Print(v)) != "" && Trim(Print(v)) == Print(v)
    ensures m.intPart != "" && |m.fracPart| <= 7 && m.sign == (if v < 0 then "-" else "")
    ensures BaseUnits(m.intPart, m.fracPart) == if v < 0 then -v else v
    ensures Tight(m.intPart, m.fracPart) && (m.pointed <==> m.fracPart != "")
  {
    var n: nat := if v < 0 then -v else v;
    PrintedParts(n);
    PrintedTight(n, TOKEN_DECIMALS);
    var (intPart, frac) := PrintParts(n);
    m := Match(if v < 0 then "-" else "", intPart, frac != "", frac);
    SignedText(v, intPart + Tail(frac != "", frac));
    PrintedSplits(Print(v), m);
  }

  /** Parsing what was printed gives the amount back; only a negative amount can be refused,
      and exactly where negatives are not allowed. */
  lemma PrintThenParse(v: int, allowNegative: bool)
    ensures TryParse(Print(v), allowNegative) == if v < 0 && !allowNegative then Err(NegativeAmount) else Ok(v)
  {
    var m := PrintMatches(v);
    ParseParts(Print(v), m, allowNegative);
    EvaluatePrinted(v, m, allowNegative);
  }

  lemma EvaluatePrinted(v: int, m: Match, allowNegative: bool)
    requires AllDigits(m.intPart) && AllDigits(m.fracPart) && m.intPart != "" && |m.fracPart| <= 7
    requires m.sign == (if v < 0 then "-" else "") && BaseUnits(m.intPart, m.fracPart) == if v < 0 then -v else v
    ensures Evaluate(m, allowNegative) == if v < 0 && !allowNegative then Err(NegativeAmount) else Ok(v)
  {
  }

  /** A text made of these parts has nothing to trim. */
  lemma PrintedSplits(s: string, m: Match)
    requires AllDigits(m.intPart) && |m.intPart| > 0 && AllDigits(m.fracPart) && m.pointed == (m.fracPart != "")
    requires m.sign == "" || m.sign == "-"
    requires s == m.sign + (m.intPart + Tail(m.pointed, m.fracPart))
    ensures Splits(s, m) && Trim(s) == s && s != ""
  {
    LastIsDigit(m.intPart, m.pointed, m.fracPart);
    EndsInDigit(m.sign, m.intPart + Tail(m.pointed, m.fracPart));
    TrimNothing(s);
  }

  lemma EndsInDigit(sign: string, rest: string)
    requires sign == "" || sign == "-"
    requires rest != "" && IsDigit(rest[0]) && IsDigit(rest[|rest| - 1])
    ensures var s := sign + rest; s != "" && !IsSpace(s[0]) && !IsSpace(s[|s| - 1])
  {
    var s := sign + rest;
    assert s[|s| - 1] == rest[|rest| - 1];
    assert s[0] == if sign == "" then rest[0] else '-';
  }

  lemma LastIsDigit(a: string, pointed: bool, b: string)
    requires AllDigits(a) && |a| > 0 && AllDigits(b) && pointed == (b != "")
    ensures var rest := a + Tail(pointed, b); IsDigit(rest[0]) && IsDigit(rest[|rest| - 1])
  {
    if !pointed {
      assert a + Tail(pointed, b) == a;
    }
  }

  /** What the parser demands of the parts: a digit, at most seven decimals, and no negative
      amount where negatives are not allowed. */
  predicate Acceptable(m: Match, allowNegative: bool)
    requires AllDigits(m.intPart) && AllDigits(m.fracPart)
  {
    && (m.intPart != "" || m.fracPart != "") && |m.fracPart| <= 7
    && (m.sign == "-" && !allowNegative ==> DigitsValue(m.intPart + m.fracPart) == 0)
  }

  /** What an accepted text denotes: with `f` decimal places, `10^f` times the result is the
      number spelled by all its digits times `10^7`, with the sign of the text. */
  lemma AcceptedValue(text: string, allowNegative: bool, m: Match)
    requires Trim(text) != "" && Splits(Trim(text), m)
    ensures var r, digits := TryParse(text, allowNegative), DigitsValue(m.intPart + m.fracPart);
            && (r.Ok? <==> Acceptable(m, allowNegative))
            && (r.Ok? ==> r.value * Pow10(|m.fracPart|)
                          == (if m.sign == "-" then -1 else 1) * digits * Pow10(TOKEN_DECIMALS))
  {
    ParseParts(text, m, allowNegative);
    EvaluateValue(m, allowNegative);
  }

  lemma EvaluateValue(m: Match, allowNegative: bool)
    requires AllDigits(m.intPart) && AllDigits(m.fracPart)
    ensures var r, digits := Evaluate(m, allowNegative), DigitsValue(m.intPart + m.fracPart);
            && (r.Ok? <==> Acceptable(m, allowNegative))
            && (r.Ok? ==> r.value * Pow10(|m.fracPart|)
                          == (if m.sign == "-" then -1 else 1) * digits * Pow10(TOKEN_DECIMALS))
  {
    if |m.fracPart| <= 7 {
      var k := TOKEN_DECIMALS;
      ScaledUnits(m.intPart, m.fracPart, k);
      SignedUnits(UnitsAt(m.intPart, m.fracPart, k), Pow10(|m.fracPart|), DigitsValue(m.intPart + m.fracPart), Pow10(k));
    }
  }

  lemma SignedUnits(a: nat, p: nat, d: nat, q: nat)
    requires a * p == d * q
    ensures (0 - a) * p == -1 * d * q && a * p == 1 * d * q
  {
  }

  lemma PadValue(s: string, k: nat)
    requires AllDigits(s) && |s| <= k
    ensures AllDigits(PadEnd(s, k, '0')) && DigitsValue(PadEnd(s, k, '0')) == DigitsValue(s) * Pow10(k - |s|)
  {
    var zeros := Repeat('0', k - |s|);
    ZerosAreZero(k - |s|);
    DigitsConcat(s, zeros);
    assert PadEnd(s, k, '0') == s + zeros;
  }

  lemma ScaledUnits(intPart: string, fracPart: string, k: nat)
    requires AllDigits(intPart) && AllDigits(fracPart) && |fracPart| <= k
    ensures UnitsAt(intPart, fracPart, k) * Pow10(|fracPart|) == DigitsValue(intPart + fracPart) * Pow10(k)
    ensures UnitsAt(intPart, fracPart, k) == 0 <==> DigitsValue(intPart + fracPart) == 0
  {
    PadValue(fracPart, k);
    DigitsConcat(intPart, fracPart);
    Rescale(DigitsValue(intPart), DigitsValue(fracPart), |fracPart|, k,
            UnitsAt(intPart, fracPart, k), DigitsValue(intPart + fracPart));
  }

  lemma Rescale(i: nat, d: nat, f: nat, k: nat, u: nat, w: nat)
    requires f <= k && u == i * Pow10(k) + d * Pow10(k - f) && w == i * Pow10(f) + d
    ensures u * Pow10(f) == w * Pow10(k)
    ensures u == 0 <==> w == 0
  {
    Pow10Sum(k - f, f);
    RescaleProducts(i, d, Pow10(k - f), Pow10(f), Pow10(k), u, w);
  }

  lemma RescaleProducts(i: nat, d: nat, p: nat, q: nat, r: nat, u: nat, w: nat)
    requires r == p * q && p > 0 && u == i * r + d * p && w == i * q + d
    ensures u * q == w * r && (u == 0 <==> w == 0)
  {
    assert i * r == (i * q) * p;
    assert u == w * p;
    assert w > 0 ==> w * p > 0;
    assert w * p * q == w * r;
  }

  /** Why a text is refused: it is no decimal, it has no digit, it has too many decimals, or it is a
      negative amount where none is allowed, in this order. */
  lemma RefusedExactly(text: string, allowNegative: bool)
    ensures var r := TryParse(text, allowNegative);
            && (r == Err(NotADecimal) <==> Trim(text) != "" && forall m :: !Splits(Trim(text), m))
            && (r == Err(NoDigits) <==>
                  Trim(text) != "" && exists m :: Splits(Trim(text), m) && m.intPart == "" && m.fracPart == "")
            && (r == Err(TooManyDecimalPlaces) <==>
                  Trim(text) != "" && exists m :: Splits(Trim(text), m) && |m.fracPart| > 7)
  {
    var s := Trim(text);
    if s != "" {
      if MatchDecimal(s).Some? {
        MatchExact(s, MatchDecimal(s).value);
      }
      forall m | Splits(s, m) ensures MatchDecimal(s) == Some(m) {
        MatchExact(s, m);
      }
    }
  }

  /** White space around a text changes nothing, and what is parsed has none at its ends. */
  lemma SpaceAround(lead: string, text: string, trail: string, allowNegative: bool)
    requires (forall c | c in lead :: IsSpace(c)) && (forall c | c in trail :: IsSpace(c))
    ensures TryParse(lead + text + trail, allowNegative) == TryParse(text, allowNegative)
    ensures Trim(text) == "" || (!IsSpace(Trim(text)[0]) && !IsSpace(Trim(text)[|Trim(text)| - 1]))
    ensures exists a, b :: text == a + Trim(text) + b && Trimming.AllSpace(IsSpace, a) && Trimming.AllSpace(IsSpace, b)
  {
    Trimming.TrimAround(IsSpace, lead, text, trail);
    var a, b := Trimming.TrimSplits(IsSpace, text);
  }

  /** Exactly which texts are accepted: blank ones, which are worth zero, and decimals the rules
      allow. */
  lemma AcceptedExactly(text: string, allowNegative: bool)
    ensures TryParse(text, allowNegative).Ok?
            <==> Trim(text) == "" || exists m :: Splits(Trim(text), m) && Acceptable(m, allowNegative)
    ensures Trim(text) == "" ==> TryParse(text, allowNegative) == Ok(0)
  {
    var s := Trim(text);
    if s != "" {
      if MatchDecimal(s).Some? {
        MatchExact(s, MatchDecimal(s).value);
        AcceptedValue(text, allowNegative, MatchDecimal(s).value);
      }
      if m :| Splits(s, m) && Acceptable(m, allowNegative) {
        MatchExact(s, m);
      }
    }
  }

  // ---------------------------------------------------------------- normal forms

  /** The digits of a number are the only ones that denote it without a leading zero. */
  lemma {:induction false} NatTextOf(s: string)
    requires AllDigits(s) && s != "" && (|s| == 1 || s[0] != '0')
    ensures NatText(DigitsValue(s)) == s
  {
    var init, last := s[..|s| - 1], s[|s| - 1];
    var d := last as int - '0' as int;
    assert DigitChar(d) == last;
    if init == "" {
      assert s == [last];
    } else {
      NatTextOf(init);
      assert NatText(0)[0] == '0';
      assert DigitsValue(s) / 10 == DigitsValue(init) && DigitsValue(s) % 10 == d;
      assert s == init + [last];
    }
  }

  lemma ZeroInFront(rest: string)
    requires AllDigits(rest)
    ensures AllDigits("0" + rest) && DigitsValue("0" + rest) == DigitsValue(rest)
  {
    ZerosAreZero(1);
    assert Repeat('0', 1) == "0";
    DigitsConcat("0", rest);
  }

  lemma PadOneMore(x: string, n: nat)
    requires |x| <= n
    ensures PadStart(x, n + 1, '0') == "0" + PadStart(x, n, '0')
  {
  }

  lemma {:induction false} PadStartOf(s: string)
    requires AllDigits(s) && s != ""
    ensures PadStart(NatText(DigitsValue(s)), |s|, '0') == s
  {
    if |s| == 1 || s[0] != '0' {
      NatTextOf(s);
    } else {
      var rest := s[1..];
      assert s == "0" + rest;
      ZeroInFront(rest);
      PadStartOf(rest);
      PadOneMore(NatText(DigitsValue(rest)), |rest|);
    }
  }

  lemma {:induction false} StripPadded(s: string, n: nat)
    requires s == "" || s[|s| - 1] != '0'
    ensures StripZeros(s + Repeat('0', n)) == s
    decreases n
  {
    var padded := s + Repeat('0', n);
    if n == 0 {
      assert padded == s;
    } else {
      assert padded[..|padded| - 1] == s + Repeat('0', n - 1);
      StripPadded(s, n - 1);
    }
  }

  lemma UnitsDigits(intPart: string, fracPart: string, k: nat)
    requires AllDigits(intPart) && AllDigits(fracPart) && |fracPart| <= k
    ensures AllDigits(PadEnd(fracPart, k, '0')) && |PadEnd(fracPart, k, '0')| == k
    ensures UnitsAt(intPart, fracPart, k) == DigitsValue(intPart + PadEnd(fracPart, k, '0'))
  {
    PadEndDigits(fracPart, k);
    DigitsConcat(intPart, PadEnd(fracPart, k, '0'));
  }

  /** The number spelled by both parts is padded back to just those digits. */
  lemma DigitsPrinted(intPart: string, padded: string)
    requires AllDigits(intPart) && AllDigits(padded) && intPart != "" && (|intPart| == 1 || intPart[0] != '0')
    ensures PadStart(NatText(DigitsValue(intPart + padded)), |padded| + 1, '0') == intPart + padded
  {
    var s := intPart + padded;
    if |intPart| == 1 {
      PadStartOf(s);
    } else {
      assert s[0] == intPart[0];
      NatTextOf(s);
    }
  }

  lemma PrintedFrom(n: nat, k: nat, intPart: string, padded: string)
    requires |padded| == k && PadStart(NatText(n), k + 1, '0') == intPart + padded
    ensures PrintPartsAt(n, k) == (intPart, StripZeros(padded))
  {
    var s := intPart + padded;
    assert s[..|s| - k] == intPart && s[|s| - k..] == padded;
  }

  lemma PaddedStrips(fracPart: string, k: nat)
    requires |fracPart| <= k && (fracPart == "" || fracPart[|fracPart| - 1] != '0')
    ensures StripZeros(PadEnd(fracPart, k, '0')) == fracPart
  {
    assert PadEnd(fracPart, k, '0') == fracPart + Repeat('0', k - |fracPart|);
    StripPadded(fracPart, k - |fracPart|);
  }

  /** The printer gives parts without superfluous zeros back. */
  lemma PartsPrinted(intPart: string, fracPart: string, k: nat)
    requires AllDigits(intPart) && AllDigits(fracPart) && |fracPart| <= k
    requires Tight(intPart, fracPart)
    ensures PrintPartsAt(UnitsAt(intPart, fracPart, k), k) == (intPart, fracPart)
  {
    var padded := PadEnd(fracPart, k, '0');
    UnitsDigits(intPart, fracPart, k);
    DigitsPrinted(intPart, padded);
    PrintedFrom(UnitsAt(intPart, fracPart, k), k, intPart, padded);
    PaddedStrips(fracPart, k);
  }

  /** The texts the printer can write: no plus sign, no minus zero, no superfluous zeros or point,
      at most seven decimals. */
  predicate Normal(m: Match)
    requires AllDigits(m.intPart) && AllDigits(m.fracPart)
  {
    && m.sign != "+" && (m.sign == "-" ==> DigitsValue(m.intPart + m.fracPart) != 0)
    && Tight(m.intPart, m.fracPart) && (m.pointed <==> m.fracPart != "") && |m.fracPart| <= 7
  }

  /** A normal text and its value, printed, spell the same. */
  lemma PrintSpells(text: string, m: Match, v: int)
    requires Splits(text, m) && (m.sign == "" || m.sign == "-") && (m.pointed <==> m.fracPart != "")
    requires v < 0 <==> m.sign == "-"
    requires PrintParts(if v < 0 then -v else v) == (m.intPart, m.fracPart)
    ensures Print(v) == text
  {
    SignedText(v, m.intPart + Tail(m.pointed, m.fracPart));
  }

  lemma EvaluateNormal(m: Match)
    requires AllDigits(m.intPart) && AllDigits(m.fracPart) && Normal(m)
    ensures var units := BaseUnits(m.intPart, m.fracPart);
            && Evaluate(m, true) == Ok(if m.sign == "-" then 0 - units else units)
            && (m.sign == "-" ==> units > 0)
  {
    ScaledUnits(m.intPart, m.fracPart, TOKEN_DECIMALS);
  }

  lemma NothingToTrim(text: string, m: Match)
    requires Splits(text, m) && Normal(m)
    ensures Trim(text) == text && text != ""
  {
    PrintedSplits(text, m);
  }

  lemma EvaluatedPrints(text: string, m: Match)
    requires Splits(text, m) && Normal(m)
    ensures Evaluate(m, true).Ok? && Print(Evaluate(m, true).value) == text
  {
    EvaluateNormal(m);
    PartsPrinted(m.intPart, m.fracPart, TOKEN_DECIMALS);
    PrintSpells(text, m, Evaluate(m, true).value);
  }

  lemma NormalPrinted(text: string, m: Match)
    requires Splits(text, m) && Normal(m)
    ensures var r := TryParse(text, true); r.Ok? && Print(r.value) == text
  {
    NothingToTrim(text, m);
    ParseParts(text, m, true);
    EvaluatedPrints(text, m);
  }

  lemma PrintedNormal(v: int) returns (m: Match)
    ensures Splits(Print(v), m) && Normal(m)
  {
    m := PrintMatches(v);
    ScaledUnits(m.intPart, m.fracPart, TOKEN_DECIMALS);
  }

  /** Printing normalises: an accepted text is printed back unchanged exactly when it is in normal
      form. */
  lemma PrintIsNormalForm(text: string)
    ensures (var r := TryParse(text, true); r.Ok? && Print(r.value) == text)
            <==> exists m :: Splits(text, m) && Normal(m)
  {
    var r := TryParse(text, true);
    if r.Ok? && Print(r.value) == text {
      var m := PrintedNormal(r.value);
    }
    if m :| Splits(text, m) && Normal(m) {
      NormalPrinted(text, m);
    }
  }
}
