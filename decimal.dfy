/**
 * `Decimal_to_str`: an amount printed with 8 decimals (`f'{d:.8f}'`), then
 * trailing zeros dropped and, if they all go, the decimal point too.
 * Amounts are integers counting units of 1e-8 KOTO, so the 8-place
 * formatting is exact.
 */
module Decimals {
  import opened Wrappers
  import opened Text

  const Places: nat := 8

  function Pow10(n: nat): (r: nat)
    ensures r >= 1
  {
    if n == 0 then 1 else 10 * Pow10(n - 1)
  }

  /** Units per KOTO: `10^Places`. */
  const Scale: nat := 100_000_000

  lemma ScaleIsPow10()
    ensures Pow10(Places) == Scale
  {
    assert Pow10(4) == 10_000;
    assert Pow10(8) == 10_000 * Pow10(4) by {
      assert Pow10(8) == 10 * 10 * 10 * 10 * Pow10(4);
    }
  }

  predicate IsDigit(c: char) {
    '0' <= c <= '9'
  }

  predicate AllDigits(s: string) {
    forall i :: 0 <= i < |s| ==> IsDigit(s[i])
  }

  function DigitValue(c: char): nat
    requires IsDigit(c)
  {
    c as int - '0' as int
  }

  function DigitChar(d: nat): (c: char)
    requires d < 10
    ensures IsDigit(c) && DigitValue(c) == d
  {
    ('0' as int + d) as char
  }

  /** The value of a string of decimal digits. */
  function DigitsValue(s: string): nat
    requires AllDigits(s)
  {
    if s == [] then 0 else 10 * DigitsValue(s[..|s| - 1]) + DigitValue(s[|s| - 1])
  }

  /** `str(n)`: the decimal digits of `n`, without leading zeros. */
  function Digits(n: nat): (r: string)
    ensures r != [] && AllDigits(r)
  {
    if n < 10 then [DigitChar(n)] else Digits(n / 10) + [DigitChar(n % 10)]
  }

  /** The `w` decimal digits of `n < 10^w`, zero-padded on the left. */
  function Pad(n: nat, w: nat): (r: string)
    requires n < Pow10(w)
    ensures |r| == w && AllDigits(r)
  {
    if w == 0 then "" else Pad(n / 10, w - 1) + [DigitChar(n % 10)]
  }

  function Abs(u: int): nat {
    if u < 0 then -u else u
  }

  function Sign(u: int): string {
    if u < 0 then "-" else ""
  }

  /** `f'{d:.8f}'` for the amount of `u` units. */
  function Fixed8(u: int): string {
    ScaleIsPow10();
    Sign(u) + Digits(Abs(u) / Scale) + "." + Pad(Abs(u) % Scale, Places)
  }

  /** `s` without its trailing zeros. */
  function TrimZeros(s: string): (r: string)
    ensures |r| <= |s| && r == s[..|r|]
    ensures r == [] || r[|r| - 1] != '0'
  {
    if s != [] && s[|s| - 1] == '0' then TrimZeros(s[..|s| - 1]) else s
  }

  /** What `TrimZeros` drops is zeros only. */
  lemma {:induction false} TrimZerosDropsZeros(s: string)
    ensures forall i :: |TrimZeros(s)| <= i < |s| ==> s[i] == '0'
  {
    if s != [] && s[|s| - 1] == '0' {
      var g := s[..|s| - 1];
      TrimZerosDropsZeros(g);
      assert forall i :: 0 <= i < |g| ==> s[i] == g[i];
    }
  }

  /** Trailing zeros dropped, then the decimal point if it is reached. */
  function Trim(s: string): string {
    var t := TrimZeros(s);
    if t != [] && t[|t| - 1] == '.' then t[..|t| - 1] else t
  }

  /** What `Decimal_to_str` returns for `u` units. */
  function DecimalStr(u: int): string {
    Trim(Fixed8(u))
  }

  function Reverse(s: string): (r: string)
    ensures |r| == |s|
    ensures forall i :: 0 <= i < |s| ==> r[i] == s[|s| - 1 - i]
  {
    if s == [] then "" else Reverse(s[1..]) + [s[0]]
  }

  lemma ReverseTail(s: string, i: nat)
    requires i <= |s|
    ensures Reverse(Reverse(s)[i..]) == s[..|s| - i]
  {
  }

  lemma TrimZerosDrop(s: string, i: nat)
    requires i < |s| && s[|s| - 1 - i] == '0'
    ensures TrimZeros(s[..|s| - i]) == TrimZeros(s[..|s| - (i + 1)])
  {
    assert s[..|s| - i][..|s| - i - 1] == s[..|s| - (i + 1)];
  }

  /**
   * `Decimal_to_str`: reverse the fixed-point text, walk it from the
   * front dropping zeros, drop a decimal point if one is reached and stop
   * at the first other character, and reverse back.
   */
  method DecimalToStr(u: int) returns (r: string)
    ensures r == DecimalStr(u)
  {
    r := TrimFixed(Fixed8(u));
  }

  /** The loop of `Decimal_to_str`, over the fixed-point text `s`. */
  method TrimFixed(s: string) returns (r: string)
    ensures r == Trim(s)
  {
    var reverseS := Reverse(s);
    var returnS := reverseS;
    assert s[..|s|] == s;
    for i := 0 to |reverseS|
      invariant returnS == reverseS[i..]
      invariant TrimZeros(s) == TrimZeros(s[..|s| - i])
    {
      var c := reverseS[i];
      if c == '0' {
        TrimZerosDrop(s, i);
        returnS := returnS[1..];
        continue;
      }
      if c == '.' {
        returnS := returnS[1..];
      }
      TrimStopsAt(s, i);
      ReverseTail(s, if c == '.' then i + 1 else i);
      break;
    }
    ReverseTail(s, |returnS|);
    r := Reverse(returnS);
  }

  /** Where the walk over the reversed text stops, what is left is the trimmed text. */
  lemma TrimStopsAt(s: string, i: nat)
    requires i < |s| && s[|s| - 1 - i] != '0'
    requires TrimZeros(s) == TrimZeros(s[..|s| - i])
    ensures Trim(s) == if s[|s| - 1 - i] == '.' then s[..|s| - (i + 1)] else s[..|s| - i]
  {
    var t := s[..|s| - i];
    assert t[|t| - 1] == s[|s| - 1 - i];
    assert t[..|t| - 1] == s[..|s| - (i + 1)];
  }

  // ------------------------------------------------------------- values

  /** The amount a text `[-]digits[.digits]` with at most 8 decimals stands for, in units. */
  function ParseUnsigned(s: string): Option<nat> {
    if '.' in s then
      var k := FirstIndex(s, '.');
      var ip := s[..k];
      var fp := s[k + 1..];
      if ip != [] && AllDigits(ip) && AllDigits(fp) && |fp| <= Places then
        Some(Units(DigitsValue(ip), DigitsValue(fp), |fp|))
      else None
    else if s != [] && AllDigits(s) then Some(DigitsValue(s) * Scale)
    else None
  }

  function ParseUnits(s: string): Option<int> {
    if s != [] && s[0] == '-' then
      match ParseUnsigned(s[1..])
      case Some(v) => Some(-(v as int))
      case None => None
    else ParseUnsigned(s)
  }

  lemma {:induction false} DigitsValueOf(n: nat)
    ensures DigitsValue(Digits(n)) == n
    decreases n
  {
    if n >= 10 {
      DigitsValueOf(n / 10);
      var d := Digits(n / 10) + [DigitChar(n % 10)];
      assert d[..|d| - 1] == Digits(n / 10);
    }
  }

  lemma {:induction false} PadValue(n: nat, w: nat)
    requires n < Pow10(w)
    ensures DigitsValue(Pad(n, w)) == n
  {
    if w > 0 {
      PadValue(n / 10, w - 1);
      var d := Pad(n / 10, w - 1) + [DigitChar(n % 10)];
      assert d[..|d| - 1] == Pad(n / 10, w - 1);
    }
  }

  /** Dropping `k` trailing zeros divides the value by `10^k`. */
  lemma {:induction false} TrimZerosValue(f: string)
    requires AllDigits(f)
    ensures AllDigits(TrimZeros(f))
    ensures DigitsValue(TrimZeros(f)) * Pow10(|f| - |TrimZeros(f)|) == DigitsValue(f)
  {
    var t := TrimZeros(f);
    if f != [] && f[|f| - 1] == '0' {
      var g := f[..|f| - 1];
      assert AllDigits(g) by {
        assert forall i :: 0 <= i < |g| ==> g[i] == f[i];
      }
      TrimZerosValue(g);
      assert TrimZeros(g) == t;
      var p := Pow10(|g| - |t|);
      assert Pow10(|f| - |t|) == 10 * p;
      assert DigitsValue(f) == 10 * DigitsValue(g);
      MulTen(DigitsValue(t), p);
    } else {
      assert Pow10(|f| - |t|) == 1;
    }
  }

  lemma MulTen(a: nat, p: nat)
    ensures a * (10 * p) == 10 * (a * p)
  {
  }

  /** Trailing zeros after a character that is not a zero stay behind it. */
  lemma {:induction false} TrimZerosAppend(x: string, y: string)
    requires x != [] && x[|x| - 1] != '0'
    ensures TrimZeros(x + y) == x + TrimZeros(y)
  {
    if y != [] {
      var y' := y[..|y| - 1];
      assert (x + y)[..|x + y| - 1] == x + y';
      if y[|y| - 1] == '0' {
        TrimZerosAppend(x, y');
      }
    } else {
      assert x + y == x;
    }
  }

  /** The text after the sign: the integer digits, then the decimal point and the remaining decimals if any. */
  function Body(u: int): string {
    var tz := TrimZeros(Pad(Abs(u) % Scale, Places));
    var d := Digits(Abs(u) / Scale);
    if tz == [] then d else d + "." + tz
  }

  /** The text `Decimal_to_str` returns: the sign, the integer digits, and the decimal point and decimals only if a nonzero one remains. */
  lemma DecimalStrParts(u: int)
    ensures DecimalStr(u) == Sign(u) + Body(u)
  {
    var d := Digits(Abs(u) / Scale);
    var f := Pad(Abs(u) % Scale, Places);
    var tz := TrimZeros(f);
    var head := Sign(u) + d + ".";
    TrimZerosAppend(head, f);
    assert Fixed8(u) == head + f;
    if tz == [] {
      assert (head + tz)[..|head| - 1] == Sign(u) + d;
    } else {
      assert tz[|tz| - 1] == f[|tz| - 1];
      assert head + tz == Sign(u) + (d + "." + tz);
    }
  }

  /** The result never ends in a decimal point, and ends in a zero only when it has no decimal point. */
  lemma DecimalStrEnds(u: int)
    ensures var s := DecimalStr(u);
      && s != [] && s[|s| - 1] != '.'
      && ('.' in s ==> s[|s| - 1] != '0')
  {
    DecimalStrParts(u);
    var d := Digits(Abs(u) / Scale);
    var tz := TrimZeros(Pad(Abs(u) % Scale, Places));
    var s := DecimalStr(u);
    if tz == [] {
      assert forall i :: 0 <= i < |d| ==> IsDigit(d[i]);
      assert forall i :: 0 <= i < |s| ==> s[i] == '-' || IsDigit(s[i]);
    } else {
      assert s[|s| - 1] == tz[|tz| - 1];
      assert IsDigit(tz[|tz| - 1]);
    }
  }

  /** The amount of integer digits worth `ip` and decimals `fp` worth `f` standing for `10^-n` each. */
  function Units(ip: nat, f: nat, n: nat): nat
    requires n <= Places
  {
    ip * Scale + f * Pow10(Places - n)
  }

  /** The value of the integer digits and of the remaining decimals together make up the amount. */
  lemma PartsValue(u: int)
    ensures var tz := TrimZeros(Pad(Abs(u) % Scale, Places));
      && AllDigits(tz) && |tz| <= Places
      && Units(DigitsValue(Digits(Abs(u) / Scale)), DigitsValue(tz), |tz|) == Abs(u)
  {
    var a := Abs(u);
    var f := Pad(a % Scale, Places);
    DigitsValueOf(a / Scale);
    ScaleIsPow10();
    PadValue(a % Scale, Places);
    TrimZerosValue(f);
  }

  lemma ParseParts(d: string, tz: string)
    requires d != [] && AllDigits(d) && AllDigits(tz) && |tz| <= Places
    ensures ParseUnsigned(if tz == [] then d else d + "." + tz)
      == Some(Units(DigitsValue(d), DigitsValue(tz), |tz|))
  {
    if tz == [] {
      assert '.' !in d;
      assert DigitsValue(tz) == 0;
    } else {
      var body := d + "." + tz;
      FirstIndexAt(body, '.', |d|);
      var k := FirstIndex(body, '.');
      assert k == |d|;
      assert body[..k] == d;
      assert body[k + 1..] == tz;
    }
  }

  lemma BodyValue(u: int)
    ensures ParseUnsigned(Body(u)) == Some(Abs(u))
  {
    PartsValue(u);
    ParseParts(Digits(Abs(u) / Scale), TrimZeros(Pad(Abs(u) % Scale, Places)));
  }

  /** A sign in front of a text that does not start with one negates what it reads as. */
  lemma ParseSign(u: int, body: string)
    requires body != [] && body[0] != '-' && ParseUnsigned(body) == Some(Abs(u))
    ensures ParseUnits(Sign(u) + body) == Some(u)
  {
    if u < 0 {
      assert (Sign(u) + body)[1..] == body;
    } else {
      assert Sign(u) + body == body;
    }
  }

  /** Reading the text back gives the amount: nothing but zeros is dropped. */
  lemma DecimalStrRoundTrip(u: int)
    ensures ParseUnits(DecimalStr(u)) == Some(u)
  {
    DecimalStrParts(u);
    BodyValue(u);
    assert IsDigit(Digits(Abs(u) / Scale)[0]);
    assert Body(u)[0] == Digits(Abs(u) / Scale)[0];
    ParseSign(u, Body(u));
  }

  /** Zero padded to any width is all zeros, and all of it is trimmed. */
  lemma {:induction false} PadZero(w: nat)
    ensures TrimZeros(Pad(0, w)) == []
  {
    if w > 0 {
      PadZero(w - 1);
      var p := Pad(0, w);
      assert p[..|p| - 1] == Pad(0, w - 1);
    }
  }

  /** The leading digit of a padded number is its `10^w` digit. */
  lemma {:induction false} PadLead(d: nat, n: nat, w: nat)
    requires d < 10 && n < Pow10(w)
    ensures d * Pow10(w) + n < Pow10(w + 1)
    ensures Pad(d * Pow10(w) + n, w + 1) == [DigitChar(d)] + Pad(n, w)
  {
    var q := Pow10(w);
    MulBelowTen(d, q);
    if w == 0 {
      assert n == 0 && d * q == d;
    } else {
      var p := Pow10(w - 1);
      var x := d * p;
      MulTen(d, p);
      assert d * q == 10 * x;
      var m := 10 * x + n;
      assert m / 10 == x + n / 10 && m % 10 == n % 10;
      PadLead(d, n / 10, w - 1);
    }
  }

  lemma MulBelowTen(d: nat, q: nat)
    requires d < 10
    ensures d * q + q <= 10 * q
  {
  }

  /** The text for `q` whole KOTO and `m` units more. */
  lemma BodyIs(u: int, q: nat, m: nat)
    requires Abs(u) == q * Scale + m && m < Scale
    ensures Body(u) == var tz := TrimZeros(Pad(m, Places)); if tz == [] then Digits(q) else Digits(q) + "." + tz
  {
    assert Abs(u) / Scale == q && Abs(u) % Scale == m;
  }

  lemma TrimPadFive(m: nat)
    requires m == 50_000_000
    ensures TrimZeros(Pad(m, Places)) == "5"
  {
    PadZero(7);
    assert Pow10(7) == 10_000_000 by {
      assert Pow10(3) == 1000;
      assert Pow10(7) == 10 * 10 * 10 * 10 * Pow10(3);
    }
    PadLead(5, 0, 7);
    TrimZerosAppend("5", Pad(0, 7));
  }

  /** Worked amounts: 4.5, 5 and 0 KOTO, written with the trailing zeros and any bare point dropped. */
  lemma DecimalStrFourPointFive(u: int)
    requires u == 450_000_000
    ensures DecimalStr(u) == "4.5"
  {
    DecimalStrParts(u);
    BodyIs(u, 4, 50_000_000);
    TrimPadFive(50_000_000);
    assert Digits(4) == "4";
  }

  lemma DecimalStrWhole(u: int, q: nat)
    requires q < 10 && u == q * Scale
    ensures DecimalStr(u) == [DigitChar(q)]
  {
    DecimalStrParts(u);
    BodyIs(u, q, 0);
    PadZero(Places);
  }
}
