/** Texts that are compared, read as what they spell (expr_parse_string and
    expr_compare_type in scripts/config/expr.c, strtoll in
    scripts/config/symbol.c): numbers in base 10 and 16, with signs and
    prefixes. */
module Numerals {
  import opened Options
  import opened Texts
  import opened Tristates
  import opened Symbols
  import opened Exprs
  import opened SymbolGraph

  // ----- writing a number -----

  function DigitChar(d: nat): char
    requires d < 16
  {
    if d < 10 then ('0' as nat + d) as char else ('a' as nat + (d - 10)) as char
  }

  /** The digits of `n`, without leading zeros. */
  function Numeral(n: nat, base: nat): (s: string)
    requires 2 <= base <= 16
    ensures |s| > 0
  {
    if n < base then [DigitChar(n)] else Numeral(n / base, base) + [DigitChar(n % base)]
  }

  lemma DigitBack(d: nat)
    requires d < 16
    ensures DigitValue(DigitChar(d)) == d && !IsSpace(DigitChar(d)) && DigitChar(d) != '-' && DigitChar(d) != '+'
    ensures DigitChar(d) == '0' <==> d == 0
  {
  }

  lemma DivMod(n: nat, base: nat)
    requires base > 0
    ensures (n / base) * base + n % base == n
    ensures 2 <= base <= n ==> 0 < n / base < n
  {
  }

  lemma NumeralStep(n: nat, base: nat) returns (q: nat, d: nat)
    requires 2 <= base <= 16 && base <= n
    ensures 0 < q < n && d < base && q * base + d == n
    ensures Numeral(n, base) == Numeral(q, base) + [DigitChar(d)]
  {
    DivMod(n, base);
    q, d := n / base, n % base;
  }

  lemma OneDigit(n: nat, base: nat)
    requires n < base <= 16
    ensures Digits([DigitChar(n)], base) == n
  {
    DigitBack(n);
    var s := [DigitChar(n)];
    assert s[..0] == "" && Digits("", base) == 0;
    assert Digits(s, base) == 0 * base + DigitValue(s[0]);
  }

  lemma MoreDigits(front: string, d: nat, base: nat)
    requires d < base <= 16 && AllDigits(front, base)
    ensures AllDigits(front + [DigitChar(d)], base)
    ensures Digits(front + [DigitChar(d)], base) == Digits(front, base) * base + d
  {
    DigitBack(d);
    assert (front + [DigitChar(d)])[..|front|] == front;
  }

  /** No spaces, no sign, and no leading zero except in "0". */
  predicate Clean(s: string, n: nat) {
    s != "" && !IsSpace(s[0]) && s[0] != '-' && s[0] != '+' && (s[0] == '0' <==> n == 0) && (n == 0 ==> s == "0")
  }

  lemma LastDigit(n: nat, q: nat, d: nat, base: nat)
    requires 2 <= base <= 16 && 0 < q && d < base && q * base + d == n
    requires Numeral(n, base) == Numeral(q, base) + [DigitChar(d)]
    requires AllDigits(Numeral(q, base), base) && Digits(Numeral(q, base), base) == q && Clean(Numeral(q, base), q)
    ensures AllDigits(Numeral(n, base), base) && Digits(Numeral(n, base), base) == n && Clean(Numeral(n, base), n)
  {
    MoreDigits(Numeral(q, base), d, base);
    assert Numeral(n, base)[0] == Numeral(q, base)[0];
    assert n > 0;
  }

  lemma {:induction false} NumeralDigits(n: nat, base: nat)
    requires 2 <= base <= 16
    ensures AllDigits(Numeral(n, base), base) && Digits(Numeral(n, base), base) == n && Clean(Numeral(n, base), n)
  {
    if n < base {
      DigitBack(n);
      OneDigit(n, base);
    } else {
      var q, d := NumeralStep(n, base);
      NumeralDigits(q, base);
      LastDigit(n, q, d, base);
    }
  }

  lemma {:induction false} LeadingAll(s: string, base: nat)
    requires AllDigits(s, base)
    ensures LeadingDigits(s, base) == s
  {
    if s != "" {
      LeadingAll(s[1..], base);
      assert s == [s[0]] + s[1..];
    }
  }

  // ----- reading it back -----

  /** strtoll reads a decimal or hexadecimal number up to the 64-bit limits,
      with a minus sign and after spaces. */
  lemma StrToLLReads(n: nat, base: nat)
    requires base == 10 || base == 16
    ensures StrToLL(Numeral(n, base), base) == if n < TWO63 then n else TWO63 - 1
    ensures StrToLL("-" + Numeral(n, base), base) == if n <= TWO63 then 0 - n else -TWO63
    ensures forall c :: White(c) ==> StrToLL([c] + Numeral(n, base), base) == StrToLL(Numeral(n, base), base)
  {
    NumeralDigits(n, base);
    ReadSigned(Numeral(n, base), n, base);
    forall c | White(c) ensures StrToLL([c] + Numeral(n, base), base) == StrToLL(Numeral(n, base), base) {
      ReadSpaced(Numeral(n, base), base, c);
    }
  }

  predicate White(c: char) {
    c in " \t\n\r" || c == 11 as char || c == 12 as char
  }

  lemma ReadSpaced(s: string, base: nat, c: char)
    requires White(c)
    ensures StrToLL([c] + s, base) == StrToLL(s, base)
  {
    assert ([c] + s)[1..] == s;
    assert SkipSpaces([c] + s) == SkipSpaces(s);
  }

  lemma ReadSigned(s: string, n: nat, base: nat)
    requires base == 10 || base == 16
    requires AllDigits(s, base) && Digits(s, base) == n && Clean(s, n)
    ensures StrToLL(s, base) == if n < TWO63 then n else TWO63 - 1
    ensures StrToLL("-" + s, base) == if n <= TWO63 then 0 - n else -TWO63
  {
    LeadingAll(s, base);
    assert ("-" + s)[1..] == s;
    assert SkipSpaces(s) == s && SkipSpaces("-" + s) == "-" + s;
  }

  /** The text of a number symbol, and a number in the text of a constant. */
  lemma ParseReads(n: nat)
    requires n < TWO63
    ensures ParseText(Int, Numeral(n, 10)) == Signed(n)
  {
    var s := Numeral(n, 10);
    NumeralDigits(n, 10);
    assert SkipSpaces(s) == s;
  }

  lemma NegativeReads(n: nat)
    requires n <= TWO63
    ensures ParseText(Int, "-" + Numeral(n, 10)) == Signed(0 - n)
  {
    var s := Numeral(n, 10);
    NumeralDigits(n, 10);
    assert SkipSpaces("-" + s) == "-" + s && ("-" + s)[1..] == s;
  }

  lemma ConstantReads(n: nat)
    requires n < TWO63
    ensures ParseText(Unknown, Numeral(n, 10)) == Signed(n)
  {
    var s := Numeral(n, 10);
    NumeralDigits(n, 10);
    assert SkipSpaces(s) == s;
    if n == 0 {
      assert Digits("0", 8) == Digits("", 8) * 8 + 0;
    }
  }

  lemma HexReads(n: nat)
    requires n < TWO64
    ensures ParseText(Hex, Numeral(n, 16)) == Unsigned(n)
  {
    var s := Numeral(n, 16);
    NumeralDigits(n, 16);
    assert SkipSpaces(s) == s;
  }

  /** Capital letters are digits, too. */
  lemma CapitalDigits()
    ensures DigitValue('A') == 10 && DigitValue('B') == 11 && DigitValue('C') == 12
    ensures DigitValue('D') == 13 && DigitValue('E') == 14 && DigitValue('F') == 15
  {
  }

  lemma PrefixText(s: string, x: char, n: nat)
    requires s != "" && AllDigits(s, 16) && Digits(s, 16) == n && (x == 'x' || x == 'X')
    ensures var t := ['0', x] + s;
            Magnitude(t, 16) == Magnitude(t, 0) == Some(n) && SkipSpaces(t) == t && t[0] == '0'
  {
    var t := ['0', x] + s;
    assert t[2..] == s && t[2] == s[0] && HasHexPrefix(t);
  }

  lemma PrefixParse(t: string, n: nat)
    requires t != "" && t[0] == '0' && SkipSpaces(t) == t && Magnitude(t, 16) == Magnitude(t, 0) == Some(n)
    ensures n < TWO64 ==> ParseText(Hex, t) == Unsigned(n)
    ensures n < TWO63 ==> ParseText(Unknown, t) == Signed(n)
  {
  }

  /** With a prefix 0x or 0X in the text of a hex symbol or of a constant. */
  lemma PrefixReads(n: nat, x: char)
    requires x == 'x' || x == 'X'
    ensures n < TWO64 ==> ParseText(Hex, ['0', x] + Numeral(n, 16)) == Unsigned(n)
    ensures n < TWO63 ==> ParseText(Unknown, ['0', x] + Numeral(n, 16)) == Signed(n)
  {
    NumeralDigits(n, 16);
    PrefixText(Numeral(n, 16), x, n);
    PrefixParse(['0', x] + Numeral(n, 16), n);
  }

  lemma {:induction false} LeadingZero(s: string, base: nat)
    ensures Digits("0" + s, base) == Digits(s, base)
  {
    var t := "0" + s;
    if s == "" {
      assert t[..0] == "" && Digits("", base) == 0;
      assert Digits(t, base) == 0 * base + DigitValue('0');
    } else {
      assert t[..|t| - 1] == "0" + s[..|s| - 1] && t[|t| - 1] == s[|s| - 1];
      LeadingZero(s[..|s| - 1], base);
    }
  }

  lemma ZeroDigits(s: string)
    requires AllDigits(s, 8)
    ensures AllDigits("0" + s, 8)
  {
    var t := "0" + s;
    forall i | 0 <= i < |t| ensures DigitValue(t[i]) < 8 {
      if i > 0 { assert t[i] == s[i - 1]; }
    }
  }

  lemma NoPrefix(t: string)
    requires |t| > 1 && AllDigits(t, 8)
    ensures !HasHexPrefix(t)
  {
    assert DigitValue(t[1]) < 8;
  }

  lemma OctalText(s: string, n: nat)
    requires s != "" && AllDigits(s, 8) && Digits(s, 8) == n
    ensures Magnitude("0" + s, 0) == Some(n) && SkipSpaces("0" + s) == "0" + s
  {
    var t := "0" + s;
    LeadingZero(s, 8);
    ZeroDigits(s);
    NoPrefix(t);
    assert t[0] == '0';
  }

  lemma OctalParse(t: string, n: nat)
    requires t != "" && t[0] == '0' && SkipSpaces(t) == t && Magnitude(t, 0) == Some(n) && n < TWO63
    ensures ParseText(Unknown, t) == Signed(n)
  {
  }

  /** A constant that starts with 0 is octal. */
  lemma OctalReads(n: nat)
    requires n < TWO63
    ensures ParseText(Unknown, "0" + Numeral(n, 8)) == Signed(n)
  {
    NumeralDigits(n, 8);
    OctalText(Numeral(n, 8), n);
    OctalParse("0" + Numeral(n, 8), n);
  }

  // ----- comparing -----

  predicate Holds(rel: Rel, a: int, b: int) {
    match rel
    case Eq => a == b
    case Ne => a != b
    case Lt => a < b
    case Le => a <= b
    case Gt => a > b
    case Ge => a >= b
  }

  lemma SignedSign(k: SymType, x: string, l: SymType, y: string, m: int, n: int)
    requires !k.String? && ParseText(k, x) == Signed(m)
    requires !l.String? && ParseText(l, y) == Signed(n)
    ensures CompareTexts(k, x, l, y) == Sign(m, n)
  {
  }

  /** Two number symbols are compared by their numbers, and with a constant
      as well. */
  lemma NumbersCompare(env: Env, rel: Rel, s: Symbol, t: Symbol, m: nat, n: nat)
    requires s.Type().Int? && TextOf(env, s) == Numeral(m, 10) && m < TWO63
    requires (t.Type().Int? || t.IsConst()) && TextOf(env, t) == Numeral(n, 10) && n < TWO63
    ensures Eval(Comp(rel, s, t), env) == Bool(Holds(rel, m, n))
  {
    ParseReads(m);
    ParseReads(n);
    ConstantReads(n);
    SignedSign(s.Type(), TextOf(env, s), t.Type(), TextOf(env, t), m, n);
    SignHolds(env, rel, s, t, m, n);
  }

  lemma SmallMod(n: nat)
    requires n < TWO64
    ensures n % TWO64 == n
  {
  }

  lemma UnsignedSign(k: SymType, x: string, l: SymType, y: string, m: nat, n: nat)
    requires !k.String? && ParseText(k, x) == Unsigned(m) && m < TWO64
    requires !l.String? && ParseText(l, y) == Unsigned(n) && n < TWO64
    ensures CompareTexts(k, x, l, y) == Sign(m, n)
  {
    SmallMod(m);
    SmallMod(n);
  }

  lemma SignHolds(env: Env, rel: Rel, s: Symbol, t: Symbol, m: int, n: int)
    requires Compare(env, s, t) == Sign(m, n)
    ensures Eval(Comp(rel, s, t), env) == Bool(Holds(rel, m, n))
  {
  }

  lemma LogicReads(env: Env, s: Symbol)
    requires s.IsLogic()
    ensures ParseText(s.Type(), TextOf(env, s)) == Signed(TriOf(env, s))
  {
  }

  /** Among themselves and against numbers n, m and y are 0, 1 and 2. */
  lemma LogicCompare(env: Env, rel: Rel, s: Symbol, t: Symbol, k: nat)
    requires s.IsLogic() && k < TWO63
    ensures t.IsLogic() ==> Eval(Comp(rel, s, t), env) == Bool(Holds(rel, TriOf(env, s), TriOf(env, t)))
    ensures t == Const(Numeral(k, 10)) ==> Eval(Comp(rel, s, t), env) == Bool(Holds(rel, TriOf(env, s), k))
  {
    LogicReads(env, s);
    if t.IsLogic() {
      LogicReads(env, t);
      SignedSign(s.Type(), TextOf(env, s), t.Type(), TextOf(env, t), TriOf(env, s), TriOf(env, t));
      SignHolds(env, rel, s, t, TriOf(env, s), TriOf(env, t));
    }
    if t == Const(Numeral(k, 10)) {
      ConstantReads(k);
      SignedSign(s.Type(), TextOf(env, s), t.Type(), TextOf(env, t), TriOf(env, s), k);
      SignHolds(env, rel, s, t, TriOf(env, s), k);
    }
  }

  /** So are two hex symbols. */
  lemma HexCompare(env: Env, rel: Rel, s: Symbol, t: Symbol, m: nat, n: nat)
    requires s.Type().Hex? && TextOf(env, s) == "0x" + Numeral(m, 16) && m < TWO64
    requires t.Type().Hex? && TextOf(env, t) == "0x" + Numeral(n, 16) && n < TWO64
    ensures Eval(Comp(rel, s, t), env) == Bool(Holds(rel, m, n))
  {
    PrefixReads(m, 'x');
    PrefixReads(n, 'x');
    assert ['0', 'x'] == "0x";
    UnsignedSign(s.Type(), TextOf(env, s), t.Type(), TextOf(env, t), m, n);
    SignHolds(env, rel, s, t, m, n);
  }

  /** `a` comes before `b`: at the first difference, or as a proper prefix. */
  ghost predicate Before(a: string, b: string) {
    exists k: nat :: k <= |a| && k < |b| && a[..k] == b[..k] && (k == |a| || a[k] < b[k])
  }

  lemma {:induction false} StrCmpOrder(a: string, b: string)
    ensures StrCmp(a, b) < 0 <==> Before(a, b)
    ensures StrCmp(a, b) > 0 <==> Before(b, a)
  {
    if a == "" || b == "" || a[0] != b[0] {
      assert a[..0] == b[..0];
    } else {
      StrCmpOrder(a[1..], b[1..]);
      BeforeTail(a, b);
      BeforeTail(b, a);
    }
  }

  lemma BeforeTail(a: string, b: string)
    requires a != "" && b != "" && a[0] == b[0]
    ensures Before(a, b) <==> Before(a[1..], b[1..])
  {
    if k: nat :| k <= |a| && k < |b| && a[..k] == b[..k] && (k == |a| || a[k] < b[k]) {
      assert a[1..][..k - 1] == a[..k][1..] && b[1..][..k - 1] == b[..k][1..];
    }
    if k: nat :| k <= |a[1..]| && k < |b[1..]| && a[1..][..k] == b[1..][..k] &&
                 (k == |a[1..]| || a[1..][k] < b[1..][k]) {
      assert a[..k + 1] == [a[0]] + a[1..][..k] && b[..k + 1] == [b[0]] + b[1..][..k];
    }
  }

  /** Two string symbols are compared as texts, whatever they spell. */
  lemma TextsCompare(env: Env, s: Symbol, t: Symbol)
    requires s.Type().String? && t.Type().String?
    ensures Eval(Comp(Lt, s, t), env) == Bool(Before(TextOf(env, s), TextOf(env, t)))
    ensures Eval(Comp(Gt, s, t), env) == Bool(Before(TextOf(env, t), TextOf(env, s)))
    ensures Eval(Comp(Eq, s, t), env) == Bool(TextOf(env, s) == TextOf(env, t))
  {
    StrCmpOrder(TextOf(env, s), TextOf(env, t));
    StrCmpZero(TextOf(env, s), TextOf(env, t));
  }
}
