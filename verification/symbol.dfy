/** Symbols, the values they may hold, and the comparison of two symbols
    (scripts/config/expr.h and the second half of scripts/config/expr.c). */
module Symbols {
  import opened Options
  import opened Texts
  import opened Tristates

  datatype SymType = Unknown | Boolean | Tristated | Int | Hex | String

  /** The three built-in constants, the other constants (quoted words and
      numbers), and configuration symbols.  A configuration symbol of type
      `Unknown` is one that is mentioned but never defined. */
  datatype Symbol =
    | SymYes
    | SymMod
    | SymNo
    | Const(text: string)
    | Config(name: string, kind: SymType)
  {
    function Type(): SymType {
      if Config? then kind else Unknown
    }

    predicate IsConst() {
      !Config?
    }

    /** One of the constants y, m, n. */
    predicate IsTri() {
      SymYes? || SymMod? || SymNo?
    }

    predicate IsLogic() {
      Type().Boolean? || Type().Tristated?
    }
  }

  /** What every configuration symbol currently holds.  A symbol without an
      entry holds n and the empty text. */
  datatype Env = Env(modules: bool, tri: map<Symbol, Tristate>, text: map<Symbol, string>)

  function RawTri(env: Env, s: Symbol): Tristate {
    if s in env.tri then env.tri[s] else NO
  }

  /** `curr.tri` of a symbol.  A symbol of boolean type never holds m, and a
      tristate symbol holds m only while modules are enabled. */
  function TriOf(env: Env, s: Symbol): Tristate {
    match s
    case SymYes => YES
    case SymMod => MOD
    case SymNo => NO
    case Const(_) => NO
    case Config(_, kind) =>
      var raw := RawTri(env, s);
      match kind
      case Boolean => if raw == MOD then YES else raw
      case Tristated => if raw == MOD && !env.modules then YES else raw
      case _ => NO
  }

  function TriText(t: Tristate): string {
    if t == NO then "n" else if t == MOD then "m" else "y"
  }

  /** The string value of a symbol. */
  function TextOf(env: Env, s: Symbol): string {
    match s
    case SymYes => "y"
    case SymMod => "m"
    case SymNo => "n"
    case Const(text) => text
    case Config(name, kind) =>
      match kind
      case Boolean => TriText(TriOf(env, s))
      case Tristated => TriText(TriOf(env, s))
      case Unknown => name
      case _ => if s in env.text then env.text[s] else ""
  }

  // ----- reading a text as a number -----

  datatype Parsed = Text | Signed(v: int) | Unsigned(v: int)

  const TWO63: int := 0x8000_0000_0000_0000
  const TWO64: int := 0x1_0000_0000_0000_0000

  function DigitValue(c: char): nat {
    if '0' <= c <= '9' then c as int - '0' as int
    else if 'a' <= c <= 'z' then c as int - 'a' as int + 10
    else if 'A' <= c <= 'Z' then c as int - 'A' as int + 10
    else 36
  }

  predicate AllDigits(s: string, base: nat) {
    forall i :: 0 <= i < |s| ==> DigitValue(s[i]) < base
  }

  function Digits(s: string, base: nat): nat {
    if s == "" then 0 else Digits(s[..|s| - 1], base) * base + DigitValue(s[|s| - 1])
  }

  predicate HasHexPrefix(s: string) {
    |s| > 2 && s[0] == '0' && (s[1] == 'x' || s[1] == 'X') && DigitValue(s[2]) < 16
  }

  /** The magnitude of a text that is entirely digits of the given base;
      base 0 stands for the base named by the prefix. */
  function Magnitude(s: string, base: nat): Option<nat> {
    var hex := (base == 16 || base == 0) && HasHexPrefix(s);
    var digits := if hex then s[2..] else s;
    var b := if hex then 16 else if base != 0 then base else if s != "" && s[0] == '0' then 8 else 10;
    if digits != "" && AllDigits(digits, b) then Some(Digits(digits, b)) else None
  }

  function BaseOf(kind: SymType): nat {
    if kind.Int? then 10 else if kind.Hex? then 16 else 0
  }

  /** The kind and value that `expr_parse_string` reads from a text: text
      when the number does not fill the text or does not fit in 64 bits. */
  function ParseText(kind: SymType, s: string): Parsed {
    match kind
    case Boolean => Signed(if s == "n" then 0 else if s == "m" then 1 else if s == "y" then 2 else -1)
    case Tristated => Signed(if s == "n" then 0 else if s == "m" then 1 else if s == "y" then 2 else -1)
    case _ =>
      var t := SkipSpaces(s);
      var negative := t != "" && t[0] == '-';
      var body := if t != "" && (t[0] == '-' || t[0] == '+') then t[1..] else t;
      match Magnitude(body, BaseOf(kind))
      case None => Text
      case Some(m) =>
        if kind.Hex? then
          if m >= TWO64 then Text else Unsigned(if negative then (TWO64 - m) % TWO64 else m)
        else
          var v := if negative then 0 - (m as int) else m as int;
          if -TWO63 <= v < TWO63 then Signed(v) else Text
  }

  function Sign(a: int, b: int): int {
    if a < b then -1 else if a > b then 1 else 0
  }

  function StrCmp(a: string, b: string): int {
    if a == "" then (if b == "" then 0 else -1)
    else if b == "" then 1
    else if a[0] == b[0] then StrCmp(a[1..], b[1..])
    else if a[0] < b[0] then -1 else 1
  }

  /** The three-way result of comparing two texts of symbols of the given
      types: as numbers when both are numbers, as texts otherwise. */
  function CompareTexts(k: SymType, x: string, l: SymType, y: string): int {
    var bothText := k.String? && l.String?;
    var p := if bothText then Text else ParseText(k, x);
    var q := if bothText then Text else ParseText(l, y);
    if p.Text? || q.Text? then StrCmp(x, y)
    else if p.Unsigned? || q.Unsigned? then Sign(p.v % TWO64, q.v % TWO64)
    else Sign(p.v, q.v)
  }

  function Compare(env: Env, a: Symbol, b: Symbol): int {
    CompareTexts(a.Type(), TextOf(env, a), b.Type(), TextOf(env, b))
  }

  lemma {:induction false} StrCmpZero(a: string, b: string)
    ensures StrCmp(a, b) == 0 <==> a == b
  {
    if a != "" && b != "" && a[0] == b[0] {
      StrCmpZero(a[1..], b[1..]);
      assert a == [a[0]] + a[1..] && b == [b[0]] + b[1..];
    }
  }

  /** The constants y, m, n carry no type, so a text comparison decides. */
  lemma TriConstIsText(env: Env, c: Symbol)
    requires c.IsTri()
    ensures ParseText(c.Type(), TextOf(env, c)) == Text
  {
    var s := TextOf(env, c);
    assert SkipSpaces(s) == s;
    assert DigitValue(s[0]) >= 10;
  }

  /** A comparison of any symbol with y, m or n tests the symbol's text. */
  lemma CompareTriConst(env: Env, s: Symbol, c: Symbol)
    requires c.IsTri()
    ensures Compare(env, s, c) == 0 <==> TextOf(env, s) == TextOf(env, c)
    ensures s.IsLogic() ==> (Compare(env, s, c) == 0 <==> TriOf(env, s) == TriOf(env, c))
  {
    TriConstIsText(env, c);
    StrCmpZero(TextOf(env, s), TextOf(env, c));
  }
}
