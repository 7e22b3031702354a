/** The text work of the macro expander (scripts/config/preprocess.c): closing
    parentheses, commas, argument numbers and the newlines of a command's
    output.  Strings hold no NUL; their end stands for it. */
module PreprocessText {

  import opened Options
  import opened Texts

  // ----- the closing parenthesis -----

  function Delta(c: char): int {
    if c == '(' then 1 else if c == ')' then -1 else 0
  }

  /** How deep the parentheses of `s` leave the nesting. */
  function Depth(s: string): int {
    if s == "" then 0 else Delta(s[0]) + Depth(s[1..])
  }

  /** Where the parenthesis opened before `s` is closed, `nest` levels up. */
  function Close(s: string, nest: nat): (q: Option<nat>)
    ensures q.Some? ==> q.value < |s|
  {
    if s == "" then None
    else if s[0] == ')' && nest == 0 then Some(0)
    else
      match Close(s[1..], nest + Delta(s[0]))
      case None => None
      case Some(k) => Some(k + 1)
  }

  function Shift(n: nat, q: Option<nat>): Option<nat> {
    if q.None? then None else Some(n + q.value)
  }

  predicate IsClose(s: string, nest: nat, k: nat) {
    k < |s| && s[k] == ')' && nest + Depth(s[..k]) == 0 && forall j :: 0 <= j <= k ==> nest + Depth(s[..j]) >= 0
  }

  lemma DepthStep(s: string, j: nat)
    requires 0 < j <= |s|
    ensures Depth(s[..j]) == Delta(s[0]) + Depth(s[1..][..j - 1])
  {
    assert s[..j][1..] == s[1..][..j - 1];
  }

  /** The place found is the first ')' that no '(' of the text matches. */
  lemma {:induction false} CloseFinds(s: string, nest: nat, k: nat)
    ensures Close(s, nest) == Some(k) <==> IsClose(s, nest, k)
  {
    if s == "" {
    } else if s[0] == ')' && nest == 0 {
      if 0 < k < |s| {
        DepthStep(s, 1);
        assert nest + Depth(s[..1]) < 0;
      }
    } else if 0 < k < |s| {
      CloseFinds(s[1..], nest + Delta(s[0]), k - 1);
      CloseShift(s, nest, k);
    }
  }

  lemma CloseShift(s: string, nest: nat, k: nat)
    requires 0 < k < |s| && nest + Delta(s[0]) >= 0
    ensures IsClose(s, nest, k) <==> IsClose(s[1..], nest + Delta(s[0]), k - 1)
  {
    forall j | 0 < j <= k ensures Depth(s[..j]) == Delta(s[0]) + Depth(s[1..][..j - 1]) {
      DepthStep(s, j);
    }
    if IsClose(s, nest, k) {
      forall j | 0 <= j <= k - 1 ensures nest + Delta(s[0]) + Depth(s[1..][..j]) >= 0 {
        assert nest + Depth(s[..j + 1]) >= 0;
      }
    }
    if IsClose(s[1..], nest + Delta(s[0]), k - 1) {
      forall j | 0 <= j <= k ensures nest + Depth(s[..j]) >= 0 {
        if j > 0 {
          assert nest + Delta(s[0]) + Depth(s[1..][..j - 1]) >= 0;
        }
      }
    }
  }

  // ----- splitting at commas -----

  /** The tokens of a clause; commas inside parentheses do not count. */
  function Split(s: string, nest: int): (t: seq<string>)
    ensures |t| > 0
  {
    if s == "" then [""]
    else if nest == 0 && s[0] == ',' then [""] + Split(s[1..], 0)
    else
      var t := Split(s[1..], nest + Delta(s[0]));
      t[0 := [s[0]] + t[0]]
  }

  /** The first token with `prefix` before it. */
  function Extend(prefix: string, t: seq<string>): seq<string>
    requires |t| > 0
  {
    t[0 := prefix + t[0]]
  }

  lemma ExtendNothing(t: seq<string>)
    requires |t| > 0
    ensures Extend("", t) == t
  {
    assert "" + t[0] == t[0];
  }

  /** The tokens found up to `p`, the last one from `prev` on, and those to come. */
  function Tokens(argv: seq<string>, s: string, prev: nat, p: nat, nest: int): seq<string>
    requires prev <= p <= |s|
  {
    argv + Extend(s[prev..p], Split(s[p..], nest))
  }

  lemma TokenEnds(argv: seq<string>, s: string, prev: nat, p: nat)
    requires prev <= p < |s| && s[p] == ','
    ensures Tokens(argv, s, prev, p, 0) == Tokens(argv + [s[prev..p]], s, p + 1, p + 1, 0)
  {
    var t := Split(s[p + 1..], 0);
    assert s[p..][1..] == s[p + 1..];
    assert s[prev..p] + "" == s[prev..p];
    assert ([""] + t)[0 := s[prev..p]] == [s[prev..p]] + t;
    ExtendNothing(t);
    assert s[p + 1..p + 1] == "";
    assert argv + ([s[prev..p]] + t) == (argv + [s[prev..p]]) + t;
  }

  lemma TokenGoesOn(argv: seq<string>, s: string, prev: nat, p: nat, nest: int)
    requires prev <= p < |s| && !(nest == 0 && s[p] == ',')
    ensures Tokens(argv, s, prev, p, nest) == Tokens(argv, s, prev, p + 1, nest + Delta(s[p]))
  {
    assert s[p..][1..] == s[p + 1..];
    var t := Split(s[p + 1..], nest + Delta(s[p]));
    assert s[prev..p] + ([s[p]] + t[0]) == s[prev..p + 1] + t[0];
  }

  lemma LastToken(argv: seq<string>, s: string, prev: nat, nest: int)
    requires prev <= |s|
    ensures Tokens(argv, s, prev, |s|, nest) == argv + [s[prev..]]
  {
    assert s[prev..|s|] + "" == s[prev..];
  }

  function Join(t: seq<string>): string
    requires |t| > 0
  {
    if |t| == 1 then t[0] else t[0] + "," + Join(t[1..])
  }

  /** The tokens put together again are the clause. */
  lemma {:induction false} SplitJoin(s: string, nest: int)
    ensures Join(Split(s, nest)) == s
  {
    if s != "" {
      if nest == 0 && s[0] == ',' {
        SplitJoin(s[1..], 0);
        assert Split(s, nest)[1..] == Split(s[1..], 0);
      } else {
        SplitJoin(s[1..], nest + Delta(s[0]));
        JoinPrefix(s[0], Split(s[1..], nest + Delta(s[0])));
      }
    }
  }

  lemma JoinPrefix(c: char, t: seq<string>)
    requires |t| > 0
    ensures Join(t[0 := [c] + t[0]]) == [c] + Join(t)
  {
    assert t[0 := [c] + t[0]][1..] == t[1..];
  }

  /** No token holds a comma outside parentheses. */
  lemma {:induction false} SplitTokens(s: string, nest: int, i: nat)
    requires i < |Split(s, nest)|
    ensures Split(Split(s, nest)[i], if i == 0 then nest else 0) == [Split(s, nest)[i]]
  {
    if s != "" {
      if nest == 0 && s[0] == ',' {
        if i > 0 {
          SplitTokens(s[1..], 0, i - 1);
        }
      } else {
        SplitTokens(s[1..], nest + Delta(s[0]), i);
        if i == 0 {
          SplitOne(s[0], Split(s[1..], nest + Delta(s[0]))[0], nest);
        }
      }
    }
  }

  lemma SplitOne(c: char, token: string, nest: int)
    requires Split(token, nest + Delta(c)) == [token] && !(nest == 0 && c == ',')
    ensures Split([c] + token, nest) == [[c] + token]
  {
    assert ([c] + token)[1..] == token;
  }

  /** Each token is at most as long as the clause. */
  lemma {:induction false} TokenLength(s: string, nest: int, i: nat)
    requires i < |Split(s, nest)|
    ensures |Split(s, nest)[i]| <= |s|
  {
    if s != "" {
      if nest == 0 && s[0] == ',' {
        if i > 0 {
          TokenLength(s[1..], 0, i - 1);
        }
      } else {
        TokenLength(s[1..], nest + Delta(s[0]), i);
      }
    }
  }

  // ----- argument numbers -----

  const ULONG_MAX: nat := 0xFFFF_FFFF_FFFF_FFFF

  predicate IsDigit(c: char) {
    '0' <= c <= '9'
  }

  /** The number that all of `s` spells. */
  function Decimal(s: string): (n: Option<nat>) {
    if s == "" || !IsDigit(s[|s| - 1]) then None
    else if |s| == 1 then Some(s[0] as nat - '0' as nat)
    else
      match Decimal(s[..|s| - 1])
      case None => None
      case Some(m) => Some(10 * m + (s[|s| - 1] as nat - '0' as nat))
  }

  /** strtoul in base 10, for a text that it reads to its end. */
  function Strtoul(text: string): Option<nat> {
    var s := SkipSpaces(text);
    var neg := s != "" && s[0] == '-';
    var digits := if neg || (s != "" && s[0] == '+') then s[1..] else s;
    match Decimal(digits)
    case None => None
    case Some(m) => Some(if m > ULONG_MAX then ULONG_MAX else if neg && m > 0 then ULONG_MAX + 1 - m else m)
  }

  function Spell(n: nat): (s: string)
    ensures |s| > 0
  {
    if n < 10 then [('0' as nat + n) as char] else Spell(n / 10) + [('0' as nat + n % 10) as char]
  }

  lemma {:induction false} DecimalSpell(n: nat)
    ensures Decimal(Spell(n)) == Some(n) && IsDigit(Spell(n)[0])
  {
    if n >= 10 {
      DecimalSpell(n / 10);
      assert Spell(n)[..|Spell(n)| - 1] == Spell(n / 10);
      assert Spell(n)[0] == Spell(n / 10)[0];
    }
  }

  /** A number written out is read back. */
  lemma StrtoulSpell(n: nat)
    requires n <= ULONG_MAX
    ensures Strtoul(Spell(n)) == Some(n)
  {
    DecimalSpell(n);
    var s := Spell(n);
    assert !IsSpace(s[0]) && s[0] != '-' && s[0] != '+';
  }

  // ----- the output of a command -----

  const BUFFER: nat := 4096

  /** As much of the output as fits before the terminator. */
  function Kept(output: string): string {
    if |output| < BUFFER then output else output[..BUFFER - 1]
  }

  function WithoutNewlines(s: string): string {
    if s != "" && s[|s| - 1] == '\n' then WithoutNewlines(s[..|s| - 1]) else s
  }

  function Spaced(s: string): (t: string)
    ensures |t| == |s|
  {
    seq(|s|, i requires 0 <= i < |s| => if s[i] == '\n' then ' ' else s[i])
  }

  /** What $(shell,...) makes of the output. */
  function ShellText(output: string): string {
    Spaced(WithoutNewlines(Kept(output)))
  }

  /** `t` is a beginning of `s` with spaces for newlines, only newlines follow
      it there, and it does not end in one. */
  predicate CleansUp(s: string, t: string) {
    |t| <= |s| && (forall i :: 0 <= i < |t| ==> t[i] == if s[i] == '\n' then ' ' else s[i]) &&
    (forall i :: |t| <= i < |s| ==> s[i] == '\n') && (t != "" ==> s[|t| - 1] != '\n')
  }

  lemma {:induction false} TrailingNewlines(s: string)
    ensures var t := WithoutNewlines(s);
            |t| <= |s| && t == s[..|t|] && (forall i :: |t| <= i < |s| ==> s[i] == '\n') &&
            (t != "" ==> t[|t| - 1] != '\n')
  {
    if s != "" && s[|s| - 1] == '\n' {
      TrailingNewlines(s[..|s| - 1]);
    }
  }

  lemma OneEnd(s: string, m: nat, n: nat)
    requires m <= |s| && n <= |s|
    requires (forall i :: m <= i < |s| ==> s[i] == '\n') && (m > 0 ==> s[m - 1] != '\n')
    requires (forall i :: n <= i < |s| ==> s[i] == '\n') && (n > 0 ==> s[n - 1] != '\n')
    ensures m == n
  {
  }

  /** The newlines at the end are dropped and the others become spaces. */
  lemma ShellTextIff(output: string, t: string)
    ensures t == ShellText(output) <==> CleansUp(Kept(output), t)
  {
    var s := Kept(output);
    var w := WithoutNewlines(s);
    TrailingNewlines(s);
    if CleansUp(s, t) {
      OneEnd(s, |t|, |w|);
      assert t == Spaced(w);
    }
  }
}
