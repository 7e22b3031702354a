/** Laws of macro expansion (scripts/config/preprocess.c). */
module PreprocessLaws {

  import opened Options
  import opened PreprocessText
  import opened PreprocessSpec
  import opened Texts

  // ----- plain text -----

  /** No reference starts at `i`, and the expansion does not end there. */
  predicate PlainAt(s: string, i: nat, end: char -> bool)
    requires i < |s|
  {
    if s[i] == '$' then i + 1 == |s| || s[i + 1] != '(' else !end(s[i])
  }

  predicate Plain(s: string, end: char -> bool) {
    forall i {:trigger PlainAt(s, i, end)} :: 0 <= i < |s| ==> PlainAt(s, i, end)
  }

  /** Such a text expands to itself; a '$' without '(' is a character. */
  lemma {:induction false} PlainText(g: Config, c: Counts, s: string, end: char -> bool, argv: seq<string>)
    requires Counted(g, c) && Plain(s, end)
    ensures Expand(g, c, s, end, argv) == Ok(Piece(s, ""))
  {
    if s != "" {
      forall i | 0 <= i < |s[1..]| ensures PlainAt(s[1..], i, end) {
        assert PlainAt(s, i + 1, end);
      }
      PlainText(g, c, s[1..], end, argv);
      assert s == [s[0]] + s[1..];
      assert PlainAt(s, 0, end);
    }
  }

  // ----- putting texts together -----

  lemma {:induction false} CloseGrows(s: string, b: string, nest: nat)
    requires Close(s, nest).Some?
    ensures Close(s + b, nest) == Close(s, nest)
  {
    assert (s + b)[1..] == s[1..] + b;
    if !(s[0] == ')' && nest == 0) {
      CloseGrows(s[1..], b, nest + Delta(s[0]));
    }
  }

  lemma DollarOpen(g: Config, c: Counts, t: string, q: nat, argv: seq<string>)
    requires Counted(g, c) && Close(t, 0) == Some(q)
    ensures var r := Clause(g, c, t[..q], argv);
            Dollar(g, c, ['('] + t, argv) == if r.Ok? then Ok(Piece(r.value, t[q + 1..])) else Err(r.error)
  {
    assert (['('] + t)[1..] == t;
  }

  lemma OpenGrows(g: Config, c: Counts, t: string, q: nat, b: string, argv: seq<string>)
    requires Counted(g, c) && Close(t, 0) == Some(q) && Clause(g, c, t[..q], argv).Ok?
    ensures Dollar(g, c, ['('] + (t + b), argv) == Ok(Piece(Clause(g, c, t[..q], argv).value, t[q + 1..] + b))
  {
    CloseGrows(t, b, 0);
    assert (t + b)[..q] == t[..q];
    assert (t + b)[q + 1..] == t[q + 1..] + b;
    DollarOpen(g, c, t + b, q, argv);
  }

  lemma ParenthesisFirst(s: string, b: string)
    requires s != "" && s[0] == '('
    ensures s == ['('] + s[1..] && s + b == ['('] + (s[1..] + b)
  {
  }

  lemma DollarGrows(g: Config, c: Counts, s: string, b: string, argv: seq<string>)
    requires Counted(g, c) && s != "" && Dollar(g, c, s, argv).Ok?
    ensures var d := Dollar(g, c, s, argv).value;
            Dollar(g, c, s + b, argv) == Ok(Piece(d.text, d.rest + b))
  {
    if s[0] == '(' {
      var t := s[1..];
      var q := Close(t, 0).value;
      ParenthesisFirst(s, b);
      OpenGrows(g, c, t, q, b, argv);
    }
  }

  lemma DollarLast(g: Config, c: Counts, s: string, argv: seq<string>)
    requires Counted(g, c) && s != "" && s[|s| - 1] != '$' && Dollar(g, c, s, argv).Ok?
    ensures var d := Dollar(g, c, s, argv).value;
            d.rest == "" || d.rest[|d.rest| - 1] != '$'
  {
  }

  /** A text that expands to its end, and whose last character is no '$',
      expands to the same before any other text. */
  lemma {:induction false} ExpandConcat(g: Config, c: Counts, a: string, b: string, end: char -> bool,
          argv: seq<string>)
    requires Counted(g, c) && (a == "" || a[|a| - 1] != '$')
    requires Expand(g, c, a, end, argv).Ok? && Expand(g, c, a, end, argv).value.rest == ""
    ensures Expand(g, c, a + b, end, argv) == Prepend(Expand(g, c, a, end, argv).value.text, Expand(g, c, b, end, argv))
    decreases |a|
  {
    var rb := Expand(g, c, b, end, argv);
    if a == "" {
      assert a + b == b;
      PrependNothing(rb);
    } else {
      assert (a + b)[1..] == a[1..] + b;
      if a[0] == '$' {
        DollarGrows(g, c, a[1..], b, argv);
        DollarLast(g, c, a[1..], argv);
        var d := Dollar(g, c, a[1..], argv).value;
        ExpandConcat(g, c, d.rest, b, end, argv);
        PrependTwice(d.text, Expand(g, c, d.rest, end, argv).value.text, rb);
      } else {
        ExpandConcat(g, c, a[1..], b, end, argv);
        PrependTwice([a[0]], Expand(g, c, a[1..], end, argv).value.text, rb);
      }
    }
  }

  // ----- the counts only stop expansions -----

  ghost predicate AtMost(d: Counts, c: Counts) {
    d.Keys == c.Keys && forall n :: n in c ==> d[n] <= c[n]
  }

  /** An expansion that succeeds yields the same text under smaller counts, so
      the counts never change a text. */
  lemma {:induction false} ExpandSmaller(g: Config, c: Counts, d: Counts, s: string, end: char -> bool,
          argv: seq<string>)
    requires Counted(g, c) && AtMost(d, c) && Expand(g, c, s, end, argv).Ok?
    ensures Expand(g, d, s, end, argv) == Expand(g, c, s, end, argv)
    decreases Left(c), |s|, 1
  {
    if s != "" {
      if s[0] == '$' {
        DollarSmaller(g, c, d, s[1..], argv);
        ExpandSmaller(g, c, d, Dollar(g, c, s[1..], argv).value.rest, end, argv);
      } else if !end(s[0]) {
        ExpandSmaller(g, c, d, s[1..], end, argv);
      }
    }
  }

  lemma {:induction false} DollarSmaller(g: Config, c: Counts, d: Counts, s: string, argv: seq<string>)
    requires Counted(g, c) && AtMost(d, c) && Dollar(g, c, s, argv).Ok?
    ensures Dollar(g, d, s, argv) == Dollar(g, c, s, argv)
    decreases Left(c), |s|, 0
  {
    if s != "" && s[0] == '(' {
      ClauseSmaller(g, c, d, s[1..][..Close(s[1..], 0).value], argv);
    }
  }

  lemma {:induction false} ClauseSmaller(g: Config, c: Counts, d: Counts, str: string, argv: seq<string>)
    requires Counted(g, c) && AtMost(d, c) && Clause(g, c, str, argv).Ok?
    ensures Clause(g, d, str, argv) == Clause(g, c, str, argv)
    decreases Left(c), |str|, 3
  {
    if !IsArgument(str, argv) {
      TokensFit(str);
      AllSmaller(g, c, d, Split(str, 0), |str|, argv);
      var x := ExpandAll(g, c, Split(str, 0), |str|, argv).value;
      if x[0] in g.vars {
        VariableSmaller(g, c, d, x[0], x[1..]);
      }
    }
  }

  lemma {:induction false} AllSmaller(g: Config, c: Counts, d: Counts, t: seq<string>, limit: nat, argv: seq<string>)
    requires Counted(g, c) && AtMost(d, c) && Fit(t, limit) && ExpandAll(g, c, t, limit, argv).Ok?
    ensures ExpandAll(g, d, t, limit, argv) == ExpandAll(g, c, t, limit, argv)
    decreases Left(c), limit, 2, |t|
  {
    if t != [] {
      AllSmaller(g, c, d, t[..|t| - 1], limit, argv);
      ExpandSmaller(g, c, d, t[|t| - 1], IsEndOfStr, argv);
    }
  }

  lemma {:induction false} VariableSmaller(g: Config, c: Counts, d: Counts, name: string, args: seq<string>)
    requires Counted(g, c) && AtMost(d, c) && name in g.vars && VariableValue(g, c, name, args).Ok?
    ensures VariableValue(g, d, name, args) == VariableValue(g, c, name, args)
    decreases Left(c), 0, 0
  {
    if g.vars[name].recursive {
      LeftFalls(c, name);
      ExpandSmaller(g, c[name := c[name] + 1], d[name := d[name] + 1], g.vars[name].value, IsEndOfStr, args);
    }
  }

  // ----- references -----

  /** $(n) is the n-th argument of the function under way. */
  lemma ArgumentByNumber(g: Config, c: Counts, n: nat, argv: seq<string>)
    requires Counted(g, c) && 0 < n <= |argv| && n <= ULONG_MAX
    ensures Clause(g, c, Spell(n), argv) == Ok(argv[n - 1])
  {
    StrtoulSpell(n);
  }

  predicate NameChar(c: char) {
    c != '$' && c != '(' && c != ')' && c != ',' && c != '\0'
  }

  /** A name that is a token of its own, and no number. */
  predicate IsName(s: string) {
    Strtoul(s).None? && forall i :: 0 <= i < |s| ==> NameChar(s[i])
  }

  lemma {:induction false} NameSplit(s: string)
    requires forall i :: 0 <= i < |s| ==> NameChar(s[i])
    ensures Split(s, 0) == [s]
  {
    if s != "" {
      NameSplit(s[1..]);
      assert s == [s[0]] + s[1..];
    }
  }

  lemma {:induction false} NameClose(s: string, post: string)
    requires forall i :: 0 <= i < |s| ==> NameChar(s[i])
    ensures Close(s + ")" + post, 0) == Some(|s|)
  {
    if s != "" {
      NameClose(s[1..], post);
      assert (s + ")" + post)[1..] == s[1..] + ")" + post;
    }
  }

  lemma NamePlain(s: string)
    requires forall i :: 0 <= i < |s| ==> NameChar(s[i])
    ensures Plain(s, IsEndOfStr)
  {
    forall i | 0 <= i < |s| ensures PlainAt(s, i, IsEndOfStr) {
      assert NameChar(s[i]);
    }
  }

  lemma ClauseOfName(g: Config, c: Counts, name: string, argv: seq<string>)
    requires Counted(g, c) && IsName(name)
    ensures Clause(g, c, name, argv) == Invoke(g, c, name, [])
  {
    NameSplit(name);
    NamePlain(name);
    PlainText(g, c, name, IsEndOfStr, argv);
    TokensFit(name);
    OneToken(g, c, name, argv);
  }

  lemma OneToken(g: Config, c: Counts, s: string, argv: seq<string>)
    requires Counted(g, c) && Expand(g, c, s, IsEndOfStr, argv) == Ok(Piece(s, "")) && Fit([s], |s|)
    ensures ExpandAll(g, c, [s], |s|, argv) == Ok([s])
  {
    var t := [s];
    assert t[..|t| - 1] == [] && t[|t| - 1] == s;
    var none: seq<string> := [];
    assert none + [s] == t;
  }

  /** $(name) is the value of the variable, or of the built-in function. */
  lemma ReferenceValue(g: Config, c: Counts, name: string, post: string, argv: seq<string>)
    requires Counted(g, c) && IsName(name)
    ensures var r := Invoke(g, c, name, []);
            Dollar(g, c, ['('] + (name + ")" + post), argv) == if r.Ok? then Ok(Piece(r.value, post)) else Err(r.error)
  {
    var t := name + ")" + post;
    NameClose(name, post);
    assert t[..|name|] == name && t[|name| + 1..] == post;
    ClauseOfName(g, c, name, argv);
    DollarOpen(g, c, t, |name|, argv);
  }

  /** Some reference in `s`, at any depth, is $(name) or a call of it with
      arguments. */
  predicate Refers(s: string, name: string)
    decreases |s|, 1
  {
    if s == "" then false
    else if s[0] == '$' && |s| > 1 && s[1] == '(' then
      match Close(s[2..], 0)
      case None => false
      case Some(q) =>
        Split(s[2..][..q], 0)[0] == name || RefersInside(s[2..][..q], name) || Refers(s[2..][q + 1..], name)
    else s[0] != '\0' && Refers(s[1..], name)
  }

  /** Some token of the clause refers to `name`. */
  predicate RefersInside(body: string, name: string)
    decreases |body|, 2
  {
    TokensFit(body);
    exists i :: 0 <= i < |Split(body, 0)| && Refers(Split(body, 0)[i], name)
  }

  lemma {:induction false} RefersHasDollar(s: string, name: string)
    requires Refers(s, name)
    ensures '$' in s
    decreases |s|
  {
    if s[0] != '$' {
      RefersHasDollar(s[1..], name);
    }
  }

  lemma {:induction false} TokenInClause(s: string, nest: int, i: nat, c: char)
    requires i < |Split(s, nest)| && c in Split(s, nest)[i]
    ensures c in s
  {
    if s != "" {
      if nest == 0 && s[0] == ',' {
        if i > 0 { TokenInClause(s[1..], 0, i - 1, c); }
      } else {
        var t := Split(s[1..], nest + Delta(s[0]));
        if i > 0 || c != s[0] { TokenInClause(s[1..], nest + Delta(s[0]), i, c); }
      }
    }
  }

  lemma {:induction false} DecimalDigits(s: string, c: char)
    requires Decimal(s).Some? && c in s
    ensures IsDigit(c)
  {
    var front := s[..|s| - 1];
    assert s == front + [s[|s| - 1]];
    if |s| > 1 && c in front {
      DecimalDigits(front, c);
    }
  }

  lemma {:induction false} SkipKeeps(s: string, c: char)
    requires c in s && !IsSpace(c)
    ensures c in SkipSpaces(s)
  {
    if IsSpace(s[0]) {
      assert s == [s[0]] + s[1..];
      SkipKeeps(s[1..], c);
    }
  }

  lemma NoNumber(s: string, c: char)
    requires c in s && !IsDigit(c) && !IsSpace(c) && c != '-' && c != '+'
    ensures Strtoul(s).None?
  {
    SkipKeeps(s, c);
    var t := SkipSpaces(s);
    assert t == [t[0]] + t[1..];
    var digits := if t[0] == '-' || t[0] == '+' then t[1..] else t;
    if Decimal(digits).Some? {
      DecimalDigits(digits, c);
    }
  }

  lemma {:induction false} CommaInClause(s: string, nest: int)
    requires |Split(s, nest)| > 1
    ensures ',' in s
  {
    if s != "" && !(nest == 0 && s[0] == ',') {
      CommaInClause(s[1..], nest + Delta(s[0]));
    }
  }

  lemma CallIsNoNumber(body: string, name: string)
    requires Split(body, 0)[0] == name && IsName(name)
    ensures Strtoul(body).None?
  {
    if |Split(body, 0)| > 1 {
      CommaInClause(body, 0);
      NoNumber(body, ',');
    } else {
      SplitJoin(body, 0);
      assert Split(body, 0) == [name];
    }
  }

  lemma {:induction false} FirstExpanded(g: Config, c: Counts, t: seq<string>, limit: nat, argv: seq<string>)
    requires Counted(g, c) && Fit(t, limit) && t != [] && IsName(t[0]) && ExpandAll(g, c, t, limit, argv).Ok?
    ensures ExpandAll(g, c, t, limit, argv).value[0] == t[0]
  {
    if |t| > 1 {
      FirstExpanded(g, c, t[..|t| - 1], limit, argv);
    } else {
      NamePlain(t[0]);
      PlainText(g, c, t[0], IsEndOfStr, argv);
    }
  }

  ghost predicate NeverExpands(g: Config, c: Counts, name: string)
    requires Counted(g, c)
  {
    name in g.vars && forall args :: VariableValue(g, c, name, args).Err?
  }

  lemma CallFails(g: Config, c: Counts, body: string, name: string, argv: seq<string>)
    requires Counted(g, c) && NeverExpands(g, c, name) && IsName(name) && Split(body, 0)[0] == name
    ensures Clause(g, c, body, argv).Err?
  {
    CallIsNoNumber(body, name);
    TokensFit(body);
    var t := Split(body, 0);
    if |t| <= MAX_ARGS && ExpandAll(g, c, t, |body|, argv).Ok? {
      FirstExpanded(g, c, t, |body|, argv);
      var x := ExpandAll(g, c, t, |body|, argv).value;
      assert VariableValue(g, c, name, x[1..]).Err?;
    }
  }

  lemma {:induction false} AllFail(g: Config, c: Counts, t: seq<string>, i: nat, limit: nat, argv: seq<string>)
    requires Counted(g, c) && Fit(t, limit) && i < |t| && Expand(g, c, t[i], IsEndOfStr, argv).Err?
    ensures ExpandAll(g, c, t, limit, argv).Err?
  {
    if i < |t| - 1 {
      AllFail(g, c, t[..|t| - 1], i, limit, argv);
    }
  }

  /** While a variable cannot be expanded, no text that refers to it can be. */
  lemma {:induction false} RefersFails(g: Config, c: Counts, s: string, name: string, argv: seq<string>)
    requires Counted(g, c) && NeverExpands(g, c, name) && IsName(name) && Refers(s, name)
    ensures Expand(g, c, s, IsEndOfStr, argv).Err?
    decreases |s|, 0
  {
    if s[0] == '$' && |s| > 1 && s[1] == '(' {
      assert s[1..][1..] == s[2..];
      var q := Close(s[2..], 0).value;
      var body := s[2..][..q];
      if Split(body, 0)[0] == name {
        CallFails(g, c, body, name, argv);
      } else if RefersInside(body, name) {
        InsideFails(g, c, body, name, argv);
      } else {
        RefersFails(g, c, s[2..][q + 1..], name, argv);
      }
    } else {
      RefersFails(g, c, s[1..], name, argv);
      assert s[0] == '$' ==> |s| == 1 || s[1..][0] != '(';
    }
  }

  lemma {:induction false} InsideFails(g: Config, c: Counts, body: string, name: string, argv: seq<string>)
    requires Counted(g, c) && NeverExpands(g, c, name) && IsName(name) && RefersInside(body, name)
    ensures Clause(g, c, body, argv).Err?
    decreases |body|, 1
  {
    TokensFit(body);
    var t := Split(body, 0);
    var i :| 0 <= i < |t| && Refers(t[i], name);
    RefersHasDollar(t[i], name);
    TokenInClause(body, 0, i, '$');
    NoNumber(body, '$');
    if |t| <= MAX_ARGS {
      RefersFails(g, c, t[i], name, argv);
      AllFail(g, c, t, i, |body|, argv);
    }
  }

  /** The variable refers to the one that follows it in `next`, at any depth of
      its value. */
  predicate RefersOn(g: Config, next: map<string, string>, n: string)
    requires n in next
  {
    n in g.vars && g.vars[n].recursive && IsName(n) && next[n] in next && Refers(g.vars[n].value, next[n])
  }

  predicate AllReferOn(g: Config, next: map<string, string>) {
    forall n {:trigger RefersOn(g, next, n)} :: n in next ==> RefersOn(g, next, n)
  }

  /** A variable that refers to itself eventually, through any number of
      others and with any arguments, cannot be expanded from any counts. */
  lemma {:induction false} CycleFails(g: Config, c: Counts, next: map<string, string>, name: string, args: seq<string>)
    requires Counted(g, c) && AllReferOn(g, next) && name in next && name in g.vars
    ensures VariableValue(g, c, name, args).Err?
    decreases Left(c), 0
  {
    assert RefersOn(g, next, name);
    if c[name] <= MAX_DEPTH && (args != [] || c[name] == 0) {
      var d := c[name := c[name] + 1];
      assert RefersOn(g, next, next[name]);
      LeftFalls(c, name);
      CycleNeverExpands(g, d, next, next[name]);
      ValueFails(g, c, d, name, next[name], args);
    }
  }

  lemma ValueFails(g: Config, c: Counts, d: Counts, name: string, other: string, args: seq<string>)
    requires Counted(g, c) && name in g.vars && g.vars[name].recursive && d == c[name := c[name] + 1]
    requires Counted(g, d) && NeverExpands(g, d, other) && IsName(other) && Refers(g.vars[name].value, other)
    ensures VariableValue(g, c, name, args).Err?
  {
    RefersFails(g, d, g.vars[name].value, other, args);
  }

  lemma {:induction false} CycleNeverExpands(g: Config, c: Counts, next: map<string, string>, name: string)
    requires Counted(g, c) && AllReferOn(g, next) && name in next
    ensures NeverExpands(g, c, name)
    decreases Left(c), 1
  {
    assert RefersOn(g, next, name);
    forall args ensures VariableValue(g, c, name, args).Err? {
      CycleFails(g, c, next, name, args);
    }
  }

  /** A variable whose value refers to itself, at any depth, cannot be
      expanded, with any arguments and from any counts. */
  lemma SelfReferenceFails(g: Config, c: Counts, name: string, args: seq<string>)
    requires Counted(g, c) && name in g.vars && IsName(name)
    requires g.vars[name].recursive && Refers(g.vars[name].value, name)
    ensures VariableValue(g, c, name, args).Err?
  {
    var next := map[name := name];
    assert RefersOn(g, next, name);
    CycleFails(g, c, next, name, args);
  }

  // ----- tokens -----

  /** What is left after an expansion starts with a character that ends it. */
  lemma {:induction false} StopsAtEnd(g: Config, c: Counts, s: string, end: char -> bool, argv: seq<string>)
    requires Counted(g, c) && Expand(g, c, s, end, argv).Ok?
    ensures var rest := Expand(g, c, s, end, argv).value.rest; rest == "" || end(rest[0])
    decreases |s|
  {
    if s != "" {
      if s[0] == '$' {
        StopsAtEnd(g, c, Dollar(g, c, s[1..], argv).value.rest, end, argv);
      } else if !end(s[0]) {
        StopsAtEnd(g, c, s[1..], end, argv);
      }
    }
  }
}
