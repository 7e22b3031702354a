/** What the references of a text expand to, from the text to the result
    (scripts/config/preprocess.c). */
module PreprocessCalls {

  import opened Options
  import opened PreprocessText
  import opened PreprocessSpec
  import opened PreprocessLaws

  // ----- written calls -----

  /** Nothing to expand or to split. */
  predicate PlainToken(s: string) {
    forall i :: 0 <= i < |s| ==> NameChar(s[i])
  }

  predicate PlainTokens(t: seq<string>) {
    forall k :: 0 <= k < |t| ==> PlainToken(t[k])
  }

  /** $(name,arg,...) */
  function Written(name: string, args: seq<string>): string {
    "$(" + Join([name] + args) + ")"
  }

  lemma {:induction false} SplitFirst(a: string, rest: string)
    requires PlainToken(a)
    ensures Split(a + "," + rest, 0) == [a] + Split(rest, 0)
  {
    var s := a + "," + rest;
    if a == "" {
      assert s[1..] == rest;
    } else {
      assert s[1..] == a[1..] + "," + rest && s[0] == a[0] && NameChar(a[0]);
      SplitFirst(a[1..], rest);
      assert [a[0]] + a[1..] == a;
      assert ([a[1..]] + Split(rest, 0))[0 := [a[0]] + a[1..]] == [a] + Split(rest, 0);
    }
  }

  lemma {:induction false} SplitJoined(t: seq<string>)
    requires |t| > 0 && PlainTokens(t)
    ensures Split(Join(t), 0) == t
  {
    if |t| == 1 {
      NameSplit(t[0]);
    } else {
      SplitJoined(t[1..]);
      SplitFirst(t[0], Join(t[1..]));
      assert [t[0]] + t[1..] == t;
    }
  }

  lemma {:induction false} CloseFlat(s: string, post: string)
    requires forall i :: 0 <= i < |s| ==> s[i] != '(' && s[i] != ')'
    ensures Close(s + ")" + post, 0) == Some(|s|)
  {
    if s != "" {
      CloseFlat(s[1..], post);
      assert (s + ")" + post)[1..] == s[1..] + ")" + post;
    }
  }

  lemma {:induction false} JoinFlat(t: seq<string>)
    requires |t| > 0 && PlainTokens(t)
    ensures forall i :: 0 <= i < |Join(t)| ==> Join(t)[i] != '(' && Join(t)[i] != ')'
    ensures |t| > 1 ==> ',' in Join(t)
  {
    assert forall i :: 0 <= i < |t[0]| ==> NameChar(t[0][i]);
    if |t| > 1 {
      JoinFlat(t[1..]);
      var front := t[0] + ",";
      assert Join(t) == front + Join(t[1..]) && front[|t[0]|] == ',';
    }
  }

  lemma PlainLast(g: Config, c: Counts, s: string, argv: seq<string>)
    requires Counted(g, c) && PlainToken(s)
    ensures Expand(g, c, s, IsEndOfStr, argv) == Ok(Piece(s, ""))
  {
    NamePlain(s);
    PlainText(g, c, s, IsEndOfStr, argv);
  }

  lemma PlainPush(g: Config, c: Counts, front: seq<string>, last: string, limit: nat, argv: seq<string>)
    requires Counted(g, c) && Fit(front, limit) && Fit(front + [last], limit) && PlainToken(last)
    requires ExpandAll(g, c, front, limit, argv) == Ok(front)
    ensures ExpandAll(g, c, front + [last], limit, argv) == Ok(front + [last])
  {
    PlainLast(g, c, last, argv);
    var t := front + [last];
    assert t[..|t| - 1] == front && t[|t| - 1] == last;
  }

  lemma {:induction false} PlainAll(g: Config, c: Counts, t: seq<string>, limit: nat, argv: seq<string>)
    requires Counted(g, c) && Fit(t, limit) && PlainTokens(t)
    ensures ExpandAll(g, c, t, limit, argv) == Ok(t)
  {
    if t != [] {
      var front, last := t[..|t| - 1], t[|t| - 1];
      assert t == front + [last];
      PlainAll(g, c, front, limit, argv);
      PlainPush(g, c, front, last, limit, argv);
    }
  }

  /** A name, which is no number unless arguments follow it. */
  predicate Callable(name: string, args: seq<string>) {
    PlainToken(name) && PlainTokens(args) && |args| < 16 && (args == [] ==> Strtoul(name).None?)
  }

  lemma CallClause(g: Config, c: Counts, name: string, args: seq<string>, argv: seq<string>)
    requires Counted(g, c) && Callable(name, args)
    ensures Clause(g, c, Join([name] + args), argv) == Invoke(g, c, name, args)
  {
    var t := [name] + args;
    var body := Join(t);
    SplitJoined(t);
    JoinFlat(t);
    if args != [] {
      NoNumber(body, ',');
    } else {
      assert t == [name];
    }
    TokensFit(body);
    PlainAll(g, c, t, |body|, argv);
    assert t[0] == name && t[1..] == args;
  }

  lemma DollarFirst(g: Config, c: Counts, tail: string, end: char -> bool, argv: seq<string>)
    requires Counted(g, c)
    ensures var d := Dollar(g, c, tail, argv);
            Expand(g, c, ['$'] + tail, end, argv) ==
            if d.Ok? then Prepend(d.value.text, Expand(g, c, d.value.rest, end, argv)) else Err(d.error)
  {
    assert (['$'] + tail)[1..] == tail;
  }

  lemma ReferenceText(body: string, rest: string)
    ensures "$(" + body + ")" + rest == ['$'] + (['('] + (body + ")" + rest))
    ensures (body + ")" + rest)[..|body|] == body && (body + ")" + rest)[|body| + 1..] == rest
  {
  }

  /** A reference without parentheses in it, and what follows. */
  lemma ReferenceExpands(g: Config, c: Counts, body: string, rest: string, end: char -> bool, argv: seq<string>)
    requires Counted(g, c) && forall i :: 0 <= i < |body| ==> body[i] != '(' && body[i] != ')'
    ensures var r := Clause(g, c, body, argv);
            Expand(g, c, "$(" + body + ")" + rest, end, argv) ==
            if r.Ok? then Prepend(r.value, Expand(g, c, rest, end, argv)) else Err(r.error)
  {
    ReferenceText(body, rest);
    CloseFlat(body, rest);
    var t := body + ")" + rest;
    DollarOpen(g, c, t, |body|, argv);
    DollarFirst(g, c, ['('] + t, end, argv);
  }

  /** A call and what follows it. */
  lemma CallExpands(g: Config, c: Counts, name: string, args: seq<string>, rest: string, end: char -> bool,
                    argv: seq<string>)
    requires Counted(g, c) && Callable(name, args)
    ensures var r := Invoke(g, c, name, args);
            Expand(g, c, Written(name, args) + rest, end, argv) ==
            if r.Ok? then Prepend(r.value, Expand(g, c, rest, end, argv)) else Err(r.error)
  {
    JoinFlat([name] + args);
    CallClause(g, c, name, args, argv);
    ReferenceExpands(g, c, Join([name] + args), rest, end, argv);
  }

  lemma NoArgument(name: string)
    ensures Written(name, []) == "$(" + name + ")"
  {
    assert [name] + [] == [name];
  }

  lemma OneArgument(name: string, a: string)
    ensures Written(name, [a]) == "$(" + name + "," + a + ")"
  {
    var t := [name] + [a];
    assert t[0] == name && t[1..] == [a];
    assert Join([a]) == a && Join(t) == name + "," + a;
    assert "$(" + (name + "," + a) + ")" == "$(" + name + "," + a + ")";
  }

  lemma TwoArguments(name: string, a: string, b: string)
    ensures Written(name, [a, b]) == "$(" + name + "," + a + "," + b + ")"
  {
    var t := [name] + [a, b];
    assert t[0] == name && t[1..] == [a, b] && [a, b][1..] == [b];
    assert Join([b]) == b && Join([a, b]) == a + "," + b;
    assert Join(t) == name + "," + (a + "," + b);
    assert name + "," + (a + "," + b) == name + "," + a + "," + b;
    assert "$(" + (name + "," + a + "," + b) + ")" == "$(" + name + "," + a + "," + b + ")";
  }

  lemma FileNameWritten()
    ensures Callable("filename", []) && Written("filename", []) == "$(filename)"
  {
    NoNumber("filename", 'f');
    NoArgument("filename");
    assert "$(" + "filename" + ")" == "$(filename)";
  }

  lemma LineNumberWritten()
    ensures Callable("lineno", []) && Written("lineno", []) == "$(lineno)"
  {
    NoNumber("lineno", 'l');
    NoArgument("lineno");
    assert "$(" + "lineno" + ")" == "$(lineno)";
  }

  // ----- built-in functions -----

  /** $(shell,cmd) is the output of the command, with newlines at its end
      dropped and the others replaced; without an output the program ends. */
  lemma ShellLaw(g: Config, c: Counts, cmd: string, rest: string, end: char -> bool, argv: seq<string>)
    requires Counted(g, c) && "shell" !in g.vars && PlainToken(cmd)
    ensures var r, later := Expand(g, c, "$(shell," + cmd + ")" + rest, end, argv), Expand(g, c, rest, end, argv);
            if g.shell(cmd).None? then r == Err(Stopped)
            else exists t :: CleansUp(Kept(g.shell(cmd).value), t) && r == Prepend(t, later)
  {
    CallExpands(g, c, "shell", [cmd], rest, end, argv);
    OneArgument("shell", cmd);
    assert "$(" + "shell" + "," == "$(shell,";
    if g.shell(cmd).Some? {
      ShellTextIff(g.shell(cmd).value, ShellText(g.shell(cmd).value));
    }
  }

  /** $(filename) */
  lemma FileNameLaw(g: Config, c: Counts, rest: string, end: char -> bool, argv: seq<string>)
    requires Counted(g, c) && "filename" !in g.vars
    ensures Expand(g, c, "$(filename)" + rest, end, argv) == Prepend(g.fileName, Expand(g, c, rest, end, argv))
  {
    FileNameWritten();
    CallExpands(g, c, "filename", [], rest, end, argv);
  }

  /** $(lineno) */
  lemma LineNumberLaw(g: Config, c: Counts, rest: string, end: char -> bool, argv: seq<string>)
    requires Counted(g, c) && "lineno" !in g.vars
    ensures Expand(g, c, "$(lineno)" + rest, end, argv) == Prepend(g.lineNo, Expand(g, c, rest, end, argv))
  {
    LineNumberWritten();
    CallExpands(g, c, "lineno", [], rest, end, argv);
  }

  /** $(error-if,c,t) ends the program exactly if c is y, and is nothing
      otherwise. */
  lemma ErrorIfLaw(g: Config, c: Counts, cond: string, text: string, rest: string, end: char -> bool,
                   argv: seq<string>)
    requires Counted(g, c) && "error-if" !in g.vars && PlainToken(cond) && PlainToken(text)
    ensures Expand(g, c, "$(error-if," + cond + "," + text + ")" + rest, end, argv) ==
            if cond == "y" then Err(Stopped) else Expand(g, c, rest, end, argv)
  {
    TwoArguments("error-if", cond, text);
    CallExpands(g, c, "error-if", [cond, text], rest, end, argv);
    assert "$(" + "error-if" + "," == "$(error-if,";
    PrependNothing(Expand(g, c, rest, end, argv));
  }

  /** $(warning-if,c,t) is nothing, whatever c is. */
  lemma WarningIfLaw(g: Config, c: Counts, cond: string, text: string, rest: string, end: char -> bool,
                     argv: seq<string>)
    requires Counted(g, c) && "warning-if" !in g.vars && PlainToken(cond) && PlainToken(text)
    ensures Expand(g, c, "$(warning-if," + cond + "," + text + ")" + rest, end, argv) == Expand(g, c, rest, end, argv)
  {
    TwoArguments("warning-if", cond, text);
    CallExpands(g, c, "warning-if", [cond, text], rest, end, argv);
    assert "$(" + "warning-if" + "," == "$(warning-if,";
    PrependNothing(Expand(g, c, rest, end, argv));
  }

  /** $(info,t) is nothing. */
  lemma InfoLaw(g: Config, c: Counts, text: string, rest: string, end: char -> bool, argv: seq<string>)
    requires Counted(g, c) && "info" !in g.vars && PlainToken(text)
    ensures Expand(g, c, "$(info," + text + ")" + rest, end, argv) == Expand(g, c, rest, end, argv)
  {
    OneArgument("info", text);
    CallExpands(g, c, "info", [text], rest, end, argv);
    assert "$(" + "info" + "," == "$(info,";
    PrependNothing(Expand(g, c, rest, end, argv));
  }

  /** A built-in function with another number of arguments ends the program. */
  lemma ArityLaw(g: Config, c: Counts, name: string, args: seq<string>, rest: string, end: char -> bool,
                 argv: seq<string>)
    requires Counted(g, c) && Callable(name, args) && name !in g.vars
    requires (name in ["filename", "lineno"] && |args| != 0) || (name in ["info", "shell"] && |args| != 1) ||
             (name in ["error-if", "warning-if"] && |args| != 2)
    ensures Expand(g, c, Written(name, args) + rest, end, argv).Err?
  {
    CallExpands(g, c, name, args, rest, end, argv);
  }

  /** A call with sixteen or more arguments ends the program. */
  lemma TooManyLaw(g: Config, c: Counts, name: string, args: seq<string>, rest: string, end: char -> bool,
                   argv: seq<string>)
    requires Counted(g, c) && PlainToken(name) && PlainTokens(args) && 16 <= |args|
    ensures Expand(g, c, Written(name, args) + rest, end, argv) == Err(TooManyArguments)
  {
    var t := [name] + args;
    SplitJoined(t);
    JoinFlat(t);
    NoNumber(Join(t), ',');
    ReferenceExpands(g, c, Join(t), rest, end, argv);
  }

  // ----- variables and functions -----

  /** A simply expanded variable is its text, whatever that holds. */
  lemma SimpleLaw(g: Config, c: Counts, name: string, rest: string, end: char -> bool, argv: seq<string>)
    requires Counted(g, c) && IsName(name) && name in g.vars && c[name] == 0 && !g.vars[name].recursive
    ensures Expand(g, c, "$(" + name + ")" + rest, end, argv) ==
            Prepend(g.vars[name].value, Expand(g, c, rest, end, argv))
  {
    CallExpands(g, c, name, [], rest, end, argv);
    NoArgument(name);
  }

  /** $(k) in the value of a function is the k-th argument of its call. */
  lemma FunctionLaw(g: Config, c: Counts, name: string, args: seq<string>, k: nat, rest: string, end: char -> bool,
                    argv: seq<string>)
    requires Counted(g, c) && Callable(name, args) && 0 < k <= |args|
    requires name in g.vars && c[name] <= 1000 && g.vars[name] == Variable("$(" + Spell(k) + ")", true)
    ensures Expand(g, c, Written(name, args) + rest, end, argv) == Prepend(args[k - 1], Expand(g, c, rest, end, argv))
  {
    CallExpands(g, c, name, args, rest, end, argv);
    ArgumentText(g, c[name := c[name] + 1], k, args);
  }

  lemma {:induction false} SpellFlat(n: nat)
    ensures forall i :: 0 <= i < |Spell(n)| ==> IsDigit(Spell(n)[i])
  {
    if n >= 10 {
      SpellFlat(n / 10);
    }
  }

  lemma ArgumentText(g: Config, c: Counts, k: nat, argv: seq<string>)
    requires Counted(g, c) && 0 < k <= |argv| < 16
    ensures Expand(g, c, "$(" + Spell(k) + ")", IsEndOfStr, argv) == Ok(Piece(argv[k - 1], ""))
  {
    SpellFlat(k);
    ArgumentByNumber(g, c, k, argv);
    ReferenceExpands(g, c, Spell(k), "", IsEndOfStr, argv);
    assert "$(" + Spell(k) + ")" + "" == "$(" + Spell(k) + ")";
    assert Expand(g, c, "", IsEndOfStr, argv) == Ok(Piece("", ""));
    assert argv[k - 1] + "" == argv[k - 1];
  }

  /** A variable under expansion for the 1001st time ends the program, and one
      that is referred to without arguments at the second. */
  lemma DepthLaw(g: Config, c: Counts, name: string, args: seq<string>, rest: string, end: char -> bool,
                 argv: seq<string>)
    requires Counted(g, c) && Callable(name, args) && name in g.vars
    requires c[name] > 1000 || (args == [] && c[name] > 0)
    ensures Expand(g, c, Written(name, args) + rest, end, argv) ==
            Err(if args == [] then SelfReference(name) else TooDeep)
  {
    CallExpands(g, c, name, args, rest, end, argv);
  }

  /** A name that is neither a variable nor a function is looked up in the
      environment, and is nothing if it is not there either. */
  lemma EnvironmentLaw(g: Config, c: Counts, name: string, rest: string, end: char -> bool, argv: seq<string>)
    requires Counted(g, c) && IsName(name) && name != "" && name !in g.vars
    requires name !in ["error-if", "filename", "info", "lineno", "shell", "warning-if"]
    ensures Expand(g, c, "$(" + name + ")" + rest, end, argv) ==
            if name in g.environ then Prepend(g.environ[name], Expand(g, c, rest, end, argv))
            else Expand(g, c, rest, end, argv)
  {
    CallExpands(g, c, name, [], rest, end, argv);
    NoArgument(name);
    PrependNothing(Expand(g, c, rest, end, argv));
  }

  // ----- tokens -----

  predicate TokenChar(c: char) {
    'a' <= c <= 'z' || 'A' <= c <= 'Z' || '0' <= c <= '9' || c in "_-./"
  }

  /** A word of letters, digits and the four other characters of tokens is a
      token, and it ends before any character but a '$'. */
  lemma TokenLaw(g: Config, c: Counts, w: string, after: char, rest: string)
    requires Counted(g, c) && (forall i :: 0 <= i < |w| ==> TokenChar(w[i])) && !TokenChar(after) && after != '$'
    ensures Expand(g, c, w + ([after] + rest), IsEndOfToken, []) == Ok(Piece(w, [after] + rest))
  {
    forall i | 0 <= i < |w| ensures PlainAt(w, i, IsEndOfToken) {
      assert TokenChar(w[i]);
    }
    PlainText(g, c, w, IsEndOfToken, []);
    assert w != "" ==> TokenChar(w[|w| - 1]);
    ExpandConcat(g, c, w, [after] + rest, IsEndOfToken, []);
    assert w + "" == w;
  }
}
