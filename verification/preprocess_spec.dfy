/** What macro expansion yields (scripts/config/preprocess.c): the text, or the
    error that ends the program. */
module PreprocessSpec {

  import opened Options
  import opened PreprocessText

  datatype Error =
    | Unterminated
    | TooManyArguments
    | SelfReference(name: string)
    | TooDeep
    | TooFewFor(name: string)
    | TooManyFor(name: string)
    | Stopped

  datatype Result<+T> = Ok(value: T) | Err(error: Error)

  /** An expansion and the text after it. */
  datatype Piece = Piece(text: string, rest: string)

  datatype Variable = Variable(value: string, recursive: bool)

  /** What does not change during an expansion.  The output of a command is
      absent if the command could not be run. */
  datatype Config = Config(
    vars: map<string, Variable>,
    environ: map<string, string>,
    fileName: string,
    lineNo: string,
    shell: string -> Option<string>)

  /** exp_count of every variable. */
  type Counts = map<string, nat>

  const MAX_DEPTH: nat := 1000
  const MAX_ARGS: nat := 16

  /** The expansions that the counts still allow. */
  ghost function Left(c: Counts): set<(string, nat)> {
    set n, k | n in c && c[n] <= k <= MAX_DEPTH :: (n, k)
  }

  lemma LeftFalls(c: Counts, n: string)
    requires n in c && c[n] <= MAX_DEPTH
    ensures Left(c[n := c[n] + 1]) < Left(c)
  {
    var d := c[n := c[n] + 1];
    assert (n, c[n]) in Left(c) && (n, c[n]) !in Left(d);
    assert Left(d) <= Left(c);
  }

  ghost predicate Counted(g: Config, c: Counts) {
    g.vars.Keys <= c.Keys
  }

  function Prepend(text: string, r: Result<Piece>): Result<Piece> {
    match r
    case Ok(p) => Ok(Piece(text + p.text, p.rest))
    case Err(e) => Err(e)
  }

  lemma PrependTwice(a: string, b: string, r: Result<Piece>)
    ensures Prepend(a, Prepend(b, r)) == Prepend(a + b, r)
  {
    if r.Ok? {
      assert a + (b + r.value.text) == (a + b) + r.value.text;
    }
  }

  predicate IsEndOfStr(c: char) {
    c == '\0'
  }

  predicate IsEndOfToken(c: char) {
    !('0' <= c <= '9' || 'A' <= c <= 'Z' || 'a' <= c <= 'z' || c == '_' || c == '-' || c == '.' || c == '/')
  }

  // ----- expansion -----

  /** The expansion of `s` up to a character where it ends. */
  ghost function Expand(g: Config, c: Counts, s: string, end: char -> bool, argv: seq<string>): Result<Piece>
    requires Counted(g, c)
    decreases Left(c), |s|, 1
  {
    if s == "" then Ok(Piece("", ""))
    else if s[0] == '$' then
      match Dollar(g, c, s[1..], argv)
      case Err(e) => Err(e)
      case Ok(d) => Prepend(d.text, Expand(g, c, d.rest, end, argv))
    else if end(s[0]) then Ok(Piece("", s))
    else Prepend([s[0]], Expand(g, c, s[1..], end, argv))
  }

  /** The expansion of what follows a '$'. */
  ghost function Dollar(g: Config, c: Counts, s: string, argv: seq<string>): (r: Result<Piece>)
    requires Counted(g, c)
    ensures r.Ok? ==> |r.value.rest| <= |s|
    decreases Left(c), |s|, 0
  {
    if s == "" || s[0] != '(' then Ok(Piece("$", s))
    else
      match Close(s[1..], 0)
      case None => Err(Unterminated)
      case Some(q) =>
        match Clause(g, c, s[1..][..q], argv)
        case Err(e) => Err(e)
        case Ok(text) => Ok(Piece(text, s[1..][q + 1..]))
  }

  /** The value of the reference between the parentheses. */
  ghost function Clause(g: Config, c: Counts, str: string, argv: seq<string>): Result<string>
    requires Counted(g, c)
    decreases Left(c), |str|, 3
  {
    if IsArgument(str, argv) then Ok(argv[Strtoul(str).value - 1])
    else
      var t := Split(str, 0);
      if |t| > MAX_ARGS then Err(TooManyArguments)
      else
        TokensFit(str);
        match ExpandAll(g, c, t, |str|, argv)
        case Err(e) => Err(e)
        case Ok(x) => Invoke(g, c, x[0], x[1..])
  }

  predicate IsArgument(str: string, argv: seq<string>) {
    Strtoul(str).Some? && 0 < Strtoul(str).value <= |argv|
  }

  ghost predicate Fit(t: seq<string>, limit: nat) {
    forall i :: 0 <= i < |t| ==> |t[i]| <= limit
  }

  lemma TokensFit(str: string)
    ensures Fit(Split(str, 0), |str|)
  {
    forall i | 0 <= i < |Split(str, 0)| ensures |Split(str, 0)[i]| <= |str| {
      TokenLength(str, 0, i);
    }
  }

  /** The expansions of the tokens `t`, the first error coming first. */
  ghost function ExpandAll(g: Config, c: Counts, t: seq<string>, limit: nat,
          argv: seq<string>): (r: Result<seq<string>>)
    requires Counted(g, c) && Fit(t, limit)
    ensures r.Ok? ==> |r.value| == |t|
    decreases Left(c), limit, 2, |t|
  {
    if t == [] then Ok([])
    else
      match ExpandAll(g, c, t[..|t| - 1], limit, argv)
      case Err(e) => Err(e)
      case Ok(x) =>
        match Expand(g, c, t[|t| - 1], IsEndOfStr, argv)
        case Err(e) => Err(e)
        case Ok(p) => Ok(x + [p.text])
  }

  /** Variables come first, then built-in functions, then the environment. */
  ghost function Invoke(g: Config, c: Counts, name: string, args: seq<string>): Result<string>
    requires Counted(g, c)
    decreases Left(c), 0, 1
  {
    if name in g.vars then VariableValue(g, c, name, args)
    else if Builtin(name) then Call(g, name, args)
    else Ok(if args == [] && name != "" && name in g.environ then g.environ[name] else "")
  }

  ghost function VariableValue(g: Config, c: Counts, name: string, args: seq<string>): Result<string>
    requires Counted(g, c) && name in g.vars
    decreases Left(c), 0, 0
  {
    if args == [] && c[name] > 0 then Err(SelfReference(name))
    else if c[name] > MAX_DEPTH then Err(TooDeep)
    else if !g.vars[name].recursive then Ok(g.vars[name].value)
    else
      LeftFalls(c, name);
      match Expand(g, c[name := c[name] + 1], g.vars[name].value, IsEndOfStr, args)
      case Err(e) => Err(e)
      case Ok(p) => Ok(p.text)
  }

  // ----- steps of the expansion -----

  /** A character that stands for itself. */
  lemma CharacterStep(g: Config, c: Counts, s: string, p: nat, end: char -> bool, argv: seq<string>, out: string)
    requires Counted(g, c) && p < |s| && s[p] != '$' && !end(s[p])
    ensures Prepend(out + s[..p], Expand(g, c, s[p..], end, argv))
            == Prepend(out + s[..p + 1], Expand(g, c, s[p + 1..], end, argv))
  {
    assert s[p..][1..] == s[p + 1..];
    assert out + s[..p] + [s[p]] == out + s[..p + 1];
    PrependTwice(out + s[..p], [s[p]], Expand(g, c, s[p + 1..], end, argv));
  }

  /** A '$', with its reference. */
  lemma DollarStep(g: Config, c: Counts, s: string, p: nat, end: char -> bool, argv: seq<string>, out: string)
    requires Counted(g, c) && p < |s| && s[p] == '$'
    ensures Dollar(g, c, s[p + 1..], argv).Err? ==>
              Prepend(out + s[..p], Expand(g, c, s[p..], end, argv)) == Err(Dollar(g, c, s[p + 1..], argv).error)
    ensures Dollar(g, c, s[p + 1..], argv).Ok? ==>
              Prepend(out + s[..p], Expand(g, c, s[p..], end, argv)) ==
              Prepend(out + s[..p] + Dollar(g, c, s[p + 1..], argv).value.text,
                      Expand(g, c, Dollar(g, c, s[p + 1..], argv).value.rest, end, argv))
  {
    assert s[p..][1..] == s[p + 1..];
    var d := Dollar(g, c, s[p + 1..], argv);
    if d.Ok? {
      PrependTwice(out + s[..p], d.value.text, Expand(g, c, d.value.rest, end, argv));
    }
  }

  /** The end of the expansion. */
  lemma EndStep(g: Config, c: Counts, s: string, p: nat, end: char -> bool, argv: seq<string>, out: string)
    requires Counted(g, c) && p <= |s| && (p == |s| || (s[p] != '$' && end(s[p])))
    ensures Prepend(out + s[..p], Expand(g, c, s[p..], end, argv)) == Ok(Piece(out + s[..p], s[p..]))
  {
    assert out + s[..p] + "" == out + s[..p];
  }

  lemma PrependNothing(r: Result<Piece>)
    ensures Prepend("", r) == r
  {
    if r.Ok? {
      assert "" + r.value.text == r.value.text;
    }
  }

  /** An error among the first tokens is the error of all. */
  lemma {:induction false} FirstError(g: Config, c: Counts, t: seq<string>, i: nat, limit: nat, argv: seq<string>)
    requires Counted(g, c) && Fit(t, limit) && i <= |t| && ExpandAll(g, c, t[..i], limit, argv).Err?
    ensures ExpandAll(g, c, t, limit, argv) == ExpandAll(g, c, t[..i], limit, argv)
    decreases |t|
  {
    if i < |t| {
      assert t[..|t| - 1][..i] == t[..i];
      FirstError(g, c, t[..|t| - 1], i, limit, argv);
    } else {
      assert t[..i] == t;
    }
  }

  // ----- built-in functions -----

  predicate Builtin(name: string) {
    name == "error-if" || name == "filename" || name == "info" ||
    name == "lineno" || name == "shell" || name == "warning-if"
  }

  function Arity(name: string): nat
    requires Builtin(name)
  {
    if name == "error-if" || name == "warning-if" then 2
    else if name == "info" || name == "shell" then 1
    else 0
  }

  function Call(g: Config, name: string, args: seq<string>): Result<string>
    requires Builtin(name)
  {
    if |args| < Arity(name) then Err(TooFewFor(name))
    else if |args| > Arity(name) then Err(TooManyFor(name))
    else if name == "error-if" then if args[0] == "y" then Err(Stopped) else Ok("")
    else if name == "filename" then Ok(g.fileName)
    else if name == "lineno" then Ok(g.lineNo)
    else if name == "shell" then
      match g.shell(args[0])
      case None => Err(Stopped)
      case Some(output) => Ok(ShellText(output))
    else Ok("")
  }
}
