/** The macro expander of scripts/config/preprocess.c. */
module Preprocess {

  import opened Options
  import opened PreprocessText
  import opened PreprocessSpec
  import opened PreprocessLaws

  datatype Function = Function(name: string, minArgs: nat, maxArgs: nat)

  const FUNCTION_TABLE: seq<Function> := [
    Function("error-if", 2, 2),
    Function("filename", 0, 0),
    Function("info", 1, 1),
    Function("lineno", 0, 0),
    Function("shell", 1, 1),
    Function("warning-if", 2, 2)]

  class Expander {
    const g: Config
    var expCount: Counts

    ghost predicate Valid()
      reads this
    {
      Counted(g, expCount)
    }

    constructor (g: Config)
      ensures Valid() && this.g == g && forall n :: n in g.vars ==> expCount[n] == 0
    {
      this.g := g;
      expCount := map n | n in g.vars :: 0;
    }

    /** __expand_string */
    method ExpandString(s: string, end: char -> bool, argv: seq<string>) returns (r: Result<Piece>)
      requires Valid()
      modifies this
      ensures r == Expand(g, old(expCount), s, end, argv)
      ensures r.Ok? ==> expCount == old(expCount)
      decreases Left(expCount), |s|, 1
    {
      ghost var c := expCount;
      var out, rest, p := "", s, 0;
      assert rest[p..] == s && out + rest[..p] == "";
      PrependNothing(Expand(g, c, s, end, argv));
      while p < |rest| && (rest[p] == '$' || !end(rest[p]))
        invariant p <= |rest| <= |s| && expCount == c
        invariant Expand(g, c, s, end, argv) == Prepend(out + rest[..p], Expand(g, c, rest[p..], end, argv))
        decreases |rest| - p
      {
        if rest[p] == '$' {
          DollarStep(g, c, rest, p, end, argv, out);
          var d := ExpandDollar(rest[p + 1..], argv);
          if d.Err? {
            return Err(d.error);
          }
          out := out + rest[..p] + d.value.text;
          rest, p := d.value.rest, 0;
          assert rest[p..] == rest && out + rest[..p] == out;
        } else {
          CharacterStep(g, c, rest, p, end, argv, out);
          p := p + 1;
        }
      }
      EndStep(g, c, rest, p, end, argv, out);
      r := Ok(Piece(out + rest[..p], rest[p..]));
    }

    /** expand_one_token: the text up to a character that is no part of a
        token, which is what `rest` starts with. */
    method ExpandOneToken(s: string) returns (r: Result<Piece>)
      requires Valid()
      modifies this
      ensures r == Expand(g, old(expCount), s, IsEndOfToken, [])
      ensures r.Ok? ==> expCount == old(expCount) && (r.value.rest == "" || IsEndOfToken(r.value.rest[0]))
    {
      r := ExpandString(s, IsEndOfToken, []);
      if r.Ok? {
        StopsAtEnd(g, expCount, s, IsEndOfToken, []);
      }
    }

    /** expand_dollar_with_args */
    method ExpandDollar(s: string, argv: seq<string>) returns (r: Result<Piece>)
      requires Valid()
      modifies this
      ensures r == Dollar(g, old(expCount), s, argv)
      ensures r.Ok? ==> expCount == old(expCount)
      decreases Left(expCount), |s|, 0
    {
      if s == "" || s[0] != '(' {
        return Ok(Piece("$", s));
      }
      var p := s[1..];
      var q := FindClose(p);
      if q == |p| {
        return Err(Unterminated);
      }
      var v := EvalClause(p[..q], argv);
      if v.Err? {
        return Err(v.error);
      }
      r := Ok(Piece(v.value, p[q + 1..]));
    }

    method FindClose(p: string) returns (q: nat)
      ensures q <= |p|
      ensures Close(p, 0) == if q == |p| then None else Some(q)
    {
      var nest := 0;
      q := 0;
      while q < |p|
        invariant q <= |p| && nest >= 0
        invariant Close(p, 0) == Shift(q, Close(p[q..], nest))
      {
        if p[q] == '(' {
          nest := nest + 1;
        } else if p[q] == ')' {
          if nest == 0 {
            break;
          }
          nest := nest - 1;
        }
        q := q + 1;
      }
    }

    /** eval_clause */
    method EvalClause(str: string, argv: seq<string>) returns (r: Result<string>)
      requires Valid()
      modifies this
      ensures r == Clause(g, old(expCount), str, argv)
      ensures r.Ok? ==> expCount == old(expCount)
      decreases Left(expCount), |str|, 3
    {
      var n := Strtoul(str);
      if n.Some? && 0 < n.value <= |argv| {
        return Ok(argv[n.value - 1]);
      }
      var t := SplitClause(str);
      if t.None? {
        return Err(PreprocessSpec.TooManyArguments);
      }
      TokensFit(str);
      var x := ExpandTokens(t.value, |str|, argv);
      if x.Err? {
        return Err(x.error);
      }
      var name, args := x.value[0], x.value[1..];
      if name in g.vars {
        r := VariableExpand(name, args);
        return;
      }
      var f := FunctionExpand(name, args);
      if f.Some? {
        return f.value;
      }
      if args == [] && name != "" && name in g.environ {
        return Ok(g.environ[name]);
      }
      r := Ok("");
    }

    /** The tokens of a clause, unless there are too many. */
    method SplitClause(tmp: string) returns (t: Option<seq<string>>)
      ensures t == if |Split(tmp, 0)| > MAX_ARGS then None else Some(Split(tmp, 0))
    {
      var argv: seq<string> := [];
      var prev, p, nest := 0, 0, 0;
      assert tmp[p..] == tmp && tmp[prev..p] == "";
      ExtendNothing(Split(tmp, 0));
      while p < |tmp|
        invariant prev <= p <= |tmp| && |argv| <= MAX_ARGS
        invariant Split(tmp, 0) == Tokens(argv, tmp, prev, p, nest)
      {
        if nest == 0 && tmp[p] == ',' {
          TokenEnds(argv, tmp, prev, p);
          if |argv| >= MAX_ARGS {
            return None;
          }
          argv := argv + [tmp[prev..p]];
          prev := p + 1;
        } else {
          TokenGoesOn(argv, tmp, prev, p, nest);
          if tmp[p] == '(' {
            nest := nest + 1;
          } else if tmp[p] == ')' {
            nest := nest - 1;
          }
        }
        p := p + 1;
      }
      LastToken(argv, tmp, prev, nest);
      if |argv| >= MAX_ARGS {
        return None;
      }
      t := Some(argv + [tmp[prev..]]);
    }

    method ExpandTokens(t: seq<string>, ghost limit: nat, argv: seq<string>) returns (r: Result<seq<string>>)
      requires Valid() && Fit(t, limit)
      modifies this
      ensures r == ExpandAll(g, old(expCount), t, limit, argv)
      ensures r.Ok? ==> expCount == old(expCount)
      decreases Left(expCount), limit, 2
    {
      ghost var c := expCount;
      var x: seq<string> := [];
      var i := 0;
      while i < |t|
        invariant i <= |t| && expCount == c
        invariant ExpandAll(g, c, t[..i], limit, argv) == Ok(x)
      {
        var p := ExpandString(t[i], IsEndOfStr, argv);
        assert t[..i + 1][..i] == t[..i] && t[..i + 1][i] == t[i];
        if p.Err? {
          FirstError(g, c, t, i + 1, limit, argv);
          return Err(p.error);
        }
        x := x + [p.value.text];
        i := i + 1;
      }
      assert t[..i] == t;
      r := Ok(x);
    }

    /** variable_expand */
    method VariableExpand(name: string, args: seq<string>) returns (r: Result<string>)
      requires Valid() && name in g.vars
      modifies this
      ensures r == VariableValue(g, old(expCount), name, args)
      ensures r.Ok? ==> expCount == old(expCount)
      decreases Left(expCount), 0, 0
    {
      if args == [] && expCount[name] > 0 {
        return Err(SelfReference(name));
      }
      if expCount[name] > MAX_DEPTH {
        return Err(TooDeep);
      }
      LeftFalls(expCount, name);
      expCount := expCount[name := expCount[name] + 1];
      if g.vars[name].recursive {
        var p := ExpandString(g.vars[name].value, IsEndOfStr, args);
        if p.Err? {
          return Err(p.error);
        }
        r := Ok(p.value.text);
      } else {
        r := Ok(g.vars[name].value);
      }
      expCount := expCount[name := expCount[name] - 1];
    }

    /** function_expand: absent if there is no function of that name. */
    method FunctionExpand(name: string, args: seq<string>) returns (r: Option<Result<string>>)
      ensures r == if Builtin(name) then Some(Call(g, name, args)) else None
    {
      var i := 0;
      while i < |FUNCTION_TABLE|
        invariant i <= |FUNCTION_TABLE|
        invariant forall j :: 0 <= j < i ==> FUNCTION_TABLE[j].name != name
      {
        var f := FUNCTION_TABLE[i];
        TableEntry(i);
        if f.name == name {
          if |args| < f.minArgs {
            return Some(Err(TooFewFor(name)));
          }
          if |args| > f.maxArgs {
            return Some(Err(TooManyFor(name)));
          }
          var text := RunFunction(name, args);
          return Some(text);
        }
        i := i + 1;
      }
      assert FUNCTION_TABLE[0].name != name && FUNCTION_TABLE[1].name != name && FUNCTION_TABLE[2].name != name;
      assert FUNCTION_TABLE[3].name != name && FUNCTION_TABLE[4].name != name && FUNCTION_TABLE[5].name != name;
      return None;
    }

    /** The function of a table entry. */
    method RunFunction(name: string, args: seq<string>) returns (r: Result<string>)
      requires Builtin(name) && |args| == Arity(name)
      ensures r == Call(g, name, args)
    {
      if name == "error-if" {
        if args[0] == "y" {
          return Err(Stopped);
        }
        r := Ok("");
      } else if name == "filename" {
        r := Ok(g.fileName);
      } else if name == "lineno" {
        r := Ok(g.lineNo);
      } else if name == "shell" {
        var output := g.shell(args[0]);
        if output.None? {
          return Err(Stopped);
        }
        var text := CleanOutput(output.value);
        r := Ok(text);
      } else {
        r := Ok("");
      }
    }

    /** do_shell: the output is read into a buffer and cleaned up there. */
    method CleanOutput(output: string) returns (text: string)
      ensures text == ShellText(output)
    {
      var buf := new char[BUFFER];
      var nread := ReadInto(buf, output);
      if nread == BUFFER {
        nread := nread - 1;
      }
      assert buf[..nread] == Kept(output);
      nread := DropNewlines(buf, nread);
      buf[nread] := '\0';
      ghost var s := buf[..nread];
      var i := 0;
      while i < nread
        invariant i <= nread
        invariant forall k :: 0 <= k < nread ==> buf[k] == if k < i && s[k] == '\n' then ' ' else s[k]
      {
        if buf[i] == '\n' {
          buf[i] := ' ';
        }
        i := i + 1;
      }
      text := buf[..nread];
      assert text == Spaced(s);
    }

    /** fread */
    method ReadInto(buf: array<char>, output: string) returns (nread: nat)
      modifies buf
      ensures nread == if |output| < buf.Length then |output| else buf.Length
      ensures buf[..nread] == output[..nread]
    {
      nread := 0;
      while nread < buf.Length && nread < |output|
        invariant nread <= buf.Length && nread <= |output|
        invariant forall k :: 0 <= k < nread ==> buf[k] == output[k]
      {
        buf[nread] := output[nread];
        nread := nread + 1;
      }
    }

    method DropNewlines(buf: array<char>, size: nat) returns (nread: nat)
      requires size <= buf.Length
      ensures nread <= size && buf[..nread] == WithoutNewlines(buf[..size])
    {
      nread := size;
      while nread > 0 && buf[nread - 1] == '\n'
        invariant nread <= size
        invariant WithoutNewlines(buf[..nread]) == WithoutNewlines(buf[..size])
      {
        assert buf[..nread][..nread - 1] == buf[..nread - 1];
        nread := nread - 1;
      }
    }
  }

  lemma TableEntry(i: nat)
    requires i < |FUNCTION_TABLE|
    ensures var f := FUNCTION_TABLE[i]; Builtin(f.name) && f.minArgs == f.maxArgs == Arity(f.name)
  {
    assert i == 0 || i == 1 || i == 2 || i == 3 || i == 4 || i == 5;
  }
}
