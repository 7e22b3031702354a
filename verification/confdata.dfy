/** String values in .config files (scripts/config/confdata.c): how they are
    written, and how a line is read back in place. */
module ConfData {

  import opened Options

  const NUL: char := '\0'
  const QUOTE: char := '"'
  const BACKSLASH: char := '\\'

  predicate IsSpecial(c: char) {
    c == QUOTE || c == BACKSLASH
  }

  // ----- the text of a value -----

  /** The value with a backslash before each quote and backslash. */
  function EscapeBody(s: string): string {
    if s == "" then ""
    else if IsSpecial(s[0]) then [BACKSLASH, s[0]] + EscapeBody(s[1..])
    else [s[0]] + EscapeBody(s[1..])
  }

  function Escape(s: string): string {
    [QUOTE] + EscapeBody(s) + [QUOTE]
  }

  /** The value that the text after an opening quote stands for; none if the
      closing quote is missing. */
  function Unescape(t: string): Option<string> {
    if t == "" then None
    else if t[0] == QUOTE then Some("")
    else if t[0] == BACKSLASH then
      if |t| == 1 then None else Before(t[1], Unescape(t[2..]))
    else Before(t[0], Unescape(t[1..]))
  }

  function Before(c: char, v: Option<string>): Option<string> {
    if v.None? then None else Some([c] + v.value)
  }

  datatype Outcome = NotSet | Invalid | Value(text: string)

  /** What conf_set_sym_val makes of the text of a string symbol. */
  function Parse(t: string): Outcome {
    if t == "" || t[0] != QUOTE then NotSet
    else if Unescape(t[1..]).None? then Invalid
    else Value(Unescape(t[1..]).value)
  }

  // ----- a line of the file -----

  /** The text up to the first newline. */
  function FirstLine(s: string): string {
    if s == "" || s[0] == '\n' then "" else [s[0]] + FirstLine(s[1..])
  }

  /** What is left of a line after its newline and a carriage return before
      that are cut off. */
  function CutLine(s: string): string {
    var line := FirstLine(s);
    if line != "" && |line| < |s| && line[|line| - 1] == '\r' then line[..|line| - 1] else line
  }

  /** The outcome for a file that goes on with `s` after NAME=. */
  function ReadBack(s: string): Outcome {
    Parse(CutLine(s))
  }

  lemma {:induction false} EscapeConcat(a: string, b: string)
    ensures EscapeBody(a + b) == EscapeBody(a) + EscapeBody(b)
  {
    if a == "" {
      assert a + b == b;
    } else {
      assert (a + b)[1..] == a[1..] + b;
      EscapeConcat(a[1..], b);
    }
  }

  lemma {:induction false} UnescapeEscape(s: string, rest: string)
    ensures Unescape(EscapeBody(s) + ([QUOTE] + rest)) == Some(s)
  {
    if s == "" {
      assert EscapeBody(s) + ([QUOTE] + rest) == [QUOTE] + rest;
    } else {
      var t := EscapeBody(s[1..]) + ([QUOTE] + rest);
      UnescapeEscape(s[1..], rest);
      assert s == [s[0]] + s[1..];
      UnescapeNext(s[0], t);
      if IsSpecial(s[0]) {
        assert EscapeBody(s) + ([QUOTE] + rest) == [BACKSLASH, s[0]] + t;
      } else {
        assert EscapeBody(s) + ([QUOTE] + rest) == [s[0]] + t;
      }
    }
  }

  lemma UnescapeNext(c: char, t: string)
    ensures Unescape([BACKSLASH, c] + t) == Before(c, Unescape(t))
    ensures !IsSpecial(c) ==> Unescape([c] + t) == Before(c, Unescape(t))
  {
    assert ([BACKSLASH, c] + t)[2..] == t;
    assert ([c] + t)[1..] == t;
  }

  lemma {:induction false} UnescapeOpen(s: string)
    ensures Unescape(EscapeBody(s)) == None
  {
    if s != "" {
      UnescapeOpen(s[1..]);
      if IsSpecial(s[0]) {
        assert EscapeBody(s)[2..] == EscapeBody(s[1..]);
      } else {
        assert EscapeBody(s)[1..] == EscapeBody(s[1..]);
      }
    }
  }

  lemma {:induction false} FirstLineOf(a: string, b: string)
    requires '\n' !in a
    ensures FirstLine(a + (['\n'] + b)) == a
  {
    if a == "" {
      assert a + (['\n'] + b) == ['\n'] + b;
    } else {
      assert (a + (['\n'] + b))[1..] == a[1..] + (['\n'] + b);
      FirstLineOf(a[1..], b);
    }
  }

  lemma {:induction false} EscapeKeepsNewlines(s: string, c: char)
    requires !IsSpecial(c)
    ensures c in EscapeBody(s) <==> c in s
  {
    if s != "" {
      EscapeKeepsNewlines(s[1..], c);
      assert s == [s[0]] + s[1..];
    }
  }

  /** Where the first newline is. */
  lemma {:induction false} NewlineSplit(s: string) returns (a: string, b: string)
    requires '\n' in s
    ensures s == a + (['\n'] + b) && '\n' !in a
  {
    if s[0] == '\n' {
      a, b := "", s[1..];
      assert s == "" + (['\n'] + b);
    } else {
      assert s == [s[0]] + s[1..];
      var a', b' := NewlineSplit(s[1..]);
      a, b := [s[0]] + a', b';
      assert s == a + (['\n'] + b);
    }
  }

  lemma CutAt(a: string, b: string)
    requires '\n' !in a
    ensures CutLine(a + (['\n'] + b)) == if a != "" && a[|a| - 1] == '\r' then a[..|a| - 1] else a
  {
    FirstLineOf(a, b);
  }

  /** A value written to a file and read back is the same value exactly if it
      holds no newline; otherwise the line is rejected. */
  lemma WriteRead(s: string, rest: string)
    ensures ReadBack(Escape(s) + (['\n'] + rest)) == if '\n' in s then Invalid else Value(s)
  {
    if '\n' in s {
      CutValue(s, rest);
    } else {
      WholeLine(s, rest);
      ParseEscape(s);
    }
  }

  lemma WholeLine(s: string, rest: string)
    requires '\n' !in s
    ensures CutLine(Escape(s) + (['\n'] + rest)) == Escape(s)
  {
    EscapeKeepsNewlines(s, '\n');
    CutAt(Escape(s), rest);
  }

  /** What is written means what was written. */
  lemma ParseEscape(s: string)
    ensures Parse(Escape(s)) == Value(s)
  {
    assert Escape(s)[1..] == EscapeBody(s) + ([QUOTE] + "");
    UnescapeEscape(s, "");
  }

  lemma CutValue(s: string, rest: string)
    requires '\n' in s
    ensures ReadBack(Escape(s) + (['\n'] + rest)) == Invalid
  {
    var a, b := NewlineSplit(s);
    var line := [QUOTE] + EscapeBody(a);
    var tail := EscapeBody(b) + [QUOTE] + (['\n'] + rest);
    BrokenLine(a, b, rest);
    EscapeKeepsNewlines(a, '\n');
    CutAt(line, tail);
    UnescapeOpen(a);
    assert line[1..] == EscapeBody(a);
    if a != "" && line[|line| - 1] == '\r' {
      LastReturn(a);
      UnescapeOpen(a[..|a| - 1]);
      assert line[..|line| - 1][1..] == EscapeBody(a[..|a| - 1]);
    }
  }

  lemma BrokenLine(a: string, b: string, rest: string)
    ensures Escape(a + (['\n'] + b)) + (['\n'] + rest) ==
            ([QUOTE] + EscapeBody(a)) + (['\n'] + (EscapeBody(b) + [QUOTE] + (['\n'] + rest)))
  {
    EscapeConcat(a, ['\n'] + b);
    assert (['\n'] + b)[1..] == b;
    Regroup(EscapeBody(a), EscapeBody(b), ['\n'] + rest);
  }

  lemma Regroup(x: string, y: string, t: string)
    ensures [QUOTE] + (x + (['\n'] + y)) + [QUOTE] + t == ([QUOTE] + x) + (['\n'] + (y + [QUOTE] + t))
  {
  }

  /** A carriage return at the end is one of the value. */
  lemma LastReturn(a: string)
    requires a != ""
    ensures EscapeBody(a) != "" && EscapeBody(a)[|EscapeBody(a)| - 1] == a[|a| - 1]
    ensures !IsSpecial(a[|a| - 1]) ==> EscapeBody(a) == EscapeBody(a[..|a| - 1]) + [a[|a| - 1]]
  {
    var b, c := a[..|a| - 1], a[|a| - 1];
    assert a == b + [c];
    EscapeConcat(b, [c]);
  }

  /** The form of a written value: quotes around it, and a backslash before
      each quote and each backslash, and before nothing else. */
  lemma EscapeForm(s: string, c: char)
    ensures Escape("") == "\"\""
    ensures var marked := if c == '"' || c == '\\' then ['\\', c] else [c];
            Escape(s + [c]) == Escape(s)[..|Escape(s)| - 1] + marked + "\""
  {
    EscapeConcat(s, [c]);
    OneEscaped(c);
    assert Escape(s)[..|Escape(s)| - 1] == [QUOTE] + EscapeBody(s);
  }

  lemma OneEscaped(c: char)
    ensures EscapeBody([c]) == if c == '"' || c == '\\' then ['\\', c] else [c]
  {
    var none: string := "";
    assert [c][1..] == none && EscapeBody(none) == none;
    assert [BACKSLASH, c] + none == [BACKSLASH, c] && [c] + none == [c];
  }

  predicate NoMark(u: string) {
    forall i :: 0 <= i < |u| ==> u[i] != '"' && u[i] != '\\' && u[i] != '\n'
  }

  lemma {:induction false} UnescapePlain(u: string, t: string)
    requires NoMark(u) && Unescape(t).Some?
    ensures Unescape(u + t) == Some(u + Unescape(t).value)
  {
    if u == "" {
      assert u + t == t && u + Unescape(t).value == Unescape(t).value;
    } else {
      UnescapePlain(u[1..], t);
      assert (u + t)[1..] == u[1..] + t;
      assert u + Unescape(t).value == [u[0]] + (u[1..] + Unescape(t).value);
    }
  }

  /** A line that no escaping produced: a backslash stands for the character
      after it, whatever that is, and nothing after the closing quote counts. */
  lemma ReadMarked(u: string, c: char, w: string, after: string, rest: string)
    requires NoMark(u) && NoMark(w) && c != '\n' && '\n' !in after
    ensures ReadBack("\"" + u + ['\\', c] + w + "\"" + after + " " + (['\n'] + rest)) == Value(u + [c] + w)
  {
    var tail := "\"" + after + " ";
    UnescapeMarked(u, c, w, tail);
    var line := "\"" + u + ['\\', c] + w + tail;
    assert line == "\"" + u + ['\\', c] + w + "\"" + after + " ";
    assert line[1..] == u + (['\\', c] + (w + tail)) && line[|line| - 1] == ' ';
    CutAt(line, rest);
  }

  lemma UnescapeMarked(u: string, c: char, w: string, tail: string)
    requires NoMark(u) && NoMark(w) && tail != "" && tail[0] == '"'
    ensures Unescape(u + (['\\', c] + (w + tail))) == Some(u + [c] + w)
  {
    UnescapePlain(w, tail);
    UnescapeNext(c, w + tail);
    UnescapePlain(u, ['\\', c] + (w + tail));
    assert w + "" == w && u + ([c] + w) == u + [c] + w;
  }

  // ----- writing -----

  /** `s` and its terminator stand in `buf` from `at` on. */
  ghost predicate Holds(buf: array<char>, at: nat, s: string)
    reads buf
  {
    at + |s| < buf.Length && NUL !in s && buf[at..at + |s|] == s && buf[at + |s|] == NUL
  }

  /** strcspn of the text from `p` on, with quotes and backslashes. */
  method StrCSpn(s: string, p: nat) returns (n: nat)
    requires p <= |s|
    ensures p + n <= |s| && (forall i :: p <= i < p + n ==> !IsSpecial(s[i])) && (p + n < |s| ==> IsSpecial(s[p + n]))
  {
    n := 0;
    while p + n < |s| && !IsSpecial(s[p + n])
      invariant p + n <= |s| && forall i :: p <= i < p + n ==> !IsSpecial(s[i])
    {
      n := n + 1;
    }
  }

  /** strlen */
  method StrLen(buf: array<char>, at: nat, ghost s: string) returns (n: nat)
    requires Holds(buf, at, s)
    ensures n == |s|
  {
    n := 0;
    TerminatorAt(buf, at, s, n);
    while buf[at + n] != NUL
      invariant n <= |s| && (buf[at + n] == NUL <==> n == |s|)
      decreases |s| - n
    {
      n := n + 1;
      TerminatorAt(buf, at, s, n);
    }
  }

  lemma TerminatorAt(buf: array<char>, at: nat, s: string, n: nat)
    requires Holds(buf, at, s) && n <= |s|
    ensures buf[at + n] == NUL <==> n == |s|
  {
    if n < |s| {
      assert buf[at..at + |s|][n] == s[n];
      assert s[n] in s;
    }
  }

  /** strcat */
  method StrCat(out: array<char>, ghost u: string, t: string)
    requires Holds(out, 0, u) && NUL !in t && |u| + |t| < out.Length
    modifies out
    ensures Holds(out, 0, u + t)
  {
    var n := StrLen(out, 0, u);
    forall i | 0 <= i < |t| {
      out[n + i] := t[i];
    }
    out[n + |t|] := NUL;
    assert out[..n] == u && out[n..n + |t|] == t;
  }

  lemma PlainBody(s: string)
    requires forall i :: 0 <= i < |s| ==> !IsSpecial(s[i])
    ensures EscapeBody(s) == s
  {
  }

  lemma BodyGrows(s: string, p: nat, n: nat)
    requires p + n <= |s| && forall i :: p <= i < p + n ==> !IsSpecial(s[i])
    ensures EscapeBody(s[..p + n]) == EscapeBody(s[..p]) + s[p..p + n]
    ensures p + n < |s| && IsSpecial(s[p + n]) ==>
              EscapeBody(s[..p + n + 1]) == EscapeBody(s[..p]) + s[p..p + n] + [BACKSLASH] + [s[p + n]]
  {
    PlainBody(s[p..p + n]);
    assert s[..p + n] == s[..p] + s[p..p + n];
    EscapeConcat(s[..p], s[p..p + n]);
    if p + n < |s| && IsSpecial(s[p + n]) {
      assert s[..p + n + 1] == s[..p + n] + [s[p + n]];
      EscapeConcat(s[..p + n], [s[p + n]]);
    }
  }

  /** The counting loop of escape_string_value: the exact size. */
  method EscapedSize(s: string) returns (len: nat)
    ensures len == |Escape(s)| + 1
  {
    len := |s| + 2 + 1;
    var p := 0;
    while p < |s|
      invariant p <= |s| && len == |EscapeBody(s[..p])| + (|s| - p) + 3
    {
      var n := StrCSpn(s, p);
      BodyGrows(s, p, n);
      p := p + n;
      if p < |s| {
        len := len + 1;
        p := p + 1;
      }
    }
    assert s[..p] == s;
  }

  /** escape_string_value: the text fills the buffer. */
  method EscapeStringValue(s: string) returns (out: array<char>)
    requires NUL !in s
    ensures fresh(out) && Holds(out, 0, Escape(s)) && out.Length == |Escape(s)| + 1
  {
    var len := EscapedSize(s);
    out := new char[len];
    out[0] := NUL;
    StrCat(out, "", [QUOTE]);
    FillEscaped(out, s);
    StrCat(out, [QUOTE] + EscapeBody(s), [QUOTE]);
  }

  method FillEscaped(out: array<char>, s: string)
    requires NUL !in s && Holds(out, 0, [QUOTE]) && out.Length == |Escape(s)| + 1
    modifies out
    ensures Holds(out, 0, [QUOTE] + EscapeBody(s))
  {
    var p := 0;
    while p < |s|
      invariant p <= |s| && Holds(out, 0, [QUOTE] + EscapeBody(s[..p]))
    {
      p := FillSome(out, s, p);
    }
    assert s[..p] == s;
  }

  /** Up to the next special character, and that one behind a backslash. */
  method FillSome(out: array<char>, s: string, p: nat) returns (q: nat)
    requires NUL !in s && p < |s| && Holds(out, 0, [QUOTE] + EscapeBody(s[..p])) && out.Length == |Escape(s)| + 1
    modifies out
    ensures p < q <= |s| && Holds(out, 0, [QUOTE] + EscapeBody(s[..q]))
  {
    var n := StrCSpn(s, p);
    q := p + n;
    FillPlain(out, s, p, q);
    if q < |s| {
      BodyGrows(s, q, 0);
      BodyFits(s, q + 1);
      assert s[q..q] == "" && EscapeBody(s[..q]) + "" == EscapeBody(s[..q]);
      FillSpecial(out, EscapeBody(s[..q]), s[q]);
      q := q + 1;
    }
  }

  method FillPlain(out: array<char>, s: string, p: nat, q: nat)
    requires NUL !in s && p <= q <= |s| && Holds(out, 0, [QUOTE] + EscapeBody(s[..p])) && out.Length == |Escape(s)| + 1
    requires forall i :: p <= i < q ==> !IsSpecial(s[i])
    modifies out
    ensures Holds(out, 0, [QUOTE] + EscapeBody(s[..q]))
  {
    ghost var body := EscapeBody(s[..p]);
    BodyGrows(s, p, q - p);
    BodyFits(s, q);
    QuoteFirst(body, s[p..q]);
    StrCat(out, [QUOTE] + body, s[p..q]);
  }

  method FillSpecial(out: array<char>, ghost body: string, c: char)
    requires c != NUL && Holds(out, 0, [QUOTE] + body) && |body| + 3 < out.Length
    modifies out
    ensures Holds(out, 0, [QUOTE] + (body + [BACKSLASH] + [c]))
  {
    QuoteFirst(body, [BACKSLASH]);
    QuoteFirst(body + [BACKSLASH], [c]);
    StrCat(out, [QUOTE] + body, [BACKSLASH]);
    StrCat(out, [QUOTE] + (body + [BACKSLASH]), [c]);
  }

  lemma QuoteFirst(a: string, b: string)
    ensures ([QUOTE] + a) + b == [QUOTE] + (a + b)
  {
  }

  lemma BodyFits(s: string, p: nat)
    requires p <= |s|
    ensures |EscapeBody(s[..p])| <= |EscapeBody(s)|
  {
    assert s == s[..p] + s[p..];
    EscapeConcat(s[..p], s[p..]);
  }

  // ----- reading in place -----

  /** `done` and the value of the text after it. */
  function Glue(done: string, v: Option<string>): Option<string> {
    if v.None? then None else Some(done + v.value)
  }

  /** A line under way: from `start` to `at` stands what was read, and from
      `at` on what is to come, of a text of value `v`.  After a backslash at
      the end there is nothing to come. */
  ghost predicate Reads(buf: array<char>, start: nat, at: nat, done: string, rest: string, v: Option<string>)
    reads buf
  {
    start <= at && Holds(buf, at, rest) && buf[start..at] == done &&
    v == Glue(done, Unescape(rest)) && (NUL !in done || rest == "")
  }

  /** strpbrk with quotes and backslashes: `n` characters are passed over. */
  method StrPBrk(buf: array<char>, at: nat, ghost s: string) returns (n: nat)
    requires Holds(buf, at, s)
    ensures n <= |s| && forall i :: 0 <= i < n ==> !IsSpecial(s[i])
    ensures at + n < buf.Length && buf[at + n] == (if n < |s| then s[n] else NUL)
    ensures n < |s| ==> IsSpecial(s[n])
  {
    n := 0;
    forall i | 0 <= i < |s| ensures buf[at + i] == s[i] {
      assert buf[at..at + |s|][i] == s[i];
    }
    while buf[at + n] != NUL && !IsSpecial(buf[at + n])
      invariant n <= |s| && forall i :: 0 <= i < n ==> !IsSpecial(s[i])
      decreases |s| - n
    {
      n := n + 1;
    }
    assert n < |s| ==> s[n] in s;
  }

  /** memmove of the string after `at`, with its terminator, to `at`. */
  method DropChar(buf: array<char>, at: nat, ghost c: char, ghost s: string)
    requires Holds(buf, at, [c] + s)
    modifies buf
    ensures Holds(buf, at, s) && buf[..at] == old(buf[..at])
    ensures buf[at + 1 + |s|] == NUL
  {
    var n := StrLen(buf, at, [c] + s);
    forall i | 0 <= i < |s| ensures buf[at + 1 + i] == s[i] {
      assert buf[at..at + 1 + |s|][1 + i] == ([c] + s)[1 + i];
    }
    forall i | 0 <= i < n {
      buf[at + i] := buf[at + i + 1];
    }
    assert buf[at..at + |s|] == s;
  }

  /** Ordinary characters stay where they are. */
  lemma PassOver(done: string, rest: string, n: nat)
    requires n <= |rest| && forall i :: 0 <= i < n ==> !IsSpecial(rest[i])
    ensures Glue(done, Unescape(rest)) == Glue(done + rest[..n], Unescape(rest[n..]))
    ensures n == |rest| ==> Unescape(rest) == None
    decreases n
  {
    if n == 0 {
      assert rest[..0] == "" && rest[0..] == rest;
      assert done + "" == done;
    } else {
      PassOver(done + [rest[0]], rest[1..], n - 1);
      var v := Unescape(rest[1..]);
      if v.Some? {
        assert done + ([rest[0]] + v.value) == done + [rest[0]] + v.value;
      }
      assert rest[1..][n - 1..] == rest[n..];
      assert done + [rest[0]] + rest[1..][..n - 1] == done + rest[..n];
    }
  }

  lemma GlueNext(done: string, c: char, v: Option<string>)
    ensures Glue(done, Before(c, v)) == Glue(done + [c], v)
  {
    if v.Some? {
      assert done + ([c] + v.value) == done + [c] + v.value;
    }
  }

  /** The loop body for a backslash: the next character is kept as it is. */
  method Unescape1(buf: array<char>, start: nat, at: nat, ghost done: string, ghost rest: string,
          ghost v: Option<string>)
      returns (ghost done': string, ghost rest': string)
    requires Reads(buf, start, at, done, rest, v) && rest != "" && rest[0] == BACKSLASH
    modifies buf
    ensures Reads(buf, start, at + 1, done', rest', v) && |rest'| < |rest|
  {
    assert rest == [BACKSLASH] + rest[1..];
    assert NUL !in rest[1..];
    DropChar(buf, at, BACKSLASH, rest[1..]);
    assert buf[start..at] == buf[..at][start..];
    if |rest| == 1 {
      done', rest' := done + [NUL], "";
    } else {
      done', rest' := done + [rest[1]], rest[2..];
      GlueNext(done, rest[1], Unescape(rest[2..]));
      assert rest[1..] == [rest[1]] + rest[2..];
      assert buf[at..at + |rest[1..]|] == [rest[1]] + rest[2..];
    }
    assert buf[start..at + 1] == buf[start..at] + [buf[at]];
  }

  method SkipPlain(buf: array<char>, start: nat, at: nat, ghost done: string, ghost rest: string,
          ghost v: Option<string>)
      returns (at': nat, ghost done': string, ghost rest': string)
    requires Reads(buf, start, at, done, rest, v)
    ensures Reads(buf, start, at', done', rest', v) && |rest'| <= |rest|
    ensures rest' == "" || IsSpecial(rest'[0])
  {
    var n := StrPBrk(buf, at, rest);
    PassOver(done, rest, n);
    HoldsTail(buf, at, rest, n);
    at', done', rest' := at + n, done + rest[..n], rest[n..];
    assert buf[start..at'] == buf[start..at] + buf[at..at'];
  }

  lemma HoldsTail(buf: array<char>, at: nat, s: string, n: nat)
    requires Holds(buf, at, s) && n <= |s|
    ensures Holds(buf, at + n, s[n..]) && buf[at..at + n] == s[..n] && NUL !in s[..n]
  {
    var b := buf[at..at + |s|];
    assert buf[at..at + n] == b[..n] && buf[at + n..at + |s|] == b[n..];
  }

  lemma StartReads(buf: array<char>, start: nat, t: string)
    requires Holds(buf, start, t)
    ensures Reads(buf, start, start, "", t, Unescape(t))
  {
    GlueNothing(Unescape(t));
    assert buf[start..start] == "";
  }

  lemma GlueNothing(v: Option<string>)
    ensures Glue("", v) == v
  {
    if v.Some? {
      assert "" + v.value == v.value;
    }
  }

  lemma ClosingQuote(buf: array<char>, start: nat, at: nat, done: string, rest: string, v: Option<string>)
    requires Reads(buf, start, at, done, rest, v) && buf[at] == QUOTE
    ensures v == Some(done) && NUL !in done && at == start + |done|
  {
    if rest != "" {
      assert buf[at..at + |rest|][0] == rest[0];
    }
    assert done + "" == done;
  }

  method Terminate(buf: array<char>, start: nat, at: nat, ghost done: string, ghost rest: string,
          ghost v: Option<string>)
    requires Reads(buf, start, at, done, rest, v) && buf[at] == QUOTE
    modifies buf
    ensures v.Some? && Holds(buf, start, v.value)
  {
    ClosingQuote(buf, start, at, done, rest, v);
    buf[at] := NUL;
    assert buf[start..at] == done;
  }

  lemma NoQuote(buf: array<char>, start: nat, at: nat, done: string, rest: string, v: Option<string>)
    requires Reads(buf, start, at, done, rest, v) && buf[at] == NUL
    ensures v == None
  {
    TerminatorAt(buf, at, rest, 0);
  }

  /** The loop of conf_set_sym_val: the value of `t` is left in place, behind
      a terminator, or the closing quote is missing. */
  method UnescapeInPlace(buf: array<char>, start: nat, ghost t: string) returns (ok: bool)
    requires Holds(buf, start, t)
    modifies buf
    ensures ok == Unescape(t).Some?
    ensures ok ==> Holds(buf, start, Unescape(t).value)
  {
    ghost var v := Unescape(t);
    ghost var done, rest := "", t;
    var at: nat := start;
    StartReads(buf, start, t);
    while true
      invariant Reads(buf, start, at, done, rest, v)
      decreases |rest|
    {
      at, done, rest := SkipPlain(buf, start, at, done, rest, v);
      if buf[at] == NUL {
        NoQuote(buf, start, at, done, rest, v);
        return false;
      }
      if buf[at] == QUOTE {
        Terminate(buf, start, at, done, rest, v);
        return true;
      }
      done, rest := Unescape1(buf, start, at, done, rest, v);
      at := at + 1;
    }
  }

  /** The S_STRING branch of conf_set_sym_val for a file of the user. */
  method SetStringValue(buf: array<char>, p: nat, ghost t: string) returns (r: Outcome)
    requires Holds(buf, p, t)
    modifies buf
    ensures r == Parse(t)
  {
    if buf[p] != QUOTE {
      return NotSet;
    }
    assert t != "" && t[0] == QUOTE;
    var ok := UnescapeInPlace(buf, p + 1, t[1..]);
    if !ok {
      return Invalid;
    }
    var text := StrDup(buf, p + 1, Unescape(t[1..]).value);
    r := Value(text);
  }

  /** strdup */
  method StrDup(buf: array<char>, at: nat, ghost s: string) returns (r: string)
    requires Holds(buf, at, s)
    ensures r == s
  {
    var n := StrLen(buf, at, s);
    r := buf[at..at + n];
  }
}
