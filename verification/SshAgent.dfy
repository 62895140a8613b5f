/** `extract_var` of src/ssh.rs: reading a variable out of `ssh-agent` output. */
module SshAgent {
  import opened Outcomes

  // ---- strings ------------------------------------------------------------------------------

  /** Unicode white space. */
  predicate IsSpace(c: char) {
    || '\t' <= c <= '\r' || c == ' ' || c == '\U{85}' || c == '\U{A0}' || c == '\U{1680}'
    || '\U{2000}' <= c <= '\U{200A}' || c == '\U{2028}' || c == '\U{2029}' || c == '\U{202F}'
    || c == '\U{205F}' || c == '\U{3000}'
  }

  function TrimStart(s: string): (t: string)
    ensures |t| <= |s|
    ensures s != "" && !IsSpace(s[0]) ==> t == s
  {
    if s != "" && IsSpace(s[0]) then TrimStart(s[1..]) else s
  }

  function TrimEnd(s: string): (t: string)
    ensures |t| <= |s|
    ensures s != "" && !IsSpace(s[|s| - 1]) ==> t == s
  {
    if s != "" && IsSpace(s[|s| - 1]) then TrimEnd(s[..|s| - 1]) else s
  }

  function Trim(s: string): (t: string)
    ensures |t| <= |s|
    ensures s != "" && !IsSpace(s[0]) && !IsSpace(s[|s| - 1]) ==> t == s
  {
    TrimEnd(TrimStart(s))
  }

  predicate AllSpace(s: string) {
    forall k :: 0 <= k < |s| ==> IsSpace(s[k])
  }

  predicate IsTrimmed(s: string) {
    s == "" || (!IsSpace(s[0]) && !IsSpace(s[|s| - 1]))
  }

  /** Trimming takes white space off both ends, all of it and nothing else. */
  lemma TrimExactly(s: string, t: string)
    ensures Trim(s) == t <==> IsTrimmed(t) && exists a, b :: Surrounded(s, a, t, b)
  {
    if Trim(s) == t {
      var a := SpaceInFront(s);
      var b := SpaceAtEnd(TrimStart(s));
      assert TrimStart(s) == t + b && s == a + t + b;
      assert t != "" ==> TrimStart(s)[0] == t[0];
      assert Surrounded(s, a, t, b);
    }
    if a, b :| IsTrimmed(t) && Surrounded(s, a, t, b) {
      TrimSurrounded(s, a, t, b);
    }
  }

  ghost predicate Surrounded(s: string, a: string, t: string, b: string) {
    s == a + t + b && AllSpace(a) && AllSpace(b)
  }

  lemma TrimSurrounded(s: string, a: string, t: string, b: string)
    requires IsTrimmed(t) && Surrounded(s, a, t, b)
    ensures Trim(s) == t
  {
    if t == "" {
      assert s == (a + b) + "";
      TrimStartOf(a + b, "");
    } else {
      assert s == a + (t + b);
      TrimStartOf(a, t + b);
      TrimEndOf(t, b);
    }
  }

  lemma {:induction false} SpaceInFront(s: string) returns (a: string)
    ensures s == a + TrimStart(s) && AllSpace(a)
    ensures TrimStart(s) == "" || !IsSpace(TrimStart(s)[0])
  {
    if s != "" && IsSpace(s[0]) {
      a := SpaceInFront(s[1..]);
      a := [s[0]] + a;
    } else {
      a := "";
    }
  }

  lemma {:induction false} SpaceAtEnd(s: string) returns (b: string)
    ensures s == TrimEnd(s) + b && AllSpace(b)
    ensures TrimEnd(s) == "" || !IsSpace(TrimEnd(s)[|TrimEnd(s)| - 1])
  {
    if s != "" && IsSpace(s[|s| - 1]) {
      b := SpaceAtEnd(s[..|s| - 1]);
      b := b + [s[|s| - 1]];
    } else {
      b := "";
    }
  }

  lemma {:induction false} TrimStartOf(a: string, rest: string)
    requires AllSpace(a) && (rest == "" || !IsSpace(rest[0]))
    ensures TrimStart(a + rest) == rest
  {
    if a == "" {
      assert a + rest == rest;
    } else {
      TrimStartOf(a[1..], rest);
      assert (a + rest)[1..] == a[1..] + rest;
    }
  }

  lemma {:induction false} TrimEndOf(t: string, b: string)
    requires AllSpace(b) && (t == "" || !IsSpace(t[|t| - 1]))
    ensures TrimEnd(t + b) == t
  {
    if b == "" {
      assert t + b == t;
    } else {
      var front := b[..|b| - 1];
      TrimEndOf(t, front);
      assert (t + b)[..|t + b| - 1] == t + front;
    }
  }

  /** `trim_end_matches(';')`. */
  function DropSemicolons(s: string): (t: string)
    ensures |t| <= |s|
    ensures s == "" || s[|s| - 1] != ';' ==> t == s
  {
    if s != "" && s[|s| - 1] == ';' then DropSemicolons(s[..|s| - 1]) else s
  }

  /** All semicolons at the end go, and nothing else. */
  lemma {:induction false} DropSemicolonsExactly(s: string, t: string)
    ensures DropSemicolons(s) == t <==>
      && t <= s && (t == "" || t[|t| - 1] != ';')
      && forall k :: |t| <= k < |s| ==> s[k] == ';'
  {
    if s != "" && s[|s| - 1] == ';' {
      DropSemicolonsExactly(s[..|s| - 1], t);
    } else if t <= s && t != s {
      assert s[|s| - 1] != ';';
    }
  }

  /** The part before the first `c`, or everything. */
  function Before(s: string, c: char): (t: string)
    ensures t <= s && c !in t
    ensures t != s ==> s[|t|] == c
  {
    if s == "" || s[0] == c then "" else [s[0]] + Before(s[1..], c)
  }

  lemma {:induction false} BeforeFirst(a: string, c: char, b: string)
    ensures Before(a + [c] + b, c) == Before(a, c)
    ensures c !in a ==> Before(a, c) == a
  {
    var s := a + [c] + b;
    if a != "" {
      BeforeFirst(a[1..], c, b);
      assert s[1..] == a[1..] + [c] + b;
      assert s[0] == a[0];
    }
  }

  lemma BeforeStops(s: string, c: char, k: nat)
    requires k < |s| && s[k] == c
    ensures |Before(s, c)| <= k
  {
  }

  /** What stands before the first `c` can be told from a prefix that ends in `c`. */
  lemma PrefixBefore(s: string, c: char, a: string)
    requires c !in a
    ensures a + [c] <= s ==> Before(s, c) == a
  {
    if a + [c] <= s {
      var b := s[|a| + 1..];
      assert s == a + [c] + b;
      BeforeFirst(a, c, b);
    }
  }

  // ---- lines --------------------------------------------------------------------------------

  /** `str::lines`: terminated lines lose one carriage return, and there is no line after the last terminator. */
  function Lines(text: string): seq<string> {
    if text == "" then []
    else
      var line := Before(text, '\n');
      if line == text then [text] else [DropReturn(line)] + Lines(text[|line| + 1..])
  }

  function DropReturn(s: string): string {
    if s != "" && s[|s| - 1] == '\r' then s[..|s| - 1] else s
  }

  // ---- one line -----------------------------------------------------------------------------

  datatype LineResult = Found(value: string) | GiveUp | Continue

  const SETENV := "setenv "

  /** What one line contributes; a `setenv` of the variable without a value ends the search. */
  function FromLine(line: string, name: string): LineResult {
    var l := Trim(line);
    if name + "=" <= l then Found(Trim(Before(l[|name| + 1..], ';')))
    else if SETENV <= l then
      var rest := l[|SETENV|..];
      var first := Before(rest, ' ');
      if first != name then Continue
      else if first == rest then GiveUp
      else Found(DropSemicolons(Before(rest[|first| + 1..], ' ')))
    else Continue
  }

  function FromLines(lines: seq<string>, name: string): Option<string> {
    if lines == [] then None
    else match FromLine(lines[0], name)
      case Found(v) => Some(v)
      case GiveUp => None
      case Continue => FromLines(lines[1..], name)
  }

  /** The iterator `splitn(n, sep)`: at most n pieces, the last one unsplit. */
  class Splitter {
    var left: nat
    var rest: Option<string>
    const sep: char

    constructor (text: string, n: nat, sep: char)
      ensures left == n && rest == Some(text) && this.sep == sep
    {
      left, rest, this.sep := n, Some(text), sep;
    }

    method Next() returns (piece: Option<string>)
      modifies this
      ensures piece.Some? <==> old(left) > 0 && old(rest).Some?
      ensures piece.Some? ==>
                && left == old(left) - 1
                && var whole := old(rest).value;
                   var cut := if old(left) == 1 then whole else Before(whole, sep);
                   && piece.value == cut
                   && rest == if cut == whole then None else Some(whole[|cut| + 1..])
    {
      if left == 0 || rest.None? { return None; }
      var whole := rest.value;
      var cut := if left == 1 then whole else Before(whole, sep);
      left := left - 1;
      rest := if cut == whole then None else Some(whole[|cut| + 1..]);
      piece := Some(cut);
    }
  }

  method ExtractVar(text: string, name: string) returns (value: Option<string>)
    ensures value == FromLines(Lines(text), name)
  {
    var lines := Lines(text);
    var i := 0;
    while i < |lines|
      invariant 0 <= i <= |lines|
      invariant FromLines(lines[i..], name) == FromLines(lines, name)
    {
      assert lines[i..][1..] == lines[i + 1..];
      var line := Trim(lines[i]);
      if name + "=" <= line {
        return Some(Trim(Before(line[|name| + 1..], ';')));
      }
      if SETENV <= line {
        var parts := new Splitter(line[|SETENV|..], 3, ' ');
        var first := parts.Next();
        if first == Some(name) {
          var second := parts.Next();
          return if second.None? then None else Some(DropSemicolons(second.value));
        }
      }
      i := i + 1;
    }
    value := None;
  }

  // ---- what an agent prints -------------------------------------------------------------------

  datatype Entry = Sh(name: string, value: string) | Csh(name: string, value: string) | Other(text: string)

  function Render(e: Entry): string {
    match e
    case Sh(n, v) => n + "=" + v + "; export " + n + ";"
    case Csh(n, v) => SETENV + n + " " + v + ";"
    case Other(t) => t
  }

  function RenderAll(es: seq<Entry>): string {
    if es == [] then "" else Render(es[0]) + "\n" + RenderAll(es[1..])
  }

  predicate IsName(n: string) {
    n != "" && '=' !in n && forall k :: 0 <= k < |n| ==> !IsSpace(n[k])
  }

  /** A value that its line's syntax can carry. */
  predicate Carries(e: Entry) {
    match e
    case Sh(_, v) => ';' !in v && Trim(v) == v
    case Csh(_, v) => ' ' !in v && (v == "" || v[|v| - 1] != ';')
    case Other(_) => true
  }

  /** A line that defines `name` in one of the syntaxes, or starts to. */
  predicate Decisive(line: string, name: string) {
    var l := Trim(line);
    || name + "=" <= l
    || (SETENV <= l && Before(l[|SETENV|..], ' ') == name)
  }

  /** An entry on one line; lines of other kinds may be anything that does not define `name`. */
  predicate Printable(e: Entry, name: string) {
    match e
    case Sh(n, v) => IsName(n) && '\n' !in v
    case Csh(n, v) => IsName(n) && '\n' !in v
    case Other(t) => '\n' !in t && !Decisive(t, name)
  }

  predicate Defines(e: Entry, name: string) {
    !e.Other? && e.name == name
  }

  function FirstValue(es: seq<Entry>, name: string): Option<string> {
    if es == [] then None
    else if Defines(es[0], name) then Some(es[0].value)
    else FirstValue(es[1..], name)
  }

  lemma RenderedIsTrimmed(e: Entry)
    requires !e.Other? && IsName(e.name)
    ensures Trim(Render(e)) == Render(e)
  {
  }

  /** The line of another variable is passed over. */
  lemma OtherNamePassed(e: Entry, name: string)
    requires !e.Other? && IsName(e.name) && IsName(name) && e.name != name
    ensures FromLine(Render(e), name) == Continue
  {
    var l, n := Render(e), e.name;
    RenderedIsTrimmed(e);
    if e.Sh? {
      assert n + "=" <= l;
      PrefixBefore(l, '=', n);
      PrefixBefore(l, '=', name);
      NotSetenv(l, n);
    } else {
      NotAssignment(l, name);
      CshRest(n, e.value);
    }
  }

  /** A line cannot be an assignment to a name and a `setenv` at once. */
  lemma NotBoth(l: string, n: string)
    requires IsName(n)
    ensures !(n + "=" <= l && SETENV <= l)
  {
    if |n| > 6 {
      assert !IsSpace(n[6]) && IsSpace(SETENV[6]);
      assert n + "=" <= l ==> l[6] == (n + "=")[6] == n[6];
    } else {
      assert SETENV[|n|] != '=';
      assert n + "=" <= l ==> l[|n|] == (n + "=")[|n|] == '=';
    }
  }

  lemma NotSetenv(l: string, n: string)
    requires IsName(n) && n + "=" <= l
    ensures !(SETENV <= l)
  {
    NotBoth(l, n);
  }

  lemma NotAssignment(l: string, name: string)
    requires IsName(name) && SETENV <= l
    ensures !(name + "=" <= l)
  {
    NotBoth(l, name);
  }

  lemma CshRest(n: string, v: string)
    requires IsName(n)
    ensures var rest := (SETENV + n + " " + v + ";")[|SETENV|..];
            Before(rest, ' ') == n && rest[|n| + 1..] == v + ";" && n != rest
  {
    var rest := (SETENV + n + " " + v + ";")[|SETENV|..];
    assert rest == n + [' '] + (v + ";");
    BeforeFirst(n, ' ', v + ";");
  }

  /** What a variable's own line gives, whatever the value: cut at the syntax's delimiter, and trimmed as it does. */
  lemma OwnLine(n: string, v: string)
    requires IsName(n)
    ensures FromLine(n + "=" + v + "; export " + n + ";", n) == Found(Trim(Before(v, ';')))
    ensures FromLine("setenv " + n + " " + v + ";", n) == Found(DropSemicolons(Before(v + ";", ' ')))
    ensures FromLine("setenv " + n, n) == GiveUp
  {
    OwnShLine(n, v);
    OwnCshLine(n, v);
    BareLine(n);
  }

  lemma OwnCshLine(n: string, v: string)
    requires IsName(n)
    ensures FromLine(Render(Csh(n, v)), n) == Found(DropSemicolons(Before(v + ";", ' ')))
  {
    RenderedIsTrimmed(Csh(n, v));
    NotAssignment(Render(Csh(n, v)), n);
    CshRest(n, v);
  }

  lemma BareLine(n: string)
    requires IsName(n)
    ensures FromLine(SETENV + n, n) == GiveUp
  {
    var bare := SETENV + n;
    NotAssignment(bare, n);
    assert bare[|bare| - 1] == n[|n| - 1] && bare[|SETENV|..] == n;
    assert ' ' !in n;
  }

  lemma OwnShLine(n: string, v: string)
    requires IsName(n)
    ensures FromLine(Render(Sh(n, v)), n) == Found(Trim(Before(v, ';')))
  {
    var l, more := Render(Sh(n, v)), " export " + n + ";";
    RenderedIsTrimmed(Sh(n, v));
    assert n + "=" <= l;
    assert l[|n| + 1..] == v + [';'] + more;
    BeforeFirst(v, ';', more);
  }

  /** A `setenv` of the variable without a value ends the search, whatever follows. */
  lemma BareSetenvStops(name: string, rest: string)
    requires IsName(name)
    ensures FromLines(Lines("setenv " + name + "\n" + rest), name) == None
  {
    var l := "setenv " + name;
    assert '\n' !in name;
    BareLine(name);
    assert IsSpace('\r') && l[|l| - 1] == name[|name| - 1];
    LineEndings(l, rest);
  }

  /** A variable's own line gives back its value exactly when its syntax can carry the value. */
  lemma RecoveredIff(e: Entry)
    requires !e.Other? && IsName(e.name)
    ensures FromLine(Render(e), e.name) == Found(e.value) <==> Carries(e)
  {
    if e.Sh? { ShLine(e.name, e.value); } else { CshLine(e.name, e.value); }
  }

  lemma ShLine(n: string, v: string)
    requires IsName(n)
    ensures FromLine(Render(Sh(n, v)), n) == Found(v) <==> ';' !in v && Trim(v) == v
  {
    var l, more := Render(Sh(n, v)), " export " + n + ";";
    RenderedIsTrimmed(Sh(n, v));
    assert n + "=" <= l;
    assert l[|n| + 1..] == v + [';'] + more;
    ShValue(v, more);
  }

  lemma CshLine(n: string, v: string)
    requires IsName(n)
    ensures FromLine(Render(Csh(n, v)), n) == Found(v) <==> ' ' !in v && (v == "" || v[|v| - 1] != ';')
  {
    RenderedIsTrimmed(Csh(n, v));
    NotAssignment(Render(Csh(n, v)), n);
    CshRest(n, v);
    CshValue(v);
  }

  lemma ShValue(v: string, more: string)
    ensures Trim(Before(v + [';'] + more, ';')) == v <==> ';' !in v && Trim(v) == v
  {
    BeforeFirst(v, ';', more);
    if ';' in v {
      var k :| 0 <= k < |v| && v[k] == ';';
      BeforeStops(v, ';', k);
    }
  }

  lemma CshValue(v: string)
    ensures DropSemicolons(Before(v + ";", ' ')) == v <==> ' ' !in v && (v == "" || v[|v| - 1] != ';')
  {
    if ' ' in v {
      var k :| 0 <= k < |v| && v[k] == ' ';
      BeforeStops(v + ";", ' ', k);
    } else {
      assert Before(v + ";", ' ') == v + ";" && (v + ";")[..|v|] == v;
    }
  }

  // ---- whole outputs ----------------------------------------------------------------------------

  lemma OneLine(l: string, rest: string)
    requires '\n' !in l
    ensures Lines(l + "\n" + rest) == [DropReturn(l)] + Lines(rest)
  {
    var text := l + ['\n'] + rest;
    BeforeFirst(l, '\n', rest);
    assert text[|l| + 1..] == rest;
  }

  /** Lines end in a line feed, with or without a carriage return; the last one may lack it. */
  lemma LineEndings(l: string, rest: string)
    requires '\n' !in l
    ensures Lines(l + "\r\n" + rest) == [l] + Lines(rest)
    ensures l == "" || l[|l| - 1] != '\r' ==> Lines(l + "\n" + rest) == [l] + Lines(rest)
    ensures l != "" ==> Lines(l) == [l]
    ensures Lines("") == []
  {
    OneLine(l, rest);
    ReturnDropped(l, rest);
    if l != "" { WholeLine(l); }
  }

  lemma ReturnDropped(l: string, rest: string)
    requires '\n' !in l
    ensures Lines(l + "\r\n" + rest) == [l] + Lines(rest)
  {
    var r := l + "\r";
    OneLine(r, rest);
    assert r + "\n" + rest == l + "\r\n" + rest;
    assert r[..|l|] == l;
  }

  lemma WholeLine(l: string)
    requires '\n' !in l && l != ""
    ensures Lines(l) == [l]
  {
    assert Before(l, '\n') == l;
  }

  lemma {:induction false} TrimStartAppend(s: string, c: char)
    requires IsSpace(c)
    ensures TrimStart(s + [c]) == if TrimStart(s) == "" then "" else TrimStart(s) + [c]
  {
    if s == "" {
      assert s + [c] == [c] && [c][1..] == "";
    } else if IsSpace(s[0]) {
      TrimStartAppend(s[1..], c);
      assert (s + [c])[1..] == s[1..] + [c];
    }
  }

  /** Losing a carriage return at its end does not change what a line contributes. */
  lemma TrimDropReturn(s: string)
    ensures Trim(DropReturn(s)) == Trim(s)
  {
    var d := DropReturn(s);
    if d != s {
      assert s == d + ['\r'];
      TrimStartAppend(d, '\r');
      var t := TrimStart(d);
      assert t != "" ==> (t + ['\r'])[..|t|] == t;
    }
  }

  lemma PassedUnlessDecisive(line: string, name: string)
    ensures FromLine(DropReturn(line), name) == Continue <==> !Decisive(line, name)
  {
    TrimDropReturn(line);
  }

  lemma EntryLine(e: Entry, name: string)
    requires IsName(name) && Printable(e, name) && (Defines(e, name) ==> Carries(e))
    ensures FromLine(DropReturn(Render(e)), name)
         == if Defines(e, name) then Found(e.value) else Continue
  {
    if e.Other? {
      PassedUnlessDecisive(e.text, name);
    } else {
      assert Render(e)[|Render(e)| - 1] == ';';
      if e.name == name { RecoveredIff(e); } else { OtherNamePassed(e, name); }
    }
  }

  /**
     In any order, in either syntax, and between lines of other kinds or other variables, the value
     found is the one rendered first for the variable; nothing is found if it was not rendered.
   */
  lemma {:induction false} FindsFirstRendered(es: seq<Entry>, name: string)
    requires IsName(name)
    requires forall k :: 0 <= k < |es| ==> Printable(es[k], name) && (Defines(es[k], name) ==> Carries(es[k]))
    ensures FromLines(Lines(RenderAll(es)), name) == FirstValue(es, name)
  {
    if es != [] {
      var e := es[0];
      assert '\n' !in Render(e);
      OneLine(Render(e), RenderAll(es[1..]));
      var lines := Lines(RenderAll(es));
      assert lines[0] == DropReturn(Render(e)) && lines[1..] == Lines(RenderAll(es[1..]));
      FindsFirstRendered(es[1..], name);
      EntryLine(e, name);
    }
  }

  /** If only one entry defines the variable, its value is found. */
  lemma FindsRendered(es: seq<Entry>, name: string, k: nat)
    requires IsName(name) && k < |es| && Defines(es[k], name) && Carries(es[k])
    requires forall i :: 0 <= i < |es| ==> Printable(es[i], name) && (Defines(es[i], name) ==> i == k)
    ensures FromLines(Lines(RenderAll(es)), name) == Some(es[k].value)
  {
    FindsFirstRendered(es, name);
    OnlyValue(es, name, k);
  }

  lemma {:induction false} OnlyValue(es: seq<Entry>, name: string, k: nat)
    requires k < |es| && Defines(es[k], name)
    requires forall i :: 0 <= i < |es| ==> (Defines(es[i], name) ==> i == k)
    ensures FirstValue(es, name) == Some(es[k].value)
  {
    if k > 0 {
      OnlyValue(es[1..], name, k - 1);
    }
  }
}
