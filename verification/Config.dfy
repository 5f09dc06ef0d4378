/** The configuration file parser: in-place cutting of a line buffer, against what it means for a line's text. */
module Config {
  import opened Chars

  const MAX_LINE_SIZE := 1024
  const MAX_SECTION_SIZE := 128
  const NUL := '\0'

  // ---------- the text functions ----------

  function TrimEnd(s: string): (r: string)
    ensures r <= s
  {
    if s != [] && IsSpace(s[|s| - 1]) then TrimEnd(s[..|s| - 1]) else s
  }

  function TrimStart(s: string): (r: string)
    ensures |r| <= |s|
  {
    if s != [] && IsSpace(s[0]) then TrimStart(s[1..]) else s
  }

  /** Position of the first c, of a ';' that follows white space, or the length. */
  function FindFrom(s: string, c: char, white: bool): (p: nat)
    ensures p <= |s|
  {
    if s == [] || s[0] == c || (white && s[0] == ';') then 0 else 1 + FindFrom(s[1..], c, IsSpace(s[0]))
  }

  function Find(s: string, c: char): (p: nat)
    ensures p <= |s|
  {
    FindFrom(s, c, false)
  }

  function CutComment(v: string): string {
    TrimEnd(v[..Find(v, NUL)])
  }

  function Truncated(s: string): string {
    if |s| < MAX_SECTION_SIZE then s else s[..MAX_SECTION_SIZE - 1]
  }

  datatype Line = Skip | NewSection(name: string) | Pair(name: string, value: string) | Malformed

  // The first '=', and only when a comment or the end comes before one, the first ':'.
  function Separator(t: string): (p: nat)
    ensures p <= |t|
  {
    var eq := Find(t, '=');
    if eq < |t| && t[eq] == '=' then eq else Find(t, ':')
  }

  function ParsePair(t: string): Line {
    var e := Separator(t);
    if e < |t| && (t[e] == '=' || t[e] == ':')
    then Pair(TrimEnd(t[..e]), CutComment(TrimStart(t[e + 1..])))
    else Malformed
  }

  function ParseTrimmed(t: string): Line {
    if t == [] || t[0] == ';' then Skip
    else if t[0] == '[' then
      var e := Find(t[1..], ']');
      if e < |t| - 1 && t[1..][e] == ']' then NewSection(Truncated(t[1..][..e])) else Malformed
    else ParsePair(t)
  }

  /** What one line of the file says. */
  function ParseLine(line: string): Line {
    ParseTrimmed(TrimStart(TrimEnd(line)))
  }

  // ---------- a whole file ----------

  datatype Call = Call(section: string, name: string, value: string)

  // A callback sees all calls up to the present one and says whether it fails.
  type Callback = seq<Call> -> bool

  datatype Parsed = Parsed(section: string, calls: seq<Call>, errorLine: nat)

  function Step(p: Parsed, line: Line, number: nat, fails: Callback): Parsed {
    match line
    case Skip => p
    case NewSection(name) => p.(section := name)
    case Pair(name, value) =>
      var calls := p.calls + [Call(p.section, name, value)];
      p.(calls := calls, errorLine := if fails(calls) && p.errorLine == 0 then number else p.errorLine)
    case Malformed => p.(errorLine := if p.errorLine == 0 then number else p.errorLine)
  }

  function Process(lines: seq<Line>, fails: Callback): Parsed {
    if lines == [] then Parsed([], [], 0)
    else Step(Process(lines[..|lines| - 1], fails), lines[|lines| - 1], |lines|, fails)
  }

  function ParseLines(lines: seq<string>): (r: seq<Line>)
    ensures |r| == |lines| && forall i :: 0 <= i < |lines| ==> r[i] == ParseLine(lines[i])
  {
    seq(|lines|, i requires 0 <= i < |lines| => ParseLine(lines[i]))
  }

  function ParseAll(lines: seq<string>, fails: Callback): Parsed {
    Process(ParseLines(lines), fails)
  }

  // A line that cannot be read, or whose callback fails.
  ghost predicate BadLine(lines: seq<Line>, fails: Callback, i: nat)
    requires i < |lines|
  {
    lines[i].Malformed? || (lines[i].Pair? && fails(Process(lines[..i + 1], fails).calls))
  }

  lemma BadInFront(lines: seq<Line>, fails: Callback, n: nat, i: nat)
    requires i < n <= |lines|
    ensures BadLine(lines[..n], fails, i) == BadLine(lines, fails, i)
  {
    assert lines[..n][..i + 1] == lines[..i + 1];
  }

  /** The result is 0 exactly when no line is malformed and no callback fails, otherwise it is the number of the first
      such line. */
  lemma {:induction false} ResultIsFirstBadLine(lines: seq<Line>, fails: Callback)
    ensures var r := Process(lines, fails).errorLine;
      && r <= |lines|
      && (r == 0 <==> forall i :: 0 <= i < |lines| ==> !BadLine(lines, fails, i))
      && (r > 0 ==> BadLine(lines, fails, r - 1) && forall i :: 0 <= i < r - 1 ==> !BadLine(lines, fails, i))
  {
    if lines != [] {
      var n := |lines| - 1;
      ResultIsFirstBadLine(lines[..n], fails);
      forall i | 0 <= i < n
        ensures BadLine(lines[..n], fails, i) == BadLine(lines, fails, i)
      {
        BadInFront(lines, fails, n, i);
      }
      assert lines[..n + 1] == lines;
      var r := Process(lines[..n], fails).errorLine;
      assert r > 0 ==> Process(lines, fails).errorLine == r;
      assert r == 0 ==> Process(lines, fails).errorLine == if BadLine(lines, fails, n) then n + 1 else 0;
    }
  }

  // ---------- trimming and searching composed text ----------

  predicate AllSpace(s: string) {
    forall i :: 0 <= i < |s| ==> IsSpace(s[i])
  }

  lemma {:induction false} TrimEndPad(s: string, pad: string)
    requires AllSpace(pad)
    ensures TrimEnd(s + pad) == TrimEnd(s)
  {
    if pad == [] {
      assert s + pad == s;
    } else {
      assert (s + pad)[..|s + pad| - 1] == s + pad[..|pad| - 1];
      TrimEndPad(s, pad[..|pad| - 1]);
    }
  }

  // A final non-space protects everything before it.
  lemma {:induction false} TrimEndKeeps(s: string, more: string)
    requires s != [] && !IsSpace(s[|s| - 1])
    ensures TrimEnd(s + more) == s + TrimEnd(more)
  {
    if more == [] {
      assert s + more == s;
    } else if IsSpace(more[|more| - 1]) {
      assert (s + more)[..|s + more| - 1] == s + more[..|more| - 1];
      TrimEndKeeps(s, more[..|more| - 1]);
    }
  }

  lemma {:induction false} TrimStartPad(pad: string, s: string)
    requires AllSpace(pad)
    ensures TrimStart(pad + s) == TrimStart(s)
  {
    if pad == [] {
      assert pad + s == s;
    } else {
      assert (pad + s)[1..] == pad[1..] + s;
      TrimStartPad(pad[1..], s);
    }
  }

  predicate NoComment(s: string) {
    forall i :: 0 < i < |s| && s[i] == ';' ==> !IsSpace(s[i - 1])
  }

  lemma {:induction false} FindClear(s: string, c: char, white: bool)
    requires NoComment(s) && c !in s && (white && s != [] ==> s[0] != ';')
    ensures FindFrom(s, c, white) == |s|
  {
    if s != [] {
      FindClear(s[1..], c, IsSpace(s[0]));
    }
  }

  lemma {:induction false} FindPast(s: string, more: string, c: char, white: bool)
    requires FindFrom(s, c, white) == |s|
    ensures FindFrom(s + more, c, white) ==
      |s| + FindFrom(more, c, if s == [] then white else IsSpace(s[|s| - 1]))
  {
    if s == [] {
      assert s + more == more;
    } else {
      assert (s + more)[1..] == s[1..] + more;
      FindPast(s[1..], more, c, IsSpace(s[0]));
    }
  }

  lemma {:induction false} FindWithin(s: string, more: string, c: char, white: bool)
    requires FindFrom(s, c, white) < |s|
    ensures FindFrom(s + more, c, white) == FindFrom(s, c, white)
  {
    assert (s + more)[1..] == s[1..] + more;
    if s[0] != c && !(white && s[0] == ';') {
      FindWithin(s[1..], more, c, IsSpace(s[0]));
    }
  }

  predicate Trimmed(s: string) {
    s == [] || (!IsSpace(s[0]) && !IsSpace(s[|s| - 1]))
  }

  lemma TrimmedIsFixed(s: string)
    requires Trimmed(s)
    ensures TrimEnd(s) == s && TrimStart(s) == s
  {
  }

  lemma StartFixed(s: string)
    requires s != [] && !IsSpace(s[0])
    ensures TrimStart(s) == s
  {
  }

  lemma Regroup(a: string, b: string, c: string)
    ensures a + b + c == a + (b + c)
  {
  }

  // A head that starts and ends with non-space, between padding and anything else.
  lemma PaddedHead(line: string, pad: string, head: string, rest: string)
    requires line == pad + head + rest && AllSpace(pad)
    requires head != [] && !IsSpace(head[0]) && !IsSpace(head[|head| - 1])
    ensures TrimStart(TrimEnd(line)) == head + TrimEnd(rest)
  {
    var t := head + TrimEnd(rest);
    TrimEndKeeps(pad + head, rest);
    Regroup(pad, head, TrimEnd(rest));
    TrimStartPad(pad, t);
    assert t[0] == head[0];
    StartFixed(t);
  }

  // ---------- comments at the end of a line ----------

  // White space, a semicolon and anything.
  predicate IsTail(tail: string, n: nat) {
    0 < n < |tail| && tail[n] == ';' && forall i :: 0 <= i < n ==> IsSpace(tail[i])
  }

  lemma {:induction false} TailStops(tail: string, n: nat, c: char, white: bool)
    requires !IsSpace(c) && (IsTail(tail, n) || (n == 0 && white && tail != [] && tail[0] == ';'))
    ensures FindFrom(tail, c, white) == n
  {
    if n > 0 {
      TailStops(tail[1..], n - 1, c, true);
    }
  }

  // A search stops in s, or else at the semicolon of the tail.
  lemma FindWithTail(s: string, tail: string, n: nat, c: char)
    requires IsTail(tail, n) && !IsSpace(c)
    ensures Find(s + tail, c) == if Find(s, c) < |s| then Find(s, c) else |s| + n
    ensures Find(s, c) == |s| ==> (s + tail)[Find(s + tail, c)] == ';'
  {
    if Find(s, c) < |s| {
      FindWithin(s, tail, c, false);
    } else {
      FindPast(s, tail, c, false);
      TailStops(tail, n, c, if s == [] then false else IsSpace(s[|s| - 1]));
    }
  }

  lemma SectionWithTail(core: string, tail: string, n: nat)
    requires core != [] && core[0] == '[' && IsTail(tail, n)
    ensures ParseTrimmed(core + tail) == ParseTrimmed(core)
  {
    var inner := core[1..];
    assert (core + tail)[1..] == inner + tail;
    FindWithTail(inner, tail, n, ']');
    var e := Find(inner, ']');
    assert e < |inner| ==> (inner + tail)[..e] == inner[..e];
  }

  predicate Separates(t: string, e: nat) {
    e < |t| && (t[e] == '=' || t[e] == ':')
  }

  lemma SeparatorWithTail(core: string, tail: string, n: nat)
    requires IsTail(tail, n)
    ensures Separates(core + tail, Separator(core + tail)) <==> Separates(core, Separator(core))
    ensures Separates(core, Separator(core)) ==> Separator(core + tail) == Separator(core)
  {
    FindWithTail(core, tail, n, '=');
    FindWithTail(core, tail, n, ':');
  }

  lemma CutAt(v: string, n: nat, kept: string)
    requires n <= |v| && Find(v, NUL) == n && v[..n] == kept
    ensures CutComment(v) == TrimEnd(kept)
  {
  }

  // A value that starts with something else than white space keeps its meaning, and is not empty.
  lemma ValueWithTail(v: string, tail: string, n: nat)
    requires v != [] && !IsSpace(v[0]) && v[0] != NUL && IsTail(tail, n)
    ensures CutComment(v + tail) == CutComment(v) != []
  {
    var e := Find(v, NUL);
    FindWithTail(v, tail, n, NUL);
    CutAt(v, e, v[..e]);
    assert e > 0 && v[..e] == [v[0]] + v[1..e];
    TrimEndKeeps([v[0]], v[1..e]);
    if e < |v| {
      CutAt(v + tail, e, v[..e]);
    } else {
      CutAt(v + tail, |v| + n, v + tail[..n]);
      TrimEndPad(v, tail[..n]);
      assert v[..e] == v;
    }
  }

  // With nothing before it, the comment is the value.
  lemma CommentAsValue(tail: string, n: nat)
    requires IsTail(tail, n)
    ensures CutComment(TrimStart(tail)) != []
  {
    var v := tail[n..];
    assert tail == tail[..n] + v;
    TrimStartPad(tail[..n], v);
    StartFixed(v);
    var e := Find(v, NUL);
    CutAt(v, e, v[..e]);
    assert v[..e] == [v[0]] + v[1..e];
    TrimEndKeeps([v[0]], v[1..e]);
  }

  lemma RestWithTail(rest: string, tail: string, n: nat)
    requires IsTail(tail, n) && NUL !in rest && (rest != [] ==> !IsSpace(rest[|rest| - 1]))
    ensures rest != [] ==> CutComment(TrimStart(rest + tail)) == CutComment(TrimStart(rest)) != []
    ensures rest == [] ==> CutComment(TrimStart(rest)) == [] != CutComment(TrimStart(rest + tail))
  {
    if rest == [] {
      assert rest + tail == tail;
      CommentAsValue(tail, n);
    } else {
      var pad, v := SplitStart(rest);
      TrimStartPad(pad, v);
      TrimStartPad(pad, v + tail);
      StartFixed(v);
      StartFixed(v + tail);
      Regroup(pad, v, tail);
      assert v[0] in rest;
      ValueWithTail(v, tail, n);
    }
  }

  // Text that is not all white space: the leading white space and the rest.
  lemma {:induction false} SplitStart(s: string) returns (pad: string, v: string)
    requires s != [] && !IsSpace(s[|s| - 1])
    ensures s == pad + v && AllSpace(pad) && v != [] && !IsSpace(v[0]) && v[|v| - 1] == s[|s| - 1]
  {
    if IsSpace(s[0]) {
      pad, v := SplitStart(s[1..]);
      pad := [s[0]] + pad;
    } else {
      pad, v := [], s;
    }
  }

  lemma {:induction false} SplitEnd(s: string) returns (v: string, pad: string)
    ensures s == v + pad && AllSpace(pad) && (v != [] ==> !IsSpace(v[|v| - 1]))
  {
    if s != [] && IsSpace(s[|s| - 1]) {
      v, pad := SplitEnd(s[..|s| - 1]);
      pad := pad + [s[|s| - 1]];
    } else {
      v, pad := s, [];
    }
  }

  lemma NoiseParses(pad: string, text: string)
    requires AllSpace(pad)
    ensures ParseLine(pad) == Skip && ParseLine(pad + ";" + text) == Skip
  {
    TrimEndPad([], pad);
    assert [] + pad == pad;
    PaddedHead(pad + ";" + text, pad, ";", text);
  }

  predicate EmptyPair(l: Line) {
    l.Pair? && l.value == []
  }

  lemma PairWithTail(core: string, tail: string, n: nat)
    requires core != [] && Trimmed(core) && NUL !in core && IsTail(tail, n)
    ensures ParsePair(core + tail) == ParsePair(core) <==> !EmptyPair(ParsePair(core))
  {
    var t, e := core + tail, Separator(core);
    SeparatorWithTail(core, tail, n);
    if Separates(core, e) {
      var rest := core[e + 1..];
      assert t[..e] == core[..e] && t[e + 1..] == rest + tail;
      assert NUL !in rest;
      RestWithTail(rest, tail, n);
    }
  }

  /** The separator is the last character. */
  predicate EndsAtSeparator(t: string) {
    t != [] && t[0] != ';' && t[0] != '[' && Separator(t) == |t| - 1 && Separates(t, |t| - 1)
  }

  lemma CoreIsEmptyPair(core: string)
    requires core != [] && Trimmed(core) && NUL !in core
    ensures EmptyPair(ParseTrimmed(core)) <==> EndsAtSeparator(core)
  {
    var e := Separator(core);
    if core[0] != ';' && core[0] != '[' && Separates(core, e) {
      var rest := core[e + 1..];
      assert NUL !in rest;
      RestWithTail(rest, " ;", 1);
    }
  }

  lemma CoreWithTail(core: string, tail: string, n: nat)
    requires core != [] && Trimmed(core) && NUL !in core && IsTail(tail, n)
    ensures ParseTrimmed(core + tail) == ParseTrimmed(core) <==> !EmptyPair(ParseTrimmed(core))
  {
    assert (core + tail)[0] == core[0];
    if core[0] == '[' {
      SectionWithTail(core, tail, n);
    } else {
      PairWithTail(core, tail, n);
    }
  }

  lemma TailTrimmed(after: string, pad: string, text: string) returns (tail: string)
    requires AllSpace(after) && AllSpace(pad) && pad != []
    ensures tail == TrimEnd(after + pad + ";" + text) && IsTail(tail, |after + pad|)
  {
    var front := after + pad + ";";
    TrimEndKeeps(front, text);
    tail := front + TrimEnd(text);
  }

  lemma CoreParses(line: string, lead: string, core: string, rest: string)
    requires line == lead + core + rest && AllSpace(lead) && core != [] && Trimmed(core)
    ensures ParseLine(line) == ParseTrimmed(core + TrimEnd(rest))
    ensures AllSpace(rest) ==> ParseLine(line) == ParseTrimmed(core)
  {
    PaddedHead(line, lead, core, rest);
    if AllSpace(rest) {
      TrimEndPad([], rest);
      assert [] + rest == rest && core + [] == core;
    }
  }

  lemma Regroup5(lead: string, core: string, after: string, pad: string, text: string)
    ensures lead + core + after + pad + ";" + text == lead + core + (after + pad + ";" + text)
  {
  }

  /** An entry's value is empty exactly when the trimmed line ends at its separator. */
  lemma EmptyPairGuard(line: string)
    requires NUL !in line
    ensures EmptyPair(ParseLine(line)) <==> EndsAtSeparator(TrimStart(TrimEnd(line)))
  {
    var body, after := SplitEnd(line);
    TrimEndPad([], after);
    assert [] + after == after;
    if body != [] {
      var lead, core := SplitStart(body);
      NulFree(line, lead, core, after);
      PaddedHead(line, lead, core, after);
      assert core + [] == core;
      CoreIsEmptyPair(core);
    }
  }

  /** The shortest such line: its comment becomes its value. */
  lemma CommentBecomesValue()
    ensures ParseLine("a=") == Pair("a", "") && ParseLine("a= ;x") == Pair("a", ";x")
  {
    assert TrimEnd("a=") == "a=" && TrimEnd("a= ;x") == "a= ;x";
    SeparatorAt("a=", "a", '=', "");
    SeparatorAt("a= ;x", "a", '=', " ;x");
    PairAt("a=", "a", "");
    PairAt("a= ;x", "a", " ;x");
    assert " ;x"[1..] == ";x";
    assert TrimStart(" ;x") == ";x";
    FindClear(";x", NUL, false);
    CutAt(";x", 2, ";x");
    TrimmedIsFixed(";x");
    TrimmedIsFixed("a");
  }

  /** On any line, a comment after white space is dropped exactly when the line is not an entry with an empty value. */
  lemma TrailingCommentDropped(line: string, pad: string, text: string)
    requires NUL !in line && AllSpace(pad) && pad != []
    ensures ParseLine(line + pad + ";" + text) == ParseLine(line) <==> !EmptyPair(ParseLine(line))
    ensures ParseLine(line + pad + ";" + text) == ParseLine(line) <==> !EndsAtSeparator(TrimStart(TrimEnd(line)))
  {
    EmptyPairGuard(line);
    var body, after := SplitEnd(line);
    if body == [] {
      assert line == after;
      NoiseParses(line, []);
      NoiseParses(line + pad, text);
    } else {
      var lead, core := SplitStart(body);
      var tail := TailTrimmed(after, pad, text);
      Regroup5(lead, core, after, pad, text);
      CoreParses(line, lead, core, after);
      CoreParses(line + pad + ";" + text, lead, core, after + pad + ";" + text);
      NulFree(line, lead, core, after);
      CoreWithTail(core, tail, |after + pad|);
    }
  }

  lemma NulFree(line: string, lead: string, core: string, after: string)
    requires line == lead + core + after && NUL !in line
    ensures NUL !in core
  {
    assert forall i :: 0 <= i < |core| ==> core[i] == line[|lead| + i];
  }

  // ---------- the ways to write a line ----------

  // What the parser can read back: no cutting characters, no comment inside, no surrounding white space.
  predicate GoodSection(name: string) {
    |name| < MAX_SECTION_SIZE && ']' !in name && NUL !in name && NoComment(name)
  }

  predicate GoodName(name: string) {
    && Trimmed(name) && NoComment(name) && '=' !in name && NUL !in name
    && (name != [] ==> name[0] != ';' && name[0] != '[')
  }

  predicate GoodValue(value: string) {
    Trimmed(value) && NoComment(value) && NUL !in value
  }

  datatype Form =
    | Blank(pad: string)
    | Comment(pad: string, text: string)
    | SectionLine(pad: string, name: string, rest: string)
    | EntryLine(pad: string, name: string, before: string, sep: char, gap: string, value: string, after: string)
    | CommentedEntry(pad: string, name: string, before: string, sep: char, gap: string, value: string, after: string,
                     text: string)

  function Text(f: Form): string
    decreases f.CommentedEntry?
  {
    match f
    case Blank(pad) => pad
    case Comment(pad, text) => pad + ";" + text
    case SectionLine(pad, name, rest) => pad + ("[" + name + "]") + rest
    case EntryLine(pad, name, before, sep, gap, value, after) => pad + (name + before + [sep]) + (gap + value + after)
    case CommentedEntry(pad, name, before, sep, gap, value, after, text) =>
      Text(EntryLine(pad, name, before, sep, gap, value, "")) + after + ";" + text
  }

  // Pads are white space; a trailing comment needs white space before it and a value that is not empty.
  predicate GoodForm(f: Form) {
    && AllSpace(f.pad)
    && match f
       case Blank(_) => true
       case Comment(_, _) => true
       case SectionLine(_, name, _) => GoodSection(name)
       case EntryLine(_, name, before, sep, gap, value, after) =>
         GoodEntry(name, before, sep, gap, value) && AllSpace(after)
       case CommentedEntry(_, name, before, sep, gap, value, after, _) =>
         GoodEntry(name, before, sep, gap, value) && AllSpace(after) && after != [] && value != []
  }

  // After a ':' there must be no '=' that would separate instead.
  predicate GoodEntry(name: string, before: string, sep: char, gap: string, value: string) {
    && GoodName(name) && GoodValue(value) && AllSpace(before) && AllSpace(gap) && (name == [] ==> before == [])
    && (sep == '=' || (sep == ':' && ':' !in name && '=' !in value))
  }

  function Meaning(f: Form): Line {
    match f
    case Blank(_) => Skip
    case Comment(_, _) => Skip
    case SectionLine(_, name, _) => NewSection(name)
    case EntryLine(_, name, _, _, _, value, _) => Pair(name, value)
    case CommentedEntry(_, name, _, _, _, value, _, _) => Pair(name, value)
  }

  // The first c of a text that is clear of it up to there.
  lemma FindAt(t: string, head: string, c: char, more: string)
    requires t == head + [c] + more && NoComment(head) && c !in head
    ensures Find(t, c) == |head| < |t| && t[|head|] == c && t[..|head|] == head && t[|head| + 1..] == more
  {
    FindClear(head, c, false);
    FindPast(head, [c] + more, c, false);
    Regroup(head, [c], more);
  }

  lemma SectionAt(t: string, name: string)
    requires t != [] && t[0] == '[' && |name| < |t| - 1 && |name| < MAX_SECTION_SIZE
    requires Find(t[1..], ']') == |name| && t[1..][|name|] == ']' && t[1..][..|name|] == name
    ensures ParseTrimmed(t) == NewSection(name)
  {
  }

  lemma SectionParses(line: string, pad: string, name: string, rest: string)
    requires line == pad + ("[" + name + "]") + rest && AllSpace(pad) && GoodSection(name)
    ensures ParseLine(line) == NewSection(name)
  {
    var head, more := "[" + name + "]", TrimEnd(rest);
    PaddedHead(line, pad, head, rest);
    var t := head + more;
    assert t[1..] == name + [']'] + more;
    FindAt(t[1..], name, ']', more);
    SectionAt(t, name);
  }

  lemma SeparatorAt(t: string, front: string, sep: char, more: string)
    requires t == front + [sep] + more && NoComment(front) && '=' !in front
    requires sep == '=' || (sep == ':' && ':' !in front && '=' !in more)
    ensures Separator(t) == |front| < |t| && t[|front|] == sep && t[..|front|] == front && t[|front| + 1..] == more
  {
    FindAt(t, front, sep, more);
    if sep == ':' {
      assert '=' !in t;
      assert Find(t, '=') < |t| ==> t[Find(t, '=')] in t;
    }
  }

  lemma PairAt(t: string, front: string, rest: string)
    requires |front| < |t| && Separator(t) == |front| && Separates(t, |front|)
    requires t[..|front|] == front && t[|front| + 1..] == rest
    requires t[0] != ';' && t[0] != '['
    ensures ParseTrimmed(t) == Pair(TrimEnd(front), CutComment(TrimStart(rest)))
  {
  }

  lemma NoneInPart(s: string, c: char)
    requires c !in s
    ensures c !in TrimEnd(s)
  {
  }

  // A name, a separator and anything make a pair.
  lemma EntryParses(line: string, pad: string, name: string, before: string, sep: char, rest: string)
    requires line == pad + (name + before + [sep]) + rest && AllSpace(pad)
    requires GoodName(name) && AllSpace(before) && (name == [] ==> before == [])
    requires sep == '=' || (sep == ':' && ':' !in name && '=' !in rest)
    ensures ParseLine(line) == Pair(name, CutComment(TrimStart(TrimEnd(rest))))
  {
    var front := name + before;
    assert (front + [sep])[0] == if name == [] then sep else name[0];
    PaddedHead(line, pad, front + [sep], rest);
    var t := TrimStart(TrimEnd(line));
    assert t[0] == (front + [sep])[0];
    if sep == ':' {
      NoneInPart(rest, '=');
    }
    SeparatorAt(t, front, sep, TrimEnd(rest));
    PairAt(t, front, TrimEnd(rest));
    TrimEndPad(name, before);
    TrimmedIsFixed(name);
  }

  lemma CutKeeps(value: string)
    requires GoodValue(value)
    ensures CutComment(value) == value
  {
    FindClear(value, NUL, false);
    TrimmedIsFixed(value);
    assert value[..|value|] == value;
  }

  // What stands after the separator, without a comment.
  lemma PlainTail(gap: string, value: string, after: string)
    requires GoodValue(value) && AllSpace(gap) && AllSpace(after)
    ensures CutComment(TrimStart(TrimEnd(gap + value + after))) == value
  {
    CutKeeps(value);
    if value == [] {
      assert gap + value + after == [] + (gap + after);
      TrimEndPad([], gap + after);
    } else {
      PaddedHead(gap + value + after, gap, value, after);
      TrimEndPad([], after);
      assert [] + after == after;
      assert value + [] == value;
    }
  }

  /** Every good way of writing a line is read back as what it means. */
  lemma {:induction false} FormParses(f: Form)
    requires GoodForm(f)
    ensures ParseLine(Text(f)) == Meaning(f)
    decreases f.CommentedEntry?
  {
    match f
    case Blank(pad) => NoiseParses(pad, []);
    case Comment(pad, text) => NoiseParses(pad, text);
    case SectionLine(pad, name, rest) => SectionParses(Text(f), pad, name, rest);
    case EntryLine(pad, name, before, sep, gap, value, after) =>
      EntryParses(Text(f), pad, name, before, sep, gap + value + after);
      PlainTail(gap, value, after);
    case CommentedEntry(pad, name, before, sep, gap, value, after, text) =>
      var plain := EntryLine(pad, name, before, sep, gap, value, "");
      FormParses(plain);
      EntryTextClear(plain);
      TrailingCommentDropped(Text(plain), after, text);
  }

  lemma EntryTextClear(f: Form)
    requires GoodForm(f) && f.EntryLine?
    ensures NUL !in Text(f)
  {
  }

  // ---------- documents ----------

  /** The calls a document stands for; noise makes none. */
  function Expected(doc: seq<Form>): (string, seq<Call>) {
    if doc == [] then ([], [])
    else
      var (section, calls) := Expected(doc[..|doc| - 1]);
      match Meaning(doc[|doc| - 1])
      case NewSection(name) => (name, calls)
      case Pair(name, value) => (section, calls + [Call(section, name, value)])
      case _ => (section, calls)
  }

  function Texts(doc: seq<Form>): (lines: seq<string>)
    ensures |lines| == |doc| && forall i :: 0 <= i < |doc| ==> lines[i] == Text(doc[i])
  {
    seq(|doc|, i requires 0 <= i < |doc| => Text(doc[i]))
  }

  predicate IsNoise(f: Form) {
    f.Blank? || f.Comment?
  }

  // The document as it would be without noise, padding and comments.
  function Canonical(f: Form): Form {
    match f
    case SectionLine(_, name, _) => SectionLine([], name, [])
    case EntryLine(_, name, _, sep, _, value, _) => EntryLine([], name, [], sep, [], value, [])
    case CommentedEntry(_, name, _, sep, _, value, _, _) => EntryLine([], name, [], sep, [], value, [])
    case _ => f
  }

  function Stripped(doc: seq<Form>): seq<Form> {
    if doc == [] then []
    else Stripped(doc[..|doc| - 1]) + if IsNoise(doc[|doc| - 1]) then [] else [Canonical(doc[|doc| - 1])]
  }

  function Meanings(doc: seq<Form>): (ls: seq<Line>)
    ensures |ls| == |doc| && forall i :: 0 <= i < |doc| ==> ls[i] == Meaning(doc[i])
  {
    seq(|doc|, i requires 0 <= i < |doc| => Meaning(doc[i]))
  }

  lemma {:induction false} MeaningsMakeCalls(doc: seq<Form>, fails: Callback)
    ensures var p := Process(Meanings(doc), fails);
      && (p.section, p.calls) == Expected(doc)
      && ((forall cs :: !fails(cs)) ==> p.errorLine == 0)
  {
    if doc != [] {
      var n := |doc| - 1;
      MeaningsMakeCalls(doc[..n], fails);
      assert Meanings(doc)[..n] == Meanings(doc[..n]);
    }
  }

  /** Parsing the text of a document makes exactly its calls, in order, and returns 0 unless a callback fails. */
  lemma DocumentRoundTrip(doc: seq<Form>, fails: Callback)
    requires forall i :: 0 <= i < |doc| ==> GoodForm(doc[i])
    ensures var p := ParseAll(Texts(doc), fails);
      && (p.section, p.calls) == Expected(doc)
      && ((forall cs :: !fails(cs)) ==> p.errorLine == 0)
  {
    forall i | 0 <= i < |doc|
      ensures ParseLines(Texts(doc))[i] == Meanings(doc)[i]
    {
      FormParses(doc[i]);
    }
    assert ParseLines(Texts(doc)) == Meanings(doc);
    MeaningsMakeCalls(doc, fails);
  }

  lemma {:induction false} StrippedMeansTheSame(doc: seq<Form>)
    ensures Expected(doc) == Expected(Stripped(doc))
  {
    if doc != [] {
      var n := |doc| - 1;
      StrippedMeansTheSame(doc[..n]);
      var front := Stripped(doc[..n]);
      if IsNoise(doc[n]) {
        assert front + [] == front;
      } else {
        ExpectedNext(front, Canonical(doc[n]));
      }
    }
  }

  lemma ExpectedNext(front: seq<Form>, f: Form)
    ensures var (section, calls) := Expected(front);
      Expected(front + [f]) ==
        match Meaning(f)
        case NewSection(name) => (name, calls)
        case Pair(name, value) => (section, calls + [Call(section, name, value)])
        case _ => (section, calls)
  {
    assert (front + [f])[..|front|] == front;
  }

  lemma {:induction false} StrippedIsGood(doc: seq<Form>)
    requires forall i :: 0 <= i < |doc| ==> GoodForm(doc[i])
    ensures forall i :: 0 <= i < |Stripped(doc)| ==> GoodForm(Stripped(doc)[i])
  {
    if doc != [] {
      StrippedIsGood(doc[..|doc| - 1]);
    }
  }

  /** Blank lines, comment lines, padding and trailing comments change no callback. */
  lemma NoiseChangesNothing(doc: seq<Form>, fails: Callback)
    requires forall i :: 0 <= i < |doc| ==> GoodForm(doc[i])
    ensures ParseAll(Texts(doc), fails).calls == ParseAll(Texts(Stripped(doc)), fails).calls
  {
    DocumentRoundTrip(doc, fails);
    StrippedIsGood(doc);
    DocumentRoundTrip(Stripped(doc), fails);
    StrippedMeansTheSame(doc);
  }

  // ---------- noise in any file ----------

  predicate AddsOneSkip(p: Parsed, q: Parsed, at: nat) {
    q == p.(errorLine := if p.errorLine <= at then p.errorLine else p.errorLine + 1)
  }

  lemma {:induction false} SkipInserted(a: seq<Line>, b: seq<Line>, fails: Callback)
    ensures AddsOneSkip(Process(a + b, fails), Process(a + [Skip] + b, fails), |a|)
  {
    ResultIsFirstBadLine(a + b, fails);
    var n := |b| - 1;
    if b == [] {
      assert a + b == a && a + [Skip] + b == a + [Skip] && (a + [Skip])[..|a|] == a;
    } else {
      assert (a + b)[..|a + b| - 1] == a + b[..n];
      assert (a + [Skip] + b)[..|a| + 1 + n] == a + [Skip] + b[..n];
      SkipInserted(a, b[..n], fails);
      ResultIsFirstBadLine(a + b[..n], fails);
    }
  }

  /** In any file, even a malformed one, one more blank or comment line anywhere changes no callback and moves the
      reported line by one at most. */
  lemma NoiseLineInserted(a: seq<string>, b: seq<string>, noise: Form, fails: Callback)
    requires IsNoise(noise) && GoodForm(noise)
    ensures AddsOneSkip(ParseAll(a + b, fails), ParseAll(a + [Text(noise)] + b, fails), |a|)
  {
    FormParses(noise);
    ParseLinesConcat(a, b);
    ParseLinesAround(a, Text(noise), b);
    SkipInserted(ParseLines(a), ParseLines(b), fails);
  }

  /** In any file, a comment may be put after white space behind any line that is not an entry with an empty value. */
  lemma CommentAppended(lines: seq<string>, i: nat, pad: string, text: string, fails: Callback)
    requires i < |lines| && NUL !in lines[i] && AllSpace(pad) && pad != []
    requires !EmptyPair(ParseLine(lines[i]))
    ensures ParseAll(lines[i := lines[i] + pad + ";" + text], fails) == ParseAll(lines, fails)
  {
    TrailingCommentDropped(lines[i], pad, text);
    assert ParseLines(lines[i := lines[i] + pad + ";" + text]) == ParseLines(lines);
  }

  lemma ParseLinesConcat(a: seq<string>, b: seq<string>)
    ensures ParseLines(a + b) == ParseLines(a) + ParseLines(b)
  {
  }

  lemma ParseLinesAround(a: seq<string>, x: string, b: seq<string>)
    ensures ParseLines(a + [x] + b) == ParseLines(a) + [ParseLine(x)] + ParseLines(b)
  {
    ParseLinesConcat(a, [x]);
    ParseLinesConcat(a + [x], b);
    assert ParseLines([x]) == [ParseLine(x)];
  }

  // ---------- the characters of a file ----------

  /** The C string that starts at s: everything before the first NUL. */
  function CText(s: string): (r: string)
    ensures r <= s && NUL !in r && (|r| < |s| ==> s[|r|] == NUL)
  {
    if s == [] || s[0] == NUL then [] else [s[0]] + CText(s[1..])
  }

  /** How much one call of fgets reads: up to a line feed, the end of the file, or limit characters. */
  function ChunkEnd(s: string, limit: nat): (n: nat)
    ensures n <= |s| && n <= limit && (s != [] && limit > 0 ==> n > 0)
    decreases |s|
  {
    if s == [] || limit == 0 then 0 else if s[0] == '\n' then 1 else 1 + ChunkEnd(s[1..], limit - 1)
  }

  /** The lines as the parser sees them: a long one in pieces, each cut at its first NUL. */
  function FileLines(file: string): seq<string>
    decreases |file|
  {
    if file == [] then []
    else
      var n := ChunkEnd(file, MAX_LINE_SIZE - 1);
      [CText(file[..n])] + FileLines(file[n..])
  }

  function Print(lines: seq<string>): string {
    if lines == [] then [] else (lines[0] + "\n") + Print(lines[1..])
  }

  // A line that fits the buffer with its line feed.
  predicate FitsBuffer(line: string) {
    |line| < 1023 && '\n' !in line && NUL !in line
  }

  lemma {:induction false} ChunkOfLine(line: string, rest: string, limit: nat)
    requires |line| < limit && '\n' !in line
    ensures ChunkEnd(line + "\n" + rest, limit) == |line| + 1
  {
    var s := line + "\n" + rest;
    if line == [] {
      assert s[0] == '\n';
    } else {
      assert s[0] == line[0] && s[1..] == line[1..] + "\n" + rest;
      ChunkOfLine(line[1..], rest, limit - 1);
    }
  }

  lemma {:induction false} ChunkFull(piece: string, rest: string)
    requires '\n' !in piece
    ensures ChunkEnd(piece + rest, |piece|) == |piece|
  {
    if piece != [] {
      assert (piece + rest)[0] == piece[0] && (piece + rest)[1..] == piece[1..] + rest;
      ChunkFull(piece[1..], rest);
    }
  }

  /** A line longer than the buffer is read in pieces of 1023 characters. */
  lemma LongLineInPieces(piece: string, rest: string)
    requires |piece| == 1023 && '\n' !in piece && NUL !in piece
    ensures FileLines(piece + rest) == [piece] + FileLines(rest)
  {
    ChunkFull(piece, rest);
    assert (piece + rest)[..1023] == piece && (piece + rest)[1023..] == rest;
    CTextWhole(piece);
  }

  lemma {:induction false} CTextWhole(s: string)
    requires NUL !in s
    ensures CText(s) == s
  {
    if s != [] {
      CTextWhole(s[1..]);
    }
  }

  lemma FirstLineOfFile(line: string, rest: string)
    requires FitsBuffer(line)
    ensures FileLines(line + "\n" + rest) == [line + "\n"] + FileLines(rest)
  {
    var file := line + "\n" + rest;
    ChunkOfLine(line, rest, MAX_LINE_SIZE - 1);
    assert file[..|line| + 1] == line + "\n" && file[|line| + 1..] == rest;
    CTextWhole(line + "\n");
  }

  lemma LineFeedIgnored(line: string)
    ensures ParseLine(line + "\n") == ParseLine(line)
  {
    TrimEndPad(line, "\n");
  }

  /** Lines written one after the other, each with a line feed, are read as those lines. */
  lemma {:induction false} PrintedLines(lines: seq<string>)
    requires forall i :: 0 <= i < |lines| ==> FitsBuffer(lines[i])
    ensures ParseLines(FileLines(Print(lines))) == ParseLines(lines)
  {
    if lines != [] {
      FirstLineOfFile(lines[0], Print(lines[1..]));
      LineFeedIgnored(lines[0]);
      PrintedLines(lines[1..]);
      ParseLinesConcat([lines[0] + "\n"], FileLines(Print(lines[1..])));
      ParseLinesConcat([lines[0]], lines[1..]);
      assert lines == [lines[0]] + lines[1..];
      assert ParseLines([lines[0] + "\n"]) == ParseLines([lines[0]]);
    }
  }

  /** A document written to a file and read back makes exactly its calls, in order. */
  lemma FileRoundTrip(doc: seq<Form>, fails: Callback)
    requires forall i :: 0 <= i < |doc| ==> GoodForm(doc[i]) && FitsBuffer(Text(doc[i]))
    ensures var p := ParseAll(FileLines(Print(Texts(doc))), fails);
      && (p.section, p.calls) == Expected(doc)
      && ((forall cs :: !fails(cs)) ==> p.errorLine == 0)
  {
    PrintedLines(Texts(doc));
    DocumentRoundTrip(doc, fails);
  }
}
