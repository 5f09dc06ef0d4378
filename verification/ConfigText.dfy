/** What a line of a configuration file means, told by the characters that stand in it. */
module ConfigText {
  import opened Chars
  import opened Config

  /** A comment begins at a ';' that follows white space. */
  predicate CommentStarts(t: string, i: nat) {
    0 < i < |t| && t[i] == ';' && IsSpace(t[i - 1])
  }

  /** c stands at p for the first time, and no comment begins before. */
  predicate Stands(t: string, c: char, p: nat) {
    p < |t| && t[p] == c && forall i :: 0 <= i < p ==> t[i] != c && !CommentStarts(t, i)
  }

  ghost predicate Occurs(t: string, c: char) {
    exists p: nat :: Stands(t, c, p)
  }

  /** line is t between white space. */
  predicate Around(line: string, lead: string, t: string, trail: string) {
    line == lead + t + trail && AllSpace(lead) && AllSpace(trail) && Trimmed(t)
  }

  // ---------- searching ----------

  predicate Stop(s: string, c: char, white: bool, i: nat)
    requires i < |s|
  {
    s[i] == c || (s[i] == ';' && if i == 0 then white else IsSpace(s[i - 1]))
  }

  lemma {:induction false} FindFromMeaning(s: string, c: char, white: bool)
    ensures var p := FindFrom(s, c, white);
      (forall i :: 0 <= i < p ==> !Stop(s, c, white, i)) && (p < |s| ==> Stop(s, c, white, p))
  {
    if s != [] && !Stop(s, c, white, 0) {
      var rest, space := s[1..], IsSpace(s[0]);
      FindFromMeaning(rest, c, space);
      forall i | 0 < i < |s|
        ensures Stop(s, c, white, i) == Stop(rest, c, space, i - 1)
      {
      }
    }
  }

  /** The search stops where the character stands, or where a comment begins, or at the end. */
  lemma FindMeaning(t: string, c: char)
    ensures var p := Find(t, c);
      && (forall i :: 0 <= i < p ==> t[i] != c && !CommentStarts(t, i))
      && (p < |t| ==> t[p] == c || CommentStarts(t, p))
  {
    FindFromMeaning(t, c, false);
    var p := Find(t, c);
    forall i | 0 <= i < |t|
      ensures Stop(t, c, false, i) <==> t[i] == c || CommentStarts(t, i)
    {
    }
  }

  lemma FindStands(t: string, c: char)
    requires c != ';'
    ensures Occurs(t, c) <==> Find(t, c) < |t| && t[Find(t, c)] == c
    ensures forall p: nat :: Stands(t, c, p) ==> Find(t, c) == p
  {
    FindMeaning(t, c);
    if Find(t, c) < |t| && t[Find(t, c)] == c {
      assert Stands(t, c, Find(t, c));
    }
  }

  // ---------- the kind of a line ----------

  lemma TrimmedPart(line: string, lead: string, t: string, trail: string)
    requires Around(line, lead, t, trail)
    ensures ParseLine(line) == ParseTrimmed(t)
  {
    if t == [] {
      assert line == [] + (lead + trail);
      TrimEndPad([], lead + trail);
    } else {
      CoreParses(line, lead, t, trail);
    }
  }

  /** Every line is something trimmed between white space. */
  lemma EveryLineTrimmed(line: string) returns (lead: string, t: string, trail: string)
    ensures Around(line, lead, t, trail)
  {
    t, trail := SplitEnd(line);
    lead := [];
    if t != [] {
      lead, t := SplitStart(t);
    }
  }

  /** A line is malformed exactly when it is neither empty nor a comment, and then is a section without its bracket, or
      has neither an equals sign nor a colon, before any comment. */
  lemma MalformedExactly(line: string, lead: string, t: string, trail: string)
    requires Around(line, lead, t, trail)
    ensures ParseLine(line) == Malformed <==>
      && t != [] && t[0] != ';'
      && if t[0] == '[' then !Occurs(t[1..], ']') else !Occurs(t, '=') && !Occurs(t, ':')
  {
    TrimmedPart(line, lead, t, trail);
    FindStands(t, '=');
    FindStands(t, ':');
    FindMeaning(t, ':');
    if t != [] {
      FindStands(t[1..], ']');
      if t[0] != ';' && t[0] != '[' {
        assert Separates(t, Separator(t)) <==> Occurs(t, '=') || Occurs(t, ':');
      }
    }
  }

  /** Nothing is read exactly from empty lines and comment lines. */
  lemma SkippedExactly(line: string, lead: string, t: string, trail: string)
    requires Around(line, lead, t, trail)
    ensures ParseLine(line) == Skip <==> t == [] || t[0] == ';'
  {
    TrimmedPart(line, lead, t, trail);
  }

  /** A section line names what stands between the brackets, or its first 127 characters. */
  lemma SectionExactly(line: string, lead: string, t: string, trail: string, p: nat)
    requires Around(line, lead, t, trail)
    requires t != [] && t[0] == '[' && Stands(t[1..], ']', p)
    ensures ParseLine(line) == NewSection(if p <= 127 then t[1..1 + p] else t[1..128])
  {
    TrimmedPart(line, lead, t, trail);
    FindStands(t[1..], ']');
    assert t[1..][..p] == t[1..1 + p];
    assert p > 127 ==> t[1..1 + p][..127] == t[1..128];
  }

  /** The separator is the first '=', and where none stands the first ':'. */
  ghost predicate SeparatesAt(t: string, p: nat) {
    Stands(t, '=', p) || (!Occurs(t, '=') && Stands(t, ':', p))
  }

  /** The name is everything before the separator but the white space at its end. */
  predicate IsName(part: string, name: string, space: string) {
    part == name + space && AllSpace(space) && (name != [] ==> !IsSpace(name[|name| - 1]))
  }

  /** The value is everything up to a comment but the white space around it. */
  predicate IsValue(part: string, pad: string, value: string, space: string, rest: string) {
    && part == pad + (value + space + rest) && AllSpace(pad) && AllSpace(space)
    && (value != [] ==> !IsSpace(value[|value| - 1]))
    && (value + space + rest != [] ==> !IsSpace((value + space + rest)[0]))
    && (rest == [] || CommentStarts(value + space + rest, |value + space|))
    && forall i :: 0 <= i < |value + space| ==> !CommentStarts(value + space + rest, i)
  }

  lemma {:induction false} StartSplit(s: string) returns (pad: string)
    ensures s == pad + TrimStart(s) && AllSpace(pad) && (TrimStart(s) != [] ==> !IsSpace(TrimStart(s)[0]))
  {
    if s != [] && IsSpace(s[0]) {
      pad := StartSplit(s[1..]);
      pad := [s[0]] + pad;
    } else {
      pad := [];
    }
  }

  lemma {:induction false} EndSplit(s: string) returns (space: string)
    ensures s == TrimEnd(s) + space && AllSpace(space) && (TrimEnd(s) != [] ==> !IsSpace(TrimEnd(s)[|TrimEnd(s)| - 1]))
  {
    if s != [] && IsSpace(s[|s| - 1]) {
      space := EndSplit(s[..|s| - 1]);
      space := space + [s[|s| - 1]];
    } else {
      space := [];
    }
  }

  lemma NulInPart(part: string, pad: string, v: string)
    requires part == pad + v && NUL !in part
    ensures NUL !in v
  {
    assert forall i :: 0 <= i < |v| ==> v[i] == part[|pad| + i];
  }

  // The value in text that starts with something else than white space.
  lemma CutMeaning(v: string) returns (space: string, rest: string)
    requires NUL !in v
    ensures var value := CutComment(v);
      && v == value + space + rest && AllSpace(space) && (value != [] ==> !IsSpace(value[|value| - 1]))
      && (rest == [] || CommentStarts(v, |value + space|))
      && forall i :: 0 <= i < |value + space| ==> !CommentStarts(v, i)
  {
    var n := Find(v, NUL);
    FindMeaning(v, NUL);
    space := EndSplit(v[..n]);
    rest := v[n..];
    assert v == v[..n] + rest;
  }

  lemma ValueMeaning(part: string) returns (pad: string, space: string, rest: string)
    requires NUL !in part
    ensures IsValue(part, pad, CutComment(TrimStart(part)), space, rest)
  {
    pad := StartSplit(part);
    NulInPart(part, pad, TrimStart(part));
    space, rest := CutMeaning(TrimStart(part));
  }

  lemma SeparatorExactly(t: string, p: nat)
    requires SeparatesAt(t, p)
    ensures Separator(t) == p && Separates(t, p)
  {
    FindStands(t, '=');
    FindStands(t, ':');
  }

  /** An entry line gives the name before its separator and the value behind it. */
  lemma PairExactly(line: string, lead: string, t: string, trail: string, p: nat)
    returns (name: string, nameSpace: string, pad: string, value: string, space: string, rest: string)
    requires Around(line, lead, t, trail) && NUL !in t
    requires t != [] && t[0] != ';' && t[0] != '[' && SeparatesAt(t, p)
    ensures ParseLine(line) == Pair(name, value)
    ensures IsName(t[..p], name, nameSpace) && IsValue(t[p + 1..], pad, value, space, rest)
  {
    TrimmedPart(line, lead, t, trail);
    SeparatorExactly(t, p);
    name, value := TrimEnd(t[..p]), CutComment(TrimStart(t[p + 1..]));
    nameSpace := EndSplit(t[..p]);
    var part := t[p + 1..];
    assert forall i :: 0 <= i < |part| ==> part[i] == t[p + 1 + i];
    pad, space, rest := ValueMeaning(part);
  }

  /** A malformed line makes the result that line's number or an earlier one's, never 0. */
  lemma MalformedReported(lines: seq<string>, i: nat, fails: Callback)
    requires i < |lines| && ParseLine(lines[i]) == Malformed
    ensures 1 <= ParseAll(lines, fails).errorLine <= i + 1
  {
    ResultIsFirstBadLine(ParseLines(lines), fails);
    assert BadLine(ParseLines(lines), fails, i);
  }

  // ---------- the calls of a file ----------

  ghost function PairsBefore(lines: seq<Line>, n: nat): set<int>
    requires n <= |lines|
  {
    set j | 0 <= j < n && lines[j].Pair?
  }

  /** section is the last one opened by the first n lines, or empty when they open none. */
  ghost predicate SectionIn(lines: seq<Line>, n: nat, section: string)
    requires n <= |lines|
  {
    if exists j :: 0 <= j < n && lines[j].NewSection?
    then exists j :: 0 <= j < n && lines[j] == NewSection(section) && forall k :: j < k < n ==> !lines[k].NewSection?
    else section == []
  }

  lemma PairsNext(lines: seq<Line>, n: nat)
    requires n < |lines|
    ensures |PairsBefore(lines, n + 1)| == |PairsBefore(lines, n)| + if lines[n].Pair? then 1 else 0
  {
    assert PairsBefore(lines, n + 1) == PairsBefore(lines, n) + if lines[n].Pair? then {n} else {};
  }

  lemma SectionNext(lines: seq<Line>, n: nat, section: string)
    requires n < |lines| && SectionIn(lines, n, section)
    ensures SectionIn(lines, n + 1, if lines[n].NewSection? then lines[n].name else section)
  {
    if lines[n].NewSection? {
      assert lines[n] == NewSection(lines[n].name);
    } else if j :| 0 <= j < n && lines[j] == NewSection(section) && forall k :: j < k < n ==> !lines[k].NewSection? {
      assert forall k :: j < k < n + 1 ==> !lines[k].NewSection?;
    }
  }

  lemma {:induction false} CallsUpTo(lines: seq<Line>, n: nat, fails: Callback)
    requires n <= |lines|
    ensures var p := Process(lines[..n], fails);
      && SectionIn(lines, n, p.section)
      && |p.calls| == |PairsBefore(lines, n)|
  {
    if n > 0 {
      CallsUpTo(lines, n - 1, fails);
      assert lines[..n][..n - 1] == lines[..n - 1];
      PairsNext(lines, n - 1);
      SectionNext(lines, n - 1, Process(lines[..n - 1], fails).section);
    }
  }

  lemma {:induction false} CallsStay(lines: seq<Line>, m: nat, n: nat, fails: Callback)
    requires m <= n <= |lines|
    ensures Process(lines[..m], fails).calls <= Process(lines[..n], fails).calls
    decreases n
  {
    if m < n {
      CallsStay(lines, m, n - 1, fails);
      assert lines[..n][..n - 1] == lines[..n - 1];
    }
  }

  /** The callback is called once for each entry line, in order, with the section that is open there. */
  lemma CallsExactly(lines: seq<Line>, fails: Callback)
    ensures |Process(lines, fails).calls| == |PairsBefore(lines, |lines|)|
  {
    CallsUpTo(lines, |lines|, fails);
    assert lines[..|lines|] == lines;
  }

  lemma CallAt(lines: seq<Line>, i: nat, fails: Callback) returns (section: string)
    requires i < |lines| && lines[i].Pair?
    ensures SectionIn(lines, i, section) && |PairsBefore(lines, i)| < |Process(lines, fails).calls|
    ensures Process(lines, fails).calls[|PairsBefore(lines, i)|] == Call(section, lines[i].name, lines[i].value)
  {
    var before := Process(lines[..i], fails);
    section := before.section;
    CallsUpTo(lines, i, fails);
    assert lines[..i + 1][..i] == lines[..i];
    assert Process(lines[..i + 1], fails).calls == before.calls + [Call(section, lines[i].name, lines[i].value)];
    CallsStay(lines, i + 1, |lines|, fails);
    assert lines[..|lines|] == lines;
  }
}
