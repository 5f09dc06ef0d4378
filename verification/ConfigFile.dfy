/** The parser as it runs: pointers into one line buffer that is cut in place. */
module ConfigFile {
  import opened Chars
  import opened Config

  // The buffer holds the C string text at position p.
  ghost predicate Holds(buf: seq<char>, p: nat, text: string) {
    p + |text| < |buf| && buf[p..p + |text|] == text && buf[p + |text|] == NUL && NUL !in text
  }

  lemma HoldsSuffix(buf: seq<char>, p: nat, text: string, k: nat)
    requires Holds(buf, p, text) && k <= |text|
    ensures Holds(buf, p + k, text[k..])
  {
    assert buf[p + k..p + |text|] == buf[p..p + |text|][k..];
    assert forall i :: 0 <= i < |text[k..]| ==> text[k..][i] == text[k + i];
  }

  lemma HoldsAt(buf: seq<char>, p: nat, text: string, k: nat)
    requires Holds(buf, p, text) && k <= |text|
    ensures buf[p + k] == if k < |text| then text[k] else NUL
    ensures buf[p + k] == NUL <==> k == |text|
  {
    if k < |text| {
      assert buf[p..p + |text|][k] == text[k];
      assert text[k] in text;
    }
  }

  // Writing NUL at position k of the text leaves its first k characters.
  lemma HoldsCut(before: seq<char>, after: seq<char>, p: nat, text: string, k: nat)
    requires Holds(before, p, text) && k <= |text|
    requires after == before[p + k := NUL]
    ensures Holds(after, p, text[..k])
  {
    assert after[p..p + k] == before[p..p + |text|][..k];
    assert forall i :: 0 <= i < k ==> text[..k][i] == text[i];
  }

  lemma HoldsSame(before: seq<char>, after: seq<char>, p: nat, text: string, n: nat)
    requires Holds(before, p, text) && n <= p && |before| == |after| && before[n..] == after[n..]
    ensures Holds(after, p, text)
  {
    forall k | n <= k < |before|
      ensures before[k] == after[k]
    {
      assert before[n..][k - n] == after[n..][k - n];
    }
    assert after[p..p + |text|] == before[p..p + |text|];
  }

  // Writing NUL over one character leaves the text before it and the text after it.
  lemma HoldsBoth(before: seq<char>, after: seq<char>, p: nat, text: string, k: nat)
    requires Holds(before, p, text) && k < |text|
    requires after == before[p + k := NUL]
    ensures Holds(after, p, text[..k]) && Holds(after, p + k + 1, text[k + 1..])
  {
    HoldsCut(before, after, p, text, k);
    HoldsSuffix(before, p, text, k + 1);
    HoldsSame(before, after, p + k + 1, text[k + 1..], p + k + 1);
  }

  method StrLen(buf: array<char>, p: nat, ghost text: string) returns (n: nat)
    requires Holds(buf[..], p, text)
    ensures n == |text|
  {
    n := 0;
    HoldsAt(buf[..], p, text, 0);
    while buf[p + n] != NUL
      invariant n <= |text| && buf[p + n] == buf[..][p + n]
      invariant buf[p + n] == NUL <==> n == |text|
      decreases |text| - n
    {
      n := n + 1;
      HoldsAt(buf[..], p, text, n);
    }
  }

  /** Cuts trailing white space off in place; nothing outside the string changes. */
  method RStrip(buf: array<char>, s: nat, ghost text: string)
    requires Holds(buf[..], s, text)
    modifies buf
    ensures Holds(buf[..], s, TrimEnd(text))
    ensures buf[s + |text|..] == old(buf[s + |text|..]) && buf[..s] == old(buf[..s])
  {
    var len := StrLen(buf, s, text);
    var p := s + len;
    ghost var cur := text;
    while p > s
      invariant s <= p == s + |cur| && cur <= text
      invariant Holds(buf[..], s, cur) && TrimEnd(cur) == TrimEnd(text)
      invariant buf[s + |text|..] == old(buf[s + |text|..]) && buf[..s] == old(buf[..s])
      decreases p
    {
      p := p - 1;
      HoldsAt(buf[..], s, cur, p - s);
      if !IsSpace(buf[p]) {
        return;
      }
      ghost var before := buf[..];
      buf[p] := NUL;
      HoldsCut(before, buf[..], s, cur, p - s);
      cur := cur[..p - s];
    }
  }

  method LSkip(buf: array<char>, s: nat, ghost text: string) returns (q: nat)
    requires Holds(buf[..], s, text)
    ensures q == s + |text| - |TrimStart(text)| && Holds(buf[..], q, TrimStart(text))
  {
    q := s;
    ghost var cur := text;
    HoldsAt(buf[..], q, cur, 0);
    while buf[q] != NUL && IsSpace(buf[q])
      invariant q == s + |text| - |cur| && Holds(buf[..], q, cur)
      invariant TrimStart(cur) == TrimStart(text)
      invariant buf[q] == if cur == [] then NUL else cur[0]
      invariant buf[q] == NUL <==> cur == []
      decreases |cur|
    {
      HoldsSuffix(buf[..], q, cur, 1);
      q := q + 1;
      cur := cur[1..];
      HoldsAt(buf[..], q, cur, 0);
    }
  }

  /** Stops at the first c, at a ';' after white space, or at the end. */
  method FindCharOrComment(buf: array<char>, s: nat, c: char, ghost text: string) returns (q: nat)
    requires Holds(buf[..], s, text)
    ensures q == s + Find(text, c)
  {
    q := s;
    var white := false;
    ghost var cur := text;
    HoldsAt(buf[..], q, cur, 0);
    while buf[q] != NUL && buf[q] != c && !(white && buf[q] == ';')
      invariant q == s + |text| - |cur| && Holds(buf[..], q, cur)
      invariant s + Find(text, c) == q + FindFrom(cur, c, white)
      invariant buf[q] == if cur == [] then NUL else cur[0]
      invariant buf[q] == NUL <==> cur == []
      decreases |cur|
    {
      white := IsSpace(buf[q]);
      HoldsSuffix(buf[..], q, cur, 1);
      q := q + 1;
      cur := cur[1..];
      HoldsAt(buf[..], q, cur, 0);
    }
  }

  // The characters of a string, for the callback or for safe_strncpy.
  method Read(buf: array<char>, p: nat, ghost text: string) returns (s: string)
    requires Holds(buf[..], p, text)
    ensures s == text
  {
    var n := StrLen(buf, p, text);
    s := buf[p..p + n];
  }

  /** A "[section]" line whose text starts at start: cuts at the bracket and reads the name. */
  method SectionInPlace(buf: array<char>, start: nat, ghost t: string) returns (found: bool, name: string)
    requires Holds(buf[..], start, t) && t != [] && t[0] == '['
    modifies buf
    ensures found <==> Find(t[1..], ']') < |t| - 1 && t[1..][Find(t[1..], ']')] == ']'
    ensures found ==> name == Truncated(t[1..][..Find(t[1..], ']')])
  {
    ghost var inner := t[1..];
    ghost var e := Find(inner, ']');
    HoldsSuffix(buf[..], start, t, 1);
    var end := FindCharOrComment(buf, start + 1, ']', inner);
    HoldsAt(buf[..], start + 1, inner, e);
    found, name := false, [];
    if buf[end] == ']' {
      ghost var before := buf[..];
      buf[end] := NUL;
      HoldsCut(before, buf[..], start + 1, inner, e);
      name := Read(buf, start + 1, inner[..e]);
      found, name := true, if |name| < MAX_SECTION_SIZE then name else name[..MAX_SECTION_SIZE - 1];
    }
  }

  // The separator of a pair, if the line has one.
  method FindSeparator(buf: array<char>, start: nat, ghost t: string) returns (found: bool, end: nat)
    requires Holds(buf[..], start, t)
    ensures end == start + Separator(t)
    ensures found <==> Separator(t) < |t| && (t[Separator(t)] == '=' || t[Separator(t)] == ':')
  {
    end := FindCharOrComment(buf, start, '=', t);
    HoldsAt(buf[..], start, t, end - start);
    if buf[end] != '=' {
      end := FindCharOrComment(buf, start, ':', t);
      HoldsAt(buf[..], start, t, end - start);
    }
    found := buf[end] == '=' || buf[end] == ':';
  }

  // Cuts the buffer at the separator and reads both sides.
  method SplitPair(buf: array<char>, start: nat, end: nat, ghost t: string) returns (name: string, value: string)
    requires Holds(buf[..], start, t) && start <= end < start + |t|
    modifies buf
    ensures name == TrimEnd(t[..end - start]) && value == CutComment(TrimStart(t[end - start + 1..]))
  {
    ghost var before, front, rest := buf[..], t[..end - start], t[end - start + 1..];
    buf[end] := NUL;
    HoldsBoth(before, buf[..], start, t, end - start);
    before := buf[..];
    RStrip(buf, start, front);
    HoldsSame(before, buf[..], end + 1, rest, end);
    name := Read(buf, start, TrimEnd(front));
    value := ValueInPlace(buf, end + 1, rest);
  }

  /** The value after the separator, without its comment and surrounding white space. */
  method ValueInPlace(buf: array<char>, at: nat, ghost rest: string) returns (value: string)
    requires Holds(buf[..], at, rest)
    modifies buf
    ensures value == CutComment(TrimStart(rest))
  {
    var p := LSkip(buf, at, rest);
    ghost var v := TrimStart(rest);
    var end := FindCharOrComment(buf, p, NUL, v);
    ghost var n := Find(v, NUL);
    HoldsAt(buf[..], p, v, n);
    StopsAtComment(v, NUL, false);
    CutAt(v, n, v[..n]);
    if buf[end] == ';' {
      ghost var before := buf[..];
      buf[end] := NUL;
      HoldsCut(before, buf[..], p, v, n);
    } else {
      assert n == |v|;
      assert v[..n] == v;
    }
    ghost var kept := v[..n];
    RStrip(buf, p, kept);
    value := Read(buf, p, TrimEnd(kept));
  }

  lemma {:induction false} StopsAtComment(s: string, c: char, white: bool)
    requires c !in s
    ensures FindFrom(s, c, white) < |s| ==> s[FindFrom(s, c, white)] == ';'
  {
    if s != [] && !(white && s[0] == ';') {
      StopsAtComment(s[1..], c, IsSpace(s[0]));
    }
  }

  // fgets: the characters and a NUL; what the buffer held behind them stays.
  method Gets(buf: array<char>, chunk: string)
    requires |chunk| < buf.Length
    modifies buf
    ensures Holds(buf[..], 0, CText(chunk))
  {
    forall k | 0 <= k < |chunk| {
      buf[k] := chunk[k];
    }
    buf[|chunk|] := NUL;
    assert buf[..][0..|CText(chunk)|] == CText(chunk);
  }

  lemma ProcessNext(lines: seq<Line>, i: nat, fails: Callback)
    requires i < |lines|
    ensures Process(lines[..i + 1], fails) == Step(Process(lines[..i], fails), lines[i], i + 1, fails)
  {
    assert lines[..i + 1][..i] == lines[..i];
  }

  class Parser {
    const fails: Callback
    const buf: array<char>
    var section: string
    var calls: seq<Call>
    var errorLine: nat

    ghost function State(): Parsed
      reads this
    {
      Parsed(section, calls, errorLine)
    }

    constructor (fails: Callback)
      ensures State() == Parsed([], [], 0) && this.fails == fails && fresh(buf) && buf.Length == MAX_LINE_SIZE
    {
      this.fails := fails;
      buf := new char[MAX_LINE_SIZE](_ => NUL);
      section, calls, errorLine := [], [], 0;
    }

    method NoteError(line: nat)
      modifies this`errorLine
      ensures errorLine == if old(errorLine) == 0 then line else old(errorLine)
    {
      if errorLine == 0 {
        errorLine := line;
      }
    }

    /** A "[section]" line. */
    method OnSection(start: nat, line: nat, ghost t: string)
      requires Holds(buf[..], start, t) && t != [] && t[0] == '['
      modifies this, buf
      ensures State() == Step(old(State()), ParseTrimmed(t), line, fails)
    {
      var found, name := SectionInPlace(buf, start, t);
      if found {
        section := name;
      } else {
        NoteError(line);
      }
    }

    /** A name=value or name:value line: the callback is told. */
    method OnPair(start: nat, line: nat, ghost t: string)
      requires Holds(buf[..], start, t) && t != [] && t[0] != ';' && t[0] != '['
      modifies this, buf
      ensures State() == Step(old(State()), ParseTrimmed(t), line, fails)
    {
      var found, end := FindSeparator(buf, start, t);
      if found {
        var name, value := SplitPair(buf, start, end, t);
        calls := calls + [Call(section, name, value)];
        if fails(calls) {
          NoteError(line);
        }
      } else {
        NoteError(line);
      }
    }

    /** The body of the loop for one line, the buffer already filled. */
    method OnLine(line: nat, ghost text: string)
      requires Holds(buf[..], 0, text)
      modifies this, buf
      ensures State() == Step(old(State()), ParseLine(text), line, fails)
    {
      RStrip(buf, 0, text);
      ghost var cut := TrimEnd(text);
      var start := LSkip(buf, 0, cut);
      ghost var t := TrimStart(cut);
      HoldsAt(buf[..], start, t, 0);
      if buf[start] == ';' {
        // skip comment
      } else if buf[start] == '[' {
        OnSection(start, line, t);
      } else if buf[start] != NUL && buf[start] != ';' {
        OnPair(start, line, t);
      }
    }

    /** The result and the calls are those that the file's characters mean, whatever earlier lines left behind. */
    method ParseConfigFile(file: string)
      requires State() == Parsed([], [], 0) && buf.Length == MAX_LINE_SIZE
      modifies this, buf
      ensures State() == ParseAll(FileLines(file), fails)
    {
      ghost var parsed := ParseLines(FileLines(file));
      var rest, line := file, 0;
      while rest != []
        invariant line <= |parsed| && parsed[line..] == ParseLines(FileLines(rest))
        invariant State() == Process(parsed[..line], fails)
        decreases |rest|
      {
        var n := ChunkEnd(rest, buf.Length - 1);
        Gets(buf, rest[..n]);
        NextLine(parsed, line, rest, n);
        ProcessNext(parsed, line, fails);
        line := line + 1;
        OnLine(line, CText(rest[..n]));
        rest := rest[n..];
      }
      assert parsed[..line] == parsed;
    }
  }

  lemma NextLine(parsed: seq<Line>, line: nat, rest: string, n: nat)
    requires line <= |parsed| && parsed[line..] == ParseLines(FileLines(rest))
    requires rest != [] && n == ChunkEnd(rest, MAX_LINE_SIZE - 1)
    ensures line < |parsed| && parsed[line] == ParseLine(CText(rest[..n]))
    ensures parsed[line + 1..] == ParseLines(FileLines(rest[n..]))
  {
    var text, more := CText(rest[..n]), FileLines(rest[n..]);
    assert FileLines(rest) == [text] + more;
    assert parsed[line..][0] == ParseLine(text);
    forall i | 0 <= i < |more|
      ensures parsed[line + 1 + i] == ParseLine(more[i])
    {
      assert parsed[line..][1 + i] == ParseLine(([text] + more)[1 + i]);
    }
  }
}
