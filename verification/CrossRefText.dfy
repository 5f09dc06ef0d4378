/** The header's lines by the characters that stand in them, for the writer and for the reader. */
module CrossRefText {
  import opened Options
  import opened Chars
  import opened CrossRef

  predicate IsDigits(ds: string) {
    ds != [] && forall i :: 0 <= i < |ds| ==> '0' <= ds[i] <= '9'
  }

  function DecimalValue(ds: string): nat
    requires forall i :: 0 <= i < |ds| ==> '0' <= ds[i] <= '9'
  {
    if ds == [] then 0 else 10 * DecimalValue(ds[..|ds| - 1]) + (ds[|ds| - 1] as int - '0' as int)
  }

  lemma DigitCodes(c: char)
    ensures IsDecimal(c) <==> '0' <= c <= '9'
    ensures IsDecimal(c) ==> DigitOf(c).value == c as int - '0' as int
    ensures DigitOf(c).Some? <==> '0' <= c <= '9' || 'a' <= c <= 'f'
    ensures 'a' <= c <= 'f' ==> DigitOf(c) == Some(10 + (c as int - 'a' as int))
  {
  }

  lemma DecimalChar(n: nat)
    requires n < 10
    ensures '0' <= HexDigit(n) <= '9' && HexDigit(n) as int - '0' as int == n
  {
    HexDigitValue(n);
    DigitCodes(HexDigit(n));
  }

  /** A printed decimal number is read back. */
  lemma {:induction false} DecimalRoundTrip(n: nat)
    ensures IsDigits(Digits(n, 10)) && DecimalValue(Digits(n, 10)) == n
  {
    DigitsStep(n, 10);
    DecimalChar(n % 10);
    if n >= 10 {
      DecimalRoundTrip(n / 10);
      var front, last := Digits(n / 10, 10), [HexDigit(n % 10)];
      assert (front + last)[..|front + last| - 1] == front;
    } else {
      assert DecimalValue([HexDigit(n)]) == 10 * DecimalValue([]) + n;
    }
  }

  // ---------- the writer ----------

  /** The first line of a section names it and counts all its references. */
  lemma SectionText(word: string, rs: seq<Ref>) returns (count: string)
    ensures SectionLines(word, rs) != [] && SectionLines(word, rs)[0] == "// " + word + " (" + count + "):"
    ensures IsDigits(count) && DecimalValue(count) == |rs|
  {
    count := Digits(|rs|, 10);
    DecimalRoundTrip(|rs|);
  }

  /** Then come the first 20 references, each with its name and its offset in hexadecimal. */
  lemma RefText(word: string, rs: seq<Ref>, i: nat) returns (hex: string)
    requires i < |rs| && i < 20
    ensures i + 1 < |SectionLines(word, rs)|
    ensures SectionLines(word, rs)[i + 1] == "//   " + rs[i].name + " @ 0x" + hex
    ensures ParseInt(hex) == Some(rs[i].offset)
  {
    hex := Hex16(rs[i].offset);
    Hex16RoundTrip(rs[i].offset);
    assert RefLines(First(rs))[i] == RefLine(rs[i]);
    assert "//   " + rs[i].name + (" @ 0x" + hex) == "//   " + rs[i].name + " @ 0x" + hex;
  }

  /** What does not fit is counted in one more line, and there is no other. */
  lemma OverflowText(word: string, rs: seq<Ref>) returns (count: string)
    ensures |SectionLines(word, rs)| == if |rs| <= 20 then |rs| + 1 else 22
    ensures |rs| > 20 ==> SectionLines(word, rs)[21] == "//   ... +" + count + " mais"
    ensures |rs| > 20 ==> IsDigits(count) && DecimalValue(count) == |rs| - 20
  {
    count := [];
    if |rs| > 20 {
      count := Digits(|rs| - 20, 10);
      DecimalRoundTrip(|rs| - 20);
      OverflowForm(|rs| - 20);
    }
  }

  lemma OverflowForm(n: nat)
    ensures OverflowLine(n) == "//   ... +" + Digits(n, 10) + " mais"
  {
    var count := Digits(n, 10);
    assert "//   " + "..." == "//   ..." && "//   ..." + " +" == "//   ... +";
    assert "//   ..." + (" +" + count + " mais") == "//   ... +" + count + " mais";
  }

  /** The second title line gives the function's own offset, name and size. */
  lemma AddressText(f: Ref, size: nat) returns (hex: string, count: string)
    ensures TitleLines(f, size)[1] == "// addr: 0x" + hex + "  name: " + f.name + "  size: " + count
    ensures ParseInt(hex) == Some(f.offset) && IsDigits(count) && DecimalValue(count) == size
  {
    hex, count := Hex16(f.offset), Digits(size, 10);
    Hex16RoundTrip(f.offset);
    DecimalRoundTrip(size);
    AddressForm(hex, f.name, count);
  }

  lemma AddressForm(hex: string, name: string, count: string)
    ensures "// addr: 0x" + (hex + "  name: " + name + "  size: " + count) ==
      "// addr: 0x" + hex + "  name: " + name + "  size: " + count
  {
  }

  // ---------- the reader ----------

  /** A line opens a section exactly when it is the section's name and a number in parentheses. */
  lemma SectionLineExactly(word: string, line: string)
    ensures IsSectionLine(word, line) <==> exists ds :: IsDigits(ds) && line == "// " + word + " (" + ds + "):"
  {
    var prefix := "// " + word + " (";
    if IsSectionLine(word, line) {
      var ds := line[|prefix|..|line| - 2];
      forall i | 0 <= i < |ds|
        ensures '0' <= ds[i] <= '9'
      {
        DigitCodes(line[|prefix| + i]);
      }
      assert line == prefix + ds + "):";
    }
    if ds :| IsDigits(ds) && line == prefix + ds + "):" {
      forall i | |prefix| <= i < |line| - 2
        ensures IsDecimal(line[i])
      {
        assert line[i] == ds[i - |prefix|];
        DigitCodes(line[i]);
      }
      assert line[|line| - 2] == ')' && line[|line| - 1] == ':';
    }
  }

  /** Hexadecimal digits and minus signs, at least one. */
  predicate IsAddress(hex: string) {
    hex != [] && forall i :: 0 <= i < |hex| ==> hex[i] == '-' || '0' <= hex[i] <= '9' || 'a' <= hex[i] <= 'f'
  }

  predicate IsReference(line: string, space: string, name: string, hex: string) {
    && line == "//" + (space + (name + (" @ 0x" + hex)))
    && space != [] && (forall i :: 0 <= i < |space| ==> IsSpace(space[i])) && GoodName(name) && IsAddress(hex)
  }

  lemma LeadingStops(s: string, space: bool)
    ensures Leading(s, space) < |s| ==> IsSpace(s[Leading(s, space)]) != space
  {
  }

  lemma AddressExactly(name: string, c: string, hex: string)
    ensures MatchAddress(name, c) == Some((name, hex)) <==> c == " @ 0x" + hex && IsAddress(hex)
  {
    forall i | 0 <= i < |c|
      ensures c[i] == '-' || DigitOf(c[i]).Some? <==> c[i] == '-' || '0' <= c[i] <= '9' || 'a' <= c[i] <= 'f'
    {
      DigitCodes(c[i]);
    }
    if c == " @ 0x" + hex {
      assert c[5..] == hex && forall i :: 0 <= i < |hex| ==> c[5 + i] == hex[i];
      assert forall i :: 5 <= i < |c| ==> c[i] == hex[i - 5];
    }
    if MatchAddress(name, c) == Some((name, hex)) {
      assert forall i :: 0 <= i < |hex| ==> hex[i] == c[5 + i];
      assert c == c[..5] + hex && c[..5] == " @ 0x";
    }
  }

  lemma ReferenceMatches(line: string, space: string, name: string, hex: string)
    requires IsReference(line, space, name, hex)
    ensures MatchRef(line) == Some((name, hex))
  {
    var c := " @ 0x" + hex;
    var b := name + c;
    assert line[2..] == space + b && "//" <= line;
    LeadingOf(space, b, true);
    assert (space + b)[|space|..] == b;
    LeadingOf(name, c, false);
    assert b[..|name|] == name && b[|name|..] == c;
    AddressExactly(name, c, hex);
  }

  lemma MatchParts(line: string) returns (space: string, name: string, c: string)
    requires MatchRef(line).Some?
    ensures line == "//" + (space + (name + c)) && GoodName(name)
    ensures space != [] && forall i :: 0 <= i < |space| ==> IsSpace(space[i])
    ensures MatchRef(line) == MatchAddress(name, c)
  {
    var s := line[2..];
    space := s[..Leading(s, true)];
    var b := s[|space|..];
    name := b[..Leading(b, false)];
    c := b[|name|..];
    assert line == "//" + s && s == space + b && b == name + c;
  }

  lemma MatchIsReference(line: string) returns (space: string)
    requires MatchRef(line).Some?
    ensures var (name, hex) := MatchRef(line).value; IsReference(line, space, name, hex)
  {
    var name, c;
    space, name, c := MatchParts(line);
    AddressExactly(name, c, MatchRef(line).value.1);
  }

  /** A line is a reference exactly when it has the printed form, with any white space in front of the name. */
  lemma ReferenceExactly(line: string, name: string, hex: string)
    ensures MatchRef(line) == Some((name, hex)) <==> exists space :: IsReference(line, space, name, hex)
  {
    if MatchRef(line) == Some((name, hex)) {
      var space := MatchIsReference(line);
      assert IsReference(line, space, name, hex);
    }
    if space :| IsReference(line, space, name, hex) {
      ReferenceMatches(line, space, name, hex);
    }
  }

  /** What a line is to the reader: it opens a section, lists a reference whose address is a number, closes the section
      when it is blank, or is nothing. */
  lemma ClassifyExactly(line: string)
    ensures Classify(line) == Opens(Callers) <==> IsSectionLine("chamadores", line)
    ensures Classify(line) == Opens(Callees) <==> IsSectionLine("chamadas", line)
    ensures Classify(line) == Closes <==> forall i :: 0 <= i < |line| ==> IsSpace(line[i])
    ensures forall name: string, a: int :: Classify(line) == Listed(Entry(name, a)) ==>
      exists hex :: MatchRef(line) == Some((name, hex)) && Address(hex) == Some(a)
  {
    LeadingStops(line, true);
    OneSection(line);
    if IsSectionLine("chamadores", line) || IsSectionLine("chamadas", line) || "//" <= line {
      assert line[0] == '/';
    }
    if Classify(line).Listed? {
      var hex := MatchRef(line).value.1;
      assert MatchRef(line) == Some((Classify(line).entry.name, hex));
    }
  }

  lemma OneSection(line: string)
    ensures !(IsSectionLine("chamadores", line) && IsSectionLine("chamadas", line))
  {
    if IsSectionLine("chamadores", line) {
      assert line[9] == ("// " + "chamadores" + " (")[9] == 'o';
      assert ("// " + "chamadas" + " (")[9] == 'a';
    }
  }

  // ---------- the lists of a file ----------

  ghost function ListedBefore(ks: seq<Kind>, n: nat, section: Section): set<int>
    requires n <= |ks|
  {
    set i | 0 <= i < n && ks[i].Listed? && SectionAfter(ks[..i]) == section
  }

  function ListOf(st: State, section: Section): seq<Entry> {
    if section == Callers then st.callers else st.callees
  }

  // Line j opens the section, and no later one opens or closes another.
  predicate OpenedAt(ks: seq<Kind>, section: Section, j: nat) {
    j < |ks| && ks[j] == Opens(section) && forall k :: j < k < |ks| ==> !ks[k].Opens? && !ks[k].Closes?
  }

  lemma OpenedNext(front: seq<Kind>, last: Kind, section: Section, j: nat)
    ensures j < |front| ==>
      (OpenedAt(front + [last], section, j) <==> OpenedAt(front, section, j) && !last.Opens? && !last.Closes?)
    ensures OpenedAt(front + [last], section, |front|) <==> last == Opens(section)
  {
    var ks := front + [last];
    assert ks[|front|] == last && forall k :: 0 <= k < |front| ==> ks[k] == front[k];
  }

  /** A section is open after a line that opens it, up to the next one that opens or closes one. */
  lemma {:induction false} OpenSection(ks: seq<Kind>, section: Section)
    requires section != NoSection
    ensures SectionAfter(ks) == section <==> exists j: nat :: OpenedAt(ks, section, j)
  {
    if ks != [] {
      var front, last := ks[..|ks| - 1], ks[|ks| - 1];
      assert ks == front + [last];
      OpenSection(front, section);
      forall j: nat {
        OpenedNext(front, last, section, j);
      }
      if last == Opens(section) {
        assert OpenedAt(ks, section, |front|);
      } else if j: nat :| OpenedAt(front, section, j) && !last.Opens? && !last.Closes? {
        assert OpenedAt(ks, section, j);
      }
    }
  }

  lemma ListedNext(ks: seq<Kind>, n: nat, section: Section)
    requires n < |ks|
    ensures |ListedBefore(ks, n + 1, section)| ==
      |ListedBefore(ks, n, section)| + if ks[n].Listed? && SectionAfter(ks[..n]) == section then 1 else 0
  {
    var more := if ks[n].Listed? && SectionAfter(ks[..n]) == section then {n} else {};
    assert ListedBefore(ks, n + 1, section) == ListedBefore(ks, n, section) + more;
  }

  lemma {:induction false} ListsUpTo(ks: seq<Kind>, n: nat)
    requires n <= |ks|
    ensures var st := Run(START, ks[..n]);
      && st.section == SectionAfter(ks[..n])
      && |st.callers| == |ListedBefore(ks, n, Callers)| && |st.callees| == |ListedBefore(ks, n, Callees)|
  {
    if n > 0 {
      ListsUpTo(ks, n - 1);
      assert ks[..n][..n - 1] == ks[..n - 1];
      ListedNext(ks, n - 1, Callers);
      ListedNext(ks, n - 1, Callees);
    }
  }

  lemma {:induction false} ListsStay(ks: seq<Kind>, m: nat, n: nat)
    requires m <= n <= |ks|
    ensures Run(START, ks[..m]).callers <= Run(START, ks[..n]).callers
    ensures Run(START, ks[..m]).callees <= Run(START, ks[..n]).callees
    decreases n
  {
    if m < n {
      ListsStay(ks, m, n - 1);
      assert ks[..n][..n - 1] == ks[..n - 1];
    }
  }

  /** Each list has one entry for each reference line in a section of its own, and no other. */
  lemma ListsExactly(ks: seq<Kind>)
    ensures |Run(START, ks).callers| == |ListedBefore(ks, |ks|, Callers)|
    ensures |Run(START, ks).callees| == |ListedBefore(ks, |ks|, Callees)|
  {
    ListsUpTo(ks, |ks|);
    assert ks[..|ks|] == ks;
  }

  /** The entries stand in the order of the lines. */
  lemma EntryAt(ks: seq<Kind>, i: nat, section: Section)
    requires i < |ks| && ks[i].Listed? && SectionAfter(ks[..i]) == section != NoSection
    ensures var n, list := |ListedBefore(ks, i, section)|, ListOf(Run(START, ks), section);
      n < |list| && list[n] == ks[i].entry
  {
    ListsUpTo(ks, i);
    assert ks[..i + 1][..i] == ks[..i];
    ListsStay(ks, i + 1, |ks|);
    assert ks[..|ks|] == ks;
    var before := Run(START, ks[..i]);
    assert ListOf(Run(START, ks[..i + 1]), section) == ListOf(before, section) + [ks[i].entry];
  }
}
