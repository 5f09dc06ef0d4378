/** The comment header one script writes in front of a decompiled function, and the parser of another that reads it. */
module CrossRef {
  import opened Options
  import opened Chars

  const TWO64 := 0x1_0000_0000_0000_0000
  const LISTED := 20

  // A function as the decompiler names it; its offset is a signed 64-bit number.
  datatype Ref = Ref(name: string, offset: int)

  // What the parser makes of it: the address is unsigned.
  datatype Entry = Entry(name: string, addr: int)

  // ---------- numbers ----------

  function HexDigit(n: nat): char
    requires n < 16
  {
    "0123456789abcdef"[n]
  }

  function DigitOf(c: char): Option<nat> {
    if c == '0' then Some(0) else if c == '1' then Some(1) else if c == '2' then Some(2) else if c == '3' then Some(3)
    else if c == '4' then Some(4) else if c == '5' then Some(5)
    else if c == '6' then Some(6) else if c == '7' then Some(7)
    else if c == '8' then Some(8) else if c == '9' then Some(9) else if c == 'a' then Some(10)
    else if c == 'b' then Some(11) else if c == 'c' then Some(12) else if c == 'd' then Some(13)
    else if c == 'e' then Some(14) else if c == 'f' then Some(15) else None
  }

  predicate IsDecimal(c: char) {
    DigitOf(c).Some? && DigitOf(c).value < 10
  }

  function DigitValues(n: nat, radix: nat): (ds: seq<nat>)
    requires 2 <= radix <= 16
    ensures ds != [] && forall i :: 0 <= i < |ds| ==> ds[i] < radix
    decreases n
  {
    if n < radix then [n] else DigitValues(n / radix, radix) + [n % radix]
  }

  function Digits(n: nat, radix: nat): (s: string)
    requires 2 <= radix <= 16
    ensures |s| == |DigitValues(n, radix)| && s != []
  {
    var ds := DigitValues(n, radix);
    seq(|ds|, i requires 0 <= i < |ds| => HexDigit(ds[i]))
  }

  lemma DigitsStep(n: nat, radix: nat)
    requires 2 <= radix <= 16
    ensures Digits(n, radix) ==
      if n < radix then [HexDigit(n)] else Digits(n / radix, radix) + [HexDigit(n % radix)]
  {
  }

  function ZeroFill(s: string, width: nat): (r: string)
    ensures s != [] ==> r != []
    decreases width - |s|
  {
    if |s| >= width then s else ZeroFill("0" + s, width)
  }

  /** Width 16 including the sign, padded with zeros. */
  function Hex16(x: int): (s: string)
    ensures s != []
  {
    if x >= 0 then ZeroFill(Digits(x, 16), 16) else "-" + ZeroFill(Digits(-x, 16), 15)
  }

  predicate AllHex(s: string) {
    forall i :: 0 <= i < |s| ==> DigitOf(s[i]).Some?
  }

  function Value(s: string): nat
    requires AllHex(s)
  {
    if s == [] then 0 else 16 * Value(s[..|s| - 1]) + DigitOf(s[|s| - 1]).value
  }

  /** An optional minus sign and at least one digit; anything else is an error. */
  function ParseInt(s: string): Option<int> {
    if s == [] then None
    else if s[0] == '-' then if |s| > 1 && AllHex(s[1..]) then var v: int := Value(s[1..]); Some(-v) else None
    else if AllHex(s) then Some(Value(s))
    else None
  }

  lemma HexDigitValue(n: nat)
    requires n < 16
    ensures DigitOf(HexDigit(n)) == Some(n)
    ensures HexDigit(n) != '-'
  {
  }

  lemma {:induction false} DigitsValue(n: nat)
    ensures AllHex(Digits(n, 16)) && Value(Digits(n, 16)) == n
  {
    HexDigitValue(n % 16);
    DigitsStep(n, 16);
    if n >= 16 {
      DigitsValue(n / 16);
    } else {
      assert Value([HexDigit(n)]) == n;
    }
  }

  lemma {:induction false} DecimalDigits(n: nat)
    ensures forall i :: 0 <= i < |Digits(n, 10)| ==> IsDecimal(Digits(n, 10)[i])
  {
    HexDigitValue(n % 10);
    DigitsStep(n, 10);
    if n >= 10 {
      DecimalDigits(n / 10);
    }
  }

  lemma {:induction false} LeadingZero(s: string)
    requires AllHex(s)
    ensures AllHex("0" + s) && Value("0" + s) == Value(s)
  {
    if s == [] {
      assert Value("0") == 0;
    } else {
      LeadingZero(s[..|s| - 1]);
      assert ("0" + s)[..|s|] == "0" + s[..|s| - 1];
    }
  }

  lemma {:induction false} ZeroFillValue(s: string, width: nat)
    requires AllHex(s)
    ensures AllHex(ZeroFill(s, width)) && Value(ZeroFill(s, width)) == Value(s)
    decreases width - |s|
  {
    if |s| < width {
      LeadingZero(s);
      ZeroFillValue("0" + s, width);
    }
  }

  /** Printed hexadecimal is read back, signed form included. */
  lemma Hex16RoundTrip(x: int)
    ensures ParseInt(Hex16(x)) == Some(x)
  {
    var n := if x >= 0 then x else -x;
    var width := if x >= 0 then 16 else 15;
    DigitsValue(n);
    ZeroFillValue(Digits(n, 16), width);
    SignRead(ZeroFill(Digits(n, 16), width));
  }

  lemma SignRead(digits: string)
    requires AllHex(digits) && digits != []
    ensures var v: int := Value(digits); ParseInt(digits) == Some(v) && ParseInt("-" + digits) == Some(-v)
  {
    assert ("-" + digits)[1..] == digits;
    assert DigitOf(digits[0]).Some?;
  }

  // ---------- one line ----------

  /** How many leading characters are white space (or are not). */
  function Leading(s: string, space: bool): (n: nat)
    ensures n <= |s| && forall i :: 0 <= i < n ==> IsSpace(s[i]) == space
  {
    if s != [] && IsSpace(s[0]) == space then 1 + Leading(s[1..], space) else 0
  }

  // "// word (digits):"
  predicate IsSectionLine(word: string, line: string) {
    var prefix := "// " + word + " (";
    && |prefix| + 3 <= |line| && prefix <= line && line[|line| - 2] == ')' && line[|line| - 1] == ':'
    && forall i :: |prefix| <= i < |line| - 2 ==> IsDecimal(line[i])
  }

  // "//", white space, a name, " @ 0x", digits and signs.
  function MatchRef(line: string): Option<(string, string)> {
    if !("//" <= line) then None
    else
      var i := Leading(line[2..], true);
      if i == 0 then None
      else
        var b := line[2..][i..];
        var j := Leading(b, false);
        if j == 0 then None else MatchAddress(b[..j], b[j..])
  }

  function MatchAddress(name: string, c: string): Option<(string, string)> {
    if !(" @ 0x" <= c) || |c| == 5 then None
    else if forall i :: 5 <= i < |c| ==> c[i] == '-' || DigitOf(c[i]).Some? then Some((name, c[5..]))
    else None
  }

  datatype Section = NoSection | Callers | Callees

  // What the parser sees in one line.
  datatype Kind = Opens(section: Section) | Listed(entry: Entry) | Closes | Other

  // Python's & with a mask of 64 ones.
  function Low64(x: int): int {
    x % TWO64
  }

  function Address(hex: string): Option<int> {
    var n := ParseInt(hex);
    if n.None? then None
    else if hex[..1] == "-" then Some(Low64(n.value + TWO64))
    else Some(Low64(n.value))
  }

  function Classify(line: string): Kind {
    if IsSectionLine("chamadores", line) then Opens(Callers)
    else if IsSectionLine("chamadas", line) then Opens(Callees)
    else if "//" <= line then
      var m := MatchRef(line);
      if m.None? || Address(m.value.1).None? then Other else Listed(Entry(m.value.0, Address(m.value.1).value))
    else if Leading(line, true) == |line| then Closes
    else Other
  }

  function Kinds(lines: seq<string>): (ks: seq<Kind>)
    ensures |ks| == |lines| && forall i :: 0 <= i < |lines| ==> ks[i] == Classify(lines[i])
  {
    seq(|lines|, i requires 0 <= i < |lines| => Classify(lines[i]))
  }

  datatype State = State(section: Section, callers: seq<Entry>, callees: seq<Entry>) {
    function Step(k: Kind): State {
      match k
      case Opens(s) => this.(section := s)
      case Closes => this.(section := NoSection)
      case Other => this
      case Listed(e) => AddAll([e])
    }

    function AddAll(es: seq<Entry>): State {
      match section
      case NoSection => this
      case Callers => this.(callers := callers + es)
      case Callees => this.(callees := callees + es)
    }
  }

  const START := State(NoSection, [], [])

  function Run(st: State, ks: seq<Kind>): State {
    if ks == [] then st else Run(st, ks[..|ks| - 1]).Step(ks[|ks| - 1])
  }

  /** What the parser returns for a file. */
  function Parse(lines: seq<string>): State {
    Run(START, Kinds(lines))
  }

  // ---------- the printed header ----------

  function RefLine(r: Ref): string {
    "//   " + r.name + (" @ 0x" + Hex16(r.offset))
  }

  function First(rs: seq<Ref>): seq<Ref> {
    if |rs| > LISTED then rs[..LISTED] else rs
  }

  function RefLines(rs: seq<Ref>): (ls: seq<string>)
    ensures |ls| == |rs| && forall i :: 0 <= i < |rs| ==> ls[i] == RefLine(rs[i])
  {
    seq(|rs|, i requires 0 <= i < |rs| => RefLine(rs[i]))
  }

  function SectionLine(word: string, n: nat): string {
    "// " + word + " (" + Digits(n, 10) + "):"
  }

  function OverflowLine(n: nat): string {
    "//   " + "..." + (" +" + Digits(n, 10) + " mais")
  }

  function SectionLines(word: string, rs: seq<Ref>): seq<string> {
    [SectionLine(word, |rs|)] + RefLines(First(rs)) +
    if |rs| > LISTED then [OverflowLine(|rs| - LISTED)] else []
  }

  const ORIGIN_LINE := "// Extraido" + " por Ghidra PyGhidra (consolidate_decompiled_lacunas.py)"
  const SCOPE_LINE := "// escopo:" + " lacuna MTS/GBE/ICC/glue identificada em testes ao vivo"

  function AddressLine(f: Ref, size: nat): string {
    "// addr: 0x" + (Hex16(f.offset) + "  name: " + f.name + "  size: " + Digits(size, 10))
  }

  function TitleLines(f: Ref, size: nat): seq<string> {
    [ORIGIN_LINE, AddressLine(f, size), SCOPE_LINE]
  }

  function Header(f: Ref, size: nat, callers: seq<Ref>, callees: seq<Ref>): seq<string> {
    TitleLines(f, size) + SectionLines("chamadores", callers) + SectionLines("chamadas", callees) + [""]
  }

  // ---------- reading back ----------

  predicate GoodName(name: string) {
    name != [] && forall i :: 0 <= i < |name| ==> !IsSpace(name[i])
  }

  function EntryOf(r: Ref): Entry {
    Entry(r.name, Low64(r.offset))
  }

  function Entries(rs: seq<Ref>): (es: seq<Entry>)
    ensures |es| == |rs| && forall i :: 0 <= i < |rs| ==> es[i] == EntryOf(rs[i])
  {
    seq(|rs|, i requires 0 <= i < |rs| => EntryOf(rs[i]))
  }

  lemma {:induction false} LeadingOf(a: string, b: string, space: bool)
    requires forall i :: 0 <= i < |a| ==> IsSpace(a[i]) == space
    requires b == [] || IsSpace(b[0]) != space
    ensures Leading(a + b, space) == |a|
  {
    if a == [] {
      assert a + b == b;
    } else {
      assert (a + b)[1..] == a[1..] + b;
      LeadingOf(a[1..], b, space);
    }
  }

  // A comment of three spaces, a word and something that starts with a space.
  lemma MatchWord(line: string, word: string, rest: string)
    requires line == "//   " + word + rest && GoodName(word) && rest != [] && rest[0] == ' '
    ensures MatchRef(line) == MatchAddress(word, rest)
    ensures !IsSectionLine("chamadores", line) && !IsSectionLine("chamadas", line)
    ensures "//" <= line
  {
    var tail := word + rest;
    assert line[2..] == "   " + tail;
    LeadingOf("   ", tail, true);
    assert line[2..][3..] == tail;
    LeadingOf(word, rest, false);
    assert tail[..|word|] == word && tail[|word|..] == rest;
    assert line[3] == ' ';
  }

  lemma Hex16Characters(x: int)
    ensures forall i :: 0 <= i < |Hex16(x)| ==> Hex16(x)[i] == '-' || DigitOf(Hex16(x)[i]).Some?
  {
    var n := if x >= 0 then x else -x;
    var width := if x >= 0 then 16 else 15;
    DigitsValue(n);
    ZeroFillValue(Digits(n, 16), width);
  }

  lemma AddressMatches(name: string, rest: string, x: int)
    requires rest == " @ 0x" + Hex16(x)
    ensures MatchAddress(name, rest) == Some((name, Hex16(x)))
  {
    Hex16Characters(x);
    assert rest[5..] == Hex16(x);
    assert forall i :: 5 <= i < |rest| ==> rest[i] == Hex16(x)[i - 5];
  }

  lemma LowShift(x: int)
    ensures Low64(x + TWO64) == Low64(x)
  {
  }

  lemma AddressAt(hex: string, x: int)
    requires ParseInt(hex) == Some(x) && hex != []
    ensures Address(hex) == Some(Low64(x))
  {
    LowShift(x);
  }

  /** The unsigned address equals the signed one modulo 2^64, for the "0x-..." form too. */
  lemma AddressOf(x: int)
    ensures Address(Hex16(x)) == Some(Low64(x))
    ensures 0 <= Low64(x) < 0x1_0000_0000_0000_0000 && (Low64(x) - x) % 0x1_0000_0000_0000_0000 == 0
    ensures 0 <= x < 0x1_0000_0000_0000_0000 ==> Low64(x) == x
  {
    Hex16RoundTrip(x);
    AddressAt(Hex16(x), x);
    LowBits(x);
  }

  lemma LowBits(x: int)
    ensures 0 <= Low64(x) < 0x1_0000_0000_0000_0000 && (Low64(x) - x) % 0x1_0000_0000_0000_0000 == 0
    ensures 0 <= x < 0x1_0000_0000_0000_0000 ==> Low64(x) == x
  {
  }

  lemma GoodLineRead(line: string, r: Ref)
    requires line == RefLine(r) && GoodName(r.name)
    ensures Classify(line) == Listed(EntryOf(r))
  {
    var rest := " @ 0x" + Hex16(r.offset);
    MatchWord(line, r.name, rest);
    AddressMatches(r.name, rest, r.offset);
    AddressOf(r.offset);
  }

  // Only a name without white space is ever read.
  lemma MatchedName(line: string)
    ensures MatchRef(line).Some? ==> GoodName(MatchRef(line).value.0)
  {
  }

  /** A printed reference line is read as its function with the unsigned address exactly when the name is not empty and
      free of white space. */
  lemma RefLineRead(line: string, r: Ref)
    requires line == RefLine(r)
    ensures Classify(line) == Listed(EntryOf(r)) <==> GoodName(r.name)
  {
    MatchedName(line);
    if GoodName(r.name) {
      GoodLineRead(line, r);
    }
  }

  lemma OverflowIgnored(line: string, n: nat)
    requires line == OverflowLine(n)
    ensures Classify(line) == Other
  {
    var rest := " +" + Digits(n, 10) + " mais";
    MatchWord(line, "...", rest);
    NoAddress("...", rest);
  }

  lemma NoAddress(name: string, rest: string)
    requires |rest| > 1 && rest[1] == '+'
    ensures MatchAddress(name, rest) == None
  {
    assert " @ 0x"[1] == '@';
  }

  lemma SectionLineRecognised(word: string, line: string, n: nat)
    requires line == SectionLine(word, n)
    ensures IsSectionLine(word, line)
  {
    var prefix, digits := "// " + word + " (", Digits(n, 10);
    DecimalDigits(n);
    assert line == prefix + digits + "):";
    assert forall i :: |prefix| <= i < |line| - 2 ==> line[i] == digits[i - |prefix|];
  }

  predicate IsWord(word: string) {
    word == "chamadores" || word == "chamadas"
  }

  function SectionOf(word: string): Section {
    if word == "chamadores" then Callers else Callees
  }

  lemma SectionOpens(word: string, line: string, n: nat)
    requires line == SectionLine(word, n) && IsWord(word)
    ensures Classify(line) == Opens(SectionOf(word))
  {
    SectionLineRecognised(word, line, n);
    assert ("// " + "chamadores" + " (")[9] == 'o';
    if word == "chamadas" {
      assert line[9] == 'a';
    }
  }

  lemma KindsConcat(a: seq<string>, b: seq<string>)
    ensures Kinds(a + b) == Kinds(a) + Kinds(b)
  {
  }

  function ListedAll(es: seq<Entry>): (ks: seq<Kind>)
    ensures |ks| == |es| && forall i :: 0 <= i < |es| ==> ks[i] == Listed(es[i])
  {
    seq(|es|, i requires 0 <= i < |es| => Listed(es[i]))
  }

  lemma RefLinesKinds(rs: seq<Ref>)
    requires forall i :: 0 <= i < |rs| ==> GoodName(rs[i].name)
    ensures Kinds(RefLines(rs)) == ListedAll(Entries(rs))
  {
    forall i | 0 <= i < |rs|
      ensures Classify(RefLine(rs[i])) == Listed(EntryOf(rs[i]))
    {
      RefLineRead(RefLine(rs[i]), rs[i]);
    }
  }

  // A printed section: it opens, lists the first 20, and the overflow line is nothing.
  lemma SectionKinds(word: string, rs: seq<Ref>)
    requires IsWord(word) && forall i :: 0 <= i < |First(rs)| ==> GoodName(First(rs)[i].name)
    ensures Kinds(SectionLines(word, rs)) ==
      [Opens(SectionOf(word))] + ListedAll(Entries(First(rs))) + if |rs| > LISTED then [Other] else []
  {
    var head, refs := SectionLine(word, |rs|), RefLines(First(rs));
    var more := if |rs| > LISTED then [OverflowLine(|rs| - LISTED)] else [];
    SectionOpens(word, head, |rs|);
    RefLinesKinds(First(rs));
    if |rs| > LISTED {
      OverflowIgnored(more[0], |rs| - LISTED);
    }
    KindsOfParts(head, refs, more);
  }

  lemma KindsOne(line: string)
    ensures Kinds([line]) == [Classify(line)]
  {
  }

  lemma KindsOfParts(head: string, refs: seq<string>, more: seq<string>)
    ensures Kinds([head] + refs + more) == [Classify(head)] + Kinds(refs) + Kinds(more)
    ensures |more| == 1 ==> Kinds(more) == [Classify(more[0])]
  {
    KindsOne(head);
    KindsConcat([head], refs);
    KindsConcat([head] + refs, more);
    if |more| == 1 {
      KindsOne(more[0]);
      assert more == [more[0]];
    }
  }

  // ---------- runs over kinds ----------

  lemma {:induction false} RunConcat(st: State, a: seq<Kind>, b: seq<Kind>)
    ensures Run(st, a + b) == Run(Run(st, a), b)
  {
    if b == [] {
      assert a + b == a;
    } else {
      assert (a + b)[..|a + b| - 1] == a + b[..|b| - 1];
      RunConcat(st, a, b[..|b| - 1]);
    }
  }

  lemma RunOne(st: State, k: Kind)
    ensures Run(st, [k]) == st.Step(k)
  {
    assert [k][..0] == [];
  }

  lemma {:induction false} RunListed(st: State, es: seq<Entry>)
    requires st.section != NoSection
    ensures Run(st, ListedAll(es)) == st.AddAll(es)
  {
    if es != [] {
      var n := |es| - 1;
      RunListed(st, es[..n]);
      assert ListedAll(es)[..n] == ListedAll(es[..n]);
      assert es == es[..n] + [es[n]];
    } else {
      assert st.callers + [] == st.callers && st.callees + [] == st.callees;
    }
  }

  lemma RunSection(st: State, section: Section, es: seq<Entry>, more: bool)
    requires section != NoSection
    ensures Run(st, [Opens(section)] + ListedAll(es) + if more then [Other] else []) ==
      st.(section := section).AddAll(es)
  {
    var ks := [Opens(section)] + ListedAll(es);
    RunOne(st, Opens(section));
    RunConcat(st, [Opens(section)], ListedAll(es));
    RunListed(st.(section := section), es);
    if more {
      RunConcat(st, ks, [Other]);
      RunOne(Run(st, ks), Other);
    } else {
      assert ks + [] == ks;
    }
  }

  lemma {:induction false} OutsideAddsNothing(st: State, ks: seq<Kind>)
    requires st.section == NoSection && forall i :: 0 <= i < |ks| ==> !ks[i].Opens?
    ensures Run(st, ks) == st
  {
    if ks != [] {
      OutsideAddsNothing(st, ks[..|ks| - 1]);
    }
  }

  // ---------- what follows the header ----------

  function SectionAfter(ks: seq<Kind>): Section {
    if ks == [] then NoSection
    else
      match ks[|ks| - 1]
      case Opens(s) => s
      case Closes => NoSection
      case _ => SectionAfter(ks[..|ks| - 1])
  }

  /** No reference line stands behind an open section. */
  ghost predicate Quiet(ks: seq<Kind>) {
    forall i :: 0 <= i < |ks| && ks[i].Listed? ==> SectionAfter(ks[..i]) == NoSection
  }

  lemma QuietFront(ks: seq<Kind>, k: Kind)
    ensures Quiet(ks + [k]) <==> Quiet(ks) && (k.Listed? ==> SectionAfter(ks) == NoSection)
  {
    var all := ks + [k];
    assert forall i :: 0 <= i <= |ks| ==> all[..i] == ks[..i];
    assert ks[..|ks|] == ks && all[|ks|] == k;
    assert forall i :: 0 <= i < |ks| ==> all[i] == ks[i];
  }

  /** From no section on, lines add nothing exactly when they are quiet. */
  lemma {:induction false} QuietAddsNothing(st: State, ks: seq<Kind>)
    requires st.section == NoSection
    ensures var r := Run(st, ks);
      && r.section == SectionAfter(ks)
      && |r.callers| + |r.callees| >= |st.callers| + |st.callees|
      && (Quiet(ks) ==> r.callers == st.callers && r.callees == st.callees)
      && (!Quiet(ks) ==> |r.callers| + |r.callees| > |st.callers| + |st.callees|)
  {
    if ks != [] {
      var front, k := ks[..|ks| - 1], ks[|ks| - 1];
      assert ks == front + [k];
      QuietAddsNothing(st, front);
      QuietFront(front, k);
    }
  }

  // ---------- the round trip ----------

  lemma NotASection(start: string, rest: string)
    requires |start| > 3 && start[3] != 'c'
    ensures !Classify(start + rest).Opens?
  {
    assert ("// " + "chamadores" + " (")[3] == 'c' && ("// " + "chamadas" + " (")[3] == 'c';
    assert (start + rest)[3] == start[3];
  }

  lemma TitleOpensNothing(f: Ref, size: nat)
    ensures forall i :: 0 <= i < 3 ==> !Kinds(TitleLines(f, size))[i].Opens?
  {
    NotASection("// Extraido", " por Ghidra PyGhidra (consolidate_decompiled_lacunas.py)");
    NotASection("// addr: 0x", Hex16(f.offset) + "  name: " + f.name + "  size: " + Digits(size, 10));
    NotASection("// escopo:", " lacuna MTS/GBE/ICC/glue identificada em testes ao vivo");
  }

  /** Parsing what the extractor writes returns the first 20 callers and callees in order, each address equal modulo
      2^64 to the signed one, exactly when no reference line of the code behind the header stands in an open section. */
  lemma HeaderRoundTrip(f: Ref, size: nat, callers: seq<Ref>, callees: seq<Ref>, body: seq<string>)
    requires forall i :: 0 <= i < |First(callers)| ==> GoodName(First(callers)[i].name)
    requires forall i :: 0 <= i < |First(callees)| ==> GoodName(First(callees)[i].name)
    ensures var r := Parse(Header(f, size, callers, callees) + body);
      r.callers == Entries(First(callers)) && r.callees == Entries(First(callees)) <==> Quiet(Kinds(body))
  {
    var header := Header(f, size, callers, callees);
    var st := State(NoSection, Entries(First(callers)), Entries(First(callees)));
    HeaderParses(f, size, callers, callees);
    KindsConcat(header, body);
    RunConcat(START, Kinds(header), Kinds(body));
    QuietAddsNothing(st, Kinds(body));
  }

  lemma HeaderParses(f: Ref, size: nat, callers: seq<Ref>, callees: seq<Ref>)
    requires forall i :: 0 <= i < |First(callers)| ==> GoodName(First(callers)[i].name)
    requires forall i :: 0 <= i < |First(callees)| ==> GoodName(First(callees)[i].name)
    ensures Parse(Header(f, size, callers, callees)) ==
      State(NoSection, Entries(First(callers)), Entries(First(callees)))
  {
    var title, a, b := TitleLines(f, size), SectionLines("chamadores", callers), SectionLines("chamadas", callees);
    KindsConcat(title + a + b, [""]);
    KindsConcat(title + a, b);
    KindsConcat(title, a);
    SectionKinds("chamadores", callers);
    SectionKinds("chamadas", callees);
    TitleOpensNothing(f, size);
    assert Kinds([""]) == [Closes];
    RunAll(Kinds(title), Kinds(a), Kinds(b), Entries(First(callers)), Entries(First(callees)), |callers| > LISTED,
      |callees| > LISTED);
  }

  lemma RunFirst(title: seq<Kind>, a: seq<Kind>, es: seq<Entry>, more: bool)
    requires forall i :: 0 <= i < |title| ==> !title[i].Opens?
    requires a == [Opens(Callers)] + ListedAll(es) + if more then [Other] else []
    ensures Run(START, title + a) == State(Callers, es, [])
  {
    OutsideAddsNothing(START, title);
    RunConcat(START, title, a);
    RunSection(START, Callers, es, more);
    assert [] + es == es;
  }

  lemma RunSecond(front: seq<Kind>, b: seq<Kind>, es: seq<Entry>, fs: seq<Entry>, more: bool)
    requires Run(START, front) == State(Callers, es, [])
    requires b == [Opens(Callees)] + ListedAll(fs) + if more then [Other] else []
    ensures Run(START, front + b) == State(Callees, es, fs)
  {
    RunConcat(START, front, b);
    RunSection(State(Callers, es, []), Callees, fs, more);
    assert [] + fs == fs;
  }

  lemma RunAll(title: seq<Kind>, a: seq<Kind>, b: seq<Kind>, es: seq<Entry>, fs: seq<Entry>, moreA: bool, moreB: bool)
    requires forall i :: 0 <= i < |title| ==> !title[i].Opens?
    requires a == [Opens(Callers)] + ListedAll(es) + if moreA then [Other] else []
    requires b == [Opens(Callees)] + ListedAll(fs) + if moreB then [Other] else []
    ensures Run(START, title + a + b + [Closes]) == State(NoSection, es, fs)
  {
    var both := title + a + b;
    RunFirst(title, a, es, moreA);
    RunSecond(title + a, b, es, fs, moreB);
    RunConcat(START, both, [Closes]);
    RunOne(Run(START, both), Closes);
  }

  // ---------- the code ----------

  // Writes one line for each reference, in the given format.
  method WriteRefs(format: Ref -> string, refs: seq<Ref>) returns (out: seq<string>)
    ensures |out| == |refs| && forall k :: 0 <= k < |refs| ==> out[k] == format(refs[k])
  {
    out := [];
    for i := 0 to |refs|
      invariant |out| == i && forall k :: 0 <= k < i ==> out[k] == format(refs[k])
    {
      out := out + [format(refs[i])];
    }
  }

  method WriteSection(word: string, refs: seq<Ref>) returns (out: seq<string>)
    ensures out == SectionLines(word, refs)
  {
    out := [SectionLine(word, |refs|)];
    var listed := WriteRefs(RefLine, if |refs| > LISTED then refs[..LISTED] else refs);
    assert listed == RefLines(First(refs));
    out := out + listed;
    if |refs| > LISTED {
      out := out + [OverflowLine(|refs| - LISTED)];
    }
  }

  /** The writes of the extractor, one list element a line. */
  method WriteHeader(f: Ref, size: nat, callers: seq<Ref>, callees: seq<Ref>) returns (out: seq<string>)
    ensures out == Header(f, size, callers, callees)
  {
    out := [ORIGIN_LINE];
    out := out + [AddressLine(f, size)];
    out := out + [SCOPE_LINE];
    var section := WriteSection("chamadores", callers);
    out := out + section;
    section := WriteSection("chamadas", callees);
    out := out + section;
    out := out + [""];
  }

  method ParseCallersCallees(lines: seq<string>) returns (callers: seq<Entry>, callees: seq<Entry>)
    ensures callers == Parse(lines).callers && callees == Parse(lines).callees
  {
    callers, callees := [], [];
    var section := NoSection;
    ghost var ks := Kinds(lines);
    for i := 0 to |lines|
      invariant State(section, callers, callees) == Run(START, ks[..i])
    {
      var line := lines[i];
      assert ks[..i + 1][..i] == ks[..i];
      if IsSectionLine("chamadores", line) {
        section := Callers;
        continue;
      }
      if IsSectionLine("chamadas", line) {
        section := Callees;
        continue;
      }
      if "//" <= line {
        var m := MatchRef(line);
        if m.Some? && section != NoSection {
          var addr := Address(m.value.1);
          if addr.None? {
            continue;
          }
          var entry := Entry(m.value.0, addr.value);
          if section == Callers {
            callers := callers + [entry];
          } else {
            callees := callees + [entry];
          }
        }
        continue;
      }
      if Leading(line, true) == |line| {
        section := NoSection;
      }
    }
    assert ks[..|lines|] == ks;
  }
}
