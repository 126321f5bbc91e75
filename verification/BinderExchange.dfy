/** The binder exchange files of msp430-elf-adabind: the line-based parser, the
    printer, and the rewrite of .ali dependencies into object files. */
module BinderExchange {

  import opened Options

  /** One entry of the ordered dictionary of sections. */
  datatype Section = Section(name: string, entries: seq<string>)

  // ---- text ----

  /** The characters str.strip removes. */
  predicate IsSpace(c: char) {
    var n := c as int;
    || 0x09 <= n <= 0x0d || 0x1c <= n <= 0x20 || n == 0x85 || n == 0xa0 || n == 0x1680
    || 0x2000 <= n <= 0x200a || n == 0x2028 || n == 0x2029 || n == 0x202f || n == 0x205f || n == 0x3000
  }

  function StripLeft(s: string): string {
    if s != [] && IsSpace(s[0]) then StripLeft(s[1..]) else s
  }

  function StripRight(s: string): string {
    if s != [] && IsSpace(s[|s| - 1]) then StripRight(s[..|s| - 1]) else s
  }

  function Strip(s: string): string { StripRight(StripLeft(s)) }

  predicate Trimmed(s: string) { s == [] || (!IsSpace(s[0]) && !IsSpace(s[|s| - 1])) }

  /** Free of line ends, in the sense of Python's text files. */
  predicate OneLine(s: string) { '\n' !in s && '\r' !in s }

  /** Universal newlines: what reading a text file makes of its line ends. */
  function Translate(text: string): string {
    if text == [] then []
    else if text[0] == '\r' then
      if |text| > 1 && text[1] == '\n' then ['\n'] + Translate(text[2..]) else ['\n'] + Translate(text[1..])
    else [text[0]] + Translate(text[1..])
  }

  /** The lines of a text; a last one without a line end counts unless empty. */
  function Lines(text: string): seq<string> {
    if text == [] then []
    else if text[0] == '\n' then [[]] + Lines(text[1..])
    else
      var rest := Lines(text[1..]);
      if rest == [] then [[text[0]]] else [[text[0]] + rest[0]] + rest[1..]
  }

  // ---- the parser ----

  predicate Distinct(s: seq<Section>) {
    forall i, j :: 0 <= i < j < |s| ==> s[i].name != s[j].name
  }

  /** Where a section is, or the length if there is none of that name. */
  function Find(s: seq<Section>, name: string): (i: nat)
    ensures i <= |s| && (i < |s| ==> s[i].name == name)
    ensures forall j :: 0 <= j < i ==> s[j].name != name
  {
    if s == [] then 0 else if s[0].name == name then 0 else 1 + Find(s[1..], name)
  }

  /** A section has been begun: a known one keeps its place and loses its entries,
      a new one comes last, and the others are as before. */
  predicate Begun(before: seq<Section>, after: seq<Section>, name: string) {
    var i := Find(before, name);
    && Find(after, name) == i < |after| && after[i] == Section(name, [])
    && |after| == (if i < |before| then |before| else |before| + 1)
    && forall j :: 0 <= j < |before| && j != i ==> after[j] == before[j]
  }

  /** A line has gone to the last section begun, if there is one with a name, and
      to no other. */
  predicate Appended(before: seq<Section>, after: seq<Section>, last: Option<string>, line: string) {
    && |after| == |before|
    && forall j :: 0 <= j < |before| ==>
      && after[j].name == before[j].name
      && after[j].entries ==
         if Some(before[j].name) == last && before[j].name != "" && j == Find(before, before[j].name)
         then before[j].entries + [line] else before[j].entries
  }

  /** sections[name] = []. */
  function Begin(s: seq<Section>, name: string): (r: seq<Section>)
    ensures Distinct(s) ==> Distinct(r)
    ensures Begun(s, r, name)
  {
    var i := Find(s, name);
    var r := if i < |s| then s[i := Section(name, [])] else s + [Section(name, [])];
    assert r[i].name == name && Find(r, name) == i;
    r
  }

  /** sections[last].append(line); the empty name counts as no section. */
  function Append(s: seq<Section>, last: Option<string>, line: string): (r: seq<Section>)
    ensures Distinct(s) ==> Distinct(r)
    ensures Appended(s, r, last, line)
  {
    if last.Some? && last.value != "" && Find(s, last.value) < |s| then
      var i := Find(s, last.value);
      s[i := Section(last.value, s[i].entries + [line])]
    else s
  }

  /** line[0] == '[' and line[-1] == ']'; Python's index error on an empty line is
      the caller's case. */
  predicate IsSectionHeader(line: string)
    requires line != []
  {
    line[0] == '[' && line[|line| - 1] == ']'
  }

  datatype Parse = Parse(sections: seq<Section>, last: Option<string>)

  function Feed(p: Parse, line: string): Parse
    requires line != []
  {
    if IsSectionHeader(line) then
      var name := line[1..][..|line| - 2];
      Parse(Begin(p.sections, name), Some(name))
    else Parse(Append(p.sections, p.last, line), p.last)
  }

  /** The parser on a list of lines; None is the index error of an empty line. */
  function ReadLines(lines: seq<string>): Option<Parse> {
    if lines == [] then Some(Parse([], None))
    else
      var n := |lines| - 1;
      match ReadLines(lines[..n])
      case None => None
      case Some(p) => if Strip(lines[n]) == [] then None else Some(Feed(p, Strip(lines[n])))
  }

  datatype Outcome<T> = Ok(value: T) | IndexError | KeyError

  function Read(text: string): Outcome<seq<Section>> {
    match ReadLines(Lines(Translate(text)))
    case None => IndexError
    case Some(p) => Ok(p.sections)
  }

  // ---- the printer ----

  function Header(name: string): string { "[" + name + "]" }

  function SectionLines(s: Section): seq<string> { [Header(s.name)] + s.entries }

  function WriteLines(s: seq<Section>): seq<string> {
    if s == [] then [] else WriteLines(s[..|s| - 1]) + SectionLines(s[|s| - 1])
  }

  /** Lines with their line ends. */
  function Text(lines: seq<string>): string {
    if lines == [] then [] else Text(lines[..|lines| - 1]) + lines[|lines| - 1] + ['\n']
  }

  function Write(s: seq<Section>): string { Text(WriteLines(s)) }

  // ---- well-formed data ----

  /** An entry that comes back as itself. */
  predicate EntryOk(e: string) {
    e != [] && Trimmed(e) && OneLine(e) && !IsSectionHeader(e)
  }

  predicate SectionOk(s: Section) {
    && OneLine(s.name)
    && (s.name == "" ==> s.entries == [])
    && forall i :: 0 <= i < |s.entries| ==> EntryOk(s.entries[i])
  }

  predicate WellFormed(s: seq<Section>) {
    Distinct(s) && forall i :: 0 <= i < |s| ==> SectionOk(s[i])
  }

  // ---- stripping ----

  lemma {:induction false} StripLeftFacts(s: string)
    ensures StripLeft(s) == [] || !IsSpace(StripLeft(s)[0])
    ensures forall c :: c in StripLeft(s) ==> c in s
    ensures s == [] || !IsSpace(s[0]) ==> StripLeft(s) == s
  {
    if s != [] && IsSpace(s[0]) {
      StripLeftFacts(s[1..]);
    }
  }

  lemma {:induction false} StripRightFacts(s: string)
    ensures StripRight(s) == [] || !IsSpace(StripRight(s)[|StripRight(s)| - 1])
    ensures StripRight(s) <= s
    ensures s == [] || !IsSpace(s[|s| - 1]) ==> StripRight(s) == s
  {
    if s != [] && IsSpace(s[|s| - 1]) {
      StripRightFacts(s[..|s| - 1]);
    }
  }

  /** Stripping trims, adds no character, and leaves trimmed text alone. */
  lemma StripFacts(s: string)
    ensures Trimmed(Strip(s))
    ensures forall c :: c in Strip(s) ==> c in s
    ensures Trimmed(s) ==> Strip(s) == s
  {
    StripLeftFacts(s);
    StripRightFacts(StripLeft(s));
  }

  lemma {:induction false} StripLeftSplits(s: string) returns (a: string)
    ensures s == a + StripLeft(s) && forall c :: c in a ==> IsSpace(c)
  {
    a := [];
    if s != [] && IsSpace(s[0]) {
      a := StripLeftSplits(s[1..]);
      a := [s[0]] + a;
    }
  }

  lemma {:induction false} StripRightSplits(s: string) returns (b: string)
    ensures s == StripRight(s) + b && forall c :: c in b ==> IsSpace(c)
  {
    b := [];
    if s != [] && IsSpace(s[|s| - 1]) {
      b := StripRightSplits(s[..|s| - 1]);
      b := b + [s[|s| - 1]];
    }
  }

  /** Stripping takes white space off both ends and nothing else. */
  lemma StripSplits(s: string) returns (a: string, b: string)
    ensures s == a + Strip(s) + b && Trimmed(Strip(s))
    ensures forall c :: c in a || c in b ==> IsSpace(c)
  {
    hide StripLeft, StripRight, IsSpace;
    a := StripLeftSplits(s);
    b := StripRightSplits(StripLeft(s));
    StripFacts(s);
  }

  /** The characters for which Python's str.isspace holds. */
  lemma WhiteSpace(c: char)
    ensures IsSpace(c) <==>
      c as int in {0x09, 0x0a, 0x0b, 0x0c, 0x0d, 0x1c, 0x1d, 0x1e, 0x1f, 0x20, 0x85, 0xa0, 0x1680,
                   0x2000, 0x2001, 0x2002, 0x2003, 0x2004, 0x2005, 0x2006, 0x2007, 0x2008, 0x2009, 0x200a,
                   0x2028, 0x2029, 0x202f, 0x205f, 0x3000}
  {}

  // ---- lines and text ----

  /** Universal newlines: a carriage return, alone or before a line feed, becomes a
      line feed, and everything else stays. */
  lemma TranslateReturns(a: string, b: string)
    requires '\r' !in a
    ensures Translate(a) == a
    ensures Translate(a + ("\r\n" + b)) == a + ("\n" + Translate(b))
    ensures b == [] || b[0] != '\n' ==> Translate(a + ("\r" + b)) == a + ("\n" + Translate(b))
  {
    hide Translate;
    TranslateRuns(a, []);
    ReturnFirst(b);
    assert a + [] == a;
    TranslateRuns(a, "\r\n" + b);
    TranslateRuns(a, "\r" + b);
  }

  lemma ReturnFirst(b: string)
    ensures Translate([]) == []
    ensures Translate("\r\n" + b) == "\n" + Translate(b)
    ensures b == [] || b[0] != '\n' ==> Translate("\r" + b) == "\n" + Translate(b)
  {
    assert ("\r\n" + b)[2..] == b;
    assert ("\r" + b)[1..] == b;
  }

  /** The text with a line end after its last line. */
  function Ended(text: string): string {
    if text == [] || text[|text| - 1] == '\n' then text else text + ['\n']
  }

  lemma EndedStep(text: string)
    requires text != []
    ensures Ended(text) == [text[0]] + (if text[1..] == [] && text[0] != '\n' then ['\n'] else Ended(text[1..]))
  {}

  /** The lines of a text put together again are the text, but for a line end after
      the last of them. */
  lemma {:induction false} LinesMakeText(text: string)
    ensures Text(Lines(text)) == Ended(text)
    ensures forall i :: 0 <= i < |Lines(text)| ==> '\n' !in Lines(text)[i]
  {
    hide Text, Ended;
    NoText();
    if text == [] {
      NothingEnded();
    } else {
      var c, rest := text[0], Lines(text[1..]);
      LinesMakeText(text[1..]);
      EndedStep(text);
      SomeLine(text[1..]);
      if c == '\n' {
        TextOfFirst([], rest);
      } else if rest == [] {
        TextOfFirst([c], []);
        assert [[c]] + [] == [[c]];
      } else {
        LongerLine(c, rest);
      }
    }
  }

  lemma NothingEnded()
    ensures Ended([]) == []
  {}

  lemma SomeLine(text: string)
    ensures Lines(text) == [] <==> text == []
  {}

  lemma LongerLine(c: char, lines: seq<string>)
    requires lines != []
    ensures Text([[c] + lines[0]] + lines[1..]) == [c] + Text(lines)
  {
    hide Text;
    TextOfFirst(lines[0], lines[1..]);
    TextOfFirst([c] + lines[0], lines[1..]);
    assert [lines[0]] + lines[1..] == lines;
  }

  lemma NoText()
    ensures Text([]) == []
  {}

  lemma {:induction false} TextOfFirst(line: string, lines: seq<string>)
    ensures Text([line] + lines) == line + ['\n'] + Text(lines)
  {
    hide Text;
    NoText();
    if lines == [] {
      TextOfMore([], line);
      assert [line] + lines == [] + [line];
    } else {
      var n := |lines| - 1;
      TextOfFirst(line, lines[..n]);
      TextOfMore(lines[..n], lines[n]);
      TextOfMore([line] + lines[..n], lines[n]);
      assert lines[..n] + [lines[n]] == lines;
      assert [line] + lines[..n] + [lines[n]] == [line] + lines;
    }
  }

  lemma {:induction false} TranslateRuns(a: string, b: string)
    requires '\r' !in a
    ensures Translate(a + b) == a + Translate(b)
  {
    if a == [] {
      assert a + b == b;
    } else {
      assert (a + b)[1..] == a[1..] + b;
      assert a[0] in a;
      TranslateRuns(a[1..], b);
    }
  }

  lemma {:induction false} LinesOfLine(line: string, rest: string)
    requires '\n' !in line
    ensures Lines(line + ['\n'] + rest) == [line] + Lines(rest)
  {
    var text := line + ['\n'] + rest;
    if line == [] {
      assert text[1..] == rest;
    } else {
      assert text[1..] == line[1..] + ['\n'] + rest;
      assert line[0] in line;
      LinesOfLine(line[1..], rest);
      assert [line[0]] + line[1..] == line;
    }
  }

  /** Text and Lines are inverse on lines without line ends. */
  lemma {:induction false} LinesOfText(lines: seq<string>, rest: string)
    requires forall i :: 0 <= i < |lines| ==> OneLine(lines[i])
    ensures Lines(Text(lines) + rest) == lines + Lines(rest)
  {
    hide Lines;
    if lines == [] {
      assert Text(lines) + rest == rest;
    } else {
      var n := |lines| - 1;
      var line := lines[n];
      assert Text(lines) + rest == Text(lines[..n]) + (line + ['\n'] + rest);
      LinesOfText(lines[..n], line + ['\n'] + rest);
      LinesOfLine(line, rest);
      assert lines == lines[..n] + [line];
    }
  }

  lemma {:induction false} TextHasNoReturn(lines: seq<string>)
    requires forall i :: 0 <= i < |lines| ==> OneLine(lines[i])
    ensures '\r' !in Text(lines)
  {
    if lines != [] {
      TextHasNoReturn(lines[..|lines| - 1]);
    }
  }

  lemma TextComesBack(lines: seq<string>)
    requires forall i :: 0 <= i < |lines| ==> OneLine(lines[i])
    ensures Lines(Translate(Text(lines))) == lines
  {
    TextHasNoReturn(lines);
    TranslateRuns(Text(lines), []);
    assert Text(lines) + [] == Text(lines);
    LinesOfText(lines, []);
  }

  lemma {:induction false} TranslateHasNoReturn(text: string)
    ensures '\r' !in Translate(text)
  {
    if text != [] {
      if text[0] == '\r' && |text| > 1 && text[1] == '\n' {
        TranslateHasNoReturn(text[2..]);
      } else {
        TranslateHasNoReturn(text[1..]);
      }
    }
  }

  lemma {:induction false} LinesAreLines(text: string)
    requires '\r' !in text
    ensures forall i :: 0 <= i < |Lines(text)| ==> OneLine(Lines(text)[i])
  {
    if text != [] {
      LinesAreLines(text[1..]);
      assert text[0] in text;
    }
  }

  // ---- what is read is well formed ----

  predicate LastOk(p: Parse) {
    p.last.Some? ==> Find(p.sections, p.last.value) < |p.sections|
  }

  lemma BeginKeeps(s: seq<Section>, name: string)
    requires WellFormed(s) && OneLine(name)
    ensures WellFormed(Begin(s, name)) && LastOk(Parse(Begin(s, name), Some(name)))
  {
    var r := Begin(s, name);
    var i := Find(s, name);
    assert r[i].name == name;
  }

  lemma AppendKeeps(s: seq<Section>, last: Option<string>, line: string)
    requires WellFormed(s) && EntryOk(line) && LastOk(Parse(s, last))
    ensures WellFormed(Append(s, last, line)) && LastOk(Parse(Append(s, last, line), last))
  {
    hide Appended, Trimmed, OneLine;
    if last.Some? {
      var i := Find(s, last.value);
      assert Append(s, last, line)[i].name == last.value;
    }
  }

  lemma {:induction false} ReadLinesWellFormed(lines: seq<string>)
    requires forall i :: 0 <= i < |lines| ==> OneLine(lines[i])
    ensures ReadLines(lines).Some? ==> WellFormed(ReadLines(lines).value.sections) && LastOk(ReadLines(lines).value)
  {
    hide WellFormed, LastOk, Begin, Append, Begun, Appended, Strip, Trimmed, Find;
    if lines == [] {
      NothingReadIsOk();
    } else {
      var n := |lines| - 1;
      ReadLinesWellFormed(lines[..n]);
      StripFacts(lines[n]);
      if ReadLines(lines).Some? {
        var p, line := ReadLines(lines[..n]).value, Strip(lines[n]);
        if IsSectionHeader(line) {
          BeginKeeps(p.sections, line[1..][..|line| - 2]);
        } else {
          AppendKeeps(p.sections, p.last, line);
        }
      }
    }
  }

  lemma NothingReadIsOk()
    ensures WellFormed([]) && LastOk(Parse([], None))
  {}

  /** Whatever the file, what is read from it is well formed. */
  lemma ReadIsWellFormed(text: string)
    ensures Read(text).Ok? ==> WellFormed(Read(text).value)
  {
    TranslateHasNoReturn(text);
    LinesAreLines(Translate(text));
    ReadLinesWellFormed(Lines(Translate(text)));
  }

  // ---- what is written comes back ----

  lemma HeaderComesBack(name: string)
    requires OneLine(name)
    ensures Header(name) != [] && OneLine(Header(name)) && Trimmed(Header(name)) && IsSectionHeader(Header(name))
    ensures Header(name)[1..][..|Header(name)| - 2] == name
  {}

  lemma FindInPrefix(s: seq<Section>, k: nat)
    requires Distinct(s) && k < |s|
    ensures Find(s[..k], s[k].name) == k
  {
    assert forall i :: 0 <= i < k ==> s[..k][i].name == s[i].name;
  }

  lemma ReadOneMore(lines: seq<string>, line: string)
    requires ReadLines(lines).Some? && line != [] && Trimmed(line)
    ensures ReadLines(lines + [line]) == Some(Feed(ReadLines(lines).value, line))
  {
    assert (lines + [line])[..|lines|] == lines;
    StripFacts(line);
  }

  /** What one more line that is not blank does: in brackets it begins the section of
      that name, otherwise it goes to the last section begun. */
  lemma LineRead(lines: seq<string>, p: Parse, line: string, t: string) returns (q: Parse)
    requires ReadLines(lines) == Some(p) && t == Strip(line) && t != []
    ensures ReadLines(lines + [line]) == Some(q)
    ensures forall name :: t == "[" + name + "]" ==> q.last == Some(name) && Begun(p.sections, q.sections, name)
    ensures t[0] != '[' || t[|t| - 1] != ']' ==> q.last == p.last && Appended(p.sections, q.sections, p.last, t)
  {
    hide Begun, Appended, Strip, Find, Feed;
    assert (lines + [line])[..|lines|] == lines;
    FedLine(p, t);
    q := Feed(p, t);
  }

  lemma FedLine(p: Parse, t: string)
    requires t != []
    ensures var q := Feed(p, t);
      && (forall name :: t == "[" + name + "]" ==> q.last == Some(name) && Begun(p.sections, q.sections, name))
      && (t[0] != '[' || t[|t| - 1] != ']' ==> q.last == p.last && Appended(p.sections, q.sections, p.last, t))
  {
    hide Begun, Appended;
    forall name | t == "[" + name + "]" ensures IsSectionHeader(t) && |t| >= 2 && t[1..][..|t| - 2] == name {
      assert t[1..] == name + "]";
    }
  }

  lemma EntriesOkPrefix(s: Section, n: nat)
    requires SectionOk(s) && n < |s.entries|
    ensures SectionOk(Section(s.name, s.entries[..n])) && EntryOk(s.entries[n]) && s.name != ""
  {
    hide EntryOk;
  }

  lemma FeedEntry(before: seq<Section>, name: string, entries: seq<string>, line: string)
    requires Find(before, name) == |before| && name != "" && EntryOk(line)
    ensures Feed(Parse(before + [Section(name, entries)], Some(name)), line)
         == Parse(before + [Section(name, entries + [line])], Some(name))
  {
    AppendToLast(before, name, entries, line);
  }

  /** Entries of one section, one after the other. */
  lemma {:induction false} ReadEntries(lines: seq<string>, before: seq<Section>, name: string, entries: seq<string>)
    requires ReadLines(lines) == Some(Parse(before + [Section(name, [])], Some(name)))
    requires Find(before, name) == |before| && SectionOk(Section(name, entries))
    ensures ReadLines(lines + entries) == Some(Parse(before + [Section(name, entries)], Some(name)))
  {
    hide ReadLines, SectionOk, Feed, Find, Trimmed, Append;
    if entries == [] {
      assert lines + entries == lines;
    } else {
      var n := |entries| - 1;
      EntriesOkPrefix(Section(name, entries), n);
      ReadEntries(lines, before, name, entries[..n]);
      ReadOneMore(lines + entries[..n], entries[n]);
      FeedEntry(before, name, entries[..n], entries[n]);
      assert lines + entries == lines + entries[..n] + [entries[n]];
      assert entries == entries[..n] + [entries[n]];
    }
  }

  lemma {:induction false} FindLast(before: seq<Section>, s: Section)
    requires Find(before, s.name) == |before|
    ensures Find(before + [s], s.name) == |before|
  {
    if before != [] {
      assert (before + [s])[1..] == before[1..] + [s];
      FindLast(before[1..], s);
    }
  }

  lemma AppendToLast(before: seq<Section>, name: string, entries: seq<string>, line: string)
    requires Find(before, name) == |before| && name != ""
    ensures Append(before + [Section(name, entries)], Some(name), line) == before + [Section(name, entries + [line])]
  {
    FindLast(before, Section(name, entries));
  }

  lemma FeedHeader(before: seq<Section>, last: Option<string>, name: string)
    requires OneLine(name) && Find(before, name) == |before|
    ensures Header(name) != [] && Trimmed(Header(name))
    ensures Feed(Parse(before, last), Header(name)) == Parse(before + [Section(name, [])], Some(name))
  {
    HeaderComesBack(name);
  }

  lemma WellFormedPrefix(s: seq<Section>)
    requires WellFormed(s) && s != []
    ensures WellFormed(s[..|s| - 1]) && SectionOk(s[|s| - 1]) && Distinct(s)
  {
    hide SectionOk;
  }

  lemma SectionLinesAreLines(s: Section)
    requires SectionOk(s)
    ensures OneLine(s.name) && forall i :: 0 <= i < |SectionLines(s)| ==> OneLine(SectionLines(s)[i])
  {
    HeaderComesBack(s.name);
  }

  lemma {:induction false} WriteLinesAreLines(s: seq<Section>)
    requires WellFormed(s)
    ensures forall i :: 0 <= i < |WriteLines(s)| ==> OneLine(WriteLines(s)[i])
  {
    if s != [] {
      hide WellFormed, SectionOk, OneLine, SectionLines;
      WellFormedPrefix(s);
      WriteLinesAreLines(s[..|s| - 1]);
      SectionLinesAreLines(s[|s| - 1]);
    }
  }

  /** One section after others with different names. */
  lemma ReadSection(lines: seq<string>, before: seq<Section>, last: Option<string>, s: Section)
    requires ReadLines(lines) == Some(Parse(before, last)) && Find(before, s.name) == |before| && SectionOk(s)
    ensures ReadLines(lines + SectionLines(s)) == Some(Parse(before + [s], Some(s.name)))
  {
    hide ReadLines, Feed, Find, Header, Trimmed, SectionOk;
    SectionLinesAreLines(s);
    FeedHeader(before, last, s.name);
    ReadOneMore(lines, Header(s.name));
    ReadEntries(lines + [Header(s.name)], before, s.name, s.entries);
    assert lines + SectionLines(s) == lines + [Header(s.name)] + s.entries;
  }

  lemma WriteLinesLast(s: seq<Section>)
    requires s != []
    ensures WriteLines(s) == WriteLines(s[..|s| - 1]) + SectionLines(s[|s| - 1])
  {}

  lemma EmptyComesBack()
    ensures ReadLines(WriteLines([])) == Some(Parse([], None))
  {}

  lemma {:induction false} WriteLinesRead(s: seq<Section>)
    requires WellFormed(s)
    ensures ReadLines(WriteLines(s)).Some? && ReadLines(WriteLines(s)).value.sections == s
  {
    hide *;
    if s == [] {
      EmptyComesBack();
    } else {
      var n := |s| - 1;
      WellFormedPrefix(s);
      WriteLinesRead(s[..n]);
      FindInPrefix(s, n);
      ReadSection(WriteLines(s[..n]), s[..n], ReadLines(WriteLines(s[..n])).value.last, s[n]);
      WriteLinesLast(s);
      assert s == s[..n] + [s[n]];
    }
  }

  /** Writing and reading back restores the sections, their order and their
      entries exactly when the data is well formed. */
  lemma RoundTrip(s: seq<Section>)
    requires Distinct(s)
    ensures Read(Write(s)) == Ok(s) <==> WellFormed(s)
  {
    if WellFormed(s) {
      WriteLinesRead(s);
      WriteLinesAreLines(s);
      TextComesBack(WriteLines(s));
    }
    ReadIsWellFormed(Write(s));
  }

  /** What was read once is restored by writing and reading again. */
  lemma ReadWriteRead(text: string)
    requires Read(text).Ok?
    ensures Read(Write(Read(text).value)) == Read(text)
  {
    ReadIsWellFormed(text);
    RoundTrip(Read(text).value);
  }

  predicate IsBlank(line: string) { Strip(line) == [] }

  ghost predicate SomeBlank(lines: seq<string>) {
    exists i :: 0 <= i < |lines| && IsBlank(lines[i])
  }

  lemma SomeBlankStep(lines: seq<string>)
    requires lines != []
    ensures SomeBlank(lines) <==> SomeBlank(lines[..|lines| - 1]) || IsBlank(lines[|lines| - 1])
  {
    hide IsBlank;
    var n := |lines| - 1;
    if SomeBlank(lines[..n]) {
      var i :| 0 <= i < n && IsBlank(lines[..n][i]);
      assert IsBlank(lines[i]);
    }
    if SomeBlank(lines) {
      var i :| 0 <= i < |lines| && IsBlank(lines[i]);
      assert i < n ==> IsBlank(lines[..n][i]);
    }
  }

  lemma NoneAfterStep(lines: seq<string>)
    requires lines != []
    ensures ReadLines(lines).None? <==> ReadLines(lines[..|lines| - 1]).None? || IsBlank(lines[|lines| - 1])
  {
    hide Strip, Feed;
  }

  lemma NothingRead()
    ensures ReadLines([]) == Some(Parse([], None)) && !SomeBlank([])
  {}

  /** An empty line, or one of white space only, makes the reader fail, and
      nothing else does. */
  lemma {:induction false} BlankLineFails(lines: seq<string>)
    ensures ReadLines(lines).None? <==> SomeBlank(lines)
  {
    hide ReadLines, SomeBlank, IsBlank;
    if lines == [] {
      NothingRead();
    } else {
      BlankLineFails(lines[..|lines| - 1]);
      SomeBlankStep(lines);
      NoneAfterStep(lines);
    }
  }

  // ---- the rewrite ----

  /** The index after the last occurrence of a character, zero if there is none. */
  function AfterLast(s: string, c: char): (n: nat)
    ensures n <= |s|
    ensures n > 0 ==> s[n - 1] == c
    ensures forall i :: n <= i < |s| ==> s[i] != c
  {
    if s == [] then 0 else if s[|s| - 1] == c then |s| else AfterLast(s[..|s| - 1], c)
  }

  /** os.path.splitext: the last dot of the last component starts the extension,
      unless only dots come before it there. */
  function SplitExt(p: string): (r: (string, string))
    ensures r.0 + r.1 == p
    ensures r.1 != "" ==> r.1[0] == '.' && '.' !in r.1[1..] && '/' !in r.1 && r.0 != ""
  {
    var slash, dot := AfterLast(p, '/'), AfterLast(p, '.');
    if dot > slash && exists k :: slash <= k < dot - 1 && p[k] != '.' then (p[..dot - 1], p[dot - 1..])
    else (p, "")
  }

  function ObjectFile(entry: string): string { SplitExt(entry).0 + ".o" }

  lemma AfterLastIs(s: string, c: char, n: nat)
    requires n <= |s| && (n > 0 ==> s[n - 1] == c) && forall i :: n <= i < |s| ==> s[i] != c
    ensures AfterLast(s, c) == n
  {
    assert forall i :: AfterLast(s, c) <= i < |s| ==> s[i] != c;
  }

  /** A directory, as a path begins with it. */
  predicate IsDirectory(dir: string) { dir == "" || dir[|dir| - 1] == '/' }

  /** stem.ext becomes stem.o, if the last component of the stem is not only dots. */
  lemma ExtensionReplaced(dir: string, name: string, ext: string)
    requires IsDirectory(dir) && '/' !in name && '.' !in ext && '/' !in ext
    requires exists k :: 0 <= k < |name| && name[k] != '.'
    ensures ObjectFile(dir + name + "." + ext) == dir + name + ".o"
  {
    hide AfterLast, ObjectFile, SplitExt;
    var slash, dot := |dir|, |dir| + |name| + 1;
    var p := dir + name + "." + ext;
    var k :| 0 <= k < |name| && name[k] != '.';
    assert p[slash + k] == name[k] && p[dot - 1] == '.' && p[..dot - 1] == dir + name;
    forall i | slash <= i < |p| ensures p[i] != '/' && (i >= dot ==> p[i] != '.') {
      CharOf(dir, name, ext, i);
    }
    SplitExtAt(p, slash, dot, slash + k);
  }

  lemma CharOf(dir: string, name: string, ext: string, i: nat)
    requires |dir| <= i < |dir| + |name| + 1 + |ext|
    ensures var p := dir + name + "." + ext; var dot := |dir| + |name| + 1;
      if i < dot - 1 then p[i] in name else if i < dot then p[i] == '.' else p[i] in ext
  {
    var p := dir + name + "." + ext;
    var dot := |dir| + |name| + 1;
    if i < dot - 1 {
      assert p[i] == name[i - |dir|];
    } else if dot <= i {
      assert p[i] == ext[i - dot];
    }
  }

  /** Where the extension begins. */
  lemma SplitExtAt(p: string, slash: nat, dot: nat, k: nat)
    requires slash <= k < dot - 1 && dot <= |p| && p[k] != '.' && p[dot - 1] == '.' && (slash > 0 ==> p[slash - 1] == '/')
    requires forall i :: slash <= i < |p| ==> p[i] != '/'
    requires forall i :: dot <= i < |p| ==> p[i] != '.'
    ensures ObjectFile(p) == p[..dot - 1] + ".o"
  {
    hide AfterLast;
    AfterLastIs(p, '/', slash);
    AfterLastIs(p, '.', dot);
  }

  /** A last component without a dot, but for dots it begins with, gets .o added. */
  lemma ExtensionAdded(dir: string, name: string)
    requires IsDirectory(dir) && '/' !in name
    requires forall k, d :: 0 <= k < d < |name| && name[d] == '.' ==> name[k] == '.'
    ensures ObjectFile(dir + name) == dir + name + ".o"
  {
    hide AfterLast;
    var p := dir + name;
    var slash, dot := |dir|, AfterLast(p, '.');
    assert forall i :: 0 <= i < |name| ==> p[slash + i] == name[i] && name[i] in name;
    AfterLastIs(p, '/', slash);
    if dot > slash {
      assert name[dot - 1 - slash] == '.';
      assert forall k :: slash <= k < dot - 1 ==> p[k] == name[k - slash];
    }
  }

  /** The path is stem.ext, and the last component of the stem is not only dots. */
  ghost predicate Extended(p: string, stem: string, ext: string) {
    && p == stem + "." + ext && '.' !in ext && '/' !in ext
    && exists k :: 0 <= k < |stem| && stem[k] != '.' && '/' !in stem[k..]
  }

  /** The object file of an entry: .o for its extension, or after it if it has none. */
  ghost predicate ObjectNamed(entry: string, file: string) {
    && (forall stem, ext :: Extended(entry, stem, ext) ==> file == stem + ".o")
    && ((forall stem, ext :: !Extended(entry, stem, ext)) ==> file == entry + ".o")
  }

  lemma NoneAfter(s: string, c: char, k: nat)
    requires k <= |s| && c !in s[k..]
    ensures forall i :: k <= i < |s| ==> s[i] != c
  {
    assert forall i :: k <= i < |s| ==> s[i] == s[k..][i - k];
  }

  lemma ObjectFileNamed(entry: string)
    ensures ObjectNamed(entry, ObjectFile(entry))
  {
    hide ObjectFile, AfterLast;
    forall stem, ext | Extended(entry, stem, ext) ensures ObjectFile(entry) == stem + ".o" {
      var k :| 0 <= k < |stem| && stem[k] != '.' && '/' !in stem[k..];
      var slash := AfterLast(stem, '/');
      NoneAfter(stem, '/', k);
      assert stem == stem[..slash] + stem[slash..] && stem[slash..][k - slash] != '.';
      ExtensionReplaced(stem[..slash], stem[slash..], ext);
    }
    if forall stem, ext :: !Extended(entry, stem, ext) {
      NothingToReplace(entry);
    }
  }

  lemma NothingToReplace(entry: string)
    requires forall stem, ext :: !Extended(entry, stem, ext)
    ensures ObjectFile(entry) == entry + ".o"
  {
    hide AfterLast, Extended, ObjectFile;
    var slash := AfterLast(entry, '/');
    assert entry == entry[..slash] + entry[slash..];
    var name := entry[slash..];
    forall k, d | 0 <= k < d < |name| && name[d] == '.' ensures name[k] == '.' {
      NoLaterDot(entry, slash + k, slash + d);
    }
    ExtensionAdded(entry[..slash], name);
  }

  lemma NoLaterDot(p: string, k: nat, d: nat)
    requires forall stem, ext :: !Extended(p, stem, ext)
    requires AfterLast(p, '/') <= k < d < |p| && p[d] == '.'
    ensures p[k] == '.'
  {
    hide AfterLast, Extended;
    if p[k] != '.' {
      DotExtends(p, k, d);
      assert false;
    }
  }

  /** A dot after another character of the last component begins an extension. */
  lemma DotExtends(p: string, k: nat, d: nat)
    requires AfterLast(p, '/') <= k < d < |p| && p[k] != '.' && p[d] == '.'
    ensures AfterLast(p, '.') > d
    ensures Extended(p, p[..AfterLast(p, '.') - 1], p[AfterLast(p, '.')..])
  {
    hide AfterLast, Extended;
    AtDot(p, k, AfterLast(p, '.'));
  }

  lemma AtDot(p: string, k: nat, dot: nat)
    requires k + 1 < dot <= |p| && p[k] != '.' && p[dot - 1] == '.'
    requires forall i :: k <= i < |p| ==> p[i] != '/'
    requires forall i :: dot <= i < |p| ==> p[i] != '.'
    ensures Extended(p, p[..dot - 1], p[dot..])
  {
    var stem, ext := p[..dot - 1], p[dot..];
    assert forall c :: c in ext ==> c != '.' && c != '/';
    assert forall c :: c in stem[k..] ==> c != '/';
    assert stem[k] != '.';
    assert p == stem + p[dot - 1..dot] + ext && p[dot - 1..dot] == ".";
  }

  function Entries(s: seq<Section>, name: string): Option<seq<string>> {
    if Find(s, name) < |s| then Some(s[Find(s, name)].entries) else None
  }

  lemma EntriesFound(s: seq<Section>, name: string)
    ensures Entries(s, name).None? <==> forall i :: 0 <= i < |s| ==> s[i].name != name
    ensures Distinct(s) ==> forall i :: 0 <= i < |s| && s[i].name == name ==> Entries(s, name) == Some(s[i].entries)
  {}

  function ObjectFiles(entries: seq<string>): (r: seq<string>)
    ensures |r| == |entries|
    ensures forall i :: 0 <= i < |r| ==> r[i] == ObjectFile(entries[i])
  {
    seq(|entries|, i requires 0 <= i < |entries| => ObjectFile(entries[i]))
  }

  // The section names the script uses.
  function GeneratedObject(): string { "GENERATED OBJECT FILE" }
  function ProjectFiles(): string { "PROJECT FILES" }
  function BoundObjects(): string { "BOUND OBJECT FILES" }
  function GeneratedSources(): string { "GENERATED SOURCE FILES" }
  function ResultingOptions(): string { "RESULTING OPTIONS" }
  function RunPathOption(): string { "RUN PATH OPTION" }

  /** They are lines, not empty, and told apart by their lengths. */
  lemma SectionNames()
    ensures |GeneratedObject()| == 21 && OneLine(GeneratedObject())
    ensures |ProjectFiles()| == 13 && OneLine(ProjectFiles())
    ensures |BoundObjects()| == 18 && OneLine(BoundObjects())
    ensures |GeneratedSources()| == 22 && OneLine(GeneratedSources())
    ensures |ResultingOptions()| == 17 && OneLine(ResultingOptions())
    ensures |RunPathOption()| == 15 && OneLine(RunPathOption())
  {
    hide *;
    FileNames();
    OptionNames();
    SourceNames();
  }

  lemma FileNames()
    ensures |GeneratedObject()| == 21 && OneLine(GeneratedObject())
    ensures |ProjectFiles()| == 13 && OneLine(ProjectFiles())
    ensures |BoundObjects()| == 18 && OneLine(BoundObjects())
  {}

  lemma OptionNames()
    ensures |ResultingOptions()| == 17 && OneLine(ResultingOptions())
    ensures |RunPathOption()| == 15 && OneLine(RunPathOption())
  {}

  lemma SourceNames()
    ensures |GeneratedSources()| == 22 && OneLine(GeneratedSources())
  {}

  /** A name of another length than all those present is new. */
  lemma {:induction false} NewName(s: seq<Section>, name: string)
    requires forall i :: 0 <= i < |s| ==> |s[i].name| != |name|
    ensures Find(s, name) == |s| && Begin(s, name) == s + [Section(name, [])]
  {
    if s != [] {
      NewName(s[1..], name);
    }
  }

  /** The sections the linker step gets from those of the compiler step. */
  function Bound(project: seq<string>, dependencies: seq<string>): seq<Section> {
    [ Section(GeneratedObject(), []),
      Section(ProjectFiles(), project),
      Section(BoundObjects(), ObjectFiles(dependencies)),
      Section(GeneratedSources(), []),
      Section(ResultingOptions(), []),
      Section(RunPathOption(), []) ]
  }

  lemma WriteLinesMore(s: seq<Section>, more: Section)
    ensures WriteLines(s + [more]) == WriteLines(s) + [Header(more.name)] + more.entries
  {
    assert (s + [more])[..|s|] == s;
  }

  /** The lines of two sections without entries, or of one with. */
  lemma WriteLinesEmpty(s: seq<Section>, name: string)
    ensures WriteLines(s + [Section(name, [])]) == WriteLines(s) + [Header(name)]
  {
    WriteLinesMore(s, Section(name, []));
  }

  lemma BoundLines(project: seq<string>, dependencies: seq<string>)
    ensures WriteLines(Bound(project, dependencies))
         == [Header(GeneratedObject()), Header(ProjectFiles())] + project
            + [Header(BoundObjects())] + ObjectFiles(dependencies)
            + [Header(GeneratedSources()), Header(ResultingOptions()), Header(RunPathOption())]
  {
    hide Header, ObjectFiles, WriteLines;
    hide GeneratedObject, ProjectFiles, BoundObjects, GeneratedSources, ResultingOptions, RunPathOption;
    var s := Bound(project, dependencies);
    NoLines();
    WriteLinesEmpty([], GeneratedObject());
    WriteLinesMore(s[..1], s[1]);
    WriteLinesMore(s[..2], s[2]);
    WriteLinesEmpty(s[..3], GeneratedSources());
    WriteLinesEmpty(s[..4], ResultingOptions());
    WriteLinesEmpty(s[..5], RunPathOption());
    assert [] + [s[0]] == s[..1] && s[..1] + [s[1]] == s[..2] && s[..2] + [s[2]] == s[..3];
    assert s[..3] + [s[3]] == s[..4] && s[..4] + [s[4]] == s[..5] && s[..5] + [s[5]] == s;
  }

  lemma NoLines()
    ensures WriteLines([]) == []
  {}

  lemma FileHeaders()
    ensures Header(GeneratedObject()) == "[GENERATED OBJECT FILE]"
    ensures Header(ProjectFiles()) == "[PROJECT FILES]"
    ensures Header(BoundObjects()) == "[BOUND OBJECT FILES]"
  {}

  lemma OptionHeaders()
    ensures Header(ResultingOptions()) == "[RESULTING OPTIONS]"
    ensures Header(RunPathOption()) == "[RUN PATH OPTION]"
    ensures Header(GeneratedSources()) == "[GENERATED SOURCE FILES]"
  {}

  lemma BoundText(project: seq<string>, dependencies: seq<string>)
    ensures WriteLines(Bound(project, dependencies))
         == ["[GENERATED OBJECT FILE]", "[PROJECT FILES]"] + project
            + ["[BOUND OBJECT FILES]"] + ObjectFiles(dependencies)
            + ["[GENERATED SOURCE FILES]", "[RESULTING OPTIONS]", "[RUN PATH OPTION]"]
    ensures Write(Bound(project, dependencies)) == Text(WriteLines(Bound(project, dependencies)))
  {
    hide Header, ObjectFiles, WriteLines, Bound, Text;
    hide GeneratedObject, ProjectFiles, BoundObjects, GeneratedSources, ResultingOptions, RunPathOption;
    BoundLines(project, dependencies);
    FileHeaders();
    OptionHeaders();
  }

  lemma BoundSections(project: seq<string>, dependencies: seq<string>)
    ensures Bound(project, dependencies) ==
      [ Section("GENERATED OBJECT FILE", []),
        Section("PROJECT FILES", project),
        Section("BOUND OBJECT FILES", ObjectFiles(dependencies)),
        Section("GENERATED SOURCE FILES", []),
        Section("RESULTING OPTIONS", []),
        Section("RUN PATH OPTION", []) ]
  {
    hide ObjectFiles;
  }

  lemma ObjectFilesNamed(dependencies: seq<string>)
    ensures forall k :: 0 <= k < |dependencies| ==> ObjectNamed(dependencies[k], ObjectFiles(dependencies)[k])
  {
    hide ObjectNamed, ObjectFile;
    forall k | 0 <= k < |dependencies| ensures ObjectNamed(dependencies[k], ObjectFiles(dependencies)[k]) {
      ObjectFileNamed(dependencies[k]);
    }
  }

  /** An entry's object file is an entry again. */
  lemma ObjectFileOk(entry: string)
    requires EntryOk(entry)
    ensures EntryOk(ObjectFile(entry))
  {
    var name, o := SplitExt(entry).0, ObjectFile(entry);
    assert name <= entry;
    assert o[|o| - 1] == 'o';
    assert o[0] == entry[0];
  }

  lemma EntriesOk(s: seq<Section>, name: string)
    requires WellFormed(s) && Entries(s, name).Some?
    ensures forall i :: 0 <= i < |Entries(s, name).value| ==> EntryOk(Entries(s, name).value[i])
  {
    assert SectionOk(s[Find(s, name)]);
  }

  /** The rewritten data is well formed, so the next reader gets all of it back. */
  lemma BoundComesBack(project: seq<string>, dependencies: seq<string>)
    requires forall i :: 0 <= i < |project| ==> EntryOk(project[i])
    requires forall i :: 0 <= i < |dependencies| ==> EntryOk(dependencies[i])
    ensures Read(Write(Bound(project, dependencies))) == Ok(Bound(project, dependencies))
  {
    hide EntryOk, Read, Write, OneLine;
    hide GeneratedObject, ProjectFiles, BoundObjects, GeneratedSources, ResultingOptions, RunPathOption;
    SectionNames();
    var s := Bound(project, dependencies);
    forall i | 0 <= i < |dependencies| ensures EntryOk(ObjectFiles(dependencies)[i]) {
      ObjectFileOk(dependencies[i]);
    }
    assert forall i, j :: 0 <= i < j < |s| ==> |s[i].name| != |s[j].name|;
    RoundTrip(s);
  }

  // ---- the script ----

  class BexchData {
    var sections: seq<Section>
    var lastSection: Option<string>

    constructor ()
      ensures sections == [] && lastSection == None
    {
      sections, lastSection := [], None;
    }

    method BeginNewSection(name: string)
      modifies this
      ensures sections == Begin(old(sections), name) && lastSection == Some(name)
      ensures Begun(old(sections), sections, name)
    {
      var i := Find(sections, name);
      if i < |sections| {
        sections := sections[i := Section(name, [])];
      } else {
        sections := sections + [Section(name, [])];
      }
      lastSection := Some(name);
    }

    method AppendLine(line: string)
      modifies this`sections
      ensures sections == Append(old(sections), lastSection, line)
      ensures Appended(old(sections), sections, lastSection, line)
    {
      if lastSection.Some? && lastSection.value != "" {
        var i := Find(sections, lastSection.value);
        if i < |sections| {
          sections := sections[i := Section(lastSection.value, sections[i].entries + [line])];
        }
      }
    }
  }

  /** read_bexch_file on the file's text. */
  method ReadBexchFile(text: string) returns (r: Outcome<seq<Section>>)
    ensures r == Read(text)
  {
    hide Strip, Begin, Append, Begun, Appended, IsSectionHeader, Lines, Translate;
    var data := new BexchData();
    var lines := Lines(Translate(text));
    var i := 0;
    while i < |lines|
      invariant 0 <= i <= |lines|
      invariant ReadLines(lines[..i]) == Some(Parse(data.sections, data.lastSection))
    {
      var line := Strip(lines[i]);
      assert lines[..i + 1][..i] == lines[..i];
      if line == [] {
        FailureStays(lines, i + 1);
        return IndexError;
      }
      if IsSectionHeader(line) {
        HeaderIsLong(line);
        data.BeginNewSection(line[1..][..|line| - 2]);
      } else {
        data.AppendLine(line);
      }
      i := i + 1;
    }
    assert lines[..i] == lines;
    return Ok(data.sections);
  }

  lemma HeaderIsLong(line: string)
    requires line != [] && IsSectionHeader(line)
    ensures |line| >= 2
  {}

  lemma {:induction false} FailureStays(lines: seq<string>, n: nat)
    requires n <= |lines| && ReadLines(lines[..n]).None?
    ensures ReadLines(lines).None?
  {
    if n == |lines| {
      assert lines[..n] == lines;
    } else {
      assert lines[..|lines| - 1][..n] == lines[..n];
      FailureStays(lines[..|lines| - 1], n);
    }
  }

  lemma TextOfMore(lines: seq<string>, line: string)
    ensures Text(lines + [line]) == Text(lines) + line + ['\n']
  {
    assert (lines + [line])[..|lines|] == lines;
  }

  lemma HeaderText(text: string, name: string)
    ensures text + "[" + name + "]" + "\n" == text + Header(name) + ['\n']
  {}

  lemma WriteOneMore(sections: seq<Section>, i: nat)
    requires i < |sections|
    ensures WriteLines(sections[..i + 1]) == WriteLines(sections[..i]) + [Header(sections[i].name)] + sections[i].entries
  {
    assert sections[..i + 1][..i] == sections[..i];
  }

  /** The inner loop of write_bexch_file. */
  method WriteEntries(start: string, ghost before: seq<string>, entries: seq<string>) returns (text: string)
    requires start == Text(before)
    ensures text == Text(before + entries)
  {
    hide Text;
    text := start;
    assert before + entries[..0] == before;
    var j := 0;
    while j < |entries|
      invariant 0 <= j <= |entries| && text == Text(before + entries[..j])
    {
      TextOfMore(before + entries[..j], entries[j]);
      text := text + entries[j] + "\n";
      assert before + entries[..j] + [entries[j]] == before + entries[..j + 1];
      j := j + 1;
    }
    assert entries[..j] == entries;
  }

  /** write_bexch_file, returning the file's text. */
  method WriteBexchFile(sections: seq<Section>) returns (text: string)
    ensures text == Write(sections)
  {
    hide Text, WriteLines, Header;
    text := "";
    NothingWritten(sections);
    var i := 0;
    while i < |sections|
      invariant 0 <= i <= |sections| && text == Text(WriteLines(sections[..i]))
    {
      ghost var before := WriteLines(sections[..i]);
      HeaderText(text, sections[i].name);
      TextOfMore(before, Header(sections[i].name));
      text := text + "[" + sections[i].name + "]" + "\n";
      text := WriteEntries(text, before + [Header(sections[i].name)], sections[i].entries);
      WriteOneMore(sections, i);
      i := i + 1;
    }
    assert sections[..i] == sections;
  }

  lemma NothingWritten(sections: seq<Section>)
    ensures Text(WriteLines(sections[..0])) == ""
  {}

  /** The whole script: a blank line stops it with an index error, a missing section
      with a key error; otherwise it writes the six sections, with the project files
      as they were and the object files of the dependencies, and reading back what it
      writes gives just these. */
  method Adabind(text: string) returns (r: Outcome<string>, ghost objects: seq<string>)
    ensures r == IndexError <==> SomeBlank(Lines(Translate(text)))
    ensures r != IndexError ==> Read(text).Ok?
    ensures Read(text).Ok? ==>
      var data := Read(text).value;
      r == KeyError <==>
        || (forall i :: 0 <= i < |data| ==> data[i].name != "PROJECT FILES")
        || (forall i :: 0 <= i < |data| ==> data[i].name != "DEPENDENCY FILES")
    ensures Read(text).Ok? ==>
      var data := Read(text).value;
      forall i, j :: 0 <= i < |data| && 0 <= j < |data|
                     && data[i].name == "PROJECT FILES" && data[j].name == "DEPENDENCY FILES" ==>
        && r.Ok?
        && |objects| == |data[j].entries|
        && (forall k :: 0 <= k < |objects| ==> ObjectNamed(data[j].entries[k], objects[k]))
        && r.value == Text(["[GENERATED OBJECT FILE]", "[PROJECT FILES]"] + data[i].entries
                           + ["[BOUND OBJECT FILES]"] + objects
                           + ["[GENERATED SOURCE FILES]", "[RESULTING OPTIONS]", "[RUN PATH OPTION]"])
        && Read(r.value) == Ok([Section("GENERATED OBJECT FILE", []), Section("PROJECT FILES", data[i].entries),
                                Section("BOUND OBJECT FILES", objects), Section("GENERATED SOURCE FILES", []),
                                Section("RESULTING OPTIONS", []), Section("RUN PATH OPTION", [])])
  {
    hide *;
    objects := [];
    ReadFails(text);
    var data := ReadBexchFile(text);
    if !data.Ok? {
      return IndexError, objects;
    }
    ReadIsWellFormed(text);
    DistinctNames(data.value);
    EntriesFound(data.value, "PROJECT FILES");
    EntriesFound(data.value, "DEPENDENCY FILES");
    var project := Entries(data.value, "PROJECT FILES");
    if project.None? {
      return KeyError, objects;
    }
    var dependencies := Entries(data.value, "DEPENDENCY FILES");
    if dependencies.None? {
      return KeyError, objects;
    }
    objects := ObjectFiles(dependencies.value);
    EntriesOk(data.value, "PROJECT FILES");
    EntriesOk(data.value, "DEPENDENCY FILES");
    var sections := BuildOutput(project.value, dependencies.value);
    BoundComesBack(project.value, dependencies.value);
    BoundSections(project.value, dependencies.value);
    BoundText(project.value, dependencies.value);
    ObjectFilesNamed(dependencies.value);
    var output := WriteBexchFile(sections);
    r := Ok(output);
  }

  lemma DistinctNames(s: seq<Section>)
    requires WellFormed(s)
    ensures Distinct(s)
  {}

  lemma ReadFails(text: string)
    ensures Read(text) == IndexError <==> SomeBlank(Lines(Translate(text)))
    ensures Read(text) != KeyError
  {
    hide ReadLines, SomeBlank, Lines, Translate;
    BlankLineFails(Lines(Translate(text)));
  }

  /** The output data, built by the script's own calls. */
  method BuildOutput(project: seq<string>, dependencies: seq<string>) returns (sections: seq<Section>)
    ensures sections == Bound(project, dependencies)
  {
    hide GeneratedObject, ProjectFiles, BoundObjects, GeneratedSources, ResultingOptions, RunPathOption, Begin, Append, Find, Begun, Appended;
    SectionNames();
    var output := new BexchData();
    NewName(output.sections, GeneratedObject());
    output.BeginNewSection(GeneratedObject());
    NewName(output.sections, ProjectFiles());
    output.BeginNewSection(ProjectFiles());
    ghost var front := [Section(GeneratedObject(), [])];
    AppendAll(output, front, ProjectFiles(), project);
    NewName(output.sections, BoundObjects());
    front := output.sections;
    output.BeginNewSection(BoundObjects());
    AppendObjects(output, front, BoundObjects(), dependencies);
    ghost var objects := ObjectFiles(dependencies);
    assert output.sections ==
           [Section(GeneratedObject(), []), Section(ProjectFiles(), project), Section(BoundObjects(), objects)];
    NewName(output.sections, GeneratedSources());
    output.BeginNewSection(GeneratedSources());
    NewName(output.sections, ResultingOptions());
    output.BeginNewSection(ResultingOptions());
    NewName(output.sections, RunPathOption());
    output.BeginNewSection(RunPathOption());
    sections := output.sections;
  }

  /** The loop that copies entries into the section begun last. */
  method AppendAll(output: BexchData, ghost front: seq<Section>, ghost name: string, entries: seq<string>)
    requires output.sections == front + [Section(name, [])] && output.lastSection == Some(name)
    requires name != "" && Find(front, name) == |front|
    modifies output
    ensures output.sections == front + [Section(name, entries)] && output.lastSection == Some(name)
  {
    hide Find, Append, Appended;
    var i := 0;
    while i < |entries|
      invariant 0 <= i <= |entries| && output.lastSection == Some(name)
      invariant output.sections == front + [Section(name, entries[..i])]
    {
      AppendToLast(front, name, entries[..i], entries[i]);
      output.AppendLine(entries[i]);
      assert entries[..i + 1] == entries[..i] + [entries[i]];
      i := i + 1;
    }
    assert entries[..i] == entries;
  }

  /** The loop that turns dependencies into object files. */
  method AppendObjects(output: BexchData, ghost front: seq<Section>, ghost name: string, dependencies: seq<string>)
    requires output.sections == front + [Section(name, [])] && output.lastSection == Some(name)
    requires name != "" && Find(front, name) == |front|
    modifies output
    ensures output.sections == front + [Section(name, ObjectFiles(dependencies))] && output.lastSection == Some(name)
  {
    hide Find, Append, SplitExt;
    ghost var objects := ObjectFiles(dependencies);
    var i := 0;
    while i < |dependencies|
      invariant 0 <= i <= |dependencies| && output.lastSection == Some(name)
      invariant output.sections == front + [Section(name, objects[..i])]
    {
      var base := SplitExt(dependencies[i]).0;
      AppendToLast(front, name, objects[..i], objects[i]);
      output.AppendLine(base + ".o");
      assert objects[..i + 1] == objects[..i] + [objects[i]];
      i := i + 1;
    }
    assert objects[..i] == objects;
  }
}
