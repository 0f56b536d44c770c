/** The corpus normaliser `fix_help` (vimsplain.py:12-73): turns the text of
    Vim's command index into, per section, a list of tab-separated entries
    `[tag, command, note, explanation, ...]`, with continuation lines joined,
    dead entries dropped, whitespace normalised, the note column filled in,
    and "same as" cross references resolved within each section. */
module Corpus {
  import opened Basics
  import opened Text

  /** How `fix_help` aborts: a continuation line with no entry before it
      (`lines[-1]` on an empty list), a normalised line with fewer than three
      fields (the explicit `raise`), or an entry without an explanation field
      (`parts[3]` in the "same as" pass). */
  datatype CorpusError = OrphanContinuation | ShortLine(fields: seq<string>) | MissingExplanation

  const SectionMark: string := "===="

  /** `pieces` put back together with, between each two, a maximal run of
      four or more `=` gives `text`. */
  predicate JoinedByMarks(pieces: seq<string>, text: string)
    decreases |pieces|
  {
    && |pieces| >= 1
    && pieces[0] <= text
    && if |pieces| == 1 then text == pieces[0]
       else
         var t := text[|pieces[0]|..];
         var k := LeadingRun(t, '=');
         4 <= k && JoinedByMarks(pieces[1..], t[k..])
  }

  /** `re.split(r'[=]{4,}', text)`: the text between maximal runs of four or
      more `=`.  The pieces and the runs between them make up the text, no
      piece holds such a run, and no later piece starts with `=`. */
  function SplitSections(text: string): (r: seq<string>)
    ensures |r| >= 1
    ensures JoinedByMarks(r, text)
    ensures forall k :: 0 <= k < |r| ==> !Contains(r[k], SectionMark)
    ensures forall k :: 1 <= k < |r| && |r[k]| > 0 ==> r[k][0] != '='
    decreases |text|
  {
    match Find(text, SectionMark)
    case None => [text]
    case Some(i) =>
      SectionBreak(text, i);
      var k := LeadingRun(text[i..], '=');
      var rest := SplitSections(text[i + k..]);
      assert |rest[0]| > 0 ==> rest[0][0] == text[i..][k];
      assert text[i..][k..] == text[i + k..];
      assert ([text[..i]] + rest)[1..] == rest;
      [text[..i]] + rest
  }

  /** At the leftmost section mark `i`: the text before it holds no mark,
      and the run of `=` there is at least four long. */
  lemma SectionBreak(text: string, i: nat)
    requires Find(text, SectionMark) == Some(i)
    ensures !Contains(text[..i], SectionMark)
    ensures 4 <= LeadingRun(text[i..], '=') && i + LeadingRun(text[i..], '=') <= |text|
  {
    SectionMarkIsRun();
    LeadingRunAtOccurrence(text, SectionMark, i, '=');
    if Contains(text[..i], SectionMark) {
      OccursInPrefix(text, SectionMark, i, Find(text[..i], SectionMark).value);
    }
  }

  lemma SectionMarkIsRun()
    ensures forall j :: 0 <= j < |SectionMark| ==> SectionMark[j] == '='
  {
    forall j | 0 <= j < |SectionMark|
      ensures SectionMark[j] == '='
    {
      assert j == 0 || j == 1 || j == 2 || j == 3;
    }
  }

  /** A documentation line that the joining pass drops: an indented line
      marking an unused or reserved key. */
  predicate IsDeadLine(line: string) {
    |line| > 0 && line[0] == '\t' && (Contains(line, "not used") || Contains(line, "reserved"))
  }

  /** An indented line that continues the entry above it. */
  predicate IsContinuation(line: string) {
    |line| > 0 && line[0] == '\t' && !IsDeadLine(line)
  }

  /** A line that starts a new entry. */
  predicate IsEntryLine(line: string) {
    |line| > 0 && line[0] == '|'
  }

  /** Lines the joining pass neither keeps nor joins. */
  predicate IsIgnored(line: string) {
    !IsContinuation(line) && !IsEntryLine(line)
  }

  /** The lines that start an entry, in order. */
  function EntryLines(raw: seq<string>): (r: seq<string>)
    ensures |r| <= |raw|
    decreases |raw|
  {
    if |raw| == 0 then []
    else EntryLines(raw[..|raw| - 1]) + (if IsEntryLine(raw[|raw| - 1]) then [raw[|raw| - 1]] else [])
  }

  /** One round of the joining loop (vimsplain.py:24-32). */
  function JoinStep(lines: seq<string>, line: string): (r: Result<seq<string>, CorpusError>) {
    if line == "" || IsDeadLine(line) then Ok(lines)
    else if line[0] == '\t' then
      if |lines| == 0 then Err(OrphanContinuation)
      else Ok(lines[..|lines| - 1] + [lines[|lines| - 1] + " " + LStrip(line)])
    else if line[0] == '|' then Ok(lines + [line])
    else Ok(lines)
  }

  /** The joining loop over a section's lines: there is one joined line per
      line that starts an entry, and it begins with that line as written. */
  function JoinLines(raw: seq<string>): (r: Result<seq<string>, CorpusError>)
    ensures r.Ok? ==> forall k :: 0 <= k < |r.value| ==> IsEntryLine(r.value[k])
    ensures r.Ok? ==> |r.value| == |EntryLines(raw)|
    ensures r.Ok? ==> forall k :: 0 <= k < |r.value| ==> EntryLines(raw)[k] <= r.value[k]
    decreases |raw|
  {
    if |raw| == 0 then Ok([])
    else
      match JoinLines(raw[..|raw| - 1])
      case Err(e) => Err(e)
      case Ok(lines) => JoinStep(lines, raw[|raw| - 1])
  }

  /** A dead, empty or unmarked line can be removed from anywhere in a
      section without changing the result. */
  lemma {:induction false} JoinLinesIgnores(a: seq<string>, line: string, b: seq<string>)
    requires IsIgnored(line)
    ensures JoinLines(a + [line] + b) == JoinLines(a + b)
    decreases |b|
  {
    if |b| == 0 {
      assert a + [line] + b == a + [line];
      assert a + b == a;
      JoinLinesLast(a, line);
    } else {
      var b', x := b[..|b| - 1], b[|b| - 1];
      JoinLinesIgnores(a, line, b');
      SnocLast(a + [line], b);
      SnocLast(a, b);
      JoinLinesLast(a + [line] + b', x);
      JoinLinesLast(a + b', x);
    }
  }

  lemma SnocLast<T>(xs: seq<T>, ys: seq<T>)
    requires |ys| > 0
    ensures xs + ys == (xs + ys[..|ys| - 1]) + [ys[|ys| - 1]]
  {
  }

  /** The joining loop's last round. */
  lemma JoinLinesLast(xs: seq<string>, x: string)
    ensures JoinLines(xs + [x]) == match JoinLines(xs)
      case Err(e) => Err(e)
      case Ok(lines) => JoinStep(lines, x)
  {
    assert (xs + [x])[..|xs|] == xs;
  }

  /** An entry line is kept as it is, after the lines joined so far. */
  lemma JoinLinesEntry(a: seq<string>, line: string)
    requires IsEntryLine(line) && JoinLines(a).Ok?
    ensures JoinLines(a + [line]) == Ok(JoinLines(a).value + [line])
  {
    assert (a + [line])[..|a|] == a;
  }

  /** A continuation line is appended, after one space and without its
      leading whitespace, to the entry before it. */
  lemma JoinLinesContinues(a: seq<string>, line: string)
    requires IsContinuation(line)
    requires JoinLines(a).Ok? && |JoinLines(a).value| > 0
    ensures var prev := JoinLines(a).value;
      JoinLines(a + [line]) == Ok(prev[..|prev| - 1] + [prev[|prev| - 1] + " " + LStrip(line)])
  {
    assert (a + [line])[..|a|] == a;
  }

  /** A continuation line before any entry aborts. */
  lemma JoinLinesOrphan(line: string)
    requires IsContinuation(line)
    ensures JoinLines([line]) == Err(OrphanContinuation)
  {
    assert [line][..0] == [];
  }

  /** The two substitutions of vimsplain.py:36-37: runs of two or more
      spaces become a tab, then runs of two or more tabs become one tab.  A
      line without doubled spaces or tabs is left as it is. */
  function NormaliseWhitespace(line: string): (r: string)
    ensures NoDoubled(r, ' ') && NoDoubled(r, '\t')
    ensures Squeeze(r) == Squeeze(line)
    ensures NoDoubled(line, ' ') && NoDoubled(line, '\t') ==> r == line
  {
    var once := CollapseRuns(line, ' ', '\t');
    CollapseKeepsNoDoubled(once, '\t', '\t', ' ');
    CollapseKeepsVisible(line, ' ', '\t');
    CollapseKeepsVisible(once, '\t', '\t');
    SettledTwice(line);
    CollapseRuns(once, '\t', '\t')
  }

  lemma SettledTwice(line: string)
    ensures NoDoubled(line, ' ') && NoDoubled(line, '\t') ==>
      CollapseRuns(CollapseRuns(line, ' ', '\t'), '\t', '\t') == line
  {
    if NoDoubled(line, ' ') && NoDoubled(line, '\t') {
      CollapseRunsSettled(line, ' ', '\t');
      CollapseRunsSettled(line, '\t', '\t');
    }
  }

  /** Normalising twice is normalising once. */
  lemma NormaliseWhitespaceIdempotent(line: string)
    ensures NormaliseWhitespace(NormaliseWhitespace(line)) == NormaliseWhitespace(line)
  {
  }

  /** A character that is neither a space nor a tab cuts the line into two
      parts that are normalised separately. */
  lemma NormaliseWhitespaceSplits(a: string, x: char, b: string)
    requires x != ' ' && x != '\t'
    ensures NormaliseWhitespace(a + [x] + b) == NormaliseWhitespace(a) + [x] + NormaliseWhitespace(b)
  {
    var a1, b1 := CollapseRuns(a, ' ', '\t'), CollapseRuns(b, ' ', '\t');
    CollapseRunsSplit(a, x, b, ' ', '\t');
    CollapseRunsSplit(a1, x, b1, '\t', '\t');
  }

  /** A gap of two or more spaces, or of one or more tabs, becomes one tab. */
  lemma NormaliseWhitespaceGap(g: string, c: char)
    requires c == ' ' || c == '\t'
    requires |g| > 0 && forall j :: 0 <= j < |g| ==> g[j] == c
    requires c == '\t' || |g| >= 2
    ensures NormaliseWhitespace(g) == "\t"
  {
    if c == ' ' {
      CollapseRunsWhole(g, ' ', '\t');
      CollapseRunsSettled("\t", '\t', '\t');
    } else {
      CollapseRunsSettled(g, ' ', '\t');
      if |g| >= 2 {
        CollapseRunsWhole(g, '\t', '\t');
      } else {
        CollapseRunsSettled(g, '\t', '\t');
        assert g == "\t";
      }
    }
  }

  /** Two fields around such a gap are normalised separately and joined by
      one tab. */
  lemma NormaliseWhitespaceFields(a: string, g: string, b: string, c: char)
    requires |a| > 0 && a[|a| - 1] != ' ' && a[|a| - 1] != '\t'
    requires |b| > 0 && b[0] != ' ' && b[0] != '\t'
    requires c == ' ' || c == '\t'
    requires |g| > 0 && forall j :: 0 <= j < |g| ==> g[j] == c
    requires c == '\t' || |g| >= 2
    ensures NormaliseWhitespace(a + g + b) == NormaliseWhitespace(a) + "\t" + NormaliseWhitespace(b)
  {
    var a', x := a[..|a| - 1], a[|a| - 1];
    var y, b' := b[0], b[1..];
    var t := g + [y] + b';
    SplitEnds(a, b);
    Regroup(a', x, g, y, b');
    NormaliseWhitespaceSplits(a', x, t);
    NormaliseWhitespaceSplits(g, y, b');
    NormaliseWhitespaceGap(g, c);
    NormaliseWhitespaceSplits(a', x, []);
    NormaliseWhitespaceSplits([], y, b');
    Regroup(NormaliseWhitespace(a'), x, "\t", y, NormaliseWhitespace(b'));
  }

  lemma SplitEnds(a: string, b: string)
    requires |a| > 0 && |b| > 0
    ensures a == a[..|a| - 1] + [a[|a| - 1]] && b == [b[0]] + b[1..]
  {
  }

  /** How the proof above regroups its pieces. */
  lemma Regroup(a: string, x: char, g: string, y: char, b: string)
    ensures (a + [x]) + g + ([y] + b) == a + [x] + (g + [y] + b)
    ensures a + [x] == a + [x] + [] && [y] + b == [] + [y] + b
  {
  }

  /** The note column holds a count class, `1` or `2`. */
  predicate HasNote(field: string) {
    |field| > 0 && (field[0] == '1' || field[0] == '2')
  }

  /** The corrected command of the `|@|` entry (vimsplain.py:56-57). */
  const RegisterCommand: string := "@{0-9a-zA-Z\".=*}"

  /** What every entry the normaliser keeps satisfies. */
  predicate IsNormalisedEntry(f: seq<string>) {
    && |f| >= 3
    && (f[2] == "" || HasNote(f[2]))
    && !(IsDigitString(f[1]) && f[1] != "0")
    && f[0] != "|quote|" && f[0] != "|:|"
    && (f[0] == "|@|" ==> f[1] == RegisterCommand)
  }

  predicate TabFree(f: seq<string>) {
    forall k :: 0 <= k < |f| ==> '\t' !in f[k]
  }

  /** The fields with an empty note inserted before the third one when it is
      not a note. */
  function InsertNote(f: seq<string>): (r: seq<string>)
    requires |f| >= 3
    ensures |r| >= 3 && r[..2] == f[..2]
    ensures |r| == |f| + 1 <==> !HasNote(f[2])
    ensures |r| == |f| || |r| == |f| + 1
    ensures r[|r| - (|f| - 2)..] == f[2..]
    ensures r[2] == "" || HasNote(r[2])
    ensures TabFree(f) ==> TabFree(r)
  {
    if HasNote(f[2]) then f else f[..2] + [""] + f[2..]
  }

  function CountChar(s: string, c: char): (r: nat)
    decreases |s|
  {
    if |s| == 0 then 0 else (if s[0] == c then 1 else 0) + CountChar(s[1..], c)
  }

  /** Splitting gives one more piece than there are separators. */
  lemma {:induction false} SplitLength(s: string, c: char)
    ensures |Split(s, c)| == CountChar(s, c) + 1
    decreases |s|
  {
    if |s| > 0 {
      SplitLength(s[1..], c);
    }
  }

  /** Lines 39-61 for one joined line: no entry (`None`) for a count entry
      or a `quote`/`:` entry, an error for a line with fewer than two tabs
      after normalisation, and otherwise the fields, re-split after the
      inserted tab.  Setting `fields[2]` (line 46) before the checks of lines
      47-55, as the source does, does not affect them: they read fields 0
      and 1 only. */
  function NormaliseLine(line: string): (r: Result<Option<seq<string>>, CorpusError>)
    ensures r.Err? <==> CountChar(NormaliseWhitespace(line), '\t') < 2
    ensures r.Ok? ==> (r.value.None? <==> Skipped(Split(NormaliseWhitespace(line), '\t')))
    ensures r.Ok? && r.value.Some? ==> var parts := Split(NormaliseWhitespace(line), '\t');
      && |parts| >= 3 && TabFree(parts) && !Skipped(parts)
      && r.value.value == EntryFields(parts)
    ensures r.Ok? && r.value.Some? ==> IsNormalisedEntry(r.value.value) && TabFree(r.value.value)
  {
    var w := NormaliseWhitespace(line);
    var parts := Split(w, '\t');
    SplitLength(w, '\t');
    if |parts| < 3 then Err(ShortLine(parts))
    else if IsDigitString(parts[1]) && parts[1] != "0" then Ok(None)
    else if parts[0] == "|quote|" || parts[0] == "|:|" then Ok(None)
    else Ok(Some(EntryFields(parts)))
  }

  /** The fields of a line the loop drops: a count entry (a second field of
      digits other than "0") or the `quote` and `:` entries. */
  predicate Skipped(parts: seq<string>) {
    && |parts| >= 3
    && ((IsDigitString(parts[1]) && parts[1] != "0") || parts[0] == "|quote|" || parts[0] == "|:|")
  }

  /** The fields of a kept entry (vimsplain.py:45-46, 56-60): the `|@|`
      command corrected, then the third field prefixed with a tab when it is
      not a note and the line re-split, which inserts an empty note. */
  function EntryFields(parts: seq<string>): (r: seq<string>)
    requires |parts| >= 3 && TabFree(parts)
    requires !(IsDigitString(parts[1]) && parts[1] != "0")
    requires parts[0] != "|quote|" && parts[0] != "|:|"
    ensures r == InsertNote(if parts[0] == "|@|" then parts[1 := RegisterCommand] else parts)
    ensures IsNormalisedEntry(r) && TabFree(r)
  {
    var plain := if parts[0] == "|@|" then parts[1 := RegisterCommand] else parts;
    var fixed := plain[2 := if HasNote(plain[2]) then plain[2] else "\t" + plain[2]];
    ReSplitInsertsNote(plain);
    assert !IsDigitString(RegisterCommand) by {
      assert !IsDigit(RegisterCommand[0]);
    }
    Split(Join(fixed, '\t'), '\t')
  }

  lemma JoinCons(x: string, ps: seq<string>, c: char)
    requires |ps| >= 1
    ensures Join([x] + ps, c) == x + [c] + Join(ps, c)
  {
    assert ([x] + ps)[1..] == ps;
  }

  /** Prefixing a piece with the separator is the same as inserting an empty
      piece before it. */
  lemma JoinLeadingSeparator(x: string, rest: seq<string>, c: char)
    ensures Join([[c] + x] + rest, c) == Join(["", x] + rest, c)
  {
    JoinCons("", [x] + rest, c);
    assert ["", x] + rest == [""] + ([x] + rest);
    if |rest| > 0 {
      JoinCons([c] + x, rest, c);
      JoinCons(x, rest, c);
    }
  }

  /** Joining the fields with a tab inserted in front of the third one and
      splitting again is `InsertNote` (vimsplain.py:45-46, 59-60). */
  lemma ReSplitInsertsNote(f: seq<string>)
    requires |f| >= 3 && TabFree(f)
    ensures var g := f[2 := if HasNote(f[2]) then f[2] else "\t" + f[2]];
      Split(Join(g, '\t'), '\t') == InsertNote(f)
  {
    if HasNote(f[2]) {
      assert f[2 := f[2]] == f;
      SplitJoin(f, '\t');
    } else {
      var tailG := [['\t'] + f[2]] + f[3..];
      var tailH := ["", f[2]] + f[3..];
      JoinLeadingSeparator(f[2], f[3..], '\t');
      JoinSameTail(f[0], f[1], tailG, tailH, '\t');
      assert f[2 := "\t" + f[2]] == [f[0], f[1]] + tailG;
      var h := f[..2] + [""] + f[2..];
      assert h == [f[0], f[1]] + tailH;
      assert TabFree(h);
      SplitJoin(h, '\t');
    }
  }

  /** Two field lists that join to the same text still do after the same
      two fields are put in front. */
  lemma JoinSameTail(a: string, b: string, ps: seq<string>, qs: seq<string>, c: char)
    requires |ps| >= 1 && |qs| >= 1 && Join(ps, c) == Join(qs, c)
    ensures Join([a, b] + ps, c) == Join([a, b] + qs, c)
  {
    assert [a, b] + ps == [a] + ([b] + ps);
    assert [a, b] + qs == [a] + ([b] + qs);
    JoinCons(b, ps, c);
    JoinCons(b, qs, c);
    JoinCons(a, [b] + ps, c);
    JoinCons(a, [b] + qs, c);
  }

  /** `f` applied to every element in order, stopping at the first error;
      an element that yields `None` leaves no entry. */
  function TryCollect<A, B, E>(f: A -> Result<Option<B>, E>, xs: seq<A>): (r: Result<seq<B>, E>)
    ensures r.Err? <==> exists i :: 0 <= i < |xs| && f(xs[i]).Err?
    ensures r.Ok? ==> r.value == SomeValues(f, xs)
    ensures r.Ok? ==> |r.value| <= |xs|
    ensures r.Ok? ==> forall k :: 0 <= k < |r.value| ==> exists i :: 0 <= i < |xs| && f(xs[i]) == Ok(Some(r.value[k]))
    decreases |xs|
  {
    if |xs| == 0 then Ok([])
    else
      var init := xs[..|xs| - 1];
      assert forall i :: 0 <= i < |init| ==> init[i] == xs[i];
      SomeValuesLast(f, xs);
      match TryCollect(f, init)
      case Err(e) => Err(e)
      case Ok(done) =>
        match f(xs[|xs| - 1])
        case Err(e) => Err(e)
        case Ok(None) => Ok(done)
        case Ok(Some(y)) => Ok(done + [y])
  }

  /** The values `f` gives in `Ok(Some(_))`, in the elements' order. */
  function SomeValues<A, B, E>(f: A -> Result<Option<B>, E>, xs: seq<A>): (r: seq<B>)
    decreases |xs|
  {
    if |xs| == 0 then []
    else (if f(xs[0]).Ok? && f(xs[0]).value.Some? then [f(xs[0]).value.value] else []) + SomeValues(f, xs[1..])
  }

  /** Taking the values from the back gives the same list. */
  lemma {:induction false} SomeValuesLast<A, B, E>(f: A -> Result<Option<B>, E>, xs: seq<A>)
    requires |xs| > 0
    ensures var x := xs[|xs| - 1];
      SomeValues(f, xs) == SomeValues(f, xs[..|xs| - 1]) + (if f(x).Ok? && f(x).value.Some? then [f(x).value.value] else [])
    decreases |xs|
  {
    if |xs| > 1 {
      SomeValuesLast(f, xs[1..]);
      assert xs[1..][..|xs| - 2] == xs[..|xs| - 1][1..];
    }
  }

  /** `f` applied to every element in order, stopping at the first error; on
      success the results stand in the elements' places. */
  function TryAll<A, B, E>(f: A -> Result<B, E>, xs: seq<A>): (r: Result<seq<B>, E>)
    ensures r.Err? <==> exists i :: 0 <= i < |xs| && f(xs[i]).Err?
    ensures r.Ok? ==> |r.value| == |xs|
    ensures r.Ok? ==> forall i :: 0 <= i < |xs| ==> f(xs[i]) == Ok(r.value[i])
    decreases |xs|
  {
    if |xs| == 0 then Ok([])
    else
      var init := xs[..|xs| - 1];
      assert forall i :: 0 <= i < |init| ==> init[i] == xs[i];
      match TryAll(f, init)
      case Err(e) => Err(e)
      case Ok(done) =>
        match f(xs[|xs| - 1])
        case Err(e) => Err(e)
        case Ok(y) => Ok(done + [y])
  }

  /** The normalisation loop of vimsplain.py:34-61 over a section's joined
      lines, in order: the first short line aborts, and skipped lines leave no
      entry. */
  function NormaliseLines(lines: seq<string>): (r: Result<seq<seq<string>>, CorpusError>)
    ensures r.Err? <==> exists k :: 0 <= k < |lines| && NormaliseLine(lines[k]).Err?
    ensures r.Ok? ==> r.value == SomeValues(NormaliseLine, lines)
    ensures r.Ok? ==> |r.value| <= |lines|
    ensures r.Ok? ==> forall k :: 0 <= k < |r.value| ==> IsNormalisedEntry(r.value[k]) && TabFree(r.value[k])
  {
    TryCollect(NormaliseLine, lines)
  }

  /** One section: its lines joined, then normalised. */
  function NormaliseSection(section: string): (r: Result<seq<seq<string>>, CorpusError>) {
    match JoinLines(Split(section, '\n'))
    case Err(e) => Err(e)
    case Ok(lines) => NormaliseLines(lines)
  }

  /** The sections in order; the first failing one aborts.  On success each
      section's entries are exactly what that section alone normalises to. */
  function NormaliseSections(sections: seq<string>): (r: Result<seq<seq<seq<string>>>, CorpusError>)
    ensures r.Err? <==> exists i :: 0 <= i < |sections| && NormaliseSection(sections[i]).Err?
    ensures r.Ok? ==> |r.value| == |sections|
    ensures r.Ok? ==> forall i :: 0 <= i < |sections| ==> NormaliseSection(sections[i]) == Ok(r.value[i])
  {
    TryAll(NormaliseSection, sections)
  }

  /** Length of the run of characters other than `c` starting at index `j`
      (`[^c]+` taken greedily). */
  function RunWithout(s: string, j: nat, c: char): (k: nat)
    ensures j + k <= |s| || k == 0
    ensures forall q :: j <= q < j + k ==> s[q] != c
    ensures j + k < |s| ==> s[j + k] == c
    decreases |s| - j
  {
    if j < |s| && s[j] != c then 1 + RunWithout(s, j + 1, c) else 0
  }

  const SameAsPhrase: string := "same as "

  /** `same as ([^"][^ ]+|"[^"]+")` tried at index `p`: group 1 if the
      pattern matches there.  The first alternative is a character other
      than a quote followed by the longest run without a space; the second a
      quoted text without quotes inside. */
  function SameAsAt(s: string, p: nat): (r: Option<string>)
    ensures r.Some? ==> OccursAt(s, SameAsPhrase, p) && |r.value| >= 2
    ensures r.Some? ==> var a := p + |SameAsPhrase|;
      a + |r.value| <= |s| && r.value == s[a..a + |r.value|]
    ensures r.Some? && r.value[0] == '"' ==>
      r.value[|r.value| - 1] == '"' && '"' !in r.value[1..|r.value| - 1]
    ensures r.Some? && r.value[0] != '"' ==> ' ' !in r.value[1..]
    ensures r.Some? && r.value[0] != '"' ==> var e := p + |SameAsPhrase| + |r.value|; e == |s| || s[e] == ' '
    ensures r.Some? <==> OccursAt(s, SameAsPhrase, p) && SameAsGroupStarts(s, p + |SameAsPhrase|)
  {
    if !OccursAt(s, SameAsPhrase, p) then None
    else
      var a := p + |SameAsPhrase|;
      if a < |s| && s[a] != '"' && RunWithout(s, a + 1, ' ') > 0 then
        var k := RunWithout(s, a + 1, ' ');
        Some(s[a..a + 1 + k])
      else if a < |s| && s[a] == '"' && RunWithout(s, a + 1, '"') > 0
              && a + 1 + RunWithout(s, a + 1, '"') < |s| then
        var k := RunWithout(s, a + 1, '"');
        var g := s[a..a + k + 2];
        Some(g)
      else None
  }

  /** What group 1 needs at index `a`: a character other than a quote and
      then one other than a space, or a quote, a character other than a
      quote, and a closing quote somewhere after. */
  predicate SameAsGroupStarts(s: string, a: nat) {
    && a + 1 < |s|
    && if s[a] != '"' then s[a + 1] != ' '
       else s[a + 1] != '"' && '"' in s[a + 2..]
  }

  /** `sameas_expr.search(s)` from index `p`: the leftmost index at or after
      `p` where the pattern matches. */
  function FindSameAs(s: string, p: nat): (r: Option<nat>)
    ensures match r
      case Some(i) => p <= i && SameAsAt(s, i).Some? && forall q :: p <= q < i ==> SameAsAt(s, q).None?
      case None => forall q :: p <= q ==> SameAsAt(s, q).None?
    decreases |s| - p
  {
    if p >= |s| then
      NoSameAsBeyond(s, p);
      None
    else if SameAsAt(s, p).Some? then Some(p)
    else FindSameAs(s, p + 1)
  }

  /** The pattern cannot match at or past the end of the text. */
  lemma NoSameAsBeyond(s: string, p: nat)
    requires p >= |s|
    ensures forall q :: p <= q ==> SameAsAt(s, q).None?
  {
    forall q | p <= q
      ensures !OccursAt(s, SameAsPhrase, q)
    {
    }
  }

  /** Length of the run of `c` that ends the text. */
  function TrailingRun(s: string, c: char): (k: nat)
    ensures k <= |s|
    ensures forall j :: |s| - k <= j < |s| ==> s[j] == c
    ensures k < |s| ==> s[|s| - 1 - k] != c
    decreases |s|
  {
    if |s| > 0 && s[|s| - 1] == c then 1 + TrailingRun(s[..|s| - 1], c) else 0
  }

  /** `s.strip(c)`: the text without its leading and trailing runs of `c`. */
  function StripChar(s: string, c: char): (r: string)
    ensures var i := LeadingRun(s, c);
      && i + |r| <= |s| && r == s[i..i + |r|]
      && forall j :: i + |r| <= j < |s| ==> s[j] == c
    ensures |r| > 0 ==> r[0] != c && r[|r| - 1] != c
    ensures c !in s ==> r == s
    ensures (forall j :: 0 <= j < |s| ==> s[j] == c) ==> r == []
  {
    var i := LeadingRun(s, c);
    var k := TrailingRun(s[i..], c);
    assert c !in s ==> i == 0 && k == 0;
    s[i..][..|s| - i - k]
  }

  /** A quoted text without quotes inside loses exactly its quotes. */
  lemma StripQuotes(q: string)
    requires |q| > 0 && '"' !in q
    ensures StripChar("\"" + q + "\"", '"') == q
  {
    var s := "\"" + q + "\"";
    assert LeadingRun(s, '"') == 1 by {
      assert s[1] == q[0];
    }
    assert TrailingRun(s[1..], '"') == 1 by {
      assert s[1..] == q + "\"";
      assert (q + "\"")[..|q|] == q;
      assert q[|q| - 1] in q;
    }
  }

  /** The command an explanation refers to: group 1 of the first "same as"
      match, without its quotes. */
  function SameAsTarget(expl: string): (r: Option<string>)
    ensures r.Some? <==> exists p: nat :: SameAsAt(expl, p).Some?
  {
    match FindSameAs(expl, 0)
    case Some(p) => Some(StripChar(SameAsAt(expl, p).value, '"'))
    case None => None
  }

  /** The target is group 1 of the leftmost match, without its quotes. */
  lemma SameAsTargetLeftmost(expl: string, p: nat)
    requires SameAsAt(expl, p).Some?
    requires forall q :: 0 <= q < p ==> SameAsAt(expl, q).None?
    ensures SameAsTarget(expl) == Some(StripChar(SameAsAt(expl, p).value, '"'))
  {
    var r := FindSameAs(expl, 0);
    assert r.Some? ==> !(r.value < p) && !(p < r.value);
  }

  /** Every entry has an explanation field, `parts[3]`. */
  predicate HasExplanations(sec: seq<seq<string>>) {
    forall j :: 0 <= j < |sec| ==> |sec[j]| >= 4
  }

  /** The resolution pass changes nothing but explanations. */
  predicate SameShape(a: seq<seq<string>>, b: seq<seq<string>>) {
    && |a| == |b|
    && (forall j :: 0 <= j < |a| ==> |a[j]| == |b[j]|)
    && (forall j, f :: 0 <= j < |a| && 0 <= f < |a[j]| && f != 3 && |b[j]| == |a[j]| ==> a[j][f] == b[j][f])
  }

  /** The inner loop of vimsplain.py:69-71 for entry `k`, from index `j` on:
      every entry whose command is `target` overwrites `k`'s explanation with
      its own; `value` is `k`'s explanation so far. */
  function CopyMatching(sec: seq<seq<string>>, k: nat, target: string, j: nat, value: string): (r: string)
    requires HasExplanations(sec) && k < |sec|
    decreases |sec| - j
  {
    if j >= |sec| then value
    else
      var v := if sec[j][1] == target then (if j == k then value else sec[j][3]) else value;
      CopyMatching(sec, k, target, j + 1, v)
  }

  /** The last entry at or after `j`, other than `k`, whose command is
      `target`. */
  function LastOther(sec: seq<seq<string>>, k: nat, target: string, j: nat): (r: Option<nat>)
    requires HasExplanations(sec)
    ensures r.Some? ==> j <= r.value < |sec| && r.value != k && sec[r.value][1] == target
    ensures r.Some? ==> forall q :: r.value < q < |sec| && q != k ==> sec[q][1] != target
    ensures r.None? ==> forall q :: j <= q < |sec| && q != k ==> sec[q][1] != target
    decreases |sec| - j
  {
    if j >= |sec| then None
    else
      match LastOther(sec, k, target, j + 1)
      case Some(q) => Some(q)
      case None => if j != k && sec[j][1] == target then Some(j) else None
  }

  /** The inner loop leaves `k` with the explanation of the last other entry
      whose command is the target, or with its own when there is none. */
  lemma {:induction false} CopyMatchingLast(sec: seq<seq<string>>, k: nat, target: string, j: nat, value: string)
    requires HasExplanations(sec) && k < |sec|
    ensures CopyMatching(sec, k, target, j, value)
         == match LastOther(sec, k, target, j)
            case Some(q) => sec[q][3]
            case None => value
    decreases |sec| - j
  {
    if j < |sec| {
      var v := if sec[j][1] == target then (if j == k then value else sec[j][3]) else value;
      CopyMatchingLast(sec, k, target, j + 1, v);
    }
  }

  /** `LastOther` reads only the commands. */
  lemma {:induction false} LastOtherCommands(a: seq<seq<string>>, b: seq<seq<string>>, k: nat, target: string, j: nat)
    requires HasExplanations(a) && HasExplanations(b) && |a| == |b|
    requires forall q :: 0 <= q < |a| ==> a[q][1] == b[q][1]
    ensures LastOther(a, k, target, j) == LastOther(b, k, target, j)
    decreases |a| - j
  {
    if j < |a| {
      LastOtherCommands(a, b, k, target, j + 1);
    }
  }

  /** One round of the outer loop: entry `k` with a "same as" reference
      takes the explanation the inner loop finds; nothing else changes. */
  function ResolveEntry(refOf: string -> Option<string>, cur: seq<seq<string>>, k: nat): (r: seq<seq<string>>)
    requires HasExplanations(cur) && k < |cur|
    ensures |r| == |cur| && HasExplanations(r)
  {
    match refOf(cur[k][3])
    case None => cur
    case Some(target) => cur[k := cur[k][3 := CopyMatching(cur, k, target, 0, cur[k][3])]]
  }

  /** A round changes only the explanation of its own entry, and only when
      that entry has a reference. */
  lemma ResolveEntryKeeps(refOf: string -> Option<string>, cur: seq<seq<string>>, k: nat)
    requires HasExplanations(cur) && k < |cur|
    ensures SameShape(ResolveEntry(refOf, cur, k), cur)
    ensures forall j :: 0 <= j < |cur| && j != k ==> ResolveEntry(refOf, cur, k)[j] == cur[j]
    ensures refOf(cur[k][3]).None? ==> ResolveEntry(refOf, cur, k) == cur
  {
  }

  /** The section after the outer loop has handled its first `n` entries. */
  function Resolved(refOf: string -> Option<string>, sec: seq<seq<string>>, n: nat): (r: seq<seq<string>>)
    requires HasExplanations(sec) && n <= |sec|
    ensures |r| == |sec| && HasExplanations(r)
    decreases n
  {
    if n == 0 then sec else ResolveEntry(refOf, Resolved(refOf, sec, n - 1), n - 1)
  }

  /** Part way through the outer loop only explanations have changed, later
      entries are untouched, and so is every entry without a reference. */
  lemma {:induction false} ResolvedKeeps(refOf: string -> Option<string>, sec: seq<seq<string>>, n: nat)
    requires HasExplanations(sec) && n <= |sec|
    ensures SameShape(Resolved(refOf, sec, n), sec)
    ensures forall j :: n <= j < |sec| ==> Resolved(refOf, sec, n)[j] == sec[j]
    ensures forall j :: 0 <= j < |sec| && refOf(sec[j][3]).None? ==> Resolved(refOf, sec, n)[j] == sec[j]
    decreases n
  {
    if n > 0 {
      ResolvedKeeps(refOf, sec, n - 1);
      var cur := Resolved(refOf, sec, n - 1);
      var next := ResolveEntry(refOf, cur, n - 1);
      ResolveEntryKeeps(refOf, cur, n - 1);
      assert Resolved(refOf, sec, n) == next;
      assert cur[n - 1] == sec[n - 1];
    }
  }

  /** The "same as" pass over one section (vimsplain.py:64-71).  `refOf`
      finds the command an explanation refers to; `fix_help` uses
      `SameAsTarget`, and nothing below depends on how it is found. */
  function ResolveSameAs(refOf: string -> Option<string>, sec: seq<seq<string>>): (r: seq<seq<string>>)
    requires HasExplanations(sec)
    ensures HasExplanations(r) && SameShape(r, sec)
    ensures forall j :: 0 <= j < |sec| && refOf(sec[j][3]).None? ==> r[j] == sec[j]
  {
    ResolvedKeeps(refOf, sec, |sec|);
    Resolved(refOf, sec, |sec|)
  }

  /** Once the outer loop has passed an entry, that entry no longer changes. */
  lemma {:induction false} ResolvedStable(refOf: string -> Option<string>, sec: seq<seq<string>>, k: nat, n: nat)
    requires HasExplanations(sec) && k < n <= |sec|
    ensures Resolved(refOf, sec, n)[k] == Resolved(refOf, sec, k + 1)[k]
    decreases n
  {
    if n > k + 1 {
      ResolvedStable(refOf, sec, k, n - 1);
      ResolvedStepElsewhere(refOf, sec, n, k);
    }
  }

  lemma ResolvedStepElsewhere(refOf: string -> Option<string>, sec: seq<seq<string>>, n: nat, k: nat)
    requires HasExplanations(sec) && k + 1 < n <= |sec|
    ensures Resolved(refOf, sec, n)[k] == Resolved(refOf, sec, n - 1)[k]
  {
    var cur := Resolved(refOf, sec, n - 1);
    ResolveEntryKeeps(refOf, cur, n - 1);
    assert Resolved(refOf, sec, n) == ResolveEntry(refOf, cur, n - 1);
  }

  /** What a "same as" reference resolves to.  With no other entry of the
      section having the referenced command, the explanation stays as it is.
      Otherwise the last such entry wins, and its original explanation is
      copied when it comes later in the section or refers to nothing itself;
      an earlier entry that was itself resolved passes on its resolved text. */
  lemma SameAsResolution(refOf: string -> Option<string>, sec: seq<seq<string>>, k: nat, target: string)
    requires HasExplanations(sec) && k < |sec|
    requires refOf(sec[k][3]) == Some(target)
    ensures LastOther(sec, k, target, 0).None? ==> ResolveSameAs(refOf, sec)[k][3] == sec[k][3]
    ensures var q := LastOther(sec, k, target, 0);
      (q.Some? && (k < q.value || refOf(sec[q.value][3]).None?))
      ==> ResolveSameAs(refOf, sec)[k][3] == sec[q.value][3]
    ensures var q := LastOther(sec, k, target, 0);
      q.Some? && q.value < k ==> ResolveSameAs(refOf, sec)[k][3] == ResolveSameAs(refOf, sec)[q.value][3]
  {
    var cur := Resolved(refOf, sec, k);
    ResolvedKeeps(refOf, sec, k);
    ResolvedStable(refOf, sec, k, |sec|);
    assert cur[k] == sec[k];
    LastOtherCommands(cur, sec, k, target, 0);
    CopyMatchingLast(cur, k, target, 0, cur[k][3]);
    var q := LastOther(sec, k, target, 0);
    if q.Some? && q.value < k {
      ResolvedStable(refOf, sec, q.value, k);
      ResolvedStable(refOf, sec, q.value, |sec|);
    }
  }

  /** The resolution pass over every section; it needs every entry to have
      an explanation field. */
  function ResolveSections(secs: seq<seq<seq<string>>>): (r: seq<seq<seq<string>>>)
    requires forall i :: 0 <= i < |secs| ==> HasExplanations(secs[i])
    ensures |r| == |secs|
    ensures forall i :: 0 <= i < |secs| ==> r[i] == ResolveSameAs(SameAsTarget, secs[i])
    ensures forall i :: 0 <= i < |secs| ==> SameShape(r[i], secs[i]) && HasExplanations(r[i])
  {
    seq(|secs|, i requires 0 <= i < |secs| => ResolveSameAs(SameAsTarget, secs[i]))
  }

  /** A shape-preserving pass keeps the normalised form of every entry. */
  lemma SameShapeNormalised(a: seq<seq<string>>, b: seq<seq<string>>, k: nat)
    requires SameShape(a, b) && k < |b| && IsNormalisedEntry(b[k])
    ensures IsNormalisedEntry(a[k])
  {
    assert a[k][0] == b[k][0] && a[k][1] == b[k][1] && a[k][2] == b[k][2];
  }

  /** The entries of a normalised section are normalised. */
  lemma SectionsNormalised(sections: seq<string>, secs: seq<seq<seq<string>>>, i: nat, k: nat)
    ensures NormaliseSections(sections) == Ok(secs) && i < |secs| && k < |secs[i]| ==> IsNormalisedEntry(secs[i][k])
  {
    if NormaliseSections(sections) == Ok(secs) && i < |secs| && k < |secs[i]| {
      assert NormaliseSection(sections[i]) == Ok(secs[i]);
    }
  }

  /** `fix_help(helpfile)`: the sections after the first, each normalised
      and then resolved.  An error of the normalisation passes is reported as
      it is; otherwise an entry without an explanation field aborts the
      resolution pass. */
  function FixHelp(text: string): (r: Result<seq<seq<seq<string>>>, CorpusError>)
    ensures var n := NormaliseSections(SplitSections(text)[1..]);
      && (n.Err? ==> r == n)
      && (n.Ok? ==> (r.Ok? <==> forall i :: 0 <= i < |n.value| ==> HasExplanations(n.value[i])))
      && (n.Ok? && r.Err? ==> r.error == MissingExplanation)
      && (n.Ok? && r.Ok? ==>
            (|r.value| == |n.value| && forall i :: 0 <= i < |n.value| ==> SameShape(r.value[i], n.value[i])))
      && (n.Ok? && r.Ok? ==>
            forall i :: 0 <= i < |n.value| ==> r.value[i] == ResolveSameAs(SameAsTarget, n.value[i]))
    ensures r.Ok? ==> |r.value| == |SplitSections(text)| - 1
    ensures r.Ok? ==>
      (forall i, k :: 0 <= i < |r.value| && 0 <= k < |r.value[i]| ==>
         IsNormalisedEntry(r.value[i][k]) && |r.value[i][k]| >= 4)
  {
    var sections := SplitSections(text)[1..];
    match NormaliseSections(sections)
    case Err(e) => Err(e)
    case Ok(secs) =>
      if forall i :: 0 <= i < |secs| ==> HasExplanations(secs[i]) then
        var fixed := ResolveSections(secs);
        forall i, k | 0 <= i < |fixed| && 0 <= k < |fixed[i]|
          ensures IsNormalisedEntry(fixed[i][k])
        {
          SectionsNormalised(sections, secs, i, k);
          SameShapeNormalised(fixed[i], secs[i], k);
        }
        Ok(fixed)
      else Err(MissingExplanation)
  }
}
