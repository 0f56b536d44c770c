/** The table-assembly half of `parse_commands` (vimsplain.py:196-273): each
    normalised entry becomes a command record, is classified as a motion or
    not, and is pushed onto the front of the mode lists its section belongs
    to.  The regular-expression text of each entry and its plain command are
    inputs here; how they are built from the entry is not part of this
    model, and `compile` stands for `re.compile`. */
module Assembly {
  import opened Basics
  import opened Text
  import opened Commands

  /** One entry as the assembly loop sees it: the first field (the tag with
      its surrounding bars), the note field, the explanation field, the plain
      command, and the regular-expression text built for it. */
  datatype Entry = Entry(barTag: string, note: string, explanation: string, plain: string, pattern: string)

  /** An entry with the index of the section it came from. */
  datatype Item = Item(section: nat, entry: Entry)

  /** `parts[0][1:-1]`: the tag without the bars around it. */
  function Tag(e: Entry): (r: string) {
    if |e.barTag| >= 2 then e.barTag[1..|e.barTag| - 1] else []
  }

  const MotionMark: string := "{motion}"

  /** `command.endswith('{motion}')`. */
  predicate ExpectsMotion(pattern: string) {
    |pattern| >= |MotionMark| && pattern[|pattern| - |MotionMark|..] == MotionMark
  }

  /** The text that is compiled: `command.replace('{motion}', '')`.  Without
      the mark the pattern is compiled as it is; otherwise the text before
      the leftmost mark is kept and the search resumes after it, so a
      pattern that ends in its only mark loses exactly that mark. */
  function CompiledText(pattern: string): (r: string)
    ensures !Contains(pattern, MotionMark) ==> r == pattern
    ensures Contains(pattern, MotionMark) ==>
      var i := Find(pattern, MotionMark).value;
      && i + |MotionMark| <= |pattern|
      && r == pattern[..i] + CompiledText(pattern[i + |MotionMark|..])
    ensures ExpectsMotion(pattern) && Find(pattern, MotionMark) == Some(|pattern| - |MotionMark|)
      ==> r == pattern[..|pattern| - |MotionMark|]
    decreases |pattern|
  {
    RemoveFirst(pattern, MotionMark);
    ReplaceAll(pattern, MotionMark, "")
  }

  /** Removing every `pat`, split at its leftmost occurrence. */
  lemma RemoveFirst(s: string, pat: string)
    requires |pat| > 0
    ensures !Contains(s, pat) ==> ReplaceAll(s, pat, "") == s
    ensures Contains(s, pat) ==>
      var i := Find(s, pat).value;
      && i + |pat| <= |s|
      && ReplaceAll(s, pat, "") == s[..i] + ReplaceAll(s[i + |pat|..], pat, "")
    ensures Find(s, pat) == Some(|s| - |pat|) ==> ReplaceAll(s, pat, "") == s[..|s| - |pat|]
  {
    if !Contains(s, pat) {
      ReplaceAllAbsent(s, pat, "");
    } else {
      ReplaceAllAtFirst(s, pat, "");
      var i := Find(s, pat).value;
      assert s[..i] + "" == s[..i];
      if i == |s| - |pat| {
        assert s[i + |pat|..] == [];
      }
    }
  }

  /** Python's `s[2:]`: everything after the first two characters, or
      nothing for a shorter text. */
  function DropTwo(s: string): (r: string)
    ensures |r| == if |s| >= 2 then |s| - 2 else 0
    ensures IsSuffix(r, s)
  {
    if |s| >= 2 then s[2..] else []
  }

  /** An entry ready to be placed: everything the loop stores besides the
      motion classification, with the pattern compiled once for the Insert,
      Normal and Visual lists and once, without the two characters of the
      escaped leading colon, for the Ex list. */
  datatype Prepared = Prepared(
    section: nat,
    tag: string,
    note: string,
    matcher: Matcher,
    exMatcher: Matcher,
    explanation: string,
    plain: string,
    expectMotion: bool)

  /** The per-entry part of vimsplain.py:252-268: the tag, `expect_motion`,
      and the two compiled patterns. */
  function Prepare(it: Item, compile: string -> Matcher): (r: Prepared) {
    var text := CompiledText(it.entry.pattern);
    Prepared(it.section, Tag(it.entry), it.entry.note, compile(text), compile(DropTwo(text)),
             it.entry.explanation, it.entry.plain, ExpectsMotion(it.entry.pattern))
  }

  /** The record `tup` (or `tup2` for the Ex list). */
  function Record(p: Prepared, isMotion: bool, ex: bool): (r: Command) {
    Command(p.tag, if ex then p.exMatcher else p.matcher, p.explanation, p.plain, isMotion, p.expectMotion)
  }

  /** The lists a section's entries go to: section 0 holds Insert-mode
      commands, section 7 Visual-mode ones, section 8 none, section 9 Ex
      commands, which also count as Normal and Visual ones, and every other
      section Normal and Visual ones. */
  function Targets(n: nat): (r: set<Mode>) {
    (if n == 0 then {Insert} else {})
    + (if n != 0 && n != 8 then {Visual} else {})
    + (if n != 0 && n != 7 && n != 8 then {Normal} else {})
    + (if n == 9 then {Ex} else {})
  }

  /** The branch of vimsplain.py:261-272 for one entry: `c` goes in front of
      the lists of section `n`, `cx` in front of the Ex list. */
  function Place(t: Table, n: nat, c: Command, cx: Command): (r: Table) {
    if n > 0 && n != 7 && n != 8 then
      var t1 := t.PushFront(Normal, c).PushFront(Visual, c);
      if n == 9 then t1.PushFront(Ex, cx) else t1
    else if n == 7 then t.PushFront(Visual, c)
    else if n == 0 then t.PushFront(Insert, c)
    else t
  }

  /** The branches of `Place` agree with `Targets`: the record goes in front
      of exactly the lists the section targets, and the rest stay as they
      are. */
  lemma PlaceTargets(t: Table, n: nat, c: Command, cx: Command, m: Mode)
    ensures Place(t, n, c, cx).Get(m) == if m in Targets(n) then [if m == Ex then cx else c] + t.Get(m) else t.Get(m)
  {
  }

  /** An entry marked as a motion by the index itself: note `1`, or the
      section of motion commands. */
  predicate Marked(p: Prepared) {
    p.note == "1" || p.section == 2
  }

  /** The classification of vimsplain.py:252-257 given the set `motions`
      built so far: a marked entry, or one whose tag is already a motion. */
  predicate Classify(motions: set<string>, p: Prepared) {
    Marked(p) || p.tag in motions
  }

  /** The set `motions` after the first `n` entries: a classified entry adds
      its tag. */
  function MotionsUpTo(ps: seq<Prepared>, n: nat): (r: set<string>)
    requires n <= |ps|
  {
    if n == 0 then {}
    else
      var prev := MotionsUpTo(ps, n - 1);
      if Classify(prev, ps[n - 1]) then prev + {ps[n - 1].tag} else prev
  }

  /** One round of the loop for entry `i`: its record, classified against
      the motions seen before it, goes in front of the lists of its section. */
  function AddItem(t: Table, ps: seq<Prepared>, i: nat): (r: Table)
    requires i < |ps|
  {
    var p := ps[i];
    var isMotion := Classify(MotionsUpTo(ps, i), p);
    Place(t, p.section, Record(p, isMotion, false), Record(p, isMotion, true))
  }

  /** The lists after the first `n` entries (vimsplain.py:252-272). */
  function AssembleUpTo(ps: seq<Prepared>, n: nat): (r: Table)
    requires n <= |ps|
  {
    if n == 0 then EmptyTable else AddItem(AssembleUpTo(ps, n - 1), ps, n - 1)
  }

  /** The tags of the marked entries among the first `n`. */
  function MarkedTags(ps: seq<Prepared>, n: nat): (r: set<string>)
    requires n <= |ps|
  {
    set j | 0 <= j < n && Marked(ps[j]) :: ps[j].tag
  }

  /** Taking one more entry adds its tag exactly when it is marked. */
  lemma MarkedTagsStep(ps: seq<Prepared>, n: nat)
    requires 0 < n <= |ps|
    ensures MarkedTags(ps, n) == MarkedTags(ps, n - 1) + (if Marked(ps[n - 1]) then {ps[n - 1].tag} else {})
  {
    var a, b := MarkedTags(ps, n), MarkedTags(ps, n - 1);
    forall x | x in a
      ensures x in b || (Marked(ps[n - 1]) && x == ps[n - 1].tag)
    {
      var j :| 0 <= j < n && Marked(ps[j]) && ps[j].tag == x;
      if j < n - 1 {
        assert x in b;
      }
    }
    assert Marked(ps[n - 1]) ==> ps[n - 1].tag in a;
  }

  lemma MarkedTagsNone(ps: seq<Prepared>)
    ensures MarkedTags(ps, 0) == {}
  {
    forall x | x in MarkedTags(ps, 0)
      ensures false
    {
    }
  }

  /** The set `motions` holds exactly the tags of the marked entries seen so
      far: a tag enters it only through a marked entry. */
  lemma {:induction false} MotionsAreMarkedTags(ps: seq<Prepared>, n: nat)
    requires n <= |ps|
    ensures MotionsUpTo(ps, n) == MarkedTags(ps, n)
    decreases n
  {
    if n > 0 {
      MotionsAreMarkedTags(ps, n - 1);
      MarkedTagsStep(ps, n);
      var prev := MotionsUpTo(ps, n - 1);
      var tag := ps[n - 1].tag;
      if !Marked(ps[n - 1]) && tag in prev {
        assert prev + {tag} == prev;
      }
    } else {
      MarkedTagsNone(ps);
    }
  }

  /** Entry `i` is a motion when it, or an earlier entry with the same tag,
      is marked as one. */
  predicate IsMotionAt(ps: seq<Prepared>, i: nat)
    requires i < |ps|
  {
    exists j :: 0 <= j <= i && Marked(ps[j]) && ps[j].tag == ps[i].tag
  }

  /** The classification the loop computes for entry `i` is `IsMotionAt`. */
  lemma MotionClassification(ps: seq<Prepared>, i: nat)
    requires i < |ps|
    ensures Classify(MotionsUpTo(ps, i), ps[i]) <==> IsMotionAt(ps, i)
  {
    MotionsAreMarkedTags(ps, i);
    if IsMotionAt(ps, i) && !Marked(ps[i]) {
      var j :| 0 <= j <= i && Marked(ps[j]) && ps[j].tag == ps[i].tag;
      assert j < i;
      assert ps[j].tag in MarkedTags(ps, i);
    }
  }

  /** The record entry `i` contributes to mode `m`'s list. */
  function CommandFor(ps: seq<Prepared>, i: nat, m: Mode): (r: Command)
    requires i < |ps|
  {
    Record(ps[i], IsMotionAt(ps, i), m == Ex)
  }

  /** In input order, the records of the first `n` entries that go to `m`. */
  function InOrder(ps: seq<Prepared>, m: Mode, n: nat): (r: seq<Command>)
    requires n <= |ps|
  {
    if n == 0 then []
    else InOrder(ps, m, n - 1) + (if m in Targets(ps[n - 1].section) then [CommandFor(ps, n - 1, m)] else [])
  }

  function Reverse<T>(s: seq<T>): (r: seq<T>)
  {
    if |s| == 0 then [] else [s[|s| - 1]] + Reverse(s[..|s| - 1])
  }

  /** Putting `x` in front of a reversal, when `x` is appended to the
      original, keeps the one the reversal of the other. */
  lemma ReverseSnoc<T>(t: seq<T>, s: seq<T>, x: T, b: bool)
    ensures t == Reverse(s) ==> (if b then [x] + t else t) == Reverse(s + (if b then [x] else []))
  {
    if b {
      assert (s + [x])[..|s|] == s;
    } else {
      assert s + [] == s;
    }
  }

  /** One round puts entry `i`'s record in front of each list its section
      targets. */
  lemma AddItemPlaces(t: Table, ps: seq<Prepared>, i: nat, m: Mode)
    requires i < |ps|
    ensures AddItem(t, ps, i).Get(m)
         == if m in Targets(ps[i].section) then [CommandFor(ps, i, m)] + t.Get(m) else t.Get(m)
  {
    MotionClassification(ps, i);
    var p := ps[i];
    var b := IsMotionAt(ps, i);
    PlaceTargets(t, p.section, Record(p, b, false), Record(p, b, true), m);
  }

  /** One round keeps each list the reversal of the records in input
      order. */
  lemma PlacementStep(ps: seq<Prepared>, n: nat, m: Mode)
    requires 0 < n <= |ps|
    ensures AssembleUpTo(ps, n - 1).Get(m) == Reverse(InOrder(ps, m, n - 1))
        ==> AssembleUpTo(ps, n).Get(m) == Reverse(InOrder(ps, m, n))
  {
    var b := m in Targets(ps[n - 1].section);
    var c := CommandFor(ps, n - 1, m);
    AssembleStep(ps, n, m);
    assert InOrder(ps, m, n) == InOrder(ps, m, n - 1) + (if b then [c] else []);
    ReverseSnoc(AssembleUpTo(ps, n - 1).Get(m), InOrder(ps, m, n - 1), c, b);
  }

  /** Entry `n - 1`'s round, seen from mode `m`'s list. */
  lemma AssembleStep(ps: seq<Prepared>, n: nat, m: Mode)
    requires 0 < n <= |ps|
    ensures AssembleUpTo(ps, n).Get(m)
         == if m in Targets(ps[n - 1].section) then [CommandFor(ps, n - 1, m)] + AssembleUpTo(ps, n - 1).Get(m)
            else AssembleUpTo(ps, n - 1).Get(m)
  {
    AddItemPlaces(AssembleUpTo(ps, n - 1), ps, n - 1, m);
  }

  /** Every list holds the records of the entries its mode gets, the last
      entry first. */
  lemma {:induction false} PlacementOrder(ps: seq<Prepared>, n: nat, m: Mode)
    requires n <= |ps|
    ensures AssembleUpTo(ps, n).Get(m) == Reverse(InOrder(ps, m, n))
    decreases n
  {
    if n > 0 {
      PlacementOrder(ps, n - 1, m);
      PlacementStep(ps, n, m);
    } else {
      assert EmptyTable.Get(m) == [];
    }
  }

  /** `enumerate(fixed_lines)` and the inner loop, flattened: every entry
      tagged with its section index, in order. */
  function Flatten(sections: seq<seq<Entry>>): (r: seq<Item>)
    ensures forall k :: 0 <= k < |r| ==> r[k].section < |sections|
    decreases |sections|
  {
    if |sections| == 0 then []
    else
      var n := |sections| - 1;
      Flatten(sections[..n]) + seq(|sections[n]|, i requires 0 <= i < |sections[n]| => Item(n, sections[n][i]))
  }

  /** Every entry appears in the flattened sequence, with its section. */
  lemma {:induction false} FlattenHas(sections: seq<seq<Entry>>, s: nat, i: nat)
    requires s < |sections| && i < |sections[s]|
    ensures Item(s, sections[s][i]) in Flatten(sections)
    decreases |sections|
  {
    var n := |sections| - 1;
    var tail := seq(|sections[n]|, i requires 0 <= i < |sections[n]| => Item(n, sections[n][i]));
    if s < n {
      FlattenHas(sections[..n], s, i);
      assert sections[..n][s] == sections[s];
    } else {
      assert tail[i] == Item(s, sections[s][i]);
    }
  }

  /** The number of entries in all the sections together. */
  function SumLengths(sections: seq<seq<Entry>>): (n: nat)
    decreases |sections|
  {
    if |sections| == 0 then 0
    else SumLengths(sections[..|sections| - 1]) + |sections[|sections| - 1]|
  }

  /** The flattened sequence holds every entry once: its length is the
      number of entries. */
  lemma {:induction false} FlattenLength(sections: seq<seq<Entry>>)
    ensures |Flatten(sections)| == SumLengths(sections)
    decreases |sections|
  {
    if |sections| > 0 {
      FlattenLength(sections[..|sections| - 1]);
    }
  }

  /** The visiting order of the two nested loops: entry `i` of section `s`
      comes after all the entries of the sections before `s` and after the
      first `i` entries of its own section. */
  lemma {:induction false} FlattenAt(sections: seq<seq<Entry>>, s: nat, i: nat)
    requires s < |sections| && i < |sections[s]|
    ensures SumLengths(sections[..s]) + i < |Flatten(sections)|
    ensures Flatten(sections)[SumLengths(sections[..s]) + i] == Item(s, sections[s][i])
    decreases |sections|
  {
    var n := |sections| - 1;
    var front := sections[..n];
    var tail := seq(|sections[n]|, i requires 0 <= i < |sections[n]| => Item(n, sections[n][i]));
    assert Flatten(sections) == Flatten(front) + tail;
    FlattenLength(front);
    if s < n {
      FlattenAt(front, s, i);
      assert front[..s] == sections[..s];
      assert front[s] == sections[s];
    } else {
      assert front == sections[..s];
      assert tail[i] == Item(s, sections[s][i]);
    }
  }

  /** All entries prepared, in order. */
  function PrepareAll(items: seq<Item>, compile: string -> Matcher): (ps: seq<Prepared>)
    ensures |ps| == |items|
    ensures forall k :: 0 <= k < |items| ==> ps[k].section == items[k].section && ps[k].tag == Tag(items[k].entry)
  {
    seq(|items|, k requires 0 <= k < |items| => Prepare(items[k], compile))
  }

  /** `parse_commands(fixed_lines)`, given each entry's pattern text: every
      mode's list holds, last entry first, the records of the entries whose
      section targets that mode, each classified by `IsMotionAt`. */
  function ParseCommands(sections: seq<seq<Entry>>, compile: string -> Matcher): (t: Table)
    ensures var ps := PrepareAll(Flatten(sections), compile);
      forall m :: t.Get(m) == Reverse(InOrder(ps, m, |ps|))
  {
    var ps := PrepareAll(Flatten(sections), compile);
    forall m {
      PlacementOrder(ps, |ps|, m);
    }
    AssembleUpTo(ps, |ps|)
  }
}
