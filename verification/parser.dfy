/** The incremental parser `parse` (vimsplain.py:108-153): one call consumes
    one command, with its trailing motion when it takes one, from the front
    of the remaining keystrokes, and returns what it consumed, the filled-in
    explanation, the rest, and the new mode and recording state. */
module Parser {
  import opened Basics
  import opened Text
  import opened Commands
  import opened Explain

  /** `CTRL_CHAR` as the source text spells it: "ยง", two code points. */
  const CtrlChar: string := "ยง"

  /** The sentinel that stands for the Escape key (`special_chars['Esc']`). */
  const EscapePrefix: string := CtrlChar + "["

  /** The escape-stripping loop (vimsplain.py:111-112) as written: while in
      normal mode and the input starts with the escape sentinel, drop two
      characters. */
  function StripEscapesAsWritten(s: string, mode: Mode): (r: string)
    ensures IsSuffix(r, s)
    ensures mode != Normal || !(EscapePrefix <= s) ==> r == s
    ensures mode == Normal ==> !(EscapePrefix <= r)
    decreases |s|
  {
    if mode == Normal && EscapePrefix <= s then StripEscapesAsWritten(s[2..], mode) else s
  }

  /** The sentinel is three characters long, so dropping two leaves its
      bracket behind, to be read as the start of a `[` command. */
  lemma AsWrittenStripLeavesBracket()
    ensures |EscapePrefix| == 3
    ensures StripEscapesAsWritten(EscapePrefix + "w", Normal) == "[w"
  {
    var s := EscapePrefix + "w";
    assert EscapePrefix <= s;
    assert s[2..] == "[w";
    assert !(EscapePrefix <= "[w");
  }

  /** `t` is a run of whole escape sentinels. */
  predicate IsEscapeRun(t: string)
    decreases |t|
  {
    |t| == 0 || (EscapePrefix <= t && IsEscapeRun(t[|EscapePrefix|..]))
  }

  /** The escape-stripping loop as intended: in normal mode every leading
      escape sentinel is removed whole; other modes keep their input. */
  function StripEscapes(s: string, mode: Mode): (r: string)
    ensures IsSuffix(r, s)
    ensures mode != Normal ==> r == s
    ensures mode == Normal ==> !(EscapePrefix <= r) && IsEscapeRun(s[..|s| - |r|])
    decreases |s|
  {
    if mode == Normal && EscapePrefix <= s then
      var r := StripEscapes(s[|EscapePrefix|..], mode);
      EscapeRunStep(s, r);
      r
    else
      assert s[..|s| - |s|] == [];
      s
  }

  /** A sentinel in front of a run of sentinels is a longer run. */
  lemma EscapeRunStep(s: string, r: string)
    requires EscapePrefix <= s
    requires IsSuffix(r, s[|EscapePrefix|..])
    requires IsEscapeRun(s[|EscapePrefix|..][..|s| - |EscapePrefix| - |r|])
    ensures IsSuffix(r, s) && IsEscapeRun(s[..|s| - |r|])
  {
    var t := s[..|s| - |r|];
    assert t[..|EscapePrefix|] == EscapePrefix;
    assert t[|EscapePrefix|..] == s[|EscapePrefix|..][..|s| - |EscapePrefix| - |r|];
    assert s[|s| - |r|..] == s[|EscapePrefix|..][|s| - |EscapePrefix| - |r|..];
  }

  /** Which escape-stripping loop `parse` runs: the source's, which drops
      two characters per sentinel, or the intended one, which drops the
      whole sentinel. */
  datatype Stripping = AsWritten | Corrected

  /** How many characters one round of the loop drops. */
  function StripWidth(how: Stripping): (w: nat)
    ensures 0 < w <= |EscapePrefix|
  {
    match how
    case AsWritten => 2
    case Corrected => |EscapePrefix|
  }

  /** The stripping loop `parse` runs. */
  function Strip(s: string, mode: Mode, how: Stripping): (r: string)
    ensures IsSuffix(r, s)
    ensures mode != Normal || !(EscapePrefix <= s) ==> r == s
    ensures mode == Normal ==> !(EscapePrefix <= r)
    ensures Thinned(s, r, mode, how)
  {
    var r := match how
      case AsWritten => StripEscapesAsWritten(s, mode)
      case Corrected => StripEscapes(s, mode);
    StripThins(s, mode, how, r);
    r
  }

  /** `t` is `s` with some chunks removed, each of them starting with an
      escape sentinel in normal mode and as long as one round of the loop
      drops. */
  predicate Thinned(s: string, t: string, mode: Mode, how: Stripping)
    decreases |s|
  {
    || s == t
    || (|s| > 0 && |t| > 0 && s[0] == t[0] && Thinned(s[1..], t[1..], mode, how))
    || (mode == Normal && EscapePrefix <= s && Thinned(s[StripWidth(how)..], t, mode, how))
  }

  /** Whatever the stripped text thins to, the unstripped one does too. */
  lemma {:induction false} StripThins(s: string, mode: Mode, how: Stripping, t: string)
    ensures var r := if how == AsWritten then StripEscapesAsWritten(s, mode) else StripEscapes(s, mode);
      Thinned(r, t, mode, how) ==> Thinned(s, t, mode, how)
    decreases |s|
  {
    if mode == Normal && EscapePrefix <= s {
      StripThins(s[StripWidth(how)..], mode, how, t);
    }
  }

  /** A shared front can be put back on both sides. */
  lemma {:induction false} ThinnedPrefix(a: string, b: string, t: string, mode: Mode, how: Stripping)
    requires Thinned(b, t, mode, how)
    ensures Thinned(a + b, a + t, mode, how)
    decreases |a|
  {
    if |a| > 0 {
      ThinnedPrefix(a[1..], b, t, mode, how);
      assert (a + b)[1..] == a[1..] + b;
      assert (a + t)[1..] == a[1..] + t;
      assert (a + b)[0] == (a + t)[0];
    } else {
      assert a + b == b && a + t == t;
    }
  }

  lemma SentinelFirst(s: string)
    ensures EscapePrefix <= s ==> Contains(s, EscapePrefix)
  {
    if EscapePrefix <= s {
      assert OccursAt(s, EscapePrefix, 0);
    }
  }

  /** Nothing starts a sentinel, so nothing can have been removed. */
  lemma {:induction false} ThinnedExact(s: string, t: string, mode: Mode, how: Stripping)
    requires Unescaped(s, mode) && Thinned(s, t, mode, how)
    ensures t == s
    decreases |s|
  {
    SentinelFirst(s);
    if |s| > 0 && |t| > 0 && s[0] == t[0] && Thinned(s[1..], t[1..], mode, how) {
      if mode == Normal && Contains(s[1..], EscapePrefix) {
        ContainsInSuffix(s, EscapePrefix, 1);
      }
      ThinnedExact(s[1..], t[1..], mode, how);
      assert s == [s[0]] + s[1..] && t == [t[0]] + t[1..];
    }
  }

  /** The test at vimsplain.py:119-124: a command is tried unless only motions
      are wanted and it is not one, or it is documented as working only while
      recording and no recording is running. */
  predicate Eligible(c: Command, recording: bool, onlyMotions: bool) {
    && !(onlyMotions && !c.isMotion)
    && !(!recording && Contains(c.explanation, "while recording"))
  }

  /** The command is tried and its pattern matches a prefix of `s`. */
  predicate Accepts(c: Command, s: string, recording: bool, onlyMotions: bool) {
    Eligible(c, recording, onlyMotions) && c.matcher(s).Some?
  }

  /** Entry `i` of `cmds` is the one the loop at vimsplain.py:118-127 stops
      at: it accepts `s`, and no entry before it does. */
  predicate Wins(cmds: seq<Command>, s: string, recording: bool, onlyMotions: bool, i: int) {
    && 0 <= i < |cmds|
    && Accepts(cmds[i], s, recording, onlyMotions)
    && forall j :: 0 <= j < i ==> !Accepts(cmds[j], s, recording, onlyMotions)
  }

  /** The index the command loop stops at, if any. */
  function FirstMatch(s: string, cmds: seq<Command>, recording: bool, onlyMotions: bool)
    : (r: Option<nat>)
    ensures r.Some? ==> Wins(cmds, s, recording, onlyMotions, r.value)
    ensures r.None? ==> forall j :: 0 <= j < |cmds| ==> !Accepts(cmds[j], s, recording, onlyMotions)
    decreases |cmds|
  {
    if |cmds| == 0 then None
    else if Accepts(cmds[0], s, recording, onlyMotions) then Some(0)
    else
      var r := FirstMatch(s, cmds[1..], recording, onlyMotions);
      if r.None? then None else Some(r.value + 1)
  }

  /** At most one entry wins. */
  lemma WinnerUnique(cmds: seq<Command>, s: string, recording: bool, onlyMotions: bool, i: int, k: int)
    requires Wins(cmds, s, recording, onlyMotions, i)
    requires Wins(cmds, s, recording, onlyMotions, k)
    ensures i == k
  {
  }

  /** `(matched, explanation, remainder, mode, recording)`. */
  datatype Step = Step(matched: string, explanation: string, rest: string, mode: Mode, recording: bool)

  /** Why `parse` gives up: nothing matched (the `ValueError`), or a group
      of the winning pattern that `fix_explanation` needs holds no usable
      value (the exception raised inside it), named by the group. */
  datatype ParseError = NoMatch | MissingCapture(kind: string)

  /** Recording flips exactly when the record command `q` is matched. */
  function Toggle(recording: bool, tag: string): (r: bool) {
    if tag == "q" then !recording else recording
  }

  /** " from X" and " to Y" for an ex range, each only when its group exists
      and took part in the match (vimsplain.py:143-150). */
  function RangeSuffix(groups: map<string, Option<string>>): (r: string) {
    (if "from" in groups && groups["from"].Some? then " from " + groups["from"].value else "")
    + (if "to" in groups && groups["to"].Some? then " to " + groups["to"].value else "")
  }

  /** `parse(instr, commands, mode, recording, only_motions)`: leading
      escapes are stripped, and the first eligible entry of the mode's list
      whose pattern matches decides the rest. */
  function Parse(input: string, t: Table, mode: Mode, recording: bool, onlyMotions: bool, how: Stripping)
    : (r: Result<Step, ParseError>)
    decreases |input|, 1
  {
    var s := Strip(input, mode, how);
    if s == [] then Err(NoMatch)
    else
      match FirstMatch(s, t.Get(mode), recording, onlyMotions)
      case None => Err(NoMatch)
      case Some(i) => ParseEntry(s, t, mode, recording, t.Get(mode)[i], how)
  }

  /** The rest of `parse` once entry `c` has matched the stripped input `s`:
      the explanation is filled, and either the trailing motion is parsed in
      the mode the command was typed in, with the recording state after the
      command, or the range bounds are appended. */
  function ParseEntry(s: string, t: Table, mode: Mode, recording: bool, c: Command, how: Stripping)
    : (r: Result<Step, ParseError>)
    requires c.matcher(s).Some?
    decreases |s|, 0
  {
    var m := c.matcher(s).value;
    var rec := Toggle(recording, c.tag);
    var newMode := NextMode(c.tag, mode);
    match FixExplanation(m, c.explanation)
    case Err(kind) => Err(MissingCapture(kind))
    case Ok(expl) =>
      if c.expectMotion then WithMotion(s[..m.end], expl, newMode, Parse(s[m.end..], t, mode, rec, true, how))
      else Ok(Step(s[..m.end], expl + RangeSuffix(m.groups), s[m.end..], newMode, rec))
  }

  /** A command text followed by the parse of its motion: both texts one
      after the other, the explanations joined by " with motion ", the
      motion's remainder and recording state, and the command's new mode
      (the motion's own is dropped). */
  function WithMotion(text: string, expl: string, newMode: Mode, motion: Result<Step, ParseError>)
    : (r: Result<Step, ParseError>)
  {
    match motion
    case Err(e) => Err(e)
    case Ok(mo) => Ok(Step(text + mo.matched, expl + " with motion " + mo.explanation, mo.rest, newMode, mo.recording))
  }

  /** Nothing stops the text being taken as it is: not normal mode, or no
      escape sentinel anywhere in it. */
  predicate Unescaped(s: string, mode: Mode) {
    mode != Normal || !Contains(s, EscapePrefix)
  }

  /** A successful result consumes something of `s` and leaves a suffix of
      it, and the consumed text and the rest put back together are `s`
      thinned by escape stripping. */
  predicate Consumes(r: Result<Step, ParseError>, s: string, mode: Mode, how: Stripping) {
    match r
    case Err(_) => true
    case Ok(st) =>
      && |st.matched| > 0
      && IsSuffix(st.rest, s)
      && Thinned(s, st.matched + st.rest, mode, how)
  }

  /** A result about the stripped input is one about the input. */
  lemma LiftConsumes(input: string, mode: Mode, how: Stripping, r: Result<Step, ParseError>)
    ensures Consumes(r, Strip(input, mode, how), mode, how) ==> Consumes(r, input, mode, how)
  {
    match r
    case Err(_) =>
    case Ok(st) =>
      var s := Strip(input, mode, how);
      if IsSuffix(st.rest, s) {
        IsSuffixTransitive(st.rest, s, input);
      }
      StripThins(input, mode, how, st.matched + st.rest);
  }

  /** The command text `s[..e]` with no motion leaves `s[e..]`. */
  lemma PlainConsumes(s: string, e: nat, mode: Mode, how: Stripping, expl: string, newMode: Mode, rec: bool)
    ensures 0 < e <= |s| ==> Consumes(Ok(Step(s[..e], expl, s[e..], newMode, rec)), s, mode, how)
  {
    if 0 < e <= |s| {
      assert s[|s| - |s[e..]|..] == s[e..];
      assert s[..e] + s[e..] == s;
    }
  }

  /** The command text `s[..e]` and a motion that consumes from `s[e..]`
      together consume from `s`. */
  lemma MotionConsumes(s: string, e: nat, mode: Mode, how: Stripping, expl: string, newMode: Mode,
                       motion: Result<Step, ParseError>)
    ensures 0 < e <= |s| && Consumes(motion, s[e..], mode, how) ==>
      Consumes(WithMotion(s[..e], expl, newMode, motion), s, mode, how)
  {
    if 0 < e <= |s| && motion.Ok? && Consumes(motion, s[e..], mode, how) {
      var mo := motion.value;
      assert IsSuffix(mo.rest, s) by {
        assert s[|s| - |s[e..]|..] == s[e..];
        IsSuffixTransitive(mo.rest, s[e..], s);
      }
      ThinnedCommandThenMotion(s, e, mo.matched, mo.rest, mode, how);
    }
  }

  /** Putting the command text back in front of what the motion thinned. */
  lemma ThinnedCommandThenMotion(s: string, e: nat, matched: string, rest: string, mode: Mode, how: Stripping)
    requires 0 < e <= |s| && Thinned(s[e..], matched + rest, mode, how)
    ensures Thinned(s, (s[..e] + matched) + rest, mode, how)
  {
    ThinnedPrefix(s[..e], s[e..], matched + rest, mode, how);
    assert s[..e] + s[e..] == s;
    AppendAssoc(s[..e], matched, rest);
  }

  /** Every successful parse consumes something and leaves a suffix of its
      input, and what it consumed and what it left are the input less what
      escape stripping removed. */
  lemma {:induction false} ParseShape(input: string, t: Table, mode: Mode, recording: bool, onlyMotions: bool, how: Stripping)
    ensures Consumes(Parse(input, t, mode, recording, onlyMotions, how), input, mode, how)
    ensures Strip(input, mode, how) == [] ==> Parse(input, t, mode, recording, onlyMotions, how) == Err(NoMatch)
    decreases |input|, 1
  {
    var s := Strip(input, mode, how);
    var w := FirstMatch(s, t.Get(mode), recording, onlyMotions);
    if s != [] && w.Some? {
      var c := t.Get(mode)[w.value];
      var r := ParseEntry(s, t, mode, recording, c, how);
      assert Parse(input, t, mode, recording, onlyMotions, how) == r;
      assert Consumes(r, s, mode, how) by {
        EntryShape(s, t, mode, recording, c, how);
      }
      LiftConsumes(input, mode, how, r);
    }
  }

  /** The same for the entry that matched, about the stripped input. */
  lemma {:induction false} EntryShape(s: string, t: Table, mode: Mode, recording: bool, c: Command, how: Stripping)
    requires c.matcher(s).Some?
    ensures Consumes(ParseEntry(s, t, mode, recording, c, how), s, mode, how)
    decreases |s|, 0
  {
    var m := c.matcher(s).value;
    match FixExplanation(m, c.explanation)
    case Err(_) =>
    case Ok(expl) =>
      var rec := Toggle(recording, c.tag);
      if c.expectMotion {
        ParseShape(s[m.end..], t, mode, rec, true, how);
        MotionConsumes(s, m.end, mode, how, expl, NextMode(c.tag, mode), Parse(s[m.end..], t, mode, rec, true, how));
      } else {
        PlainConsumes(s, m.end, mode, how, expl + RangeSuffix(m.groups), NextMode(c.tag, mode), rec);
      }
  }

  /** With no escape sentinel in the input, or outside normal mode, the
      consumed text and the rest put back together are the input. */
  lemma ParseExact(input: string, t: Table, mode: Mode, recording: bool, onlyMotions: bool, how: Stripping)
    requires Unescaped(input, mode)
    ensures var r := Parse(input, t, mode, recording, onlyMotions, how);
      r.Ok? ==> r.value.matched + r.value.rest == input
  {
    var r := Parse(input, t, mode, recording, onlyMotions, how);
    ParseShape(input, t, mode, recording, onlyMotions, how);
    if r.Ok? {
      ThinnedExact(input, r.value.matched + r.value.rest, mode, how);
    }
  }

  /** A winner that takes no motion, on input that does not start with an
      escape sentinel in normal mode, consumes a prefix of the input and
      leaves the rest of it, escapes further on included. */
  lemma ParseExactWithoutMotion(input: string, t: Table, mode: Mode, recording: bool, onlyMotions: bool, how: Stripping, i: nat)
    requires mode != Normal || !(EscapePrefix <= input)
    requires FirstMatch(input, t.Get(mode), recording, onlyMotions) == Some(i)
    requires !t.Get(mode)[i].expectMotion
    ensures var r := Parse(input, t, mode, recording, onlyMotions, how);
      r.Ok? ==> r.value.matched + r.value.rest == input
  {
    ParseWithoutMotion(input, t, mode, recording, onlyMotions, how, i);
    TakeDrop(input, t.Get(mode)[i].matcher(input).value.end);
  }

  /** A winner that takes a motion, on input that does not start with an
      escape sentinel in normal mode, consumes exactly when its motion does. */
  lemma ParseExactWithMotion(input: string, t: Table, mode: Mode, recording: bool, onlyMotions: bool, how: Stripping, i: nat)
    requires mode != Normal || !(EscapePrefix <= input)
    requires FirstMatch(input, t.Get(mode), recording, onlyMotions) == Some(i)
    requires t.Get(mode)[i].expectMotion
    ensures var c := t.Get(mode)[i];
      var e := c.matcher(input).value.end;
      var r := Parse(input, t, mode, recording, onlyMotions, how);
      var motion := Parse(input[e..], t, mode, Toggle(recording, c.tag), true, how);
      r.Ok? && motion.Ok? && motion.value.matched + motion.value.rest == input[e..] ==>
        r.value.matched + r.value.rest == input
  {
    var c := t.Get(mode)[i];
    var e := c.matcher(input).value.end;
    var r := Parse(input, t, mode, recording, onlyMotions, how);
    var motion := Parse(input[e..], t, mode, Toggle(recording, c.tag), true, how);
    ParseWithMotion(input, t, mode, recording, onlyMotions, how, i);
    if r.Ok? && motion.Ok? && motion.value.matched + motion.value.rest == input[e..] {
      assert r.value.matched == input[..e] + motion.value.matched;
      assert r.value.rest == motion.value.rest;
      Regroup3(input[..e], motion.value.matched, motion.value.rest);
      TakeDrop(input, e);
    }
  }

  lemma TakeDrop(s: string, e: nat)
    requires e <= |s|
    ensures s[..e] + s[e..] == s
  {
  }

  lemma Regroup3(a: string, b: string, c: string)
    ensures a + (b + c) == (a + b) + c
  {
  }

  /** `parse` raises exactly when the input is empty once leading escapes are
      gone, when no eligible entry of the mode's list matches, or when the
      winning entry's explanation cannot be filled or its expected motion
      does not parse. */
  lemma ParseFailsIff(input: string, t: Table, mode: Mode, recording: bool, onlyMotions: bool, how: Stripping)
    ensures var s := Strip(input, mode, how);
      var cmds := t.Get(mode);
      Parse(input, t, mode, recording, onlyMotions, how).Err? <==>
        || s == []
        || (forall j :: 0 <= j < |cmds| ==> !Accepts(cmds[j], s, recording, onlyMotions))
        || (exists i :: Wins(cmds, s, recording, onlyMotions, i) && WinnerFails(input, t, mode, recording, how, i))
  {
    var s := Strip(input, mode, how);
    var cmds := t.Get(mode);
    if s != [] {
      match FirstMatch(s, cmds, recording, onlyMotions)
      case None =>
      case Some(i) =>
        forall k | Wins(cmds, s, recording, onlyMotions, k)
          ensures k == i
        {
          WinnerUnique(cmds, s, recording, onlyMotions, i, k);
        }
    }
  }

  /** The winning entry `i` leads to failure: its explanation has a
      placeholder group that took no part in the match, or it expects a
      motion and none follows. */
  predicate WinnerFails(input: string, t: Table, mode: Mode, recording: bool, how: Stripping, i: int)
    requires 0 <= i < |t.Get(mode)|
    requires t.Get(mode)[i].matcher(Strip(input, mode, how)).Some?
  {
    var s := Strip(input, mode, how);
    var c := t.Get(mode)[i];
    var m := c.matcher(s).value;
    || FixExplanation(m, c.explanation).Err?
    || (c.expectMotion && Parse(s[m.end..], t, mode, Toggle(recording, c.tag), true, how).Err?)
  }

  /** The winning entry is the one `parse` picks. */
  lemma WinnerIsFirst(s: string, cmds: seq<Command>, recording: bool, onlyMotions: bool, i: int)
    ensures Wins(cmds, s, recording, onlyMotions, i) ==> FirstMatch(s, cmds, recording, onlyMotions) == Some(i)
  {
    var k := FirstMatch(s, cmds, recording, onlyMotions);
    if Wins(cmds, s, recording, onlyMotions, i) && k.Some? {
      WinnerUnique(cmds, s, recording, onlyMotions, i, k.value);
    }
  }

  /** What `parse` returns when the winning entry `i` takes no motion: if
      its explanation can be filled, the matched prefix, the filled
      explanation with any range bounds, the rest of the stripped input, the
      mode the tag maps to (or the current one), and recording flipped
      exactly for `q`; otherwise an error. */
  lemma ParseWithoutMotion(input: string, t: Table, mode: Mode, recording: bool, onlyMotions: bool, how: Stripping, i: nat)
    requires FirstMatch(Strip(input, mode, how), t.Get(mode), recording, onlyMotions) == Some(i)
    requires !t.Get(mode)[i].expectMotion
    ensures var s := Strip(input, mode, how);
      var c := t.Get(mode)[i];
      match (c.matcher(s), Parse(input, t, mode, recording, onlyMotions, how))
      case (Some(m), r) =>
        (match FixExplanation(m, c.explanation)
         case Ok(expl) =>
           r == Ok(Step(s[..m.end], expl + RangeSuffix(m.groups), s[m.end..],
                        NextMode(c.tag, mode), Toggle(recording, c.tag)))
         case Err(_) => r.Err?)
      case (None, _) => false
  {
  }

  /** What `parse` returns when the winning entry `i` expects a motion: if
      its explanation can be filled and a motion parses from the rest, the
      command's text and the motion's one after the other, the explanations
      joined by " with motion ", the motion's remainder and recording state,
      and the mode the command's tag maps to; otherwise an error. */
  lemma ParseWithMotion(input: string, t: Table, mode: Mode, recording: bool, onlyMotions: bool, how: Stripping, i: nat)
    requires FirstMatch(Strip(input, mode, how), t.Get(mode), recording, onlyMotions) == Some(i)
    requires t.Get(mode)[i].expectMotion
    ensures var s := Strip(input, mode, how);
      var c := t.Get(mode)[i];
      match (c.matcher(s), Parse(input, t, mode, recording, onlyMotions, how))
      case (Some(m), r) =>
        (match (FixExplanation(m, c.explanation), Parse(s[m.end..], t, mode, Toggle(recording, c.tag), true, how))
         case (Ok(expl), Ok(motion)) =>
           r == Ok(Step(s[..m.end] + motion.matched, expl + " with motion " + motion.explanation,
                        motion.rest, NextMode(c.tag, mode), motion.recording))
         case _ => r.Err?)
      case (None, _) => false
  {
  }

  /** Recording changes only through a trailing motion or the `q` command,
      and a command documented as working only while recording is never the
      one chosen while no recording runs. */
  lemma RecordingGate(input: string, t: Table, mode: Mode, recording: bool, onlyMotions: bool, how: Stripping, i: nat)
    requires FirstMatch(Strip(input, mode, how), t.Get(mode), recording, onlyMotions) == Some(i)
    ensures !recording ==> !Contains(t.Get(mode)[i].explanation, "while recording")
    ensures onlyMotions ==> t.Get(mode)[i].isMotion
    ensures var r := Parse(input, t, mode, recording, onlyMotions, how);
      r.Ok? && !t.Get(mode)[i].expectMotion ==>
        (r.value.recording != recording <==> t.Get(mode)[i].tag == "q")
  {
    if !t.Get(mode)[i].expectMotion {
      ParseWithoutMotion(input, t, mode, recording, onlyMotions, how, i);
    }
  }

  /** A one-entry table for the exhibit below: normal mode's `w`, a motion
      whose pattern matches a leading `w`. */
  const WordMatcher: Matcher := s => if |s| > 0 && s[0] == 'w' then Some(Match(1, map[])) else None
  const WordCommand: Command := Command("w", WordMatcher, "word forward", "w", true, false)
  const WordTable: Table := Table([], [WordCommand], [], [])

  /** An escape and then `w` in normal mode: the loop as written leaves `[w`,
      which no entry matches, so `parse` raises. */
  lemma EscapeThenWordAsWritten()
    ensures Parse(EscapePrefix + "w", WordTable, Normal, false, false, AsWritten) == Err(NoMatch)
  {
    AsWrittenStripLeavesBracket();
    var s := Strip(EscapePrefix + "w", Normal, AsWritten);
    assert s == "[w";
    assert WordTable.Get(Normal) == [WordCommand];
    assert WordMatcher(s) == None;
    assert FirstMatch(s, [WordCommand], false, false) == None;
  }

  /** The same input under the intended loop: the whole sentinel goes and
      the `w` is read. */
  lemma EscapeThenWordCorrected()
    ensures Parse(EscapePrefix + "w", WordTable, Normal, false, false, Corrected)
         == Ok(Step("w", "word forward", "", Normal, false))
  {
    CorrectedStripsSentinel();
    WordWins();
    assert WordTable.Get(Normal) == [WordCommand];
    WordEntry();
  }

  lemma CorrectedStripsSentinel()
    ensures Strip(EscapePrefix + "w", Normal, Corrected) == "w"
  {
    var input := EscapePrefix + "w";
    assert EscapePrefix <= input && input[|EscapePrefix|..] == "w";
    assert !(EscapePrefix <= "w");
  }

  lemma WordWins()
    ensures FirstMatch("w", [WordCommand], false, false) == Some(0)
  {
    assert Accepts(WordCommand, "w", false, false) by {
      TooLongAbsent(WordCommand.explanation, "while recording");
    }
    FirstEntryWins("w", WordCommand, [], false, false);
    assert [WordCommand] + [] == [WordCommand];
  }

  /** An entry that accepts the text wins from the front of the list. */
  lemma FirstEntryWins(s: string, c: Command, rest: seq<Command>, recording: bool, onlyMotions: bool)
    requires Accepts(c, s, recording, onlyMotions)
    ensures FirstMatch(s, [c] + rest, recording, onlyMotions) == Some(0)
  {
  }

  lemma WordEntry()
    ensures WordCommand.matcher("w").Some?
    ensures ParseEntry("w", WordTable, Normal, false, WordCommand, Corrected)
         == Ok(Step("w", "word forward", "", Normal, false))
  {
    var s := "w";
    var m := WordCommand.matcher(s).value;
    assert m == Match(1, map[]);
    FixExplanationPlain(m, WordCommand.explanation);
    WNotModeTag();
    assert s[..1] == "w" && s[1..] == "";
    assert RangeSuffix(map[]) == "";
    assert WordCommand.explanation + "" == "word forward";
    assert Toggle(false, "w") == false;
  }

  lemma WNotModeTag()
    ensures NextMode("w", Normal) == Normal
  {
    assert "w" !in ModeChange(Ex) && "w" !in ModeChange(Visual);
    assert "w" !in ModeChange(Normal) && "w" !in ModeChange(Insert);
  }
}
