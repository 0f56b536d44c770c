/** The command table the parser consults: editor modes, the abstract
    prefix matcher standing in for a compiled regular expression, compiled
    command records, and the fixed tag-to-mode transition table
    (vimsplain.py:172-179). */
module Commands {
  import opened Basics
  import opened Text

  /** The keys of the `commands` dictionary, which are the keys of `mode_change`. */
  datatype Mode = Insert | Normal | Visual | Ex

  /** The part of a Python match object the engine reads: `m.end()` and the
      named groups.  A name missing from `groups` is a group the pattern does
      not have (`m.group(name)` raises `IndexError`); `None` is a group that
      exists but took no part in the match. */
  datatype Match = Match(end: nat, groups: map<string, Option<string>>)

  /** What `expr.match(s)` may return for input `s`: a match of a non-empty
      prefix of `s`.  The non-empty prefix is an assumption of the model:
      Python permits empty matches. */
  predicate ValidMatch(m: Match, s: string) {
    0 < m.end <= |s|
  }

  ghost predicate IsPrefixMatcher(f: string -> Option<Match>) {
    forall s :: f(s).Some? ==> ValidMatch(f(s).value, s)
  }

  /** A compiled pattern, matched only at the start of the input (`re.match`). */
  type Matcher = f: string -> Option<Match> | IsPrefixMatcher(f)
    witness s => None

  /** One entry of a mode's command list: the tuple
      `(tag, expr, expl, plain, is_motion, expect_motion)`. */
  datatype Command = Command(
    tag: string,
    matcher: Matcher,
    explanation: string,
    plain: string,
    isMotion: bool,
    expectMotion: bool)

  /** The `commands` dictionary: one ordered list per mode. */
  datatype Table = Table(
    insert: seq<Command>,
    normal: seq<Command>,
    visual: seq<Command>,
    ex: seq<Command>)
  {
    function Get(m: Mode): (r: seq<Command>) {
      match m
      case Insert => insert
      case Normal => normal
      case Visual => visual
      case Ex => ex
    }

    /** `commands[m].insert(0, c)`: the new command goes in front of mode `m`'s
        list and every other list is left alone. */
    function PushFront(m: Mode, c: Command): (r: Table)
    {
      match m
      case Insert => this.(insert := [c] + insert)
      case Normal => this.(normal := [c] + normal)
      case Visual => this.(visual := [c] + visual)
      case Ex => this.(ex := [c] + ex)
    }
  }

  const EmptyTable := Table([], [], [], [])

  /** `mode_change`, copied verbatim, including the tags `CTRL_V` and
      `GTRL-G`, which are spelled differently from the documentation's
      `CTRL-V` and `CTRL-G` and so never match a real tag.  The source's
      lists are only ever searched, so they are sets here. */
  function ModeChange(m: Mode): (r: set<string>) {
    match m
    case Insert => {"a", "A", "i", "I", "gI", "gi", "o", "O", "c", "cc", "v_c", "v_r", "v_s",
                    ":startinsert", ":append", "s"}
    case Normal => {"CTRL-[", "i_CTRL-[", "i_CTRL-C", "i_<Esc>", "c_CTRL-\\_CTRL-N",
                    "c_CTRL-\\_GTRL-G", "v_CTRL-\\_CTRL-N", "v_CTRL-\\_GTRL-G", ":visual", ":view"}
    case Visual => {"CTRL_V", "V", "v", "<RightMouse>"}
    case Ex => {"Q"}
  }

  /** `mode_mapping`: the dictionary built from `mode_change` in the order
      insert, normal, visual, ex, so a tag listed twice would map to the mode
      listed last. */
  function ModeMapping(tag: string): (r: Option<Mode>) {
    if tag in ModeChange(Ex) then Some(Ex)
    else if tag in ModeChange(Visual) then Some(Visual)
    else if tag in ModeChange(Normal) then Some(Normal)
    else if tag in ModeChange(Insert) then Some(Insert)
    else None
  }

  /** The mode after a command with this tag: the mapped mode when the tag is
      in `mode_mapping`, the current mode otherwise. */
  function NextMode(tag: string, mode: Mode): (r: Mode) {
    match ModeMapping(tag)
    case Some(m) => m
    case None => mode
  }

  /** No tag is listed under two modes. */
  lemma ModeChangeDisjoint(m1: Mode, m2: Mode)
    requires m1 != m2
    ensures ModeChange(m1) !! ModeChange(m2)
  {
    match (m1, m2)
    case (Insert, Normal) => InsertNormalDisjoint();
    case (Normal, Insert) => InsertNormalDisjoint();
    case (Insert, Visual) => InsertVisualDisjoint();
    case (Visual, Insert) => InsertVisualDisjoint();
    case (Insert, Ex) => InsertExDisjoint();
    case (Ex, Insert) => InsertExDisjoint();
    case (Normal, Visual) => NormalVisualDisjoint();
    case (Visual, Normal) => NormalVisualDisjoint();
    case (Normal, Ex) => NormalExDisjoint();
    case (Ex, Normal) => NormalExDisjoint();
    case (Visual, Ex) => VisualExDisjoint();
    case (Ex, Visual) => VisualExDisjoint();
  }

  lemma InsertNormalDisjoint()
    ensures ModeChange(Insert) !! ModeChange(Normal)
  {
  }

  lemma InsertVisualDisjoint()
    ensures ModeChange(Insert) !! ModeChange(Visual)
  {
  }

  lemma InsertExDisjoint()
    ensures ModeChange(Insert) !! ModeChange(Ex)
  {
  }

  lemma NormalVisualDisjoint()
    ensures ModeChange(Normal) !! ModeChange(Visual)
  {
  }

  lemma NormalExDisjoint()
    ensures ModeChange(Normal) !! ModeChange(Ex)
  {
  }

  lemma VisualExDisjoint()
    ensures ModeChange(Visual) !! ModeChange(Ex)
  {
  }

  /** No tag is listed under two modes, so the dictionary comprehension's
      "last one wins" never decides anything: a tag maps to a mode exactly when
      that mode's list holds it. */
  lemma ModeMappingExact(tag: string, m: Mode)
    ensures ModeMapping(tag) == Some(m) <==> tag in ModeChange(m)
  {
    forall m' | m' != m {
      ModeChangeDisjoint(m, m');
    }
  }

  /** The typo'd tags are in the table as written, and the tag `CTRL-V` the
      documentation uses for blockwise Visual mode is not, so that command
      leaves the mode unchanged. */
  lemma CtrlVDoesNotSwitchMode(mode: Mode)
    ensures ModeMapping("CTRL_V") == Some(Visual)
    ensures ModeMapping("CTRL-V") == None
    ensures NextMode("CTRL-V", mode) == mode
  {
  }
}
