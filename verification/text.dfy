/** Python string operations the explanation engine relies on, written out
    over `seq<char>`: substring search, `str.replace`, `str.split` and
    `str.join` on one separator, `str.lstrip`, the run-collapsing
    substitutions, and decimal conversion (`int(...)` and `str(...)`). */
module Text {
  import opened Basics

  predicate IsSuffix(a: string, b: string) {
    |a| <= |b| && b[|b| - |a|..] == a
  }

  lemma IsSuffixTransitive(a: string, b: string, c: string)
    requires IsSuffix(a, b) && IsSuffix(b, c)
    ensures IsSuffix(a, c)
  {
    assert c[|c| - |a|..] == c[|c| - |b|..][|b| - |a|..];
  }

  /** `p` occurs in `s` starting at index `j`. */
  predicate OccursAt(s: string, p: string, j: int) {
    0 <= j && j + |p| <= |s| && s[j..j + |p|] == p
  }

  lemma OccursAtShift(s: string, p: string, j: int)
    requires |s| > 0 && 1 <= j
    ensures OccursAt(s, p, j) <==> OccursAt(s[1..], p, j - 1)
  {
    if j + |p| <= |s| {
      var u, v := s[j..j + |p|], s[1..][j - 1..j - 1 + |p|];
      assert |u| == |v|;
      assert forall k :: 0 <= k < |u| ==> u[k] == s[j + k] == v[k];
      assert u == v;
    }
  }

  /** Index of the leftmost occurrence of `p` in `s` (`str.find`). */
  function Find(s: string, p: string): (r: Option<nat>)
    ensures r.Some? ==> OccursAt(s, p, r.value)
    ensures r.Some? ==> forall j :: 0 <= j < r.value ==> !OccursAt(s, p, j)
    ensures r.None? ==> forall j :: !OccursAt(s, p, j)
    decreases |s|
  {
    if p <= s then
      assert s[0..|p|] == p;
      Some(0)
    else if |s| == 0 then None
    else
      var r := Find(s[1..], p);
      FindStep(s, p, r);
      if r.None? then None else Some(r.value + 1)
  }

  /** An occurrence found in the tail is one place further on in the text,
      and the text itself does not start with `p`. */
  lemma FindStep(s: string, p: string, r: Option<nat>)
    requires |s| > 0 && !(p <= s)
    requires r.Some? ==> OccursAt(s[1..], p, r.value)
    requires r.Some? ==> forall j :: 0 <= j < r.value ==> !OccursAt(s[1..], p, j)
    requires r.None? ==> forall j :: !OccursAt(s[1..], p, j)
    ensures r.Some? ==> OccursAt(s, p, r.value + 1)
    ensures r.Some? ==> forall j :: 0 <= j < r.value + 1 ==> !OccursAt(s, p, j)
    ensures r.None? ==> forall j :: !OccursAt(s, p, j)
  {
    assert !OccursAt(s, p, 0) by {
      if |p| <= |s| {
        assert s[0..|p|] == s[..|p|];
      }
    }
    forall j | 1 <= j {
      OccursAtShift(s, p, j);
    }
  }

  /** `p in s` on Python strings. */
  predicate Contains(s: string, p: string) {
    Find(s, p).Some?
  }

  /** A pattern longer than the text occurs nowhere in it. */
  lemma TooLongAbsent(s: string, p: string)
    requires |s| < |p|
    ensures !Contains(s, p)
  {
    assert forall j :: !OccursAt(s, p, j);
  }

  /** A pattern one of whose characters the text lacks occurs nowhere in it. */
  lemma AbsentByChar(s: string, p: string, k: nat)
    requires k < |p| && p[k] !in s
    ensures forall j :: !OccursAt(s, p, j)
    ensures !Contains(s, p)
  {
    forall j
      ensures !OccursAt(s, p, j)
    {
    }
  }

  /** An occurrence inside a prefix is an occurrence in the whole text. */
  lemma OccursInPrefix(s: string, p: string, k: nat, j: int)
    requires k <= |s| && OccursAt(s[..k], p, j)
    ensures OccursAt(s, p, j)
  {
    assert s[..k][j..j + |p|] == s[j..j + |p|];
  }

  lemma ContainsInSuffix(s: string, p: string, k: nat)
    requires k <= |s|
    requires Contains(s[k..], p)
    ensures Contains(s, p)
  {
    var i := Find(s[k..], p).value;
    assert s[k + i..k + i + |p|] == s[k..][i..i + |p|];
    assert OccursAt(s, p, k + i);
  }

  /** `s.replace(pat, rep)`: every occurrence of `pat`, scanning left to right
      without overlap, is replaced by `rep`. */
  function ReplaceAll(s: string, pat: string, rep: string): (r: string)
    requires |pat| > 0
    decreases |s|
  {
    if |s| == 0 then []
    else if pat <= s then rep + ReplaceAll(s[|pat|..], pat, rep)
    else [s[0]] + ReplaceAll(s[1..], pat, rep)
  }

  /** Without an occurrence of `pat`, replacing changes nothing. */
  lemma {:induction false} ReplaceAllAbsent(s: string, pat: string, rep: string)
    requires |pat| > 0
    requires !Contains(s, pat)
    ensures ReplaceAll(s, pat, rep) == s
    decreases |s|
  {
    if |s| > 0 {
      assert !Contains(s[1..], pat) by {
        if Contains(s[1..], pat) {
          ContainsInSuffix(s, pat, 1);
        }
      }
      ReplaceAllAbsent(s[1..], pat, rep);
    }
  }

  /** Replacing is splitting at the first occurrence `i`: the text before it
      is kept, the occurrence becomes `rep`, and the rest is processed
      afresh. */
  lemma {:induction false} ReplaceAllBefore(s: string, pat: string, rep: string, i: nat)
    requires |pat| > 0
    requires OccursAt(s, pat, i)
    requires forall j :: 0 <= j < i ==> !OccursAt(s, pat, j)
    ensures ReplaceAll(s, pat, rep) == s[..i] + rep + ReplaceAll(s[i + |pat|..], pat, rep)
    decreases i
  {
    if i == 0 {
      assert pat <= s;
      assert s[..0] + rep == rep;
    } else {
      var tail := ReplaceAll(s[i + |pat|..], pat, rep);
      FirstOccurrenceInTail(s, pat, i);
      assert ReplaceAll(s[1..], pat, rep) == s[1..][..i - 1] + rep + tail by {
        ReplaceAllBefore(s[1..], pat, rep, i - 1);
        DropShift(s, i + |pat|);
      }
      ReplaceAllSkip(s, pat, rep, i, tail);
    }
  }

  /** A first occurrence at `i > 0` is the first one of the tail at `i - 1`. */
  lemma FirstOccurrenceInTail(s: string, pat: string, i: nat)
    requires 0 < i && OccursAt(s, pat, i)
    requires forall j :: 0 <= j < i ==> !OccursAt(s, pat, j)
    ensures !(pat <= s)
    ensures OccursAt(s[1..], pat, i - 1)
    ensures forall j :: 0 <= j < i - 1 ==> !OccursAt(s[1..], pat, j)
  {
    assert !OccursAt(s, pat, 0);
    forall j | 0 <= j < i - 1
      ensures !OccursAt(s[1..], pat, j)
    {
      OccursAtShift(s, pat, j + 1);
    }
    OccursAtShift(s, pat, i);
  }

  /** Replacing in a text that does not start with `pat` keeps its first
      character; put together with the tail's split, that is the split of
      the whole text. */
  lemma ReplaceAllSkip(s: string, pat: string, rep: string, i: nat, tail: string)
    requires |pat| > 0 && 0 < i && i + |pat| <= |s| && !(pat <= s)
    requires ReplaceAll(s[1..], pat, rep) == s[1..][..i - 1] + rep + tail
    ensures ReplaceAll(s, pat, rep) == s[..i] + rep + tail
  {
    ReplaceAllUnmatched(s, pat, rep);
    ConsPrefix(s, i);
    AppendAssoc([s[0]], s[1..][..i - 1] + rep, tail);
    AppendAssoc([s[0]], s[1..][..i - 1], rep);
  }

  /** Where `pat` does not start `s`, the first character is kept. */
  lemma ReplaceAllUnmatched(s: string, pat: string, rep: string)
    requires |pat| > 0 && |s| > 0 && !(pat <= s)
    ensures ReplaceAll(s, pat, rep) == [s[0]] + ReplaceAll(s[1..], pat, rep)
  {
  }

  lemma ConsPrefix(s: string, i: nat)
    requires 0 < i <= |s|
    ensures [s[0]] + s[1..][..i - 1] == s[..i]
  {
  }

  lemma ConsSlice(s: string, i: nat, p: nat)
    requires i < p <= |s|
    ensures [s[i]] + s[i + 1..p] == s[i..p]
  {
  }

  lemma DropShift(s: string, k: nat)
    requires 0 < k <= |s|
    ensures s[1..][k - 1..] == s[k..]
  {
  }

  lemma AppendAssoc(a: string, b: string, c: string)
    ensures a + (b + c) == (a + b) + c
  {
  }

  /** A pattern whose first character occurs nowhere else is replaced at
      its one occurrence. */
  lemma ReplaceOnlyOccurrence(pre: string, pat: string, post: string, rep: string)
    requires |pat| > 0 && pat[0] !in pre && pat[0] !in post
    ensures ReplaceAll(pre + pat + post, pat, rep) == pre + rep + post
  {
    var s := pre + pat + post;
    forall q | 0 <= q < |pre|
      ensures !OccursAt(s, pat, q)
    {
      assert s[q] == pre[q];
    }
    assert OccursAt(s, pat, |pre|) by {
      assert s[|pre|..|pre| + |pat|] == pat;
    }
    ReplaceAllBefore(s, pat, rep, |pre|);
    assert s[..|pre|] == pre && s[|pre| + |pat|..] == post;
    AbsentByChar(post, pat, 0);
    ReplaceAllAbsent(post, pat, rep);
  }

  /** The same split at the leftmost occurrence `str.find` reports. */
  lemma ReplaceAllAtFirst(s: string, pat: string, rep: string)
    requires |pat| > 0
    requires Contains(s, pat)
    ensures var i := Find(s, pat).value;
      ReplaceAll(s, pat, rep) == s[..i] + rep + ReplaceAll(s[i + |pat|..], pat, rep)
  {
    ReplaceAllBefore(s, pat, rep, Find(s, pat).value);
  }

  /** `s.split(c)` for a one-character separator: never empty, and no piece
      holds the separator. */
  function Split(s: string, c: char): (r: seq<string>)
    ensures |r| >= 1
    ensures forall k :: 0 <= k < |r| ==> c !in r[k]
    decreases |s|
  {
    if |s| == 0 then [""]
    else
      var rest := Split(s[1..], c);
      if s[0] == c then [""] + rest
      else [[s[0]] + rest[0]] + rest[1..]
  }

  /** `c.join(ps)`. */
  function Join(ps: seq<string>, c: char): (r: string)
    decreases |ps|
  {
    if |ps| == 0 then ""
    else if |ps| == 1 then ps[0]
    else ps[0] + [c] + Join(ps[1..], c)
  }

  /** Joining the pieces of a split gives back the original text. */
  lemma {:induction false} JoinSplit(s: string, c: char)
    ensures Join(Split(s, c), c) == s
    decreases |s|
  {
    if |s| > 0 {
      var rest := Split(s[1..], c);
      JoinSplit(s[1..], c);
      if s[0] == c {
        assert Join([""] + rest, c) == "" + [c] + Join(rest, c);
      } else if |rest| == 1 {
        assert Join([[s[0]] + rest[0]] + rest[1..], c) == [s[0]] + rest[0];
      } else {
        var ps := [[s[0]] + rest[0]] + rest[1..];
        assert ps[1..] == rest[1..];
        assert Join(ps, c) == [s[0]] + rest[0] + [c] + Join(rest[1..], c);
      }
    }
  }

  lemma {:induction false} SplitNoSeparator(a: string, c: char)
    requires c !in a
    ensures Split(a, c) == [a]
    decreases |a|
  {
    if |a| > 0 {
      SplitNoSeparator(a[1..], c);
      assert [a[0]] + a[1..] == a;
    }
  }

  lemma {:induction false} SplitAfterPiece(a: string, b: string, c: char)
    requires c !in a
    ensures Split(a + [c] + b, c) == [a] + Split(b, c)
    decreases |a|
  {
    var s := a + [c] + b;
    if |a| == 0 {
      assert s[1..] == b;
    } else {
      assert s[1..] == a[1..] + [c] + b;
      SplitAfterPiece(a[1..], b, c);
      assert [a[0]] + a[1..] == a;
    }
  }

  /** Splitting a join of separator-free pieces gives back the pieces. */
  lemma {:induction false} SplitJoin(ps: seq<string>, c: char)
    requires |ps| >= 1
    requires forall k :: 0 <= k < |ps| ==> c !in ps[k]
    ensures Split(Join(ps, c), c) == ps
    decreases |ps|
  {
    if |ps| == 1 {
      SplitNoSeparator(ps[0], c);
    } else {
      SplitJoin(ps[1..], c);
      SplitAfterPiece(ps[0], Join(ps[1..], c), c);
      assert [ps[0]] + ps[1..] == ps;
    }
  }

  /** Python's `str.isspace` for one character. */
  predicate IsSpace(ch: char) {
    var n := ch as int;
    n == 0x20 || 0x09 <= n <= 0x0D || 0x1C <= n <= 0x1F || n == 0x85 || n == 0xA0
    || n == 0x1680 || 0x2000 <= n <= 0x200A || n == 0x2028 || n == 0x2029
    || n == 0x202F || n == 0x205F || n == 0x3000
  }

  /** `s.lstrip()`: the longest suffix that does not start with whitespace. */
  function LStrip(s: string): (r: string)
    ensures IsSuffix(r, s)
    ensures |r| > 0 ==> !IsSpace(r[0])
    ensures forall k :: 0 <= k < |s| - |r| ==> IsSpace(s[k])
    decreases |s|
  {
    if |s| > 0 && IsSpace(s[0]) then
      var r := LStrip(s[1..]);
      LStripStep(s, r);
      r
    else s
  }

  /** A whitespace character in front of a stripped tail is stripped too. */
  lemma LStripStep(s: string, r: string)
    requires |s| > 0 && IsSpace(s[0])
    requires IsSuffix(r, s[1..])
    requires forall k :: 0 <= k < |s| - 1 - |r| ==> IsSpace(s[1..][k])
    ensures IsSuffix(r, s)
    ensures forall k :: 0 <= k < |s| - |r| ==> IsSpace(s[k])
  {
    assert s[|s| - |r|..] == s[1..][|s| - 1 - |r|..];
    forall k | 0 < k < |s| - |r|
      ensures IsSpace(s[k])
    {
      assert s[k] == s[1..][k - 1];
    }
  }

  /** Number of leading copies of `c` in `s`. */
  function LeadingRun(s: string, c: char): (k: nat)
    ensures k <= |s|
    ensures forall j :: 0 <= j < k ==> s[j] == c
    ensures k < |s| ==> s[k] != c
    decreases |s|
  {
    if |s| > 0 && s[0] == c then 1 + LeadingRun(s[1..], c) else 0
  }

  /** A run of `n` copies of `c` at the front is part of the leading run. */
  lemma {:induction false} LeadingRunCovers(s: string, c: char, n: nat)
    requires n <= |s| && forall j :: 0 <= j < n ==> s[j] == c
    ensures LeadingRun(s, c) >= n
    decreases n
  {
    if n > 0 {
      LeadingRunCovers(s[1..], c, n - 1);
    }
  }

  /** An occurrence of a pattern made only of `c` starts a run of `c` at
      least as long as the pattern. */
  lemma LeadingRunAtOccurrence(s: string, p: string, i: nat, c: char)
    requires OccursAt(s, p, i) && forall j :: 0 <= j < |p| ==> p[j] == c
    ensures LeadingRun(s[i..], c) >= |p|
  {
    var t := s[i..];
    forall j | 0 <= j < |p|
      ensures t[j] == c
    {
      assert t[j] == s[i..i + |p|][j];
    }
    LeadingRunCovers(t, c, |p|);
  }

  predicate NoDoubled(s: string, c: char) {
    forall k :: 0 <= k < |s| - 1 ==> !(s[k] == c && s[k + 1] == c)
  }

  /** `re.sub('c{2,}', rep, s)`: each maximal run of two or more `c` becomes
      one `rep`; a lone `c` stays. */
  function CollapseRuns(s: string, c: char, rep: char): (r: string)
    ensures |s| > 0 ==> |r| > 0 && r[0] == (if LeadingRun(s, c) >= 2 then rep else s[0])
    ensures NoDoubled(r, c)
    decreases |s|
  {
    if |s| == 0 then []
    else
      var k := LeadingRun(s, c);
      if k >= 2 then [rep] + CollapseRuns(s[k..], c, rep)
      else [s[0]] + CollapseRuns(s[1..], c, rep)
  }

  /** Collapsing runs of `c` into `rep` creates no doubled `d` when `d` is
      neither of them. */
  lemma {:induction false} CollapseKeepsNoDoubled(s: string, c: char, rep: char, d: char)
    requires d != c && d != rep
    requires NoDoubled(s, d)
    ensures NoDoubled(CollapseRuns(s, c, rep), d)
    decreases |s|
  {
    if |s| > 0 {
      var k := LeadingRun(s, c);
      if k >= 2 {
        CollapseKeepsNoDoubled(s[k..], c, rep, d);
      } else {
        CollapseKeepsNoDoubled(s[1..], c, rep, d);
      }
    }
  }

  /** A text with no doubled `c` is left as it is. */
  lemma {:induction false} CollapseRunsSettled(s: string, c: char, rep: char)
    requires NoDoubled(s, c)
    ensures CollapseRuns(s, c, rep) == s
    decreases |s|
  {
    if |s| > 0 {
      CollapseRunsSettled(s[1..], c, rep);
    }
  }

  /** A run of two or more `c` and nothing else becomes a single `rep`. */
  lemma CollapseRunsWhole(s: string, c: char, rep: char)
    requires |s| >= 2 && forall j :: 0 <= j < |s| ==> s[j] == c
    ensures CollapseRuns(s, c, rep) == [rep]
  {
    LeadingRunCovers(s, c, |s|);
    assert s[|s|..] == [];
  }

  /** A character other than `c` separates the text into two parts that
      are collapsed independently. */
  lemma {:induction false} CollapseRunsSplit(a: string, x: char, b: string, c: char, rep: char)
    requires x != c
    ensures CollapseRuns(a + [x] + b, c, rep) == CollapseRuns(a, c, rep) + [x] + CollapseRuns(b, c, rep)
    decreases |a|
  {
    var t := [x] + b;
    var s := a + [x] + b;
    if |a| == 0 {
      assert s == t && t[1..] == b;
      CollapseRunsAt(t, c, rep, 1, x);
    } else {
      var k := LeadingRun(a, c);
      var d := if k >= 2 then k else 1;
      var h := if k >= 2 then rep else a[0];
      var ra, rb := CollapseRuns(a[d..], c, rep), CollapseRuns(b, c, rep);
      CollapseRunsAt(a, c, rep, d, h);
      CollapseRunsFront(a, x, b, c, rep, d, h);
      CollapseRunsSplit(a[d..], x, b, c, rep);
      AppendAssoc4([h], ra, [x], rb);
    }
  }

  /** The first step of collapsing `a + [x] + b` is that of `a`. */
  lemma CollapseRunsFront(a: string, x: char, b: string, c: char, rep: char, d: nat, h: char)
    requires |a| > 0 && x != c
    requires d == (if LeadingRun(a, c) >= 2 then LeadingRun(a, c) else 1)
    requires h == (if LeadingRun(a, c) >= 2 then rep else a[0])
    ensures d <= |a|
    ensures CollapseRuns(a + [x] + b, c, rep) == [h] + CollapseRuns(a[d..] + [x] + b, c, rep)
  {
    var t := [x] + b;
    var s := a + [x] + b;
    LeadingRunExtends(a, t, c);
    assert s == a + t;
    CollapseRunsAt(s, c, rep, d, h);
    assert s[d..] == a[d..] + [x] + b;
  }

  lemma AppendAssoc4(p: string, q: string, r: string, u: string)
    ensures p + (q + r + u) == p + q + r + u
  {
  }

  /** One step of the collapse: the first output character `h`, then the
      rest of the text after the `d` characters it stands for. */
  lemma CollapseRunsAt(s: string, c: char, rep: char, d: nat, h: char)
    requires |s| > 0
    requires d == (if LeadingRun(s, c) >= 2 then LeadingRun(s, c) else 1)
    requires h == (if LeadingRun(s, c) >= 2 then rep else s[0])
    ensures CollapseRuns(s, c, rep) == [h] + CollapseRuns(s[d..], c, rep)
  {
  }

  /** The leading run of `a` is that of `a + t` when `t` starts with a
      character other than `c`. */
  lemma {:induction false} LeadingRunExtends(a: string, t: string, c: char)
    requires |t| > 0 && t[0] != c
    ensures LeadingRun(a + t, c) == LeadingRun(a, c)
    decreases |a|
  {
    if |a| == 0 {
      assert a + t == t;
    } else if a[0] == c {
      assert (a + t)[1..] == a[1..] + t;
      LeadingRunExtends(a[1..], t, c);
    }
  }

  predicate IsBlank(ch: char) {
    ch == ' ' || ch == '\t'
  }

  /** The text with every space and tab removed. */
  function Squeeze(s: string): (r: string)
    decreases |s|
  {
    if |s| == 0 then []
    else if IsBlank(s[0]) then Squeeze(s[1..])
    else [s[0]] + Squeeze(s[1..])
  }

  lemma {:induction false} SqueezeBlankPrefix(s: string, k: nat)
    requires k <= |s|
    requires forall j :: 0 <= j < k ==> IsBlank(s[j])
    ensures Squeeze(s) == Squeeze(s[k..])
    decreases k
  {
    if k > 0 {
      SqueezeBlankPrefix(s[1..], k - 1);
      assert s[1..][k - 1..] == s[k..];
    }
  }

  /** Collapsing blank runs into a blank keeps every other character, in order. */
  lemma {:induction false} CollapseKeepsVisible(s: string, c: char, rep: char)
    requires IsBlank(c) && IsBlank(rep)
    ensures Squeeze(CollapseRuns(s, c, rep)) == Squeeze(s)
    decreases |s|
  {
    if |s| > 0 {
      var k := LeadingRun(s, c);
      if k >= 2 {
        CollapseKeepsVisible(s[k..], c, rep);
        SqueezeBlankPrefix(s, k);
        assert Squeeze(CollapseRuns(s, c, rep)) == Squeeze([rep] + CollapseRuns(s[k..], c, rep));
        assert ([rep] + CollapseRuns(s[k..], c, rep))[1..] == CollapseRuns(s[k..], c, rep);
      } else {
        CollapseKeepsVisible(s[1..], c, rep);
        assert ([s[0]] + CollapseRuns(s[1..], c, rep))[1..] == CollapseRuns(s[1..], c, rep);
      }
    }
  }

  /** Python's `\w` restricted to ASCII. */
  predicate IsWordChar(ch: char) {
    'a' <= ch <= 'z' || 'A' <= ch <= 'Z' || '0' <= ch <= '9' || ch == '_'
  }

  predicate IsDigit(ch: char) {
    '0' <= ch <= '9'
  }

  predicate AllDigits(s: string) {
    forall k :: 0 <= k < |s| ==> IsDigit(s[k])
  }

  /** `s.isdigit()`: non-empty and made of digits only. */
  predicate IsDigitString(s: string) {
    |s| > 0 && AllDigits(s)
  }

  function DigitValue(ch: char): (r: nat)
    requires IsDigit(ch)
  {
    ch as int - '0' as int
  }

  function DigitChar(d: nat): (ch: char)
    requires d < 10
    ensures IsDigit(ch) && DigitValue(ch) == d
  {
    ('0' as int + d) as char
  }

  /** `int(s)` for a string of decimal digits. */
  function ParseDecimal(s: string): (n: nat)
    requires AllDigits(s)
    decreases |s|
  {
    if |s| == 0 then 0
    else ParseDecimal(s[..|s| - 1]) * 10 + DigitValue(s[|s| - 1])
  }

  /** `str(n)` for a natural number. */
  function NatToString(n: nat): (r: string)
    ensures IsDigitString(r)
    decreases n
  {
    if n < 10 then [DigitChar(n)]
    else NatToString(n / 10) + [DigitChar(n % 10)]
  }

  /** `str(i)` for any integer: the digits of `|i|`, after a minus sign when
      `i` is negative, so that reading them back gives `i`. */
  function IntToString(i: int): (r: string)
    ensures |r| > 0
    ensures i < 0 <==> r[0] == '-'
    ensures forall k :: 0 <= k < |r| ==> r[k] == '-' || IsDigit(r[k])
    ensures i >= 0 ==> AllDigits(r) && ParseDecimal(r) == i
    ensures i < 0 ==> AllDigits(r[1..]) && ParseDecimal(r[1..]) == -i
  {
    if i < 0 then
      var t := NatToString(-i);
      ParseNatToString(-i);
      assert ("-" + t)[1..] == t;
      "-" + t
    else
      ParseNatToString(i);
      NatToString(i)
  }

  /** The decimal text of a number holds no letter. */
  lemma NumberHasNoLetter(i: int, c: char)
    requires !IsDigit(c) && c != '-'
    ensures c !in IntToString(i)
  {
  }

  /** Reading back the decimal text of a number gives the number. */
  lemma {:induction false} ParseNatToString(n: nat)
    ensures ParseDecimal(NatToString(n)) == n
    decreases n
  {
    if n >= 10 {
      ParseNatToString(n / 10);
      var s := NatToString(n);
      assert s[..|s| - 1] == NatToString(n / 10);
    }
  }

  function UpperChar(ch: char): (r: char) {
    if 'a' <= ch <= 'z' then (ch as int - 'a' as int + 'A' as int) as char else ch
  }

  /** `s.upper()` on ASCII letters. */
  function Upper(s: string): (r: string)
    ensures |r| == |s|
    ensures forall k :: 0 <= k < |s| ==> r[k] == UpperChar(s[k])
  {
    seq(|s|, k requires 0 <= k < |s| => UpperChar(s[k]))
  }
}
