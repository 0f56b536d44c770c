/** The explanation templater `fix_explanation` (vimsplain.py:75-106): fills
    the count, the register name and the typed placeholders of a command's
    documentation text from the groups its pattern captured. */
module Explain {
  import opened Basics
  import opened Text
  import opened Commands

  /** `\b` in front of a word that starts at index `i`. */
  predicate BoundaryBefore(s: string, i: int) {
    i == 0 || (0 < i <= |s| && !IsWordChar(s[i - 1]))
  }

  /** `\b` after a word that ends just before index `j`. */
  predicate BoundaryAfter(s: string, j: int) {
    j == |s| || (0 <= j < |s| && !IsWordChar(s[j]))
  }

  /** `\bw\b` matches at index `i`: `w` occurs there as a whole word. */
  predicate Delimited(s: string, i: int, w: string) {
    OccursAt(s, w, i) && BoundaryBefore(s, i) && BoundaryAfter(s, i + |w|)
  }

  /** Which alternative of `\bw1\b|\bw2\b|...` matches at index `i`: the first
      word, in the order given, that occurs there as a whole word. */
  function FirstDelimited(s: string, i: int, words: seq<string>): (r: Option<nat>)
    ensures r.Some? ==> r.value < |words| && Delimited(s, i, words[r.value])
    ensures r.Some? ==> forall j :: 0 <= j < r.value ==> !Delimited(s, i, words[j])
    ensures r.None? ==> forall j :: 0 <= j < |words| ==> !Delimited(s, i, words[j])
    decreases |words|
  {
    if |words| == 0 then None
    else if Delimited(s, i, words[0]) then Some(0)
    else
      var r := FirstDelimited(s, i, words[1..]);
      if r.None? then None else Some(r.value + 1)
  }

  predicate NonEmptyWords(words: seq<string>) {
    forall j :: 0 <= j < |words| ==> |words[j]| > 0
  }

  /** `re.sub(pattern, v, s[i..])` for a pattern that is an alternation of
      whole words: scanning from index `i`, every whole-word occurrence is
      replaced by `v`; word boundaries are judged against all of `s`. */
  function SubWords(s: string, words: seq<string>, v: string, i: nat): (r: string)
    requires NonEmptyWords(words)
    decreases |s| - i
  {
    if i >= |s| then []
    else
      var w := FirstDelimited(s, i, words);
      if w.Some? then v + SubWords(s, words, v, i + |words[w.value]|)
      else [s[i]] + SubWords(s, words, v, i + 1)
  }

  /** A text in which no word of the pattern stands as a whole word is left
      as it is. */
  lemma {:induction false} SubWordsAbsent(s: string, words: seq<string>, v: string, i: nat)
    requires NonEmptyWords(words)
    requires forall p, j :: i <= p < |s| && 0 <= j < |words| ==> !Delimited(s, p, words[j])
    ensures SubWords(s, words, v, i) == if i >= |s| then [] else s[i..]
    decreases |s| - i
  {
    if i < |s| {
      SubWordsAbsent(s, words, v, i + 1);
      if i + 1 < |s| {
        assert [s[i]] + s[i + 1..] == s[i..];
      }
    }
  }

  /** The substitution at its leftmost whole-word match `p` (from `i` on):
      the text before `p` is kept, the word there becomes `v`, and the
      substitution carries on after the word. */
  lemma SubWordsAtFirst(s: string, words: seq<string>, v: string, i: nat, p: nat, j: nat)
    requires NonEmptyWords(words)
    requires i <= p && FirstDelimited(s, p, words) == Some(j)
    requires forall q :: i <= q < p ==> FirstDelimited(s, q, words).None?
    ensures p < |s| && p + |words[j]| <= |s|
    ensures SubWords(s, words, v, i) == s[i..p] + v + SubWords(s, words, v, p + |words[j]|)
  {
    SubWordsHit(s, words, v, p, j);
    SubWordsKeepRun(s, words, v, i, p);
    AppendAssoc(s[i..p], v, SubWords(s, words, v, p + |words[j]|));
  }

  /** A stretch with no whole word is copied as it is. */
  lemma {:induction false} SubWordsKeepRun(s: string, words: seq<string>, v: string, i: nat, p: nat)
    requires NonEmptyWords(words)
    requires i <= p <= |s|
    requires forall q :: i <= q < p ==> FirstDelimited(s, q, words).None?
    ensures SubWords(s, words, v, i) == s[i..p] + SubWords(s, words, v, p)
    decreases p - i
  {
    if i < p {
      SubWordsKeepRun(s, words, v, i + 1, p);
      SubWordsSkip(s, words, v, i);
      ConsSlice(s, i, p);
      AppendAssoc([s[i]], s[i + 1..p], SubWords(s, words, v, p));
    } else {
      assert s[i..p] == [];
    }
  }

  /** Where word `j` stands whole, it is replaced. */
  lemma SubWordsHit(s: string, words: seq<string>, v: string, p: nat, j: nat)
    requires NonEmptyWords(words)
    requires FirstDelimited(s, p, words) == Some(j)
    ensures p < |s| && p + |words[j]| <= |s|
    ensures SubWords(s, words, v, p) == v + SubWords(s, words, v, p + |words[j]|)
  {
    assert p < |s| && p + |words[j]| <= |s| by {
      assert j < |words| && |words[j]| > 0 && OccursAt(s, words[j], p);
    }
  }

  /** Where no word stands whole, the character is kept. */
  lemma SubWordsSkip(s: string, words: seq<string>, v: string, i: nat)
    requires NonEmptyWords(words)
    requires i < |s| && FirstDelimited(s, i, words).None?
    ensures SubWords(s, words, v, i) == [s[i]] + SubWords(s, words, v, i + 1)
  {
    var r := SubWords(s, words, v, i);
    assert r == [s[i]] + SubWords(s, words, v, i + 1);
  }

  /** `numcom_expr`, `(?:\bN(th)?\b|\bNmove\b)`, as an alternation of whole
      words in the order the regex tries them. */
  const CountWords: seq<string> := ["Nth", "N", "Nmove"]

  /** A whole count word always begins with a capital N. */
  lemma CountWordStartsWithN(s: string, p: int, j: int)
    requires 0 <= j < |CountWords| && Delimited(s, p, CountWords[j])
    ensures 0 <= p < |s| && s[p] == 'N'
    ensures Contains(s, "N")
  {
    assert s[p..p + 1] == "N" by {
      assert CountWords[j][0] == 'N';
    }
    assert OccursAt(s, "N", p);
  }

  /** The alternation picks the count word that stands at `p`: no other
      word of it is whole there as well. */
  lemma CountWordFirst(s: string, p: int, j: int)
    requires 0 <= j < |CountWords| && Delimited(s, p, CountWords[j])
    ensures FirstDelimited(s, p, CountWords) == Some(j)
  {
    assert CountWords[1..] == ["N", "Nmove"];
    assert CountWords[1..][1..] == ["Nmove"];
    if j == 2 {
      assert s[p + 1] == "Nmove"[1];
    }
  }

  /** Length of the digit run starting at index `j`. */
  function DigitRun(s: string, j: nat): (k: nat)
    ensures j + k <= |s| || k == 0
    ensures forall q :: j <= q < j + k ==> IsDigit(s[q])
    ensures j + k < |s| ==> !IsDigit(s[j + k])
    decreases |s| - j
  {
    if j < |s| && IsDigit(s[j]) then 1 + DigitRun(s, j + 1) else 0
  }

  /** `default (?:is )?(\d+)` tried at index `p`: the start and length of the
      captured digits, if it matches there. */
  function DefaultAt(s: string, p: nat): (r: Option<(nat, nat)>)
    ensures r.Some? ==> OccursAt(s, "default ", p)
    ensures r.Some? ==> var (d, k) := r.value;
      0 < k && d + k <= |s| && (d == p + 8 || d == p + 11) && AllDigits(s[d..d + k])
  {
    if !OccursAt(s, "default ", p) then None
    else if OccursAt(s, "is ", p + 8) && DigitRun(s, p + 11) > 0 then
      var k := DigitRun(s, p + 11);
      Some((p + 11, k))
    else if DigitRun(s, p + 8) > 0 then
      var k := DigitRun(s, p + 8);
      Some((p + 8, k))
    else None
  }

  /** `default_expr.search(s)` from index `p`: the leftmost index at or after
      `p` where the default phrase matches. */
  function FindDefault(s: string, p: nat): (r: Option<nat>)
    ensures r.Some? ==> p <= r.value && DefaultAt(s, r.value).Some?
    ensures r.Some? ==> forall q :: p <= q < r.value ==> DefaultAt(s, q).None?
    ensures r.None? ==> forall q :: p <= q ==> DefaultAt(s, q).None?
    decreases |s| - p
  {
    if p >= |s| then
      assert forall q :: p <= q ==> !OccursAt(s, "default ", q);
      None
    else if DefaultAt(s, p).Some? then Some(p)
    else FindDefault(s, p + 1)
  }

  /** The number a count-taking explanation falls back on when no count was
      typed: the K of the first "default K" / "default is K", else 1. */
  function DefaultCount(expl: string): (n: nat) {
    match FindDefault(expl, 0)
    case Some(p) =>
      var (d, k) := DefaultAt(expl, p).value;
      ParseDecimal(expl[d..d + k])
    case None => 1
  }

  /** The count group, when the pattern has one, holds the digits typed. */
  predicate CountGroupWellFormed(groups: map<string, Option<string>>) {
    "num" in groups ==> groups["num"].Some? && AllDigits(groups["num"].value)
  }

  /** The count substituted for `N`: the typed count if one was typed,
      otherwise the digits after the leftmost "default " or "default is "
      of the explanation, and 1 when it states no default. */
  function CountValue(groups: map<string, Option<string>>, expl: string): (n: nat)
    requires "num" in groups && CountGroupWellFormed(groups)
    ensures groups["num"].value != "" ==> n == ParseDecimal(groups["num"].value)
    ensures groups["num"].value == "" ==>
      match FindDefault(expl, 0)
      case None => n == 1
      case Some(p) =>
        DefaultAt(expl, p).Some? && var (d, k) := DefaultAt(expl, p).value;
        n == ParseDecimal(expl[d..d + k])
  {
    var num := groups["num"].value;
    if num != "" then ParseDecimal(num) else DefaultCount(expl)
  }

  /** The text a whole count word becomes: the digits as typed, or the
      decimal form of the default. */
  function CountText(groups: map<string, Option<string>>, expl: string): (t: string)
    requires "num" in groups && CountGroupWellFormed(groups)
    ensures AllDigits(t) && ParseDecimal(t) == CountValue(groups, expl)
    ensures groups["num"].value != "" ==> t == groups["num"].value
    ensures groups["num"].value == "" ==> t == NatToString(CountValue(groups, expl))
  {
    var num := groups["num"].value;
    if num != "" then num
    else
      ParseNatToString(CountValue(groups, expl));
      NatToString(CountValue(groups, expl))
  }

  /** The first `try` block of `fix_explanation`: without a count group the
      text is unchanged; with one, `N-1` becomes the count minus one and every
      whole `N`, `Nth` and `Nmove` becomes the count, as typed when typed. */
  function FixCount(groups: map<string, Option<string>>, expl: string): (r: string)
    requires CountGroupWellFormed(groups)
    ensures "num" !in groups ==> r == expl
  {
    if "num" !in groups then expl
    else
      var less := IntToString(CountValue(groups, expl) - 1);
      SubWords(ReplaceAll(expl, "N-1", less), CountWords, CountText(groups, expl), 0)
  }

  /** A text without a capital N has nothing for the count step to fill. */
  lemma FixCountWithoutN(groups: map<string, Option<string>>, expl: string)
    requires CountGroupWellFormed(groups)
    requires !Contains(expl, "N")
    ensures FixCount(groups, expl) == expl
  {
    if "num" in groups {
      NoCountWordWithoutN(expl, IntToString(CountValue(groups, expl) - 1), CountText(groups, expl));
    }
  }

  /** Both substitutions of the count step need a capital N to act on. */
  lemma NoCountWordWithoutN(expl: string, less: string, text: string)
    requires !Contains(expl, "N")
    ensures ReplaceAll(expl, "N-1", less) == expl
    ensures SubWords(expl, CountWords, text, 0) == expl
  {
    if Contains(expl, "N-1") {
      var p := Find(expl, "N-1").value;
      assert expl[p..p + 1] == "N-1"[..1];
      assert OccursAt(expl, "N", p);
    }
    ReplaceAllAbsent(expl, "N-1", less);
    forall p, j | 0 <= p < |expl| && 0 <= j < |CountWords|
      ensures !Delimited(expl, p, CountWords[j])
    {
      if Delimited(expl, p, CountWords[j]) {
        CountWordStartsWithN(expl, p, j);
      }
    }
    SubWordsAbsent(expl, CountWords, text, 0);
  }

  /** An explanation whose only capital N begins one whole count word gets
      the count in that word's place, and nothing else changes. */
  lemma FixCountOneWord(groups: map<string, Option<string>>, expl: string, pre: string, j: nat, post: string)
    requires "num" in groups && CountGroupWellFormed(groups)
    requires j < |CountWords| && expl == pre + CountWords[j] + post
    requires 'N' !in pre && 'N' !in post
    requires BoundaryBefore(expl, |pre|) && BoundaryAfter(expl, |pre| + |CountWords[j]|)
    requires !OccursAt(expl, "N-1", |pre|)
    ensures FixCount(groups, expl) == pre + CountText(groups, expl) + post
  {
    CountStepsWord(pre, j, post, IntToString(CountValue(groups, expl) - 1), CountText(groups, expl));
  }

  /** Both substitutions of the count step on a text whose only capital N
      begins one whole count word, not an `N-1`. */
  lemma CountStepsWord(pre: string, j: nat, post: string, less: string, text: string)
    requires j < |CountWords| && 'N' !in pre && 'N' !in post
    requires var s := pre + CountWords[j] + post;
      BoundaryBefore(s, |pre|) && BoundaryAfter(s, |pre| + |CountWords[j]|) && !OccursAt(s, "N-1", |pre|)
    ensures SubWords(ReplaceAll(pre + CountWords[j] + post, "N-1", less), CountWords, text, 0) == pre + text + post
  {
    var s := pre + CountWords[j] + post;
    OnlyNAt(pre, j, post);
    NoLessBesideN(s, |pre|);
    ReplaceAllAbsent(s, "N-1", less);
    CountWordOnce(pre, j, post, text);
  }

  /** The whole-word step of the count fill on a text whose only capital N
      begins one whole count word. */
  lemma CountWordOnce(pre: string, j: nat, post: string, text: string)
    requires j < |CountWords| && 'N' !in pre && 'N' !in post
    requires var s := pre + CountWords[j] + post;
      BoundaryBefore(s, |pre|) && BoundaryAfter(s, |pre| + |CountWords[j]|)
    ensures SubWords(pre + CountWords[j] + post, CountWords, text, 0) == pre + text + post
  {
    var w := CountWords[j];
    var s := pre + w + post;
    var e := |pre| + |w|;
    ThreeParts(pre, w, post);
    OnlyNAt(pre, j, post);
    forall q | 0 <= q < |pre|
      ensures FirstDelimited(s, q, CountWords).None?
    {
      NoCountWordAt(s, q);
    }
    CountWordFirst(s, |pre|, j);
    forall q, k | e <= q < |s| && 0 <= k < |CountWords|
      ensures !Delimited(s, q, CountWords[k])
    {
      if Delimited(s, q, CountWords[k]) {
        CountWordStartsWithN(s, q, k);
      }
    }
    SubWordsOnce(s, CountWords, text, |pre|, j);
  }

  /** The substitution on a text with one whole-word match `p`: the word
      becomes `v` and the rest is kept. */
  lemma SubWordsOnce(s: string, words: seq<string>, v: string, p: nat, j: nat)
    requires NonEmptyWords(words)
    requires FirstDelimited(s, p, words) == Some(j)
    requires forall q :: 0 <= q < p ==> FirstDelimited(s, q, words).None?
    requires forall q, k :: p + |words[j]| <= q < |s| && 0 <= k < |words| ==> !Delimited(s, q, words[k])
    ensures p + |words[j]| <= |s|
    ensures SubWords(s, words, v, 0) == s[..p] + v + s[p + |words[j]|..]
  {
    var e := p + |words[j]|;
    var rest := SubWords(s, words, v, e);
    assert e <= |s| && SubWords(s, words, v, 0) == s[..p] + v + rest by {
      SubWordsAtFirst(s, words, v, 0, p, j);
      assert s[0..p] == s[..p];
    }
    assert rest == s[e..] by {
      SubWordsAbsent(s, words, v, e);
    }
  }

  /** A text whose only capital N, at `p`, does not begin `N-1` holds no `N-1`. */
  lemma NoLessBesideN(s: string, p: int)
    requires forall q :: 0 <= q < |s| && s[q] == 'N' ==> q == p
    requires !OccursAt(s, "N-1", p)
    ensures !Contains(s, "N-1")
  {
    forall q | 0 <= q < |s|
      ensures !OccursAt(s, "N-1", q)
    {
      if q != p {
        assert s[q] != 'N' || !OccursAt(s, "N-1", q);
      }
    }
  }

  lemma ThreeParts(pre: string, w: string, post: string)
    ensures var s := pre + w + post;
      s[..|pre|] == pre && s[|pre|..|pre| + |w|] == w && s[|pre| + |w|..] == post
  {
  }

  /** The only capital N of `pre + CountWords[j] + post` is the word's
      first letter. */
  lemma OnlyNAt(pre: string, j: nat, post: string)
    requires j < |CountWords| && 'N' !in pre && 'N' !in post
    ensures var s := pre + CountWords[j] + post;
      forall q :: 0 <= q < |s| && s[q] == 'N' ==> q == |pre|
  {
    var w := CountWords[j];
    var s := pre + w + post;
    forall q | 0 <= q < |s| && s[q] == 'N'
      ensures q == |pre|
    {
      if |pre| <= q < |pre| + |w| {
        assert s[q] == w[q - |pre|];
        assert forall k :: 1 <= k < |w| ==> w[k] != 'N' by {
          assert j == 0 || j == 1 || j == 2;
        }
      }
    }
  }

  /** No count word stands whole where the text has no capital N. */
  lemma NoCountWordAt(s: string, q: int)
    requires 0 <= q < |s| && s[q] != 'N'
    ensures FirstDelimited(s, q, CountWords).None?
  {
    forall k | 0 <= k < |CountWords|
      ensures !Delimited(s, q, CountWords[k])
    {
      if Delimited(s, q, CountWords[k]) {
        CountWordStartsWithN(s, q, k);
      }
    }
  }

  /** An explanation whose only capital N begins its one `N-1` gets the
      count less one there, and nothing else changes. */
  lemma FixCountLess(groups: map<string, Option<string>>, expl: string, pre: string, post: string)
    requires "num" in groups && CountGroupWellFormed(groups)
    requires expl == pre + "N-1" + post && 'N' !in pre && 'N' !in post
    ensures FixCount(groups, expl) == pre + IntToString(CountValue(groups, expl) - 1) + post
  {
    var less := IntToString(CountValue(groups, expl) - 1);
    var text := CountText(groups, expl);
    NumberHasNoLetter(CountValue(groups, expl) - 1, 'N');
    CountStepsLess(pre, post, less, text);
  }

  /** The count step on `pre + "N-1" + post`, with no other capital N and a
      count text `less` free of one, writes `less` there and stops. */
  lemma CountStepsLess(pre: string, post: string, less: string, text: string)
    requires 'N' !in pre && 'N' !in post && 'N' !in less
    ensures SubWords(ReplaceAll(pre + "N-1" + post, "N-1", less), CountWords, text, 0) == pre + less + post
  {
    var once := pre + less + post;
    ReplaceOnlyOccurrence(pre, "N-1", post, less);
    assert 'N' !in once;
    AbsentByChar(once, "N", 0);
    NoCountWordWithoutN(once, less, text);
  }

  /** The second `try` block: a captured register name replaces every whole
      word `x`; without one the text is unchanged. */
  function FixRegister(groups: map<string, Option<string>>, expl: string): (r: string)
    ensures ("buf" !in groups || groups["buf"].None?) ==> r == expl
  {
    if "buf" in groups && groups["buf"].Some? then SubWords(expl, ["x"], groups["buf"].value, 0)
    else expl
  }

  /** An explanation whose only `x` is one whole word gets the register name
      in its place, and nothing else changes. */
  lemma FixRegisterOneWord(groups: map<string, Option<string>>, expl: string, pre: string, post: string)
    requires "buf" in groups && groups["buf"].Some?
    requires expl == pre + "x" + post && 'x' !in pre && 'x' !in post
    requires BoundaryBefore(expl, |pre|) && BoundaryAfter(expl, |pre| + 1)
    ensures FixRegister(groups, expl) == pre + groups["buf"].value + post
  {
    RegisterWordOnce(pre, post, groups["buf"].value);
  }

  /** The register fill on a text whose only `x` is one whole word. */
  lemma RegisterWordOnce(pre: string, post: string, v: string)
    requires 'x' !in pre && 'x' !in post
    requires BoundaryBefore(pre + "x" + post, |pre|) && BoundaryAfter(pre + "x" + post, |pre| + 1)
    ensures SubWords(pre + "x" + post, ["x"], v, 0) == pre + v + post
  {
    var s := pre + "x" + post;
    ThreeParts(pre, "x", post);
    assert 'x' !in s[..|pre|] && 'x' !in s[|pre| + 1..];
    SubCharOnce(s, 'x', v, |pre|);
  }

  /** Substituting the one-character word `c` in a text where `c` occurs
      once, as a whole word. */
  lemma SubCharOnce(s: string, c: char, v: string, p: nat)
    requires p < |s| && s[p] == c && c !in s[..p] && c !in s[p + 1..]
    requires BoundaryBefore(s, p) && BoundaryAfter(s, p + 1)
    ensures SubWords(s, [[c]], v, 0) == s[..p] + v + s[p + 1..]
  {
    var w := [c];
    forall q | 0 <= q < p
      ensures FirstDelimited(s, q, [w]).None?
    {
      assert s[q] == s[..p][q];
      assert s[q..q + 1][0] == s[q];
    }
    assert OccursAt(s, w, p) by {
      assert s[p..p + 1] == w;
    }
    assert FirstDelimited(s, p, [w]) == Some(0);
    forall q, k | p + 1 <= q < |s| && 0 <= k < 1
      ensures !Delimited(s, q, [w][k])
    {
      assert s[q] == s[p + 1..][q - p - 1];
      assert s[q..q + 1][0] == s[q];
    }
    SubWordsOnce(s, [w], v, p, 0);
  }

  /** The placeholder kinds of the final loop, in its order. */
  const PlaceholderKinds: seq<string> := ["char", "word", "count", "height", "pattern", "filter"]

  /** The final loop: for each kind whose group the pattern has, `{kind}`
      and then `KIND` are replaced by the captured text.  A group the pattern
      lacks is skipped; a group that took no part in the match makes
      `re.sub` raise, which the model reports as that kind's name. */
  function FixPlaceholders(groups: map<string, Option<string>>, expl: string, kinds: seq<string>)
    : (r: Result<string, string>)
    requires NonEmptyWords(kinds)
    ensures r.Err? <==> exists j :: 0 <= j < |kinds| && kinds[j] in groups && groups[kinds[j]].None?
    ensures r.Err? ==> r.error in kinds && r.error in groups && groups[r.error].None?
    ensures (forall j :: 0 <= j < |kinds| ==> kinds[j] !in groups) ==> r == Ok(expl)
    decreases |kinds|
  {
    if |kinds| == 0 then Ok(expl)
    else
      var kind := kinds[0];
      var rest := kinds[1..];
      assert forall j :: 1 <= j < |kinds| ==> kinds[j] == rest[j - 1];
      if kind !in groups then FixPlaceholders(groups, expl, rest)
      else
        match groups[kind]
        case None => Err(kind)
        case Some(v) =>
          var e1 := ReplaceAll(expl, "{" + kind + "}", v);
          FixPlaceholders(groups, ReplaceAll(e1, Upper(kind), v), rest)
  }

  /** With exactly one placeholder group, and that one captured, the loop
      replaces that kind's `{kind}` and then its upper-case spelling, and
      succeeds. */
  lemma {:induction false} FixPlaceholdersOnly(groups: map<string, Option<string>>, expl: string,
                                               kinds: seq<string>, i: nat, v: string)
    requires NonEmptyWords(kinds) && i < |kinds|
    requires kinds[i] in groups && groups[kinds[i]] == Some(v)
    requires forall j :: 0 <= j < |kinds| && j != i ==> kinds[j] !in groups
    ensures FixPlaceholders(groups, expl, kinds)
         == Ok(ReplaceAll(ReplaceAll(expl, "{" + kinds[i] + "}", v), Upper(kinds[i]), v))
    decreases |kinds|
  {
    var rest := kinds[1..];
    assert forall j :: 0 <= j < |rest| ==> rest[j] == kinds[j + 1];
    if i > 0 {
      FixPlaceholdersOnly(groups, expl, rest, i - 1, v);
    }
  }

  /** A template holding one `{kind}` and no other brace, whose filled text
      does not spell the kind in capitals, becomes the filled text. */
  lemma PlaceholderOnce(pre: string, kind: string, post: string, v: string)
    requires '{' !in pre && '{' !in post
    requires |kind| > 0 && !Contains(pre + v + post, Upper(kind))
    ensures ReplaceAll(ReplaceAll(pre + "{" + kind + "}" + post, "{" + kind + "}", v), Upper(kind), v)
         == pre + v + post
  {
    var pat := "{" + kind + "}";
    assert pre + "{" + kind + "}" + post == pre + pat + post;
    assert ReplaceAll(pre + pat + post, pat, v) == pre + v + post by {
      ReplaceOnlyOccurrence(pre, pat, post, v);
    }
    ReplaceAllAbsent(pre + v + post, Upper(kind), v);
  }

  /** `fix_explanation(m, expl)`.  A count group that is not a string of
      digits makes `int()` raise (`TypeError` for a group that took no part,
      `ValueError` otherwise), reported as `"num"`; `(?P<num>\d*)` always
      captures digits, so that happens only for other matchers.  Then a
      placeholder group that took no part makes `re.sub` raise, reported as
      that kind. */
  function FixExplanation(m: Match, expl: string): (r: Result<string, string>)
    ensures !CountGroupWellFormed(m.groups) ==> r == Err("num")
    ensures r.Err? ==> r.error == "num" || r.error in PlaceholderKinds
  {
    if !CountGroupWellFormed(m.groups) then Err("num")
    else FixPlaceholders(m.groups, FixRegister(m.groups, FixCount(m.groups, expl)), PlaceholderKinds)
  }

  /** `fix_explanation` raises exactly when the count group holds no digit
      string or some placeholder group took no part in the match. */
  lemma FixExplanationFails(m: Match, expl: string)
    ensures FixExplanation(m, expl).Err? <==>
      || !CountGroupWellFormed(m.groups)
      || exists kind :: kind in PlaceholderKinds && kind in m.groups && m.groups[kind].None?
  {
    if CountGroupWellFormed(m.groups) {
      assert (exists kind :: kind in PlaceholderKinds && kind in m.groups && m.groups[kind].None?)
         <==> (exists j :: 0 <= j < |PlaceholderKinds| && PlaceholderKinds[j] in m.groups
                 && m.groups[PlaceholderKinds[j]].None?);
    }
  }

  /** A match with none of the groups the template knows leaves the
      explanation as documented. */
  lemma FixExplanationPlain(m: Match, expl: string)
    requires "num" !in m.groups && "buf" !in m.groups
    requires forall kind :: kind in PlaceholderKinds ==> kind !in m.groups
    ensures FixExplanation(m, expl) == Ok(expl)
  {
  }

  /** End to end, for a pattern whose only group is the count: the one
      whole count word of the explanation becomes the count text. */
  lemma FixExplanationCount(g: map<string, Option<string>>, e: nat, expl: string, pre: string, j: nat, post: string)
    requires g.Keys == {"num"} && CountGroupWellFormed(g)
    requires j < |CountWords| && expl == pre + CountWords[j] + post
    requires 'N' !in pre && 'N' !in post
    requires BoundaryBefore(expl, |pre|) && BoundaryAfter(expl, |pre| + |CountWords[j]|)
    requires !OccursAt(expl, "N-1", |pre|)
    ensures FixExplanation(Match(e, g), expl) == Ok(pre + CountText(g, expl) + post)
  {
    CountOnlyFill(g, e, expl);
    FixCountOneWord(g, expl, pre, j, post);
  }

  /** End to end, for a pattern whose only group is the count: the one
      `N-1` of the explanation becomes the count less one. */
  lemma FixExplanationLess(g: map<string, Option<string>>, e: nat, pre: string, post: string)
    requires g.Keys == {"num"} && CountGroupWellFormed(g)
    requires 'N' !in pre && 'N' !in post
    ensures FixExplanation(Match(e, g), pre + "N-1" + post)
         == Ok(pre + IntToString(CountValue(g, pre + "N-1" + post) - 1) + post)
  {
    var expl := pre + "N-1" + post;
    var filled := pre + IntToString(CountValue(g, expl) - 1) + post;
    assert FixCount(g, expl) == filled by {
      FixCountLess(g, expl, pre, post);
    }
    CountOnlyFill(g, e, expl);
  }

  /** End to end, for a pattern whose only group is the register: the one
      whole word `x` of the explanation becomes the register name. */
  lemma FixExplanationRegister(g: map<string, Option<string>>, e: nat, pre: string, post: string)
    requires g.Keys == {"buf"} && g["buf"].Some?
    requires 'x' !in pre && 'x' !in post
    requires BoundaryBefore(pre + "x" + post, |pre|) && BoundaryAfter(pre + "x" + post, |pre| + 1)
    ensures FixExplanation(Match(e, g), pre + "x" + post) == Ok(pre + g["buf"].value + post)
  {
    RegisterOnlyFill(g, e, pre + "x" + post);
    FixRegisterOneWord(g, pre + "x" + post, pre, post);
  }

  /** With the count as the only group, the whole template is the count
      step. */
  lemma CountOnlyFill(g: map<string, Option<string>>, e: nat, expl: string)
    requires g.Keys == {"num"} && CountGroupWellFormed(g)
    ensures FixExplanation(Match(e, g), expl) == Ok(FixCount(g, expl))
  {
    var c := FixCount(g, expl);
    assert "buf" !in g && FixRegister(g, c) == c;
    assert forall j :: 0 <= j < |PlaceholderKinds| ==> PlaceholderKinds[j] !in g;
  }

  /** With the register as the only group, the whole template is the
      register step. */
  lemma RegisterOnlyFill(g: map<string, Option<string>>, e: nat, expl: string)
    requires g.Keys == {"buf"}
    ensures FixExplanation(Match(e, g), expl) == Ok(FixRegister(g, expl))
  {
    assert "num" !in g && FixCount(g, expl) == expl;
    assert forall j :: 0 <= j < |PlaceholderKinds| ==> PlaceholderKinds[j] !in g;
  }

  /** End to end, for a pattern whose only group is placeholder kind `i`:
      the one `{kind}` of the explanation becomes the captured text. */
  lemma FixExplanationPlaceholder(g: map<string, Option<string>>, e: nat, pre: string, i: nat, post: string, v: string)
    requires i < |PlaceholderKinds| && g == map[PlaceholderKinds[i] := Some(v)]
    requires '{' !in pre && '{' !in post
    requires !Contains(pre + v + post, Upper(PlaceholderKinds[i]))
    ensures FixExplanation(Match(e, g), pre + "{" + PlaceholderKinds[i] + "}" + post) == Ok(pre + v + post)
  {
    var kind := PlaceholderKinds[i];
    var expl := pre + "{" + kind + "}" + post;
    assert forall j :: 0 <= j < |PlaceholderKinds| && j != i ==> PlaceholderKinds[j] != kind;
    assert kind != "num" && kind != "buf";
    assert FixRegister(g, FixCount(g, expl)) == expl;
    FixPlaceholdersOnly(g, expl, PlaceholderKinds, i, v);
    PlaceholderOnce(pre, kind, post, v);
  }

  /** The leftmost default phrase is found wherever it stands, when none
      starts earlier. */
  lemma FindDefaultLeftmost(s: string, p: nat)
    requires DefaultAt(s, p).Some?
    requires forall q :: 0 <= q < p ==> DefaultAt(s, q).None?
    ensures FindDefault(s, 0) == Some(p)
  {
    var r := FindDefault(s, 0);
    assert r.Some? ==> !(r.value < p) && !(p < r.value);
  }

  /** With no count typed and no default phrase, the count text is "1". */
  lemma CountTextNoDefault(g: map<string, Option<string>>, expl: string)
    requires "num" in g && g["num"] == Some("")
    requires forall j :: !OccursAt(expl, "default ", j)
    ensures CountText(g, expl) == "1"
  {
    assert FindDefault(expl, 0).None?;
    assert NatToString(1) == "1";
  }

  /** With no count typed, the count text is the digits of the leftmost
      default phrase, read as a number and written back. */
  lemma CountTextDefault(g: map<string, Option<string>>, expl: string, p: nat, d: nat, k: nat)
    requires "num" in g && g["num"] == Some("")
    requires DefaultAt(expl, p) == Some((d, k))
    requires forall q :: 0 <= q < p ==> DefaultAt(expl, q).None?
    ensures CountText(g, expl) == NatToString(ParseDecimal(expl[d..d + k]))
  {
    var n := CountValue(g, expl);
    assert n == ParseDecimal(expl[d..d + k]) by {
      FindDefaultLeftmost(expl, p);
    }
    assert CountText(g, expl) == NatToString(n);
  }

  /** No default phrase starts inside a prefix that holds none, when what
      follows the prefix starts with `d`: a phrase reaching past the prefix
      would need a second `d`, and "default " has only the one. */
  lemma NoDefaultBefore(lead: string, rest: string)
    requires forall j :: !OccursAt(lead, "default ", j)
    requires |rest| > 0 && rest[0] == 'd'
    ensures forall q :: 0 <= q < |lead| ==> DefaultAt(lead + rest, q).None?
  {
    var s := lead + rest;
    forall q | 0 <= q < |lead|
      ensures !OccursAt(s, "default ", q)
    {
      if q + 8 <= |lead| {
        assert s[q..q + 8] == lead[q..q + 8];
        assert !OccursAt(lead, "default ", q);
      } else if q + 8 <= |s| {
        var o := |lead| - q;
        assert s[q..q + 8][o] == rest[0];
        assert "default "[o] != 'd';
      }
    }
  }

  /** A digit run that reaches the end of the text is all of it. */
  lemma {:induction false} DigitRunToEnd(s: string, j: nat)
    requires j <= |s| && forall q :: j <= q < |s| ==> IsDigit(s[q])
    ensures DigitRun(s, j) == |s| - j
    decreases |s| - j
  {
    if j < |s| {
      DigitRunToEnd(s, j + 1);
    }
  }

  /** "default is K" at the end of a text is read as K. */
  lemma DefaultIsAt(lead: string, digits: string)
    requires IsDigitString(digits)
    ensures var s := lead + "default is " + digits;
      DefaultAt(s, |lead|) == Some((|lead| + 11, |digits|)) && s[|lead| + 11..] == digits
  {
    var s := lead + "default is " + digits;
    ThreeParts(lead, "default is ", digits);
    assert s[|lead|..|lead| + 8] == "default ";
    assert s[|lead| + 8..|lead| + 11] == "is ";
    DigitRunToEnd(s, |lead| + 11);
  }

  /** A text that ends in "default is K", with no default phrase before
      it, falls back on K. */
  lemma CountTextEndDefault(g: map<string, Option<string>>, lead: string, digits: string)
    requires "num" in g && g["num"] == Some("")
    requires (forall j :: !OccursAt(lead, "default ", j)) && IsDigitString(digits)
    ensures CountText(g, lead + "default is " + digits) == NatToString(ParseDecimal(digits))
  {
    var expl := lead + "default is " + digits;
    var d, k := |lead| + 11, |digits|;
    assert DefaultAt(expl, |lead|) == Some((d, k)) && expl[d..d + k] == digits by {
      DefaultIsAt(lead, digits);
      assert expl[d..d + k] == expl[d..];
    }
    assert forall q :: 0 <= q < |lead| ==> DefaultAt(expl, q).None? by {
      NoDefaultBefore(lead, "default is " + digits);
      assert lead + ("default is " + digits) == expl;
    }
    CountTextDefault(g, expl, |lead|, d, k);
  }

  lemma NoCapitalNInDefault(mid: string, digits: string)
    requires 'N' !in mid && AllDigits(digits)
    ensures 'N' !in mid + "default is " + digits
  {
    assert 'N' !in digits by {
      forall k | 0 <= k < |digits|
        ensures digits[k] != 'N'
      {
        assert IsDigit(digits[k]);
      }
    }
  }

  /** End to end, for a count-only pattern with no count typed, on an
      explanation that ends in "default is K": its one whole `N` becomes K. */
  lemma FixExplanationDefault(g: map<string, Option<string>>, e: nat, pre: string, mid: string, digits: string)
    requires g == map["num" := Some("")]
    requires 'N' !in pre && 'N' !in mid && IsDigitString(digits)
    requires forall j :: !OccursAt(pre + "N" + mid, "default ", j)
    requires (|pre| == 0 || pre[|pre| - 1] == ' ') && |mid| > 0 && mid[0] == ' '
    ensures FixExplanation(Match(e, g), pre + "N" + mid + "default is " + digits)
         == Ok(pre + NatToString(ParseDecimal(digits)) + mid + "default is " + digits)
  {
    var lead := pre + "N" + mid;
    var post := mid + "default is " + digits;
    AppendAssoc4(pre + "N", mid, "default is ", digits);
    CountTextEndDefault(g, lead, digits);
    NoCapitalNInDefault(mid, digits);
    FixExplanationNoLess(g, e, pre, post);
    AppendAssoc4(pre + NatToString(ParseDecimal(digits)), mid, "default is ", digits);
  }

  /** End to end, for a count-only pattern, on an explanation whose one
      capital N stands alone between spaces: it becomes the count text. */
  lemma FixExplanationNoLess(g: map<string, Option<string>>, e: nat, pre: string, post: string)
    requires g.Keys == {"num"} && CountGroupWellFormed(g)
    requires 'N' !in pre && 'N' !in post
    requires (|pre| == 0 || pre[|pre| - 1] == ' ') && (|post| == 0 || post[0] == ' ')
    ensures FixExplanation(Match(e, g), pre + "N" + post) == Ok(pre + CountText(g, pre + "N" + post) + post)
  {
    var expl := pre + "N" + post;
    assert expl == pre + CountWords[1] + post;
    ThreeParts(pre, "N", post);
    assert expl[|pre|] == 'N';
    assert |post| > 0 ==> expl[|pre| + 1] == ' ';
    assert |pre| > 0 ==> expl[|pre| - 1] == ' ';
    FixExplanationCount(g, e, expl, pre, 1, post);
  }

  /** End to end, for a count-only pattern with no count typed, on an
      explanation stating no default: its one whole `N` becomes 1. */
  lemma FixExplanationNoDefault(g: map<string, Option<string>>, e: nat, pre: string, post: string)
    requires g == map["num" := Some("")]
    requires 'N' !in pre && 'N' !in post
    requires forall j :: !OccursAt(pre + "N" + post, "default ", j)
    requires (|pre| == 0 || pre[|pre| - 1] == ' ') && (|post| == 0 || post[0] == ' ')
    ensures FixExplanation(Match(e, g), pre + "N" + post) == Ok(pre + "1" + post)
  {
    CountTextNoDefault(g, pre + "N" + post);
    FixExplanationNoLess(g, e, pre, post);
  }

  /** A typed count of 3 fills a whole `N`. */
  lemma CountExampleTyped()
    ensures FixExplanation(Match(2, map["num" := Some("3")]), "cursor " + "N" + " lines downward")
         == Ok("cursor " + "3" + " lines downward")
  {
    var pre, post := "cursor ", " lines downward";
    var expl := pre + CountWords[1] + post;
    assert expl[|pre|] == 'N' && expl[|pre| - 1] == ' ' && expl[|pre| + 1] == ' ';
    FixExplanationCount(map["num" := Some("3")], 2, expl, pre, 1, post);
  }

  /** A typed count of 3 makes `N-1` read 2. */
  lemma CountExampleLess()
    ensures FixExplanation(Match(2, map["num" := Some("3")]), "cursor " + "N-1" + " lines down")
         == Ok("cursor " + "2" + " lines down")
  {
    var g, pre, post := map["num" := Some("3")], "cursor ", " lines down";
    assert CountValue(g, pre + "N-1" + post) == 3 by {
      assert g["num"].value == "3" && ParseDecimal("3") == 3;
    }
    FixExplanationLess(g, 2, pre, post);
    assert IntToString(3 - 1) == "2";
  }

  /** With no count typed, "default is 2" supplies the count. */
  lemma CountExampleDefault()
    ensures FixExplanation(Match(1, map["num" := Some("")]), "Join " + "N" + " lines; " + "default is " + "2")
         == Ok("Join " + "2" + " lines; " + "default is " + "2")
  {
    assert forall j :: !OccursAt("Join " + "N" + " lines; ", "default ", j) by {
      AbsentByChar("Join " + "N" + " lines; ", "default ", 0);
    }
    FixExplanationDefault(map["num" := Some("")], 1, "Join ", " lines; ", "2");
    assert ParseDecimal("2") == 2 && NatToString(2) == "2";
  }

  /** Appending with no count typed and no stated default happens once. */
  lemma CountExampleAppend()
    ensures FixExplanation(Match(1, map["num" := Some("")]), "append text after the cursor " + "N" + " times")
         == Ok("append text after the cursor " + "1" + " times")
  {
    var pre, post := "append text after the cursor ", " times";
    assert 'l' !in pre && 'l' !in post;
    AbsentByChar(pre + "N" + post, "default ", 5);
    FixExplanationNoDefault(map["num" := Some("")], 1, pre, post);
  }

  /** A captured register name fills the whole word `x`. */
  lemma RegisterExample()
    ensures FixExplanation(Match(2, map["buf" := Some("a")]), "yank into register " + "x" + "")
         == Ok("yank into register " + "a" + "")
  {
    var pre := "yank into register ";
    assert (pre + "x" + "")[|pre| - 1] == ' ';
    FixExplanationRegister(map["buf" := Some("a")], 2, pre, "");
  }

  /** A captured character fills `{char}`. */
  lemma PlaceholderExample()
    ensures FixExplanation(Match(2, map["char" := Some("a")]), "replace N chars with " + "{" + "char" + "}" + "")
         == Ok("replace N chars with " + "a" + "")
  {
    var pre := "replace N chars with ";
    assert 'C' !in pre + "a" + "";
    AbsentByChar(pre + "a" + "", "CHAR", 0);
    assert Upper(PlaceholderKinds[0]) == "CHAR";
    FixExplanationPlaceholder(map["char" := Some("a")], 2, pre, 0, "", "a");
  }
}
