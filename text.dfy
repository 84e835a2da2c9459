/**
 * The text normaliser and chunk wrapper of `TextRefactor`.
 *
 * `Text2Doc` is the fixed chain of Python `str.replace` calls followed by
 * `strip(string.punctuation)`, `strip()` and `lower()`. The recursive
 * character splitter of the text-splitting library is not modelled: it is
 * the function `split` handed to `TextSplitter`, already configured with the
 * chunk size (1250) and overlap (125) of the constructor. Python's `lower` is
 * the abstract character map `lower`.
 */
module Text {
  import opened Seqs


  /** Python's `string.punctuation`. */
  const Punctuation: set<char> := {
    '!', '"', '#', '$', '%', '&', '\'', '(', ')', '*', '+', ',', '-', '.', '/',
    ':', ';', '<', '=', '>', '?', '@', '[', '\\', ']', '^', '_', '`', '{', '|',
    '}', '~'
  }

  /** The characters for which Python's `str.isspace()` holds; `strip()` removes them. */
  const Whitespace: set<char> := {
    '\t', '\n', '\U{0B}', '\U{0C}', '\r', '\U{1C}', '\U{1D}', '\U{1E}', '\U{1F}',
    ' ', '\U{85}', '\U{A0}', '\U{1680}', '\U{2000}', '\U{2001}', '\U{2002}',
    '\U{2003}', '\U{2004}', '\U{2005}', '\U{2006}', '\U{2007}', '\U{2008}',
    '\U{2009}', '\U{200A}', '\U{2028}', '\U{2029}', '\U{202F}', '\U{205F}',
    '\U{3000}'
  }

  /** The characters the normaliser removes or turns into spaces. */
  const Markup: set<char> := {'"', '\n', '-', '>'}

  /** The boilerplate phrases deleted from review pages. */
  const FullReviewOnPortal := "полная версия обзора доступна на нашем портале"
  const SeeReviewOnPortal := "подробнее см. в нашем обзоре на портале"
  const FullReviewInEnglish := "полная версия обзора доступна на английском языке"

  /** `pat` occurs in `s` starting at index `i`. */
  predicate OccursAt(s: string, pat: string, i: int)
  {
    0 <= i && i + |pat| <= |s| && s[i..i + |pat|] == pat
  }

  /** Python's `pat in s`. */
  ghost predicate Contains(s: string, pat: string)
  {
    exists i :: OccursAt(s, pat, i)
  }

  /**
   * Python's `s.replace(pat, rep)` for a non-empty `pat`: scans left to
   * right and replaces every non-overlapping occurrence.
   */
  function ReplaceAll(s: string, pat: string, rep: string): string
    requires pat != []
    decreases |s|
  {
    if |s| < |pat| then s
    else if s[..|pat|] == pat then rep + ReplaceAll(s[|pat|..], pat, rep)
    else [s[0]] + ReplaceAll(s[1..], pat, rep)
  }

  /** Every character of the result comes from the input or from the replacement. */
  lemma {:induction false} ReplaceChars(s: string, pat: string, rep: string)
    requires pat != []
    ensures forall c :: c in ReplaceAll(s, pat, rep) ==> c in s || c in rep
    decreases |s|
  {
    if |s| >= |pat| {
      var k := if s[..|pat|] == pat then |pat| else 1;
      ReplaceChars(s[k..], pat, rep);
      forall c | c in s[k..] ensures c in s {
        var i :| 0 <= i < |s[k..]| && s[k..][i] == c;
        assert s[k + i] == c;
      }
    }
  }

  /** Replacing a single character by a text without it removes every occurrence of that character. */
  lemma {:induction false} ReplaceRemovesChar(s: string, c: char, rep: string)
    requires c !in rep
    ensures c !in ReplaceAll(s, [c], rep)
    decreases |s|
  {
    if s != [] {
      assert s[..1] == [s[0]];
      ReplaceRemovesChar(s[1..], c, rep);
    }
  }

  /** A string that does not contain the pattern is left unchanged. */
  lemma {:induction false} ReplaceAbsent(s: string, pat: string, rep: string)
    requires pat != []
    requires !Contains(s, pat)
    ensures ReplaceAll(s, pat, rep) == s
    decreases |s|
  {
    if |s| >= |pat| {
      assert !OccursAt(s, pat, 0);
      assert s[0..|pat|] == s[..|pat|];
      forall i ensures !OccursAt(s[1..], pat, i) {
        assert !OccursAt(s, pat, i + 1);
        if 0 <= i && i + |pat| <= |s[1..]| {
          assert s[1..][i..i + |pat|] == s[i + 1..i + 1 + |pat|];
        }
      }
      ReplaceAbsent(s[1..], pat, rep);
    }
  }

  /**
   * Replacing in a concatenation is replacing in each part, when the first
   * part ends in a character the pattern does not contain (so no occurrence
   * can straddle the boundary).
   */
  lemma {:induction false} ReplaceAppend(x: string, y: string, pat: string, rep: string)
    requires pat != []
    requires x == [] || x[|x| - 1] !in pat
    ensures ReplaceAll(x + y, pat, rep) == ReplaceAll(x, pat, rep) + ReplaceAll(y, pat, rep)
    decreases |x|
  {
    if x == [] {
      assert x + y == y;
    } else if |x| < |pat| && |x + y| < |pat| {
      ReplaceShort(x, pat, rep);
      ReplaceShort(y, pat, rep);
    } else if |x| < |pat| {
      ReplaceAppend(x[1..], y, pat, rep);
      AppendShortFirst(x, y, pat, rep);
    } else if x[..|pat|] == pat {
      ReplaceAppend(x[|pat|..], y, pat, rep);
      AppendMatchFirst(x, y, pat, rep);
    } else {
      ReplaceAppend(x[1..], y, pat, rep);
      AppendMissFirst(x, y, pat, rep);
    }
  }

  /** `ReplaceAppend` when the first part is shorter than the pattern but the whole is not. */
  lemma AppendShortFirst(x: string, y: string, pat: string, rep: string)
    requires pat != [] && x != [] && x[|x| - 1] !in pat
    requires |x| < |pat| <= |x + y|
    requires ReplaceAll(x[1..] + y, pat, rep) == ReplaceAll(x[1..], pat, rep) + ReplaceAll(y, pat, rep)
    ensures ReplaceAll(x + y, pat, rep) == ReplaceAll(x, pat, rep) + ReplaceAll(y, pat, rep)
  {
    var s := x + y;
    NoMatchAcross(x, y, pat);
    ReplaceMiss(s, pat, rep);
    assert s[0] == x[0] && s[1..] == x[1..] + y;
    var ry := ReplaceAll(y, pat, rep);
    ReplaceShort(x, pat, rep);
    ReplaceShort(x[1..], pat, rep);
    assert ReplaceAll(s, pat, rep) == [x[0]] + (x[1..] + ry);
    ConcatAssoc([x[0]], x[1..], ry);
    assert [x[0]] + x[1..] == x;
  }

  /** No occurrence of the pattern starts at the front when the front part is short and ends outside it. */
  lemma NoMatchAcross(x: string, y: string, pat: string)
    requires x != [] && x[|x| - 1] !in pat
    requires |x| < |pat| <= |x + y|
    ensures (x + y)[..|pat|] != pat
  {
    assert (x + y)[..|pat|][|x| - 1] == x[|x| - 1];
  }

  /** Unfolding `ReplaceAll` when no occurrence starts at the front. */
  lemma ReplaceMiss(s: string, pat: string, rep: string)
    requires pat != [] && |pat| <= |s| && s[..|pat|] != pat
    ensures ReplaceAll(s, pat, rep) == [s[0]] + ReplaceAll(s[1..], pat, rep)
  {
  }

  /** `ReplaceAppend` when the first part starts with the pattern. */
  lemma AppendMatchFirst(x: string, y: string, pat: string, rep: string)
    requires pat != [] && |pat| <= |x| && x[..|pat|] == pat
    requires ReplaceAll(x[|pat|..] + y, pat, rep) == ReplaceAll(x[|pat|..], pat, rep) + ReplaceAll(y, pat, rep)
    ensures ReplaceAll(x + y, pat, rep) == ReplaceAll(x, pat, rep) + ReplaceAll(y, pat, rep)
  {
    var s := x + y;
    assert s[..|pat|] == pat;
    assert s[|pat|..] == x[|pat|..] + y;
  }

  /** `ReplaceAppend` when the first part is long enough but does not start with the pattern. */
  lemma AppendMissFirst(x: string, y: string, pat: string, rep: string)
    requires pat != [] && |pat| <= |x| && x[..|pat|] != pat
    requires ReplaceAll(x[1..] + y, pat, rep) == ReplaceAll(x[1..], pat, rep) + ReplaceAll(y, pat, rep)
    ensures ReplaceAll(x + y, pat, rep) == ReplaceAll(x, pat, rep) + ReplaceAll(y, pat, rep)
  {
    var s := x + y;
    assert s[..|pat|] == x[..|pat|];
    assert s[1..] == x[1..] + y;
  }

  /** A string shorter than the pattern is left unchanged. */
  lemma ReplaceShort(s: string, pat: string, rep: string)
    requires pat != [] && |s| < |pat|
    ensures ReplaceAll(s, pat, rep) == s
  {
  }

  /** A string whose first character does not start the pattern keeps that character in front. */
  lemma ReplaceHead(s: string, pat: string, rep: string)
    requires pat != [] && s != [] && s[0] != pat[0]
    ensures ReplaceAll(s, pat, rep) == [s[0]] + ReplaceAll(s[1..], pat, rep)
  {
    if |s| < |pat| {
      ReplaceShort(s[1..], pat, rep);
      assert s == [s[0]] + s[1..];
    } else {
      assert s[..|pat|][0] == s[0];
    }
  }

  /**
   * Appending a character outside the pattern after any string: the result
   * ends with that character.
   */
  lemma {:induction false} ReplaceAppendLast(x: string, c: char, pat: string, rep: string)
    requires pat != [] && c !in pat
    ensures var r := ReplaceAll(x + [c], pat, rep); r != [] && r[|r| - 1] == c
    decreases |x|
  {
    var s := x + [c];
    if |s| < |pat| {
      ReplaceShort(s, pat, rep);
    } else if |s| == |pat| {
      assert s[..|pat|][|pat| - 1] == c;
      assert s[..|pat|] != pat;
      ReplaceShort(s[1..], pat, rep);
      assert s == [s[0]] + s[1..];
    } else if s[..|pat|] == pat {
      assert s[|pat|..] == x[|pat|..] + [c];
      ReplaceAppendLast(x[|pat|..], c, pat, rep);
    } else {
      assert s[1..] == x[1..] + [c];
      ReplaceAppendLast(x[1..], c, pat, rep);
    }
  }

  /** Python's `s.lstrip(cs)`. */
  function TrimStart(s: string, cs: set<char>): string
  {
    if s != [] && s[0] in cs then TrimStart(s[1..], cs) else s
  }

  /** Python's `s.rstrip(cs)`. */
  function TrimEnd(s: string, cs: set<char>): string
  {
    if s != [] && s[|s| - 1] in cs then TrimEnd(s[..|s| - 1], cs) else s
  }

  /** `lstrip` keeps a suffix, cuts off only characters of `cs`, and the suffix does not start with one. */
  lemma {:induction false} TrimStartSpec(s: string, cs: set<char>)
    ensures var r := TrimStart(s, cs);
      && |r| <= |s| && r == s[|s| - |r|..]
      && (forall i :: 0 <= i < |s| - |r| ==> s[i] in cs)
      && (r == [] || r[0] !in cs)
    decreases |s|
  {
    if s != [] && s[0] in cs {
      TrimStartSpec(s[1..], cs);
      var r := TrimStart(s, cs);
      assert s[1..][|s| - 1 - |r|..] == s[|s| - |r|..];
      forall i | 1 <= i < |s| - |r| ensures s[i] in cs {
        assert s[1..][i - 1] == s[i];
      }
    }
  }

  /** `rstrip` keeps a prefix, cuts off only characters of `cs`, and the prefix does not end with one. */
  lemma {:induction false} TrimEndSpec(s: string, cs: set<char>)
    ensures var r := TrimEnd(s, cs);
      && |r| <= |s| && r == s[..|r|]
      && (forall i :: |r| <= i < |s| ==> s[i] in cs)
      && (r == [] || r[|r| - 1] !in cs)
    decreases |s|
  {
    if s != [] && s[|s| - 1] in cs {
      TrimEndSpec(s[..|s| - 1], cs);
      var r := TrimEnd(s, cs);
      assert s[..|s| - 1][..|r|] == s[..|r|];
    }
  }

  /**
   * Python's `s.strip(cs)`: the longest middle part of `s` that neither
   * starts nor ends with a character of `cs`.
   */
  function Strip(s: string, cs: set<char>): string
  {
    TrimEnd(TrimStart(s, cs), cs)
  }

  /** The stripped text neither starts nor ends with a character of `cs`, and all its characters come from `s`. */
  lemma StripSpec(s: string, cs: set<char>)
    ensures var r := Strip(s, cs);
      && (r == [] || (r[0] !in cs && r[|r| - 1] !in cs))
      && (forall c :: c in r ==> c in s)
  {
    var t := TrimStart(s, cs);
    TrimStartSpec(s, cs);
    TrimEndSpec(t, cs);
    var r := TrimEnd(t, cs);
    if r != [] {
      assert r[0] == t[0];
    }
    forall c | c in r ensures c in s {
      var i :| 0 <= i < |r| && r[i] == c;
      assert t[i] == c;
      assert s[|s| - |t| + i] == c;
    }
  }

  /** Python's `s.lower()`, with `lower` the per-character case map. */
  function Lower(s: string, lower: char -> char): (r: string)
    ensures |r| == |s|
    ensures forall i :: 0 <= i < |s| ==> r[i] == lower(s[i])
  {
    if s == [] then [] else [lower(s[0])] + Lower(s[1..], lower)
  }

  /** A non-empty search pattern (every pattern `_text2doc` replaces is non-empty). */
  type Pattern = s: string | s != [] witness " "

  /** One `str.replace(pattern, replacement)` call of the chain. */
  datatype Replacement = Replacement(pattern: Pattern, replacement: string)

  /** Applies the replacements one after another, first to last. */
  function ReplaceEach(s: string, steps: seq<Replacement>): string
    decreases |steps|, |s|
  {
    if steps == [] then s
    else ReplaceEach(ReplaceAll(s, steps[0].pattern, steps[0].replacement), steps[1..])
  }

  /** The replace chain of `_text2doc` up to and including `replace('>', ' ')`. */
  const Scrubbing: seq<Replacement> := [
    Replacement("\"", ""),
    Replacement(FullReviewOnPortal, ""),
    Replacement(SeeReviewOnPortal, ""),
    Replacement(FullReviewInEnglish, ""),
    Replacement("\n\n", " "),
    Replacement("\n", " "),
    Replacement("-", " "),
    Replacement(">", " ")
  ]

  function Scrub(text: string): string
  {
    ReplaceEach(text, Scrubbing)
  }

  /** A character that no replacement writes stays absent through the chain. */
  lemma {:induction false} ChainKeepsAbsent(s: string, steps: seq<Replacement>, c: char)
    requires c !in s
    requires forall j :: 0 <= j < |steps| ==> c !in steps[j].replacement
    ensures c !in ReplaceEach(s, steps)
    decreases |steps|
  {
    if steps != [] {
      ReplaceChars(s, steps[0].pattern, steps[0].replacement);
      ChainKeepsAbsent(ReplaceAll(s, steps[0].pattern, steps[0].replacement), steps[1..], c);
    }
  }

  /**
   * A character replaced on its own at step `k` by a text without it, and
   * written by no later step, is absent from the result.
   */
  lemma {:induction false} ChainRemoves(s: string, steps: seq<Replacement>, k: nat, c: char)
    requires k < |steps| && steps[k].pattern == [c] && c !in steps[k].replacement
    requires forall j :: k < j < |steps| ==> c !in steps[j].replacement
    ensures c !in ReplaceEach(s, steps)
    decreases k
  {
    var t := ReplaceAll(s, steps[0].pattern, steps[0].replacement);
    if k == 0 {
      ReplaceRemovesChar(s, c, steps[0].replacement);
      ChainKeepsAbsent(t, steps[1..], c);
    } else {
      ChainRemoves(t, steps[1..], k - 1, c);
    }
  }

  /** The last two replacements of the chain: three spaces, then two spaces, become one. */
  const Collapsing: seq<Replacement> := [Replacement("   ", " "), Replacement("  ", " ")]

  function SpaceRuns(t: string): string
  {
    ReplaceEach(t, Collapsing)
  }

  /** `SpaceRuns` is `t.replace('   ', ' ').replace('  ', ' ')`. */
  lemma SpaceRunsTwoPasses(t: string)
    ensures SpaceRuns(t) == ReplaceAll(ReplaceAll(t, "   ", " "), "  ", " ")
  {
    var t3 := ReplaceAll(t, "   ", " ");
    assert Collapsing[0].pattern == "   " && Collapsing[1..][0].pattern == "  ";
    var t2 := ReplaceAll(t3, "  ", " ");
    assert ReplaceEach(t, Collapsing) == ReplaceEach(t3, Collapsing[1..]);
    assert ReplaceEach(t3, Collapsing[1..]) == ReplaceEach(t2, Collapsing[1..][1..]);
    assert Collapsing[1..][1..] == [];
  }

  /** A stage of `_text2doc` before the final `lower()`: a run of replacements, or a strip. */
  datatype Stage = Replacing(steps: seq<Replacement>) | Stripping(chars: set<char>)

  function ApplyStage(s: string, stage: Stage): string
  {
    match stage
    case Replacing(steps) => ReplaceEach(s, steps)
    case Stripping(cs) => Strip(s, cs)
  }

  /** Runs the stages one after another, first to last. */
  function Normalise(s: string, stages: seq<Stage>): string
    decreases |stages|, |s|
  {
    if stages == [] then s else Normalise(ApplyStage(s, stages[0]), stages[1..])
  }

  /** The stages of `_text2doc`: the replace chain, `strip(string.punctuation)`, then `strip()`. */
  const Pipeline: seq<Stage> := [Replacing(Scrubbing), Replacing(Collapsing), Stripping(Punctuation), Stripping(Whitespace)]

  /** `TextRefactor._text2doc`. */
  function Text2Doc(text: string, lower: char -> char): string
  {
    Lower(Normalise(text, Pipeline), lower)
  }

  /** The stages spelled out: `_text2doc` lower-cases the stripped, space-reduced, scrubbed text. */
  lemma Text2DocChain(text: string, lower: char -> char)
    ensures Text2Doc(text, lower) == Lower(Strip(Strip(SpaceRuns(Scrub(text)), Punctuation), Whitespace), lower)
  {
    var s1 := Scrub(text);
    var s2 := SpaceRuns(s1);
    var s3 := Strip(s2, Punctuation);
    var s4 := Strip(s3, Whitespace);
    assert Normalise(text, Pipeline) == Normalise(s1, Pipeline[1..]);
    assert Normalise(s1, Pipeline[1..]) == Normalise(s2, Pipeline[2..]);
    assert Normalise(s2, Pipeline[2..]) == Normalise(s3, Pipeline[3..]);
    assert Normalise(s3, Pipeline[3..]) == Normalise(s4, Pipeline[4..]);
    assert Pipeline[4..] == [];
  }

  /** `lower` never turns a character outside `Markup` into one inside it. */
  ghost predicate NoMarkupIntroduced(lower: char -> char)
  {
    forall c :: lower(c) in Markup ==> c in Markup
  }

  /** `lower` never turns a non-space character into whitespace. */
  ghost predicate NoSpaceIntroduced(lower: char -> char)
  {
    forall c :: lower(c) in Whitespace ==> c in Whitespace
  }

  /** Lower-casing a lower-case character changes nothing. */
  ghost predicate Idempotent(lower: char -> char)
  {
    forall c :: lower(lower(c)) == lower(c)
  }

  /** The scrubbed and space-reduced text has no double quote, newline, dash or `>`. */
  lemma ScrubRemovesMarkup(text: string)
    ensures forall c :: c in SpaceRuns(Scrub(text)) ==> c !in Markup
  {
    ChainRemoves(text, Scrubbing, 0, '"');
    ChainRemoves(text, Scrubbing, 5, '\n');
    ChainRemoves(text, Scrubbing, 6, '-');
    ChainRemoves(text, Scrubbing, 7, '>');
    var t := Scrub(text);
    SpaceRunsTwoPasses(t);
    ReplaceChars(t, "   ", " ");
    ReplaceChars(ReplaceAll(t, "   ", " "), "  ", " ");
  }

  /** The output of `_text2doc` contains no double quote, newline, dash or `>`. */
  lemma Text2DocHasNoMarkup(text: string, lower: char -> char)
    requires NoMarkupIntroduced(lower)
    ensures forall c :: c in Text2Doc(text, lower) ==> c !in Markup
  {
    Text2DocChain(text, lower);
    ScrubRemovesMarkup(text);
    var spaced := SpaceRuns(Scrub(text));
    StripSpec(spaced, Punctuation);
    StripSpec(Strip(spaced, Punctuation), Whitespace);
    var stripped := Strip(Strip(spaced, Punctuation), Whitespace);
    var r := Text2Doc(text, lower);
    forall c | c in r ensures c !in Markup {
      var i :| 0 <= i < |r| && r[i] == c;
      assert stripped[i] in stripped;
    }
  }

  /** The output of `_text2doc` neither starts nor ends with whitespace. */
  lemma Text2DocIsTrimmed(text: string, lower: char -> char)
    requires NoSpaceIntroduced(lower)
    ensures var r := Text2Doc(text, lower); r == [] || (r[0] !in Whitespace && r[|r| - 1] !in Whitespace)
  {
    Text2DocChain(text, lower);
    var t := Strip(Strip(SpaceRuns(Scrub(text)), Punctuation), Whitespace);
    StripSpec(Strip(SpaceRuns(Scrub(text)), Punctuation), Whitespace);
    var r := Lower(t, lower);
    assert r == Text2Doc(text, lower);
    if r != [] {
      assert r[0] == lower(t[0]) && r[|r| - 1] == lower(t[|t| - 1]);
    }
  }

  /** The output of `_text2doc` is lower-case: lower-casing it again changes nothing. */
  lemma Text2DocIsLowerCase(text: string, lower: char -> char)
    requires Idempotent(lower)
    ensures Lower(Text2Doc(text, lower), lower) == Text2Doc(text, lower)
  {
  }

  /** Empty input gives empty output. */
  lemma Text2DocEmpty(lower: char -> char)
    ensures Text2Doc("", lower) == ""
  {
    Text2DocChain("", lower);
    ChainOnEmpty(Scrubbing);
    ChainOnEmpty(Collapsing);
  }

  /** No replacement chain turns the empty text into anything else. */
  lemma {:induction false} ChainOnEmpty(steps: seq<Replacement>)
    ensures ReplaceEach("", steps) == ""
    decreases |steps|
  {
    if steps != [] {
      ChainOnEmpty(steps[1..]);
    }
  }

  /** A string of `n` spaces. */
  function Spaces(n: nat): (r: string)
    ensures |r| == n && forall i :: 0 <= i < n ==> r[i] == ' '
  {
    seq(n, _ => ' ')
  }

  /** How the three-space replacement treats a run of one to four spaces before a non-space. */
  lemma ThreeSpaceStep(n: nat, c: string)
    requires 1 <= n <= 4
    requires c == [] || c[0] != ' '
    ensures ReplaceAll(Spaces(n) + c, "   ", " ")
         == Spaces(if n == 3 then 1 else if n == 4 then 2 else n) + ReplaceAll(c, "   ", " ")
  {
    if n == 1 {
      OneSpaceStep(c, "   ");
    } else if n == 2 {
      TwoBeforeThree(c);
    } else if n == 3 {
      ThreeOfThree(c);
    } else {
      FourOfThree(c);
    }
  }

  /** Two spaces are too few for the three-space replacement. */
  lemma TwoBeforeThree(c: string)
    requires c == [] || c[0] != ' '
    ensures ReplaceAll(Spaces(2) + c, "   ", " ") == Spaces(2) + ReplaceAll(c, "   ", " ")
  {
    var s := Spaces(2) + c;
    if |s| < 3 {
      ReplaceShort(s, "   ", " ");
      ReplaceShort(c, "   ", " ");
    } else {
      assert s[..3] != "   " by { assert s[2] == c[0]; }
      assert s[1..] == Spaces(1) + c;
      OneSpaceStep(c, "   ");
      ConcatAssoc(Spaces(1), Spaces(1), ReplaceAll(c, "   ", " "));
      assert Spaces(1) + Spaces(1) == Spaces(2);
    }
  }

  /** Three spaces become one. */
  lemma ThreeOfThree(c: string)
    ensures ReplaceAll(Spaces(3) + c, "   ", " ") == Spaces(1) + ReplaceAll(c, "   ", " ")
  {
    var s := Spaces(3) + c;
    assert s[..3] == "   ";
    assert s[3..] == c;
  }

  /** Four spaces become two: the first three are replaced, the fourth stays. */
  lemma FourOfThree(c: string)
    requires c == [] || c[0] != ' '
    ensures ReplaceAll(Spaces(4) + c, "   ", " ") == Spaces(2) + ReplaceAll(c, "   ", " ")
  {
    var s := Spaces(4) + c;
    assert s[..3] == "   ";
    assert s[3..] == Spaces(1) + c;
    OneSpaceStep(c, "   ");
    ConcatAssoc(Spaces(1), Spaces(1), ReplaceAll(c, "   ", " "));
    assert Spaces(1) + Spaces(1) == Spaces(2);
  }

  /** A single space before a non-space survives a replacement of a longer run of spaces. */
  lemma OneSpaceStep(c: string, pat: string)
    requires |pat| >= 2 && pat[1] == ' '
    requires c == [] || c[0] != ' '
    ensures ReplaceAll(Spaces(1) + c, pat, " ") == Spaces(1) + ReplaceAll(c, pat, " ")
  {
    var s := Spaces(1) + c;
    assert s[1..] == c;
    if |s| < |pat| {
      ReplaceShort(s, pat, " ");
      ReplaceShort(c, pat, " ");
    } else {
      assert s[..|pat|] != pat by { assert s[1] == c[0]; }
    }
  }

  /** How the two-space replacement treats a run of one or two spaces before a non-space. */
  lemma TwoSpaceStep(n: nat, c: string)
    requires 1 <= n <= 2
    requires c == [] || c[0] != ' '
    ensures ReplaceAll(Spaces(n) + c, "  ", " ") == Spaces(1) + ReplaceAll(c, "  ", " ")
  {
    if n == 1 {
      OneSpaceStep(c, "  ");
    } else {
      var s := Spaces(2) + c;
      assert s[..2] == "  ";
      assert s[2..] == c;
    }
  }

  /** The three-space pass maps a run of `n` spaces between non-spaces to a shorter run. */
  lemma ThreeSpacePass(a: string, n: nat, b: string)
    requires 2 <= n <= 4
    requires a == [] || a[|a| - 1] != ' '
    requires b == [] || b[0] != ' '
    ensures ReplaceAll(a + Spaces(n) + b, "   ", " ")
         == ReplaceAll(a, "   ", " ") + (Spaces(if n == 3 then 1 else if n == 4 then 2 else n) + ReplaceAll(b, "   ", " "))
  {
    assert a + Spaces(n) + b == a + (Spaces(n) + b);
    ReplaceAppend(a, Spaces(n) + b, "   ", " ");
    ThreeSpaceStep(n, b);
  }

  /** The two-space pass maps a run of one or two spaces between non-spaces to one space. */
  lemma TwoSpacePass(a: string, m: nat, b: string)
    requires 1 <= m <= 2
    requires a == [] || a[|a| - 1] != ' '
    requires b == [] || b[0] != ' '
    ensures ReplaceAll(a + (Spaces(m) + b), "  ", " ") == ReplaceAll(a, "  ", " ") + " " + ReplaceAll(b, "  ", " ")
  {
    var c := Spaces(m) + b;
    ReplaceAppend(a, c, "  ", " ");
    TwoSpaceStep(m, b);
    assert Spaces(1) == " ";
    ConcatAssoc(ReplaceAll(a, "  ", " "), " ", ReplaceAll(b, "  ", " "));
  }

  /** The two passes written out map a run of two to four spaces between non-spaces to one space. */
  lemma TwoPassesCollapse(a: string, n: nat, b: string)
    requires 2 <= n <= 4
    requires a == [] || a[|a| - 1] != ' '
    requires b == [] || b[0] != ' '
    ensures ReplaceAll(ReplaceAll(a + Spaces(n) + b, "   ", " "), "  ", " ")
         == ReplaceAll(ReplaceAll(a, "   ", " "), "  ", " ") + " " + ReplaceAll(ReplaceAll(b, "   ", " "), "  ", " ")
  {
    var m := if n == 3 then 1 else if n == 4 then 2 else n;
    ThreeSpacePass(a, n, b);
    ThreeSpaceKeepsLast(a);
    ThreeSpaceKeepsHead(b);
    TwoSpacePass(ReplaceAll(a, "   ", " "), m, ReplaceAll(b, "   ", " "));
  }

  /** The three-space pass keeps a text that does not end in a space from ending in one. */
  lemma ThreeSpaceKeepsLast(a: string)
    requires a == [] || a[|a| - 1] != ' '
    ensures var r := ReplaceAll(a, "   ", " "); r == [] || r[|r| - 1] != ' '
  {
    if a != [] {
      assert a == a[..|a| - 1] + [a[|a| - 1]];
      ReplaceAppendLast(a[..|a| - 1], a[|a| - 1], "   ", " ");
    }
  }

  /** The three-space pass keeps a text that does not start with a space from starting with one. */
  lemma ThreeSpaceKeepsHead(b: string)
    requires b == [] || b[0] != ' '
    ensures var r := ReplaceAll(b, "   ", " "); r == [] || r[0] != ' '
  {
    if b != [] {
      ReplaceHead(b, "   ", " ");
    }
  }

  /**
   * A run of two to four spaces between non-space neighbours becomes a
   * single space, and the text on either side is treated independently.
   */
  lemma SpaceRunCollapses(a: string, n: nat, b: string)
    requires 2 <= n <= 4
    requires a == [] || a[|a| - 1] != ' '
    requires b == [] || b[0] != ' '
    ensures SpaceRuns(a + Spaces(n) + b) == SpaceRuns(a) + " " + SpaceRuns(b)
  {
    SpaceRunsTwoPasses(a + Spaces(n) + b);
    SpaceRunsTwoPasses(a);
    SpaceRunsTwoPasses(b);
    TwoPassesCollapse(a, n, b);
  }

  /** The collapse is not complete: five spaces become two. */
  lemma FiveSpacesBecomeTwo()
    ensures SpaceRuns(Spaces(5)) == Spaces(2)
  {
    var s := Spaces(5);
    SpaceRunsTwoPasses(s);
    assert s[..3] == "   ";
    assert s[3..] == Spaces(2);
    ReplaceShort(Spaces(2), "   ", " ");
    var t := ReplaceAll(s, "   ", " ");
    assert t == Spaces(3);
    assert t[..2] == "  " && t[2..] == Spaces(1);
    ReplaceShort(Spaces(1), "  ", " ");
  }

  /**
   * The punctuation strip runs before the whitespace strip, so punctuation
   * behind a space survives at both ends.
   */
  lemma PunctuationBehindSpaceSurvives()
    ensures Strip(Strip(" .x. ", Punctuation), Whitespace) == ".x."
  {
    var s := " .x. ";
    assert s[0] == ' ' && s[|s| - 1] == ' ' && ' ' !in Punctuation;
    assert Strip(s, Punctuation) == s;
    assert ' ' in Whitespace && '.' !in Whitespace;
    assert s[1..] == ".x. " && ".x. "[0] == '.';
    assert TrimStart(s, Whitespace) == ".x. ";
    assert ".x. "[..3] == ".x." && ".x."[2] == '.';
    assert TrimEnd(".x. ", Whitespace) == ".x.";
  }

  /** A chunk of text together with its metadata (the library's `Document`). */
  datatype Document<M> = Document(pageContent: string, metadata: M)

  /** Every chunk, in order and unchanged, wrapped into a document with the given metadata. */
  function Tagged<M>(chunks: seq<string>, context: M): seq<Document<M>>
  {
    if chunks == [] then [] else Tagged(chunks[..|chunks| - 1], context) + [Document(chunks[|chunks| - 1], context)]
  }

  /** One document per chunk, the i-th holding the i-th chunk and the given metadata. */
  lemma {:induction false} TaggedSpec<M>(chunks: seq<string>, context: M)
    ensures |Tagged(chunks, context)| == |chunks|
    ensures forall i :: 0 <= i < |chunks| ==> Tagged(chunks, context)[i] == Document(chunks[i], context)
  {
    if chunks != [] {
      TaggedSpec(chunks[..|chunks| - 1], context);
    }
  }

  /**
   * `TextRefactor.text_splitter`: normalises the page text, splits it with
   * the external splitter and wraps every chunk, in order and unchanged,
   * into a document carrying the caller's page context.
   */
  method TextSplitter<M>(split: string -> seq<string>, lower: char -> char, pageText: string, pageContext: M)
    returns (documents: seq<Document<M>>)
    ensures documents == Tagged(split(Text2Doc(pageText, lower)), pageContext)
    ensures |documents| == |split(Text2Doc(pageText, lower))|
    ensures forall i :: 0 <= i < |documents| ==> documents[i].pageContent == split(Text2Doc(pageText, lower))[i]
    ensures forall d :: d in documents ==> d.metadata == pageContext
  {
    var splittedText := split(Text2Doc(pageText, lower));
    documents := WrapChunks(splittedText, pageContext);
    TaggedSpec(splittedText, pageContext);
  }

  /** The loop of `text_splitter`: one document per chunk, appended in order. */
  method WrapChunks<M>(chunks: seq<string>, pageContext: M) returns (documents: seq<Document<M>>)
    ensures documents == Tagged(chunks, pageContext)
  {
    documents := [];
    for i := 0 to |chunks|
      invariant documents == Tagged(chunks[..i], pageContext)
    {
      assert chunks[..i + 1][..i] == chunks[..i];
      documents := documents + [Document(chunks[i], pageContext)];
    }
    assert chunks[..|chunks|] == chunks;
  }
}
