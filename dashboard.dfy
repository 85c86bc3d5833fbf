/**
 * The task dashboard's helpers: the file-name slug, the plain-text preview of a
 * markdown description and its excerpt, the markdown export, the per-status counts
 * and the visible list, the patches the status buttons send, and which buttons a
 * task offers. Tasks are rows of the task table (flat records).
 */
module Dashboard {
  import opened Js
  import opened Json
  import Schema
  import Store

  // ---------------------------------------------------------------------------
  // Regular-expression replacement of character runs

  /** The character classes the dashboard's replacements match. */
  datatype CharClass =
    | NonSlug        // [^a-z0-9]
    | MarkdownToken  // [*_~>#-]
    | Space          // \s

  predicate IsSlugChar(c: char) { IsAsciiLower(c) || IsAsciiDigit(c) }

  predicate IsMarkdownToken(c: char) { c == '*' || c == '_' || c == '~' || c == '>' || c == '#' || c == '-' }

  predicate InClass(k: CharClass, c: char)
  {
    match k
    case NonSlug => !IsSlugChar(c)
    case MarkdownToken => IsMarkdownToken(c)
    case Space => IsWhitespace(c)
  }

  /**
   * `s.replace(/[class]+/g, rep)`: each maximal run of characters in the class becomes
   * one `rep`. `inRun` says the previous character was in the class and already
   * replaced.
   */
  function ReplaceRuns(s: string, k: CharClass, rep: char, inRun: bool): (r: string)
    ensures |r| <= |s|
    decreases |s|
  {
    if s == [] then []
    else if !InClass(k, s[0]) then [s[0]] + ReplaceRuns(s[1..], k, rep, false)
    else if inRun then ReplaceRuns(s[1..], k, rep, true)
    else [rep] + ReplaceRuns(s[1..], k, rep, true)
  }

  function Replace(s: string, k: CharClass, rep: char): string
  {
    ReplaceRuns(s, k, rep, false)
  }

  /** Every character of the result is `rep` or a character outside the class. */
  lemma {:induction false} ReplaceRunsChars(s: string, k: CharClass, rep: char, inRun: bool)
    ensures forall i :: 0 <= i < |ReplaceRuns(s, k, rep, inRun)| ==> ReplaceRuns(s, k, rep, inRun)[i] == rep || !InClass(k, ReplaceRuns(s, k, rep, inRun)[i])
    decreases |s|
  {
    if s != [] {
      ReplaceRunsChars(s[1..], k, rep, InClass(k, s[0]));
    }
  }

  /** A class `other` that neither `s` nor `rep` touches is not in the result either. */
  lemma {:induction false} ReplaceRunsAvoids(s: string, k: CharClass, rep: char, inRun: bool, other: CharClass)
    requires !InClass(other, rep) && forall i :: 0 <= i < |s| ==> !InClass(other, s[i])
    ensures forall i :: 0 <= i < |ReplaceRuns(s, k, rep, inRun)| ==> !InClass(other, ReplaceRuns(s, k, rep, inRun)[i])
    decreases |s|
  {
    if s != [] {
      ReplaceRunsAvoids(s[1..], k, rep, InClass(k, s[0]), other);
    }
  }

  /** Text made only of class characters becomes nothing but `rep`. */
  lemma {:induction false} ReplaceRunsAllInClass(s: string, k: CharClass, rep: char, inRun: bool)
    requires forall i :: 0 <= i < |s| ==> InClass(k, s[i])
    ensures forall i :: 0 <= i < |ReplaceRuns(s, k, rep, inRun)| ==> ReplaceRuns(s, k, rep, inRun)[i] == rep
    decreases |s|
  {
    if s != [] {
      ReplaceRunsAllInClass(s[1..], k, rep, true);
    }
  }

  /** A character outside the class is kept. */
  lemma {:induction false} ReplaceRunsKeeps(s: string, k: CharClass, rep: char, inRun: bool, i: int)
    requires 0 <= i < |s| && !InClass(k, s[i])
    ensures s[i] in ReplaceRuns(s, k, rep, inRun)
    decreases i
  {
    if i > 0 {
      ReplaceRunsKeeps(s[1..], k, rep, InClass(k, s[0]), i - 1);
    }
  }

  /** No two characters of the class stand next to each other. */
  predicate NoRunOf(k: CharClass, s: string)
  {
    forall i :: 0 <= i < |s| - 1 ==> !(InClass(k, s[i]) && InClass(k, s[i + 1]))
  }

  /**
   * When `rep` is itself in the class, no two class characters are adjacent in the
   * result, and after a run the result does not start with one.
   */
  lemma {:induction false} ReplaceRunsNoAdjacent(s: string, k: CharClass, rep: char, inRun: bool)
    requires InClass(k, rep)
    ensures inRun ==> ReplaceRuns(s, k, rep, inRun) == [] || !InClass(k, ReplaceRuns(s, k, rep, inRun)[0])
    ensures NoRunOf(k, ReplaceRuns(s, k, rep, inRun))
    decreases |s|
  {
    if s != [] {
      ReplaceRunsNoAdjacent(s[1..], k, rep, InClass(k, s[0]));
    }
  }

  /** Text with no character of the class is left as it is. */
  lemma {:induction false} ReplaceOutsideClass(s: string, k: CharClass, rep: char)
    requires forall i :: 0 <= i < |s| ==> !InClass(k, s[i])
    ensures ReplaceRuns(s, k, rep, false) == s
  {
    if s != [] {
      ReplaceOutsideClass(s[1..], k, rep);
    }
  }

  // ---------------------------------------------------------------------------
  // slugify

  predicate HasSlugChar(s: string) { exists i :: 0 <= i < |s| && IsSlugChar(s[i]) }

  /** The number of hyphens `s` starts with. */
  function LeadingHyphens(s: string): (n: nat)
    ensures n <= |s| && (n == |s| || s[n] != '-')
    ensures forall i :: 0 <= i < n ==> s[i] == '-'
  {
    if |s| > 0 && s[0] == '-' then
      var n := 1 + LeadingHyphens(s[1..]);
      assert forall i :: 1 <= i < n ==> s[i] == s[1..][i - 1];
      n
    else 0
  }

  /** The number of hyphens `s` ends with. */
  function TrailingHyphens(s: string): (n: nat)
    ensures n <= |s| && (n == |s| || s[|s| - 1 - n] != '-')
    ensures forall i :: |s| - n <= i < |s| ==> s[i] == '-'
  {
    if |s| > 0 && s[|s| - 1] == '-' then
      var n := 1 + TrailingHyphens(s[..|s| - 1]);
      assert forall i :: |s| - n <= i < |s| - 1 ==> s[i] == s[..|s| - 1][i];
      n
    else 0
  }

  /**
   * `s.replace(/^-+|-+$/g, "")`: the infix left when the edge hyphens go, starting
   * after the leading ones; only hyphens lie outside it.
   */
  function StripHyphens(s: string): (r: string)
    ensures r == [] || (r[0] != '-' && r[|r| - 1] != '-')
    ensures LeadingHyphens(s) + |r| <= |s| && r == s[LeadingHyphens(s)..LeadingHyphens(s) + |r|]
    ensures forall i :: 0 <= i < |s| && (i < LeadingHyphens(s) || i >= LeadingHyphens(s) + |r|) ==> s[i] == '-'
  {
    var a := LeadingHyphens(s);
    var t := s[a..];
    var n := TrailingHyphens(t);
    PrefixOfSuffix(s, a, |t| - n);
    SuffixHyphens(s, a, |t| - n);
    t[..|t| - n]
  }

  /** What lies after the first `m` characters of the suffix from `a` lies after `a + m` in `s`. */
  lemma SuffixHyphens(s: string, a: nat, m: nat)
    requires a + m <= |s| && forall i :: m <= i < |s| - a ==> s[a..][i] == '-'
    ensures forall i :: a + m <= i < |s| ==> s[i] == '-'
  {
    forall i | a + m <= i < |s| ensures s[i] == '-' {
      assert s[i] == s[a..][i - a];
    }
  }

  /** Only letters, digits and single hyphens. */
  predicate SlugShaped(s: string)
  {
    (forall i :: 0 <= i < |s| ==> IsSlugChar(s[i]) || s[i] == '-') &&
    (forall i :: 0 <= i < |s| - 1 ==> !(s[i] == '-' && s[i + 1] == '-'))
  }

  lemma InfixSlugShaped(s: string, a: int, b: int)
    requires SlugShaped(s) && 0 <= a <= b <= |s|
    ensures SlugShaped(s[a..b])
  {
    assert forall i :: 0 <= i < b - a ==> s[a..b][i] == s[a + i];
  }

  /** `replace(/[^a-z0-9]+/g, "-")`. */
  function Hyphenate(t: string): string
  {
    Replace(t, NonSlug, '-')
  }

  /** The text `slugify` cuts to 60 characters: lowered, trimmed, hyphenated, stripped of edge hyphens. */
  function SlugBody(input: string): string
  {
    StripHyphens(Hyphenate(Trim(ToLower(if input == "" then "task" else input))))
  }

  lemma TrimKeepsSlugChar(s: string)
    requires HasSlugChar(s)
    ensures HasSlugChar(Trim(s))
  {
    var i :| 0 <= i < |s| && IsSlugChar(s[i]);
    var a, r := LeadingWhitespace(s), Trim(s);
    assert !IsWhitespace(s[i]);
    assert a <= i < a + |r|;
    assert r[i - a] == s[i];
  }

  lemma TrimKeepsNoSlugChar(s: string)
    requires !HasSlugChar(s)
    ensures !HasSlugChar(Trim(s))
  {
    var a := LeadingWhitespace(s);
    assert forall j :: 0 <= j < |Trim(s)| ==> Trim(s)[j] == s[a + j];
  }

  lemma HyphenateShaped(t: string)
    ensures SlugShaped(Hyphenate(t))
  {
    ReplaceRunsChars(t, NonSlug, '-', false);
    ReplaceRunsNoAdjacent(t, NonSlug, '-', false);
  }

  lemma HyphenateKeepsSlugChar(t: string)
    requires HasSlugChar(t)
    ensures HasSlugChar(Hyphenate(t))
  {
    var i :| 0 <= i < |t| && IsSlugChar(t[i]);
    ReplaceRunsKeeps(t, NonSlug, '-', false, i);
  }

  lemma HyphenateNoSlugChar(t: string)
    requires !HasSlugChar(t)
    ensures forall i :: 0 <= i < |Hyphenate(t)| ==> Hyphenate(t)[i] == '-'
  {
    ReplaceRunsAllInClass(t, NonSlug, '-', false);
  }

  lemma StripShaped(h: string)
    requires SlugShaped(h)
    ensures SlugShaped(StripHyphens(h))
  {
    InfixSlugShaped(h, LeadingHyphens(h), LeadingHyphens(h) + |StripHyphens(h)|);
  }

  lemma StripKeepsSlugChar(h: string)
    requires HasSlugChar(h)
    ensures HasSlugChar(StripHyphens(h))
  {
    var body := StripHyphens(h);
    var n := LeadingHyphens(h);
    var j :| 0 <= j < |h| && IsSlugChar(h[j]);
    assert n <= j < n + |body|;
    assert body[j - n] == h[j];
  }

  lemma StripAllHyphens(h: string)
    requires forall i :: 0 <= i < |h| ==> h[i] == '-'
    ensures StripHyphens(h) == []
  {
  }

  lemma SlugBodyShaped(input: string)
    ensures SlugShaped(SlugBody(input)) && (SlugBody(input) == [] || SlugBody(input)[0] != '-')
  {
    var h := Hyphenate(Trim(ToLower(if input == "" then "task" else input)));
    HyphenateShaped(Trim(ToLower(if input == "" then "task" else input)));
    StripShaped(h);
  }

  lemma SlugCut(body: string)
    requires SlugShaped(body) && (body == [] || body[0] != '-')
    ensures |Slice(body, 0, 60)| <= 60 && SlugShaped(Slice(body, 0, 60))
    ensures body != [] ==> Slice(body, 0, 60) != [] && Slice(body, 0, 60)[0] == body[0]
  {
    var n := if |body| < 60 then |body| else 60;
    assert Slice(body, 0, 60) == body[0..n];
    InfixSlugShaped(body, 0, n);
  }

  /** A letter or digit of the lowered input survives into the stripped text. */
  lemma SlugKeepsLetters(input: string)
    requires HasSlugChar(ToLower(input))
    ensures HasSlugChar(SlugBody(input))
  {
    assert input != "";
    TrimKeepsSlugChar(ToLower(input));
    HyphenateKeepsSlugChar(Trim(ToLower(input)));
    StripKeepsSlugChar(Hyphenate(Trim(ToLower(input))));
  }

  /** An input with no letter or digit strips to nothing. */
  lemma SlugDropsAll(input: string)
    requires input != "" && !HasSlugChar(ToLower(input))
    ensures SlugBody(input) == []
  {
    TrimKeepsNoSlugChar(ToLower(input));
    HyphenateNoSlugChar(Trim(ToLower(input)));
    StripAllHyphens(Hyphenate(Trim(ToLower(input))));
  }

  /** A text that neither starts nor ends with a hyphen keeps all of itself. */
  lemma StripNoEdgeHyphens(w: string)
    requires w != [] && w[0] != '-' && w[|w| - 1] != '-'
    ensures StripHyphens(w) == w
  {
    assert LeadingHyphens(w) == 0;
  }

  /** A word of slug characters passes through every stage unchanged. */
  lemma SlugOfWord(w: string)
    requires w != [] && forall i :: 0 <= i < |w| ==> IsSlugChar(w[i])
    ensures StripHyphens(Hyphenate(Trim(ToLower(w)))) == w
  {
    ToLowerNoUpper(w);
    var t := Trim(w);
    assert t == w by {
      assert NoWhitespace(w);
      TrimNoWhitespace(w);
    }
    ReplaceOutsideClass(t, NonSlug, '-');
    StripNoEdgeHyphens(t);
  }

  /** An empty title slugs as the placeholder `task`. */
  lemma SlugOfEmpty()
    ensures SlugBody("") == "task"
  {
    var w := "task";
    assert IsSlugChar(w[0]) && IsSlugChar(w[1]) && IsSlugChar(w[2]) && IsSlugChar(w[3]);
    SlugOfWord(w);
  }

  /** `slugify`: the base of the exported file name. */
  function Slugify(input: string): (r: string)
    ensures 1 <= |r| <= 60 && SlugShaped(r) && r[0] != '-'
    ensures !HasSlugChar(ToLower(input)) ==> r == "task"
    ensures HasSlugChar(ToLower(input)) ==> HasSlugChar(r)
  {
    var body := SlugBody(input);
    var cut := Slice(body, 0, 60);
    SlugBodyShaped(input);
    SlugCut(body);
    SlugCases(input);
    if cut == [] then
      TaskIsSlug();
      "task"
    else cut
  }

  /** The fallback name is itself a slug. */
  lemma TaskIsSlug()
    ensures SlugShaped("task") && "task"[0] != '-'
  {
    SlugOfEmpty();
    SlugBodyShaped("");
  }

  lemma SlugCases(input: string)
    ensures HasSlugChar(ToLower(input)) ==> HasSlugChar(Slice(SlugBody(input), 0, 60))
    ensures !HasSlugChar(ToLower(input)) ==> Slice(SlugBody(input), 0, 60) == "" || Slice(SlugBody(input), 0, 60) == "task"
  {
    if HasSlugChar(ToLower(input)) {
      SlugCutKeepsLetters(input);
    } else if input != "" {
      SlugDropsAll(input);
    } else {
      SlugOfEmpty();
      SliceShort(SlugBody(input), 60);
    }
  }

  /** A text with a letter or digit keeps one at the head of its cut. */
  lemma SlugCutKeepsLetters(input: string)
    requires HasSlugChar(ToLower(input))
    ensures HasSlugChar(Slice(SlugBody(input), 0, 60))
  {
    var body := SlugBody(input);
    SlugBodyShaped(input);
    SlugCut(body);
    SlugKeepsLetters(input);
    assert IsSlugChar(body[0]);
    assert Slice(body, 0, 60)[0] == body[0];
  }

  /** Cutting at or past the end keeps the whole text. */
  lemma SliceShort(s: string, n: int)
    requires |s| <= n
    ensures Slice(s, 0, n) == s
  {
    assert s[0..|s|] == s;
  }

  /**
   * The hyphen strip runs before the cut to 60 characters, so a slug can end in a
   * hyphen: whenever the stripped text has one at position 59.
   */
  lemma SlugMayEndInHyphen(input: string)
    requires |SlugBody(input)| > 60 && SlugBody(input)[59] == '-'
    ensures |Slugify(input)| == 60 && Slugify(input)[59] == '-'
  {
    var body := SlugBody(input);
    assert Slice(body, 0, 60) == body[..60];
  }

  /** Text whose class characters are all `rep` and never adjacent is left as it is. */
  lemma {:induction false} ReplaceRunsFixed(s: string, k: CharClass, rep: char, inRun: bool)
    requires forall i :: 0 <= i < |s| && InClass(k, s[i]) ==> s[i] == rep
    requires NoRunOf(k, s)
    requires inRun && s != [] ==> !InClass(k, s[0])
    ensures ReplaceRuns(s, k, rep, inRun) == s
    decreases |s|
  {
    if s != [] {
      var rest := s[1..];
      assert forall i :: 0 <= i < |rest| ==> rest[i] == s[i + 1];
      ReplaceRunsFixed(rest, k, rep, InClass(k, s[0]));
    }
  }

  /** A text already shaped like a slug, hyphens only between other characters, is its own slug body. */
  lemma SlugBodyOfSlug(s: string)
    requires s != [] && s[0] != '-' && s[|s| - 1] != '-'
    requires forall i :: 0 <= i < |s| ==> IsSlugChar(s[i]) || s[i] == '-'
    requires NoRunOf(NonSlug, s)
    ensures SlugBody(s) == s
  {
    assert forall i :: 0 <= i < |s| ==> !IsAsciiUpper(s[i]) && !IsWhitespace(s[i]);
    ToLowerNoUpper(s);
    TrimNoWhitespace(s);
    assert Trim(ToLower(s)) == s;
    ReplaceRunsFixed(s, NonSlug, '-', false);
    assert Hyphenate(s) == s;
    StripHyphensOfEdges(s);
  }

  /** Without a hyphen at either end, stripping the edge hyphens changes nothing. */
  lemma StripHyphensOfEdges(s: string)
    requires s != [] && s[0] != '-' && s[|s| - 1] != '-'
    ensures StripHyphens(s) == s
  {
    var r := StripHyphens(s);
    assert LeadingHyphens(s) == 0;
    assert |r| == |s|;
  }

  /** 59 letters, a hyphen and a letter: the slug is cut right after the hyphen, so it ends in one. */
  lemma SlugEndsInHyphenExample()
    ensures var input := seq(59, _ => 'a') + "-b";
      |Slugify(input)| == 60 && Slugify(input)[59] == '-'
  {
    var input := seq(59, _ => 'a') + "-b";
    assert |input| == 61 && input[59] == '-' && input[60] == 'b';
    assert forall i :: 0 <= i < 59 ==> input[i] == 'a';
    SlugBodyOfSlug(input);
    SlugMayEndInHyphen(input);
  }

  // ---------------------------------------------------------------------------
  // stripMarkdown and excerpt

  /** No markdown token, whitespace only as single spaces. */
  predicate Plain(s: string)
  {
    (forall i :: 0 <= i < |s| ==> !IsMarkdownToken(s[i]) && (IsWhitespace(s[i]) ==> s[i] == ' ')) &&
    (forall i :: 0 <= i < |s| - 1 ==> !(IsWhitespace(s[i]) && IsWhitespace(s[i + 1])))
  }

  /** The token and whitespace replacements leave plain text, and trimming keeps it plain. */
  lemma PlainAfterReplacements(text: string)
    ensures Plain(Trim(Replace(Replace(text, MarkdownToken, ' '), Space, ' ')))
  {
    var untokened := Replace(text, MarkdownToken, ' ');
    assert Plain(Replace(untokened, Space, ' ')) by {
      ReplaceRunsChars(text, MarkdownToken, ' ', false);
      ReplaceRunsAvoids(untokened, Space, ' ', false, MarkdownToken);
      ReplaceRunsChars(untokened, Space, ' ', false);
      ReplaceRunsNoAdjacent(untokened, Space, ' ', false);
    }
    TrimKeepsPlain(Replace(untokened, Space, ' '));
  }

  /** Trimming plain text keeps it plain. */
  lemma TrimKeepsPlain(s: string)
    requires Plain(s)
    ensures Plain(Trim(s))
  {
    var r := Trim(s);
    var a := LeadingWhitespace(s);
    assert forall i :: 0 <= i < |r| ==> r[i] == s[a + i];
  }

  /** The characters of `s` that are neither markdown tokens nor whitespace, in order. */
  function Visible(s: string): string
  {
    if s == [] then []
    else (if IsMarkdownToken(s[0]) || IsWhitespace(s[0]) then [] else [s[0]]) + Visible(s[1..])
  }

  lemma {:induction false} VisibleAppend(a: string, b: string)
    ensures Visible(a + b) == Visible(a) + Visible(b)
  {
    if a == [] {
      assert a + b == b;
    } else {
      assert (a + b)[0] == a[0] && (a + b)[1..] == a[1..] + b;
      VisibleAppend(a[1..], b);
    }
  }

  lemma {:induction false} VisibleOfBlank(s: string)
    requires AllWhitespace(s)
    ensures Visible(s) == []
  {
    if s != [] {
      assert AllWhitespace(s[1..]) by {
        assert forall i :: 0 <= i < |s| - 1 ==> s[1..][i] == s[i + 1];
      }
      VisibleOfBlank(s[1..]);
    }
  }

  /** Replacing runs of tokens or of whitespace by one space keeps every visible character. */
  lemma {:induction false} ReplaceRunsVisible(s: string, k: CharClass, inRun: bool)
    requires k == MarkdownToken || k == Space
    ensures Visible(ReplaceRuns(s, k, ' ', inRun)) == Visible(s)
    decreases |s|
  {
    if s != [] {
      var tail := ReplaceRuns(s[1..], k, ' ', InClass(k, s[0]));
      ReplaceRunsVisible(s[1..], k, InClass(k, s[0]));
      assert ([s[0]] + tail)[1..] == tail;
      assert ([' '] + tail)[1..] == tail;
    }
  }

  /** Trimming removes only whitespace, so it keeps every visible character. */
  lemma TrimVisible(s: string)
    ensures Visible(Trim(s)) == Visible(s)
  {
    var a := LeadingWhitespace(s);
    var r := Trim(s);
    var b := a + |r|;
    assert s == s[..a] + r + s[b..];
    assert AllWhitespace(s[..a]) by {
      assert forall i :: 0 <= i < a ==> s[..a][i] == s[i];
    }
    assert AllWhitespace(s[b..]) by {
      assert forall i :: 0 <= i < |s| - b ==> s[b..][i] == s[b + i];
    }
    VisibleOfBlank(s[..a]);
    VisibleOfBlank(s[b..]);
    VisibleAppend(s[..a] + r, s[b..]);
    VisibleAppend(s[..a], r);
  }

  /** The token, whitespace and trim steps keep exactly the visible characters. */
  lemma StripStepsVisible(text: string)
    ensures Visible(Trim(Replace(Replace(text, MarkdownToken, ' '), Space, ' '))) == Visible(text)
  {
    var untokened := Replace(text, MarkdownToken, ' ');
    ReplaceRunsVisible(text, MarkdownToken, false);
    ReplaceRunsVisible(untokened, Space, false);
    TrimVisible(Replace(untokened, Space, ' '));
  }

  /**
   * `stripMarkdown`. `codeAndLinks` stands for its first four replacements (inline
   * code, code blocks, images, links); the token, whitespace and trim steps follow.
   * The result is plain and trimmed, and keeps every character of `codeAndLinks(md)`
   * that is neither a token nor whitespace, in order.
   */
  function StripMarkdown(md: string, codeAndLinks: string -> string): (r: string)
    ensures md == "" ==> r == ""
    ensures Plain(r)
    ensures r == [] || (!IsWhitespace(r[0]) && !IsWhitespace(r[|r| - 1]))
    ensures md != "" ==> Visible(r) == Visible(codeAndLinks(md))
  {
    if md == "" then ""
    else
      var text := codeAndLinks(md);
      PlainAfterReplacements(text);
      StripStepsVisible(text);
      Trim(Replace(Replace(text, MarkdownToken, ' '), Space, ' '))
  }

  /** Whitespace that occurs only as single spaces is left as it is. */
  lemma {:induction false} ReplaceSpacesOfPlain(s: string, inRun: bool)
    requires Plain(s)
    requires inRun && s != [] ==> !IsWhitespace(s[0])
    ensures ReplaceRuns(s, Space, ' ', inRun) == s
    decreases |s|
  {
    if s != [] {
      var rest := s[1..];
      assert forall i :: 0 <= i < |rest| ==> rest[i] == s[i + 1];
      assert Plain(rest);
      ReplaceSpacesOfPlain(rest, IsWhitespace(s[0]));
    }
  }

  /** Text that is already plain and trimmed comes back unchanged. */
  lemma StripMarkdownOfPlainText(md: string, codeAndLinks: string -> string)
    requires md != "" && Plain(codeAndLinks(md))
    requires var t := codeAndLinks(md); t == [] || (!IsWhitespace(t[0]) && !IsWhitespace(t[|t| - 1]))
    ensures StripMarkdown(md, codeAndLinks) == codeAndLinks(md)
  {
    var t := codeAndLinks(md);
    ReplaceOutsideClass(t, MarkdownToken, ' ');
    ReplaceSpacesOfPlain(t, false);
    TrimTrimmed(t);
  }

  /** `excerpt`: the stripped text, or a cut of it ending in an ellipsis when longer than `maxLen`. */
  function Excerpt(text: string, maxLen: int, codeAndLinks: string -> string): (r: string)
    ensures var s := StripMarkdown(text, codeAndLinks);
      (|s| <= maxLen ==> r == s) &&
      (|s| > maxLen ==> r == ExcerptCut(s, maxLen - 1) + "…" && StartsWith(s, r[..|r| - 1]))
    ensures maxLen >= 1 ==> |r| <= maxLen
  {
    var s := StripMarkdown(text, codeAndLinks);
    if |s| <= maxLen then s
    else
      var cut := ExcerptCut(s, maxLen - 1);
      assert (cut + "…")[..|cut|] == cut;
      cut + "…"
  }

  /**
   * `s.slice(0, n).trimEnd()`: for `n` within the text, the first `n` characters
   * without their trailing whitespace.
   */
  function ExcerptCut(s: string, n: int): (cut: string)
    ensures |cut| <= |s| && cut == s[..|cut|]
    ensures 0 <= n <= |s| ==> |cut| <= n && (forall i :: |cut| <= i < n ==> IsWhitespace(s[i]))
    ensures cut == [] || !IsWhitespace(cut[|cut| - 1])
  {
    var head := Slice(s, 0, n);
    assert 0 <= n <= |s| ==> head == s[..n];
    assert forall i :: 0 <= i < |head| ==> head[i] == s[SliceIndex(0, |s|) + i];
    TrimEnd(head)
  }

  /** The excerpt length the dashboard uses. */
  const DefaultExcerptLength := 140

  // ---------------------------------------------------------------------------
  // Reading task rows

  /** `v || fallback` for a string property. */
  function TextOr(v: Value, fallback: string): (s: string)
    ensures v.Str? && v.s != "" ==> s == v.s
    ensures !(v.Str? && v.s != "") ==> s == fallback
  {
    if v.Str? && v.s != "" then v.s else fallback
  }

  /** `task.status || "active"`. */
  function StatusOf(task: Record): string
  {
    TextOr(Get(task, "status"), "active")
  }

  // ---------------------------------------------------------------------------
  // downloadMarkdown

  function Join(lines: seq<string>, sep: string): string
  {
    if lines == [] then ""
    else if |lines| == 1 then lines[0]
    else lines[0] + sep + Join(lines[1..], sep)
  }

  function NonEmpty(lines: seq<string>): (r: seq<string>)
    ensures forall i :: 0 <= i < |r| ==> r[i] != ""
    ensures forall l :: l in lines && l != "" ==> l in r
  {
    if lines == [] then []
    else if lines[0] == "" then NonEmpty(lines[1..])
    else [lines[0]] + NonEmpty(lines[1..])
  }

  /** A date line when the task has the timestamp. */
  function DateLine(caption: string, v: Value, formatDate: string -> string): seq<string>
  {
    if v.Str? && v.s != "" then [caption + formatDate(v.s)] else []
  }

  /** The header lines up to the dates: title, blank, status, then the date lines present. */
  function HeaderFront(task: Record, formatDate: string -> string): (lines: seq<string>)
    ensures |lines| >= 3 && lines[0] != "" && lines[1] == "" && lines[2] != ""
  {
    ["# " + TextOr(Get(task, "title"), "Untitled task"), "", "Status: " + StatusOf(task)] +
    DateLine("Updated: ", Get(task, "updated_at"), formatDate) +
    DateLine("Completed: ", Get(task, "completed_at"), formatDate) +
    DateLine("Archived: ", Get(task, "archived_at"), formatDate)
  }

  /** The header lines before `filter(Boolean)`: title, blank, status, dates, blank, rule, blank. */
  function HeaderLines(task: Record, formatDate: string -> string): seq<string>
  {
    HeaderFront(task, formatDate) + ["", "---", ""]
  }

  /**
   * What `downloadMarkdown` writes: the header with its blank lines filtered out, then
   * the description, which therefore follows the rule with no newline between them.
   */
  function ExportContentAsWritten(task: Record, formatDate: string -> string): (content: string)
    ensures exists head :: content == head + "\n---" + TextOr(Get(task, "description_markdown"), "")
  {
    var head := Join(NonEmpty(HeaderFront(task, formatDate)), "\n");
    JoinFilteredHeader(HeaderFront(task, formatDate));
    assert Join(NonEmpty(HeaderLines(task, formatDate)), "\n") == head + "\n---";
    Join(NonEmpty(HeaderLines(task, formatDate)), "\n") + TextOr(Get(task, "description_markdown"), "")
  }

  /** Joining one more line adds a separator and the line. */
  lemma {:induction false} JoinSnoc(lines: seq<string>, line: string, sep: string)
    requires lines != []
    ensures Join(lines + [line], sep) == Join(lines, sep) + sep + line
    decreases |lines|
  {
    if |lines| == 1 {
      assert lines + [line] == [lines[0], line];
      assert Join([line], sep) == line;
    } else {
      assert (lines + [line])[1..] == lines[1..] + [line];
      JoinSnoc(lines[1..], line, sep);
    }
  }

  /** Filtering distributes over concatenation. */
  lemma {:induction false} NonEmptyAppend(a: seq<string>, b: seq<string>)
    ensures NonEmpty(a + b) == NonEmpty(a) + NonEmpty(b)
  {
    if a == [] {
      assert a + b == b;
    } else {
      assert (a + b)[1..] == a[1..] + b;
      NonEmptyAppend(a[1..], b);
    }
  }

  /** The joined header keeps the title line, a blank line and the status line at its start. */
  lemma JoinStarting(lines: seq<string>, sep: string)
    requires |lines| >= 3
    ensures StartsWith(Join(lines, sep), lines[0] + sep + lines[1] + sep + lines[2])
  {
    var start := lines[0] + sep + lines[1] + sep + lines[2];
    if |lines| == 3 {
      assert Join(lines[2..], sep) == lines[2];
      assert Join(lines, sep) == start;
    } else {
      var tail := Join(lines[3..], sep);
      assert Join(lines[2..], sep) == lines[2] + sep + tail;
      assert Join(lines[1..], sep) == lines[1] + sep + (lines[2] + sep + tail);
      assert Join(lines, sep) == start + (sep + tail);
    }
  }

  /** With its blank lines kept, the header ends in a blank line, the rule and a newline. */
  lemma JoinHeader(front: seq<string>)
    requires front != []
    ensures Join(front + ["", "---", ""], "\n") == Join(front, "\n") + "\n\n---\n"
  {
    JoinSnoc(front, "", "\n");
    JoinSnoc(front + [""], "---", "\n");
    JoinSnoc(front + ["", "---"], "", "\n");
    assert front + ["", "---"] + [""] == front + ["", "---", ""];
    assert front + [""] + ["---"] == front + ["", "---"];
  }

  /** With its blank lines filtered out, the header ends in a newline and the rule, with no newline after it. */
  lemma JoinFilteredHeader(front: seq<string>)
    requires front != [] && front[0] != ""
    ensures Join(NonEmpty(front + ["", "---", ""]), "\n") == Join(NonEmpty(front), "\n") + "\n---"
  {
    var f := NonEmpty(front);
    FilteredHeaderLines(front);
    JoinSnoc(f, "---", "\n");
    AppendRule(Join(f, "\n"));
  }

  lemma AppendRule(x: string)
    ensures x + "\n" + "---" == x + "\n---"
  {
    assert "\n" + "---" == "\n---";
  }

  /** Filtering the header drops its three closing lines down to the rule alone. */
  lemma FilteredHeaderLines(front: seq<string>)
    requires front != [] && front[0] != ""
    ensures NonEmpty(front) != [] && NonEmpty(front + ["", "---", ""]) == NonEmpty(front) + ["---"]
  {
    NonEmptyAppend(front, ["", "---", ""]);
    NonEmptyRule();
    NonEmptyKeepsHead(front);
  }

  lemma NonEmptyKeepsHead(lines: seq<string>)
    requires lines != [] && lines[0] != ""
    ensures NonEmpty(lines) != []
  {
  }

  lemma NonEmptyRule()
    ensures NonEmpty(["", "---", ""]) == ["---"]
  {
    assert NonEmpty([""]) == [];
    assert ["---", ""][1..] == [""];
    assert NonEmpty(["---", ""]) == ["---"];
    assert ["", "---", ""][1..] == ["---", ""];
  }

  /** The export with the blank lines the header lists kept, so the description starts after the rule. */
  function ExportContent(task: Record, formatDate: string -> string): (content: string)
    ensures exists head :: content == head + "\n\n---\n" + TextOr(Get(task, "description_markdown"), "")
    ensures StartsWith(content, "# " + TextOr(Get(task, "title"), "Untitled task") + "\n\nStatus: " + StatusOf(task))
  {
    var front := HeaderFront(task, formatDate);
    var body := TextOr(Get(task, "description_markdown"), "");
    var head := Join(front, "\n");
    var joined := Join(front + ["", "---", ""], "\n");
    JoinHeader(front);
    JoinStarting(front, "\n");
    HeaderStart(task, formatDate);
    JoinStarting(front + ["", "---", ""], "\n");
    StartsWithAppend(joined, body, front[0] + "\n" + front[1] + "\n" + front[2]);
    joined + body
  }

  /** The first three header lines joined are the title line, a blank line and the status line. */
  lemma HeaderStart(task: Record, formatDate: string -> string)
    ensures var front := HeaderFront(task, formatDate);
      front[0] + "\n" + front[1] + "\n" + front[2] ==
      "# " + TextOr(Get(task, "title"), "Untitled task") + "\n\nStatus: " + StatusOf(task)
  {
    var front := HeaderFront(task, formatDate);
    assert front[0] == "# " + TextOr(Get(task, "title"), "Untitled task");
    assert front[1] == "" && front[2] == "Status: " + StatusOf(task);
  }

  /**
   * As written, the rule runs straight into the description: the export is the
   * non-blank header lines joined by newlines, then `\n---`, then the description
   * with no separator, so the rule under the last header line turns it into a
   * heading and a description starting with text is glued to `---`.
   */
  lemma ExportGluesBodyToRule(task: Record, formatDate: string -> string)
    ensures ExportContentAsWritten(task, formatDate) ==
      Join(NonEmpty(HeaderFront(task, formatDate)), "\n") + "\n---" + TextOr(Get(task, "description_markdown"), "")
  {
    JoinFilteredHeader(HeaderFront(task, formatDate));
  }

  /** A task with the description "Hi" and no title, status or dates exports as `# Untitled task`, `Status: active`, `---Hi`. */
  lemma ExportGlueExample(formatDate: string -> string)
    ensures ExportContentAsWritten(map["description_markdown" := Str("Hi")], formatDate)
      == "# Untitled task\nStatus: active\n---Hi"
  {
    var task := map["description_markdown" := Str("Hi")];
    ExportGluesBodyToRule(task, formatDate);
    UntitledFront(formatDate);
    UntitledFiltered();
    assert TextOr(Get(task, "description_markdown"), "") == "Hi";
  }

  lemma UntitledFront(formatDate: string -> string)
    ensures HeaderFront(map["description_markdown" := Str("Hi")], formatDate) == ["# Untitled task", "", "Status: active"]
  {
    var task := map["description_markdown" := Str("Hi")];
    assert Get(task, "title") == Undefined && Get(task, "status") == Undefined;
    assert Get(task, "updated_at") == Undefined && Get(task, "completed_at") == Undefined;
    assert Get(task, "archived_at") == Undefined;
    assert "# " + TextOr(Get(task, "title"), "Untitled task") == "# Untitled task";
    assert "Status: " + StatusOf(task) == "Status: active";
  }

  lemma UntitledFiltered()
    ensures Join(NonEmpty(["# Untitled task", "", "Status: active"]), "\n") == "# Untitled task\nStatus: active"
  {
    var front := ["# Untitled task", "", "Status: active"];
    assert NonEmpty(front[2..]) == ["Status: active"];
    assert NonEmpty(front[1..]) == ["Status: active"];
    assert NonEmpty(front) == ["# Untitled task", "Status: active"];
    assert Join(NonEmpty(front), "\n") == "# Untitled task" + "\n" + "Status: active";
  }

  // ---------------------------------------------------------------------------
  // counts and visibleTasks

  function Keep(tasks: seq<Record>, p: Record -> bool): (r: seq<Record>)
    ensures |r| <= |tasks|
    ensures forall t :: t in r <==> t in tasks && p(t)
  {
    if tasks == [] then []
    else if p(tasks[0]) then [tasks[0]] + Keep(tasks[1..], p)
    else Keep(tasks[1..], p)
  }

  /** Filtering keeps order: the tasks kept from two lists laid end to end are those kept from each, in order. */
  lemma {:induction false} KeepAppend(a: seq<Record>, b: seq<Record>, p: Record -> bool)
    ensures Keep(a + b, p) == Keep(a, p) + Keep(b, p)
  {
    if a == [] {
      assert a + b == b;
    } else {
      assert (a + b)[0] == a[0] && (a + b)[1..] == a[1..] + b;
      KeepAppend(a[1..], b, p);
    }
  }

  datatype Counts = Counts(active: nat, completed: nat, archived: nat)

  /** `counts`: active counts an empty status too; the others count exact matches. */
  function CountTasks(tasks: seq<Record>): (c: Counts)
    ensures c.active == |Keep(tasks, t => StatusOf(t) == "active")|
    ensures c.completed == |Keep(tasks, t => Get(t, "status") == Str("completed"))|
    ensures c.archived == |Keep(tasks, t => Get(t, "status") == Str("archived"))|
  {
    Counts(
      |Keep(tasks, t => StatusOf(t) == "active")|,
      |Keep(tasks, t => Get(t, "status") == Str("completed"))|,
      |Keep(tasks, t => Get(t, "status") == Str("archived"))|)
  }

  /** The three counts never exceed the number of tasks: a task is in at most one of them. */
  lemma {:induction false} CountsWithinTotal(tasks: seq<Record>)
    ensures var c := CountTasks(tasks); c.active + c.completed + c.archived <= |tasks|
  {
    if tasks != [] {
      CountsWithinTotal(tasks[1..]);
    }
  }

  /** `visibleTasks`: the tasks in the chosen status, narrowed by the search text when it is not blank. */
  function VisibleTasks(tasks: seq<Record>, statusFilter: string, query: string): (r: seq<Record>)
    ensures forall t :: t in r ==> t in tasks && StatusOf(t) == statusFilter
    ensures Trim(query) == "" ==> forall t :: t in r <==> t in tasks && StatusOf(t) == statusFilter
    ensures Trim(query) != "" ==> forall t :: t in r <==> t in tasks && StatusOf(t) == statusFilter && Searched(t, query)
  {
    var list := Keep(tasks, t => StatusOf(t) == statusFilter);
    if Trim(query) == "" then list
    else Keep(list, t => Searched(t, query))
  }

  /** The search test: the lowered query, untrimmed, occurs in the lowered title or description. */
  predicate Searched(t: Record, query: string)
  {
    Includes(ToLower(TextOr(Get(t, "title"), "")), ToLower(query)) ||
    Includes(ToLower(TextOr(Get(t, "description_markdown"), "")), ToLower(query))
  }

  // ---------------------------------------------------------------------------
  // Lifecycle patches

  /** `user?.id`. */
  function UserIdValue(userId: Option<string>): Value
  {
    if userId.Some? then Str(userId.value) else Undefined
  }

  /** The row `onCreateTaskAsync` inserts: a valid task row and insert, active, titled "New task". */
  function NewTask(id: string, now: string, accountId: string, userId: string): (r: Record)
    ensures Schema.Valid(Schema.TaskInsert, r) && Schema.Valid(Schema.TaskRow, r)
    ensures Get(r, "status") == Str("active") && Get(r, "created_at") == Get(r, "updated_at") == Str(now)
    ensures Get(r, "account_id") == Str(accountId) && Get(r, "id") == Str(id) && Get(r, "title") == Str("New task")
    ensures Get(r, "completed_at") == Undefined && Get(r, "archived_at") == Undefined
  {
    map[
      "id" := Str(id),
      "created_at" := Str(now),
      "updated_at" := Str(now),
      "account_id" := Str(accountId),
      "created_by_user_id" := Str(userId),
      "updated_by_user_id" := Str(userId),
      "title" := Str("New task"),
      "status" := Str("active"),
      "description_markdown" := Str("")
    ]
  }

  function CompletePatch(now: string, userId: Option<string>): Record
  {
    map["status" := Str("completed"), "completed_at" := Str(now), "updated_at" := Str(now),
        "updated_by_user_id" := UserIdValue(userId)]
  }

  function ArchivePatch(now: string, userId: Option<string>): Record
  {
    map["status" := Str("archived"), "archived_at" := Str(now), "updated_at" := Str(now),
        "updated_by_user_id" := UserIdValue(userId)]
  }

  /** The reopen patch as written: `completed_at: undefined`. */
  function ReopenPatchAsWritten(now: string, userId: Option<string>): Record
  {
    map["status" := Str("active"), "completed_at" := Undefined, "updated_at" := Str(now),
        "updated_by_user_id" := UserIdValue(userId)]
  }

  /** The unarchive patch as written: `archived_at: undefined`. */
  function UnarchivePatchAsWritten(now: string, userId: Option<string>): Record
  {
    map["status" := Str("active"), "archived_at" := Undefined, "updated_at" := Str(now),
        "updated_by_user_id" := UserIdValue(userId)]
  }

  /** Reopen with `completed_at: null`, which survives the JSON payload and clears the column. */
  function ReopenPatch(now: string, userId: Option<string>): Record
  {
    map["status" := Str("active"), "completed_at" := Null, "updated_at" := Str(now),
        "updated_by_user_id" := UserIdValue(userId)]
  }

  /** Unarchive with `archived_at: null`. */
  function UnarchivePatch(now: string, userId: Option<string>): Record
  {
    map["status" := Str("active"), "archived_at" := Null, "updated_at" := Str(now),
        "updated_by_user_id" := UserIdValue(userId)]
  }

  /** The row the database holds after `updateAsync(task, patch)`. */
  function Updated(row: Record, patch: Record): Record
  {
    Store.Merge(row, Serialise(patch))
  }

  /** A property the patch sets survives; one it leaves out or sets to `undefined` keeps the row's value. */
  lemma UpdatedGet(row: Record, patch: Record, k: string)
    ensures Get(Updated(row, patch), k) == if k in patch && patch[k] != Undefined then patch[k] else Get(row, k)
  {
  }

  /** Completing sets the status and stamps `completed_at` and `updated_at` with the same time. */
  lemma CompleteUpdates(row: Record, now: string, userId: Option<string>)
    ensures var r := Updated(row, CompletePatch(now, userId));
      Get(r, "status") == Str("completed") && Get(r, "completed_at") == Str(now) && Get(r, "updated_at") == Str(now) &&
      Get(r, "archived_at") == Get(row, "archived_at") &&
      (userId.None? ==> Get(r, "updated_by_user_id") == Get(row, "updated_by_user_id"))
  {
    var p := CompletePatch(now, userId);
    UpdatedGet(row, p, "status");
    UpdatedGet(row, p, "completed_at");
    UpdatedGet(row, p, "updated_at");
    UpdatedGet(row, p, "archived_at");
    UpdatedGet(row, p, "updated_by_user_id");
  }

  /** Archiving sets the status and `archived_at` and leaves `completed_at` as it was. */
  lemma ArchiveKeepsCompletedAt(row: Record, now: string, userId: Option<string>)
    ensures var r := Updated(row, ArchivePatch(now, userId));
      Get(r, "status") == Str("archived") && Get(r, "archived_at") == Str(now) &&
      Get(r, "completed_at") == Get(row, "completed_at")
  {
    var p := ArchivePatch(now, userId);
    UpdatedGet(row, p, "status");
    UpdatedGet(row, p, "archived_at");
    UpdatedGet(row, p, "completed_at");
  }

  /**
   * As written, reopening does not clear the completion time: the `undefined` property
   * is dropped from the JSON payload, so a reopened task keeps its `completed_at`.
   * Unarchiving keeps `archived_at` the same way.
   */
  lemma ReopenKeepsCompletedAt(row: Record, now: string, userId: Option<string>)
    ensures Get(Updated(row, ReopenPatchAsWritten(now, userId)), "completed_at") == Get(row, "completed_at")
    ensures Get(Updated(row, UnarchivePatchAsWritten(now, userId)), "archived_at") == Get(row, "archived_at")
  {
    UpdatedGet(row, ReopenPatchAsWritten(now, userId), "completed_at");
    UpdatedGet(row, UnarchivePatchAsWritten(now, userId), "archived_at");
  }

  /** With `null`, reopening sets the status back to active and clears `completed_at`. */
  lemma ReopenClears(row: Record, now: string, userId: Option<string>)
    ensures var r := Updated(row, ReopenPatch(now, userId));
      Get(r, "status") == Str("active") && Get(r, "completed_at") == Null && Get(r, "updated_at") == Str(now) &&
      Get(r, "archived_at") == Get(row, "archived_at")
  {
    var p := ReopenPatch(now, userId);
    UpdatedGet(row, p, "status");
    UpdatedGet(row, p, "completed_at");
    UpdatedGet(row, p, "updated_at");
    UpdatedGet(row, p, "archived_at");
  }

  /** With `null`, unarchiving sets the status back to active and clears `archived_at`. */
  lemma UnarchiveClears(row: Record, now: string, userId: Option<string>)
    ensures var r := Updated(row, UnarchivePatch(now, userId));
      Get(r, "status") == Str("active") && Get(r, "archived_at") == Null && Get(r, "updated_at") == Str(now) &&
      Get(r, "completed_at") == Get(row, "completed_at")
  {
    var p := UnarchivePatch(now, userId);
    UpdatedGet(row, p, "status");
    UpdatedGet(row, p, "archived_at");
    UpdatedGet(row, p, "updated_at");
    UpdatedGet(row, p, "completed_at");
  }

  // ---------------------------------------------------------------------------
  // Actions offered per task

  predicate IsCompleted(t: Record) { Get(t, "status") == Str("completed") }
  predicate IsArchived(t: Record) { Get(t, "status") == Str("archived") }

  predicate CanComplete(t: Record) { !IsCompleted(t) && !IsArchived(t) }
  predicate CanArchive(t: Record) { !IsArchived(t) }
  predicate CanUnarchive(t: Record) { IsArchived(t) }

  function BadgeLabel(t: Record): (caption: string)
    ensures IsCompleted(t) <==> caption == "Completed"
    ensures IsArchived(t) <==> caption == "Archived"
  {
    if IsCompleted(t) then "Completed" else if IsArchived(t) then "Archived" else "Active"
  }

  /** Every task offers exactly one of Archive and Unarchive, and Complete only alongside Archive. */
  lemma ActionsExclusive(t: Record)
    ensures CanArchive(t) != CanUnarchive(t)
    ensures CanComplete(t) ==> CanArchive(t)
  {
  }

  /**
   * Once a patch lands the buttons move on: a completed task offers Archive but no
   * Complete, an archived one only Unarchive, and an unarchived one Complete again.
   */
  lemma ActionsFollowStatus(t: Record, now: string, userId: Option<string>)
    ensures var c := Updated(t, CompletePatch(now, userId)); !CanComplete(c) && CanArchive(c)
    ensures var a := Updated(t, ArchivePatch(now, userId)); !CanComplete(a) && !CanArchive(a) && CanUnarchive(a)
    ensures CanComplete(Updated(t, UnarchivePatch(now, userId)))
  {
    UpdatedGet(t, CompletePatch(now, userId), "status");
    UpdatedGet(t, ArchivePatch(now, userId), "status");
    UpdatedGet(t, UnarchivePatch(now, userId), "status");
  }
}
