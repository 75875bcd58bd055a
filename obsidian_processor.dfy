/** The note side of the pipeline: the substitution chain that `read_file_content`
    applies to a note's text, and the `should_process_file` filter. Every `re.sub`
    is one `Pattern`, matched at the start of the remaining text by `MatchAt` and
    applied left to right by `SubAll`. */
module NoteFilter {
  import opened Text
  import Chunker

  // ================================================================ matching

  /** `p` occurs in `s` at index `k`. */
  predicate At(s: string, k: int, p: string) {
    0 <= k && k + |p| <= |s| && s[k..k + |p|] == p
  }

  /** The first occurrence of `p` in `s` at or after `i`: what a lazy `.*?`
      followed by `p` settles on. */
  function Find(s: string, p: string, i: nat): (r: Option<nat>)
    requires p != [] && i <= |s|
    ensures r.Some? ==> i <= r.value && At(s, r.value, p)
    ensures r.Some? ==> forall k :: i <= k < r.value ==> !At(s, k, p)
    ensures r.None? ==> forall k :: i <= k ==> !At(s, k, p)
    decreases |s| - i
  {
    if i + |p| > |s| then None
    else if s[i..i + |p|] == p then Some(i)
    else Find(s, p, i + 1)
  }

  /** An occurrence of `p` starts with the first character of `p`. */
  lemma AtFirst(s: string, k: int, p: string)
    requires p != [] && At(s, k, p)
    ensures s[k] == p[0]
  {
    assert s[k..k + |p|][0] == s[k];
  }

  /** `Find` settles on the first occurrence. */
  lemma {:induction false} FindFirst(s: string, p: string, i: nat, n: nat)
    requires p != [] && i <= n && At(s, n, p)
    requires forall k :: i <= k < n ==> !At(s, k, p)
    ensures Find(s, p, i) == Some(n)
    decreases n - i
  {
    if i < n {
      FindFirst(s, p, i + 1, n);
    }
  }

  /** `IndexOf` settles on the first occurrence. */
  lemma {:induction false} IndexOfFirst(s: string, c: char, n: nat)
    requires n < |s| && s[n] == c && forall k :: 0 <= k < n ==> s[k] != c
    ensures IndexOf(s, c) == n
    decreases n
  {
    if n > 0 {
      forall k | 0 <= k < n - 1 ensures s[1..][k] != c {
        assert s[1..][k] == s[k + 1];
      }
      IndexOfFirst(s[1..], c, n - 1);
    }
  }

  predicate IsLetter(c: char) {
    ('a' <= c <= 'z') || ('A' <= c <= 'Z')
  }

  predicate IsBlank(c: char) {
    c == ' ' || c == '\t'
  }

  /** The characters the meaningful-text filter keeps: word characters,
      whitespace and `.,:;?!()`. */
  predicate IsMeaningful(c: char) {
    IsWordChar(c) || IsSpace(c) || c in ".,:;?!()"
  }

  /** The placeholders the cleaning chain writes in place of LaTeX and code. */
  predicate StartsWithMarker(s: string) {
    || StartsWith(s, "LATEX_EXPRESSION: ")
    || StartsWith(s, "LATEX_BLOCK: ")
    || StartsWith(s, "CODE_BLOCK: ")
    || StartsWith(s, "CODE: ")
  }

  /** Where a `.` run stops: at the first newline, or at the end. */
  function LineEnd(s: string): (e: nat)
    ensures e <= |s| && '\n' !in s[..e]
    ensures e == |s| || s[e] == '\n'
  {
    if '\n' in s then IndexOf(s, '\n') else |s|
  }

  /** The substitutions of `read_file_content` and `should_process_file`. */
  datatype Pattern =
    | WikiLink     // `[[target]]` becomes `target`
    | Tag          // `#` and the word after it are dropped
    | Comment      // an HTML comment is dropped
    | InlineLatex  // `$x$` becomes `LATEX_EXPRESSION: x`
    | BlockLatex   // `$$x$$` becomes `LATEX_BLOCK: x`
    | CodeBlock    // a fenced block becomes `CODE_BLOCK: ` and its body
    | InlineCode   // `` `x` `` becomes `CODE: x`
    | BlankLines   // a newline, whitespace, a newline become one blank line
    | Blanks       // a run of spaces and tabs becomes one space
    | MarkerLine   // a placeholder and the rest of its line are dropped
    | Special      // a character that is not meaningful is dropped
    | Spaces       // a run of whitespace becomes one space

  /** A match of `[[`, one or more characters other than `]`, and `]]`. */
  function MatchWikiLink(s: string): (r: Option<(nat, string)>)
    ensures r.Some? ==> 0 < r.value.0 <= |s|
  {
    if StartsWith(s, "[[") && ']' in s[2..] then
      var k := 2 + IndexOf(s[2..], ']');
      if k > 2 && k + 1 < |s| && s[k + 1] == ']' then Some((k + 2, s[2..k])) else None
    else None
  }

  /** A match of `#` and the longest run of word characters after it (at least one). */
  function MatchTag(s: string): (r: Option<(nat, string)>)
    ensures r.Some? ==> 0 < r.value.0 <= |s|
  {
    if |s| >= 2 && s[0] == '#' && IsWordChar(s[1]) then
      Some((|s| - |DropLeading(s[1..], IsWordChar)|, ""))
    else None
  }

  /** A match of `<!--`, the shortest stretch of anything, and `-->`. */
  function MatchComment(s: string): (r: Option<(nat, string)>)
    ensures r.Some? ==> 0 < r.value.0 <= |s|
  {
    if StartsWith(s, "<!--") then
      match Find(s, "-->", 4)
      case Some(j) => Some((j + 3, ""))
      case None => None
    else None
  }

  /** A match of `d`, one or more characters other than `d`, and `d`, replaced by
      `name` and the enclosed text. */
  function MatchDelimited(s: string, d: char, name: string): (r: Option<(nat, string)>)
    ensures r.Some? ==> 0 < r.value.0 <= |s|
  {
    if s != [] && s[0] == d && d in s[1..] then
      var k := 1 + IndexOf(s[1..], d);
      if k > 1 then Some((k + 1, name + s[1..k])) else None
    else None
  }

  /** A match of `$$`, the shortest stretch of anything, and `$$`. */
  function MatchBlockLatex(s: string): (r: Option<(nat, string)>)
    ensures r.Some? ==> 0 < r.value.0 <= |s|
  {
    if StartsWith(s, "$$") then
      match Find(s, "$$", 2)
      case Some(j) => Some((j + 2, "LATEX_BLOCK: " + s[2..j]))
      case None => None
    else None
  }

  /** A match of three backquotes, a run of letters, a newline, the shortest
      stretch of anything, and three backquotes. */
  function MatchCodeBlock(s: string): (r: Option<(nat, string)>)
    ensures r.Some? ==> 0 < r.value.0 <= |s|
  {
    if StartsWith(s, "```") then
      var m := |s| - |DropLeading(s[3..], IsLetter)|;
      if m < |s| && s[m] == '\n' then
        match Find(s, "```", m + 1)
        case Some(j) => Some((j + 3, "CODE_BLOCK: " + s[m + 1..j]))
        case None => None
      else None
    else None
  }

  /** A match of the longest run of characters in `inRun`, replaced by one space. */
  function MatchRun(s: string, inRun: char -> bool): (r: Option<(nat, string)>)
    ensures r.Some? ==> 0 < r.value.0 <= |s| && r.value.1 == " "
  {
    if s != [] && inRun(s[0]) then Some((|s| - |DropLeading(s, inRun)|, " ")) else None
  }

  /** A match of a placeholder and everything up to the end of its line. */
  function MatchMarkerLine(s: string): (r: Option<(nat, string)>)
    ensures r.Some? ==> 0 < r.value.0 <= |s|
  {
    if StartsWithMarker(s) then
      assert s[0] != '\n' by { assert s[..1][0] == s[0]; }
      Some((LineEnd(s), ""))
    else None
  }

  /** A character the meaningful-text filter drops. */
  function MatchSpecial(s: string): (r: Option<(nat, string)>)
    ensures r.Some? ==> 0 < r.value.0 <= |s|
  {
    if s != [] && !IsMeaningful(s[0]) then Some((1, "")) else None
  }

  /** A newline, whitespace and a newline, with the greedy run backing up to its
      last newline. */
  function MatchBlankLines(s: string): (r: Option<(nat, string)>)
    ensures r.Some? ==> 0 < r.value.0 <= |s|
  {
    if s == [] then None
    else
      match Chunker.BreakEnd(s, 0)
      case Some(e) => Some((e, "\n\n"))
      case None => None
  }

  function MatchInlineLatex(s: string): (r: Option<(nat, string)>)
    ensures r.Some? ==> 0 < r.value.0 <= |s|
  {
    MatchDelimited(s, '$', "LATEX_EXPRESSION: ")
  }

  function MatchInlineCode(s: string): (r: Option<(nat, string)>)
    ensures r.Some? ==> 0 < r.value.0 <= |s|
  {
    MatchDelimited(s, '`', "CODE: ")
  }

  function MatchBlanks(s: string): (r: Option<(nat, string)>)
    ensures r.Some? ==> 0 < r.value.0 <= |s|
  {
    MatchRun(s, IsBlank)
  }

  function MatchSpaces(s: string): (r: Option<(nat, string)>)
    ensures r.Some? ==> 0 < r.value.0 <= |s|
  {
    MatchRun(s, IsSpace)
  }

  /** The matcher of each pattern. */
  function Matcher(pat: Pattern): string -> Option<(nat, string)> {
    match pat
    case WikiLink => MatchWikiLink
    case Tag => MatchTag
    case Comment => MatchComment
    case InlineLatex => MatchInlineLatex
    case BlockLatex => MatchBlockLatex
    case CodeBlock => MatchCodeBlock
    case InlineCode => MatchInlineCode
    case BlankLines => MatchBlankLines
    case Blanks => MatchBlanks
    case MarkerLine => MatchMarkerLine
    case Special => MatchSpecial
    case Spaces => MatchSpaces
  }

  /** Every matcher consumes at least one character and no more than there are. */
  lemma MatcherBounds(pat: Pattern, s: string)
    ensures Matcher(pat)(s).Some? ==> 0 < Matcher(pat)(s).value.0 <= |s|
  {
    match pat
    case WikiLink => assert Matcher(pat)(s) == MatchWikiLink(s);
    case Tag => assert Matcher(pat)(s) == MatchTag(s);
    case Comment => assert Matcher(pat)(s) == MatchComment(s);
    case InlineLatex => assert Matcher(pat)(s) == MatchInlineLatex(s);
    case BlockLatex => assert Matcher(pat)(s) == MatchBlockLatex(s);
    case CodeBlock => assert Matcher(pat)(s) == MatchCodeBlock(s);
    case InlineCode => assert Matcher(pat)(s) == MatchInlineCode(s);
    case BlankLines => assert Matcher(pat)(s) == MatchBlankLines(s);
    case Blanks => assert Matcher(pat)(s) == MatchBlanks(s);
    case MarkerLine => assert Matcher(pat)(s) == MatchMarkerLine(s);
    case Special => assert Matcher(pat)(s) == MatchSpecial(s);
    case Spaces => assert Matcher(pat)(s) == MatchSpaces(s);
  }

  /** The match of `pat` that starts at the beginning of `s`, if there is one:
      its length and its replacement. */
  function MatchAt(pat: Pattern, s: string): (r: Option<(nat, string)>)
    ensures r.Some? ==> 0 < r.value.0 <= |s|
  {
    MatcherBounds(pat, s);
    Matcher(pat)(s)
  }

  /** `re.sub(pat, replacement, s)`: the scan tries a match at each position; a
      match is replaced and the scan goes on after it, otherwise the character is
      kept. */
  function SubAll(pat: Pattern, s: string): string
    decreases |s|
  {
    if s == [] then []
    else
      match MatchAt(pat, s)
      case Some(m) => m.1 + SubAll(pat, s[m.0..])
      case None => [s[0]] + SubAll(pat, s[1..])
  }

  /** The substitutions in the order given. */
  function ApplyAll(pats: seq<Pattern>, s: string): string
    decreases |pats|
  {
    if pats == [] then s else ApplyAll(pats[1..], SubAll(pats[0], s))
  }

  // ================================================================ read_file_content

  /** The leading YAML block: `---`, a newline, the shortest stretch of anything,
      a newline, `---` and a newline, at the very start of the text only. */
  function StripFrontMatter(s: string): (r: string)
    ensures r == s || (StartsWith(s, "---\n") && |r| <= |s| && r == s[|s| - |r|..])
  {
    if StartsWith(s, "---\n") then
      match Find(s, "\n---\n", 4)
      case Some(j) => s[j + 5..]
      case None => s
    else s
  }

  /** `j` is where the lazy `.*?` of the front-matter pattern stops: the first
      `"\n---\n"` that starts at index 4 or later. */
  ghost predicate FrontMatterEnd(s: string, j: int) {
    && 4 <= j && At(s, j, "\n---\n")
    && forall k :: 4 <= k < j ==> !At(s, k, "\n---\n")
  }

  /** The front matter goes exactly when the text starts with `---\n` and has a
      closing fence; then everything up to and including the first closing fence
      goes, and nothing else. */
  lemma FrontMatterRemoved(s: string)
    ensures StripFrontMatter(s) == s <==> !StartsWith(s, "---\n") || forall k :: 4 <= k ==> !At(s, k, "\n---\n")
    ensures forall j :: StartsWith(s, "---\n") && FrontMatterEnd(s, j) ==> StripFrontMatter(s) == s[j + 5..]
  {
    if StartsWith(s, "---\n") {
      match Find(s, "\n---\n", 4)
      case Some(j) =>
        assert FrontMatterEnd(s, j);
        assert |StripFrontMatter(s)| < |s|;
      case None =>
    }
  }

  /** A note with a two-line front-matter block keeps only its body. */
  lemma FrontMatterExample()
    ensures StripFrontMatter("---\na: 1\n---\nbody") == "body"
  {
    var s := "---\na: 1\n---\nbody";
    ExampleFence(s);
    FrontMatterRemoved(s);
  }

  lemma ExampleFence(s: string)
    requires s == "---\na: 1\n---\nbody"
    ensures StartsWith(s, "---\n") && FrontMatterEnd(s, 8) && s[13..] == "body"
  {
    assert s[..4] == "---\n";
    assert s[8..13] == "\n---\n";
    forall k | 4 <= k < 8 ensures !At(s, k, "\n---\n") {
      assert s[k] != '\n';
      assert s[k..k + 5][0] == s[k];
    }
  }

  /** The `re.sub` calls of `read_file_content` after the front matter, in the
      order the source applies them. */
  const ReadSteps: seq<Pattern> :=
    [WikiLink, Tag, Comment, InlineLatex, BlockLatex, CodeBlock, InlineCode, BlankLines, Blanks]

  /** The same chain with the block-LaTeX substitution before the inline one. */
  const FixedReadSteps: seq<Pattern> :=
    [WikiLink, Tag, Comment, BlockLatex, InlineLatex, CodeBlock, InlineCode, BlankLines, Blanks]

  /** `read_file_content` on already-read text, as the source writes it. */
  function CleanNoteAsWritten(text: string): string {
    Strip(ApplyAll(ReadSteps, StripFrontMatter(text)))
  }

  /** `read_file_content` with block LaTeX recognised before inline LaTeX. */
  function CleanNote(text: string): string {
    Strip(ApplyAll(FixedReadSteps, StripFrontMatter(text)))
  }

  // ================================================================ should_process_file

  const MinLength := 100

  const IgnorePatterns: seq<string> := [".obsidian", "template", "Template", ".trash", "Trash"]

  /** The lower-cased path contains one of the lower-cased ignore patterns. */
  predicate IgnoredPath(path: string) {
    exists i :: 0 <= i < |IgnorePatterns| && Contains(Lower(path), Lower(IgnorePatterns[i]))
  }

  /** The text the last check measures: placeholder lines dropped, characters that
      are not meaningful dropped, whitespace runs collapsed, then stripped. */
  function MeaningfulText(content: string): string {
    Strip(ApplyAll([MarkerLine, Special, Spaces], content))
  }

  /** `should_process_file`: long enough, not a system or template path, and
      enough meaningful text. */
  function ShouldProcessFile(path: string, content: string): bool {
    if |Strip(content)| < MinLength then false
    else if IgnoredPath(path) then false
    else |MeaningfulText(content)| >= MinLength
  }

  // ================================================================ scanning lemmas

  lemma SubAllMatch(pat: Pattern, s: string, n: nat, rep: string)
    requires s != [] && MatchAt(pat, s) == Some((n, rep))
    ensures SubAll(pat, s) == rep + SubAll(pat, s[n..])
  {
  }

  lemma SubAllNoMatch(pat: Pattern, s: string)
    requires s != [] && MatchAt(pat, s).None?
    ensures SubAll(pat, s) == [s[0]] + SubAll(pat, s[1..])
  {
  }

  lemma SubAllSkip(pat: Pattern, s: string, u: string)
    requires s != [] && MatchAt(pat, s).None? && s[1..] == u
    ensures SubAll(pat, s) == [s[0]] + SubAll(pat, u)
  {
  }

  /** Where no match starts anywhere, a substitution changes nothing. */
  lemma SubAllUnchanged(pat: Pattern, s: string)
    requires forall k :: 0 <= k < |s| ==> MatchAt(pat, s[k..]).None?
    ensures SubAll(pat, s) == s
  {
    SubAllUnchangedFrom(pat, s, 0);
    assert s[0..] == s;
  }

  lemma {:induction false} SubAllUnchangedFrom(pat: Pattern, s: string, i: nat)
    requires i <= |s| && forall k :: i <= k < |s| ==> MatchAt(pat, s[k..]).None?
    ensures SubAll(pat, s[i..]) == s[i..]
    decreases |s| - i
  {
    if i < |s| {
      SubAllUnchangedFrom(pat, s, i + 1);
      SubAllSkip(pat, s[i..], s[i + 1..]);
      assert s[i..] == [s[i]] + s[i + 1..];
    }
  }

  lemma ApplyAllPair(p: Pattern, q: Pattern, s: string)
    ensures ApplyAll([p, q], s) == SubAll(q, SubAll(p, s))
  {
    assert [p, q][1..] == [q];
    assert [q][1..] == [];
    assert ApplyAll([p, q], s) == ApplyAll([q], SubAll(p, s));
    assert ApplyAll([q], SubAll(p, s)) == ApplyAll([], SubAll(q, SubAll(p, s)));
  }

  lemma ApplyAllTriple(p: Pattern, q: Pattern, r: Pattern, s: string)
    ensures ApplyAll([p, q, r], s) == SubAll(r, SubAll(q, SubAll(p, s)))
  {
    assert [p, q, r][1..] == [q, r];
    assert ApplyAll([p, q, r], s) == ApplyAll([q, r], SubAll(p, s));
    ApplyAllPair(q, r, SubAll(p, s));
  }

  /** The chain is its first steps followed by its last one. */
  lemma {:induction false} ApplyAllSnoc(pats: seq<Pattern>, p: Pattern, s: string)
    ensures ApplyAll(pats + [p], s) == SubAll(p, ApplyAll(pats, s))
    decreases |pats|
  {
    if pats == [] {
      assert [p][1..] == [];
    } else {
      assert (pats + [p])[1..] == pats[1..] + [p];
      ApplyAllSnoc(pats[1..], p, SubAll(pats[0], s));
    }
  }

  // ================================================================ wiki links

  /** `[[target]]` with no `]` in the target is replaced by the target. */
  lemma WikiLinkUnwrapped(target: string, rest: string)
    requires target != [] && ']' !in target
    ensures SubAll(WikiLink, "[[" + target + "]]" + rest) == target + SubAll(WikiLink, rest)
  {
    var s := "[[" + target + "]]" + rest;
    var n := |target|;
    assert StartsWith(s, "[[") by { assert s[..2] == "[["; }
    var t := s[2..];
    assert t == target + "]]" + rest;
    assert t[n] == ']';
    forall k | 0 <= k < n ensures t[k] != ']' {
      assert t[k] == target[k];
    }
    IndexOfFirst(t, ']', n);
    assert s[2 + n + 1] == ']';
    assert s[2..2 + n] == target;
    assert s[n + 4..] == rest;
    SubAllMatch(WikiLink, s, n + 4, target);
  }

  /** Text without `[` has no wiki link. */
  lemma NoLinkUnchanged(s: string)
    requires '[' !in s
    ensures SubAll(WikiLink, s) == s
  {
    forall k | 0 <= k < |s| ensures MatchAt(WikiLink, s[k..]).None? {
      assert s[k..][0] == s[k];
      DiffersAtStart(s[k..], "[[");
    }
    SubAllUnchanged(WikiLink, s);
  }

  // ================================================================ LaTeX order

  lemma InlineSkipsDoubleDollar(s: string)
    requires |s| >= 2 && s[0] == '$' && s[1] == '$'
    ensures MatchAt(InlineLatex, s).None?
  {
    assert s[1..][0] == '$';
  }

  /** The closing `$` of `$t$` is the first one after the opening `$`. */
  lemma InlineMatchesDollarPair(t: string, rest: string)
    requires t != [] && '$' !in t
    ensures MatchAt(InlineLatex, "$" + t + "$" + rest) == Some((|t| + 2, "LATEX_EXPRESSION: " + t))
  {
    var s := "$" + t + "$" + rest;
    var u := s[1..];
    assert u == t + "$" + rest;
    assert u[|t|] == '$';
    forall k | 0 <= k < |t| ensures u[k] != '$' {
      assert u[k] == t[k];
    }
    IndexOfFirst(u, '$', |t|);
    assert s[1..1 + |t|] == t;
  }

  lemma LoneDollarKept()
    ensures SubAll(InlineLatex, "$") == "$"
  {
    assert "$"[1..] == [];
  }

  /** The inline placeholder has `$` only at its ends, so it holds no `$$`. */
  lemma NoBlockIn(t: string)
    requires '$' !in t
    ensures SubAll(BlockLatex, "$LATEX_EXPRESSION: " + t + "$") == "$LATEX_EXPRESSION: " + t + "$"
  {
    var m := "LATEX_EXPRESSION: " + t;
    NoDollarInName();
    NoBlockInDollars(m);
    assert "$" + m + "$" == "$" + (m + "$");
    DollarBeforeExpression(t, "$" + m + "$", m + "$");
  }

  lemma NoDollarInName()
    ensures '$' !in "LATEX_EXPRESSION: "
  {
  }

  /** A text with `$` only at its ends, and something between them, has no `$$`. */
  lemma NoBlockInDollars(m: string)
    requires m != [] && '$' !in m
    ensures SubAll(BlockLatex, "$" + m + "$") == "$" + m + "$"
  {
    var s := "$" + m + "$";
    forall k | 0 <= k < |s| ensures MatchAt(BlockLatex, s[k..]).None? {
      if k + 1 < |s| {
        if k == 0 { assert s[1] == m[0]; } else { assert s[k] == m[k - 1]; }
      }
      NoBlockAt(s, k);
    }
    SubAllUnchanged(BlockLatex, s);
  }

  /** No block match starts where `$$` does not. */
  lemma NoBlockAt(s: string, k: nat)
    requires k < |s| && (k + 1 < |s| ==> !(s[k] == '$' && s[k + 1] == '$'))
    ensures MatchAt(BlockLatex, s[k..]).None?
  {
    var u := s[k..];
    if |u| >= 2 {
      assert u[..2] != "$$" by { assert u[..2][0] == s[k] && u[..2][1] == s[k + 1]; }
    }
  }

  lemma InlineSkipsFirst(t: string)
    ensures SubAll(InlineLatex, "$$" + t + "$$") == "$" + SubAll(InlineLatex, "$" + t + "$$")
  {
    var s, u := "$$" + t + "$$", "$" + t + "$$";
    assert s[0] == '$' && s[1] == '$';
    assert s[1..] == u;
    InlineSkipsDoubleDollar(s);
    SubAllSkip(InlineLatex, s, u);
  }

  lemma InlineTakesPair(t: string)
    requires t != [] && '$' !in t
    ensures SubAll(InlineLatex, "$" + t + "$$") == "LATEX_EXPRESSION: " + t + "$"
  {
    LoneDollarKept();
    var u := "$" + t + "$$";
    assert u == "$" + t + "$" + "$";
    InlineMatchesDollarPair(t, "$");
    SubAllMatch(InlineLatex, u, |t| + 2, "LATEX_EXPRESSION: " + t);
    assert u[|t| + 2..] == "$";
  }

  /** The inline substitution skips the first `$` of `$$t$$` and takes `$t$`,
      leaving the last `$` alone. */
  lemma InlineTakesInnerPair(t: string)
    requires t != [] && '$' !in t
    ensures SubAll(InlineLatex, "$$" + t + "$$") == "$LATEX_EXPRESSION: " + t + "$"
  {
    InlineSkipsFirst(t);
    InlineTakesPair(t);
    DollarBeforeExpression(t, SubAll(InlineLatex, "$$" + t + "$$"), SubAll(InlineLatex, "$" + t + "$$"));
  }

  lemma DollarBeforeExpression(t: string, x: string, y: string)
    requires x == "$" + y && y == "LATEX_EXPRESSION: " + t + "$"
    ensures x == "$LATEX_EXPRESSION: " + t + "$"
  {
  }

  /** As the source orders the two LaTeX substitutions, `$$t$$` never reaches the
      block pattern: the inline one has already taken its inner `$t$`. */
  lemma BlockLatexShadowed(t: string)
    requires t != [] && '$' !in t
    ensures ApplyAll(ReadSteps[3..5], "$$" + t + "$$") == "$LATEX_EXPRESSION: " + t + "$"
  {
    assert ReadSteps[3..5] == [InlineLatex, BlockLatex];
    ApplyAllPair(InlineLatex, BlockLatex, "$$" + t + "$$");
    InlineTakesInnerPair(t);
    NoBlockIn(t);
  }

  /** The first `$$` after an opening `$$` closes the block. */
  lemma BlockMatchesPair(t: string)
    requires '$' !in t
    ensures MatchAt(BlockLatex, "$$" + t + "$$") == Some((|t| + 4, "LATEX_BLOCK: " + t))
  {
    var s := "$$" + t + "$$";
    assert StartsWith(s, "$$") by { assert s[..2] == "$$"; }
    assert At(s, |t| + 2, "$$") by { assert s[|t| + 2..|t| + 4] == "$$"; }
    forall k | 2 <= k < |t| + 2 ensures !At(s, k, "$$") {
      assert s[k] == t[k - 2];
      if At(s, k, "$$") { AtFirst(s, k, "$$"); }
    }
    FindFirst(s, "$$", 2, |t| + 2);
    assert s[2..|t| + 2] == t;
  }

  lemma NoDollarInline(s: string)
    requires '$' !in s
    ensures SubAll(InlineLatex, s) == s
  {
    forall k | 0 <= k < |s| ensures MatchAt(InlineLatex, s[k..]).None? {
      assert s[k..][0] == s[k];
    }
    SubAllUnchanged(InlineLatex, s);
  }

  /** The block substitution turns `$$t$$` into its placeholder. */
  lemma BlockTakesPair(t: string)
    requires '$' !in t
    ensures SubAll(BlockLatex, "$$" + t + "$$") == "LATEX_BLOCK: " + t
  {
    var s := "$$" + t + "$$";
    BlockMatchesPair(t);
    SubAllMatch(BlockLatex, s, |t| + 4, "LATEX_BLOCK: " + t);
    assert s[|t| + 4..] == [];
  }

  /** With the block substitution first, `$$t$$` becomes a block placeholder. */
  lemma BlockLatexRecognised(t: string)
    requires '$' !in t
    ensures ApplyAll(FixedReadSteps[3..5], "$$" + t + "$$") == "LATEX_BLOCK: " + t
  {
    assert FixedReadSteps[3..5] == [BlockLatex, InlineLatex];
    ApplyAllPair(BlockLatex, InlineLatex, "$$" + t + "$$");
    BlockTakesPair(t);
    assert '$' !in "LATEX_BLOCK: " + t;
    NoDollarInline("LATEX_BLOCK: " + t);
  }

  // ================================================================ whitespace runs

  /** After a run substitution, every run character is a space and no two run
      characters are adjacent. */
  ghost predicate Collapsed(s: string, inRun: char -> bool) {
    && (forall i :: 0 <= i < |s| && inRun(s[i]) ==> s[i] == ' ')
    && (forall i, j :: 0 <= i < j < |s| && j == i + 1 ==> !(inRun(s[i]) && inRun(s[j])))
  }

  /** The run substitutions, `Blanks` and `Spaces`, and the characters they collapse. */
  predicate RunPattern(pat: Pattern) {
    pat == Blanks || pat == Spaces
  }

  function RunClass(pat: Pattern): char -> bool {
    if pat == Blanks then IsBlank else IsSpace
  }

  lemma RunMatch(pat: Pattern, s: string)
    requires RunPattern(pat) && s != []
    ensures MatchAt(pat, s) == MatchRun(s, RunClass(pat))
    ensures RunClass(pat)(' ')
  {
    if pat == Blanks {
      assert MatchAt(pat, s) == MatchBlanks(s);
    } else {
      assert MatchAt(pat, s) == MatchSpaces(s);
    }
  }

  /** One step of a run substitution: a run becomes one space and the scan goes
      on after it; any other character is kept. */
  lemma RunStep(pat: Pattern, s: string)
    requires RunPattern(pat) && s != []
    ensures RunClass(pat)(s[0]) ==> SubAll(pat, s) == " " + SubAll(pat, DropLeading(s, RunClass(pat)))
    ensures !RunClass(pat)(s[0]) ==> SubAll(pat, s) == [s[0]] + SubAll(pat, s[1..])
  {
    if RunClass(pat)(s[0]) {
      RunStepRun(pat, s);
    } else {
      RunStepKept(pat, s);
    }
  }

  lemma RunStepRun(pat: Pattern, s: string)
    requires RunPattern(pat) && s != [] && RunClass(pat)(s[0])
    ensures SubAll(pat, s) == " " + SubAll(pat, DropLeading(s, RunClass(pat)))
  {
    RunMatch(pat, s);
    var t := DropLeading(s, RunClass(pat));
    assert MatchAt(pat, s) == Some((|s| - |t|, " "));
    SubAllMatch(pat, s, |s| - |t|, " ");
  }

  lemma RunStepKept(pat: Pattern, s: string)
    requires RunPattern(pat) && s != [] && !RunClass(pat)(s[0])
    ensures SubAll(pat, s) == [s[0]] + SubAll(pat, s[1..])
  {
    RunMatch(pat, s);
    SubAllNoMatch(pat, s);
  }

  /** The output of a run substitution begins where its input does, unless the
      input begins with a run. */
  lemma RunFirst(pat: Pattern, s: string)
    requires RunPattern(pat) && s != []
    ensures SubAll(pat, s) != []
    ensures RunClass(pat)(s[0]) ==> SubAll(pat, s)[0] == ' '
    ensures !RunClass(pat)(s[0]) ==> SubAll(pat, s)[0] == s[0]
  {
    RunStep(pat, s);
  }

  /** A character in front of a collapsed string keeps it collapsed if it is not a
      run character, or is a space that does not start a second run. */
  lemma CollapsedPrepend(c: char, u: string, inRun: char -> bool)
    requires Collapsed(u, inRun)
    requires inRun(c) ==> c == ' ' && (u == [] || !inRun(u[0]))
    ensures Collapsed([c] + u, inRun)
  {
    var r := [c] + u;
    forall i | 0 <= i < |r| && inRun(r[i]) ensures r[i] == ' ' {
      if i > 0 { assert r[i] == u[i - 1]; }
    }
    forall i, j | 0 <= i < j < |r| && j == i + 1 ensures !(inRun(r[i]) && inRun(r[j])) {
      assert r[j] == u[j - 1];
      if i > 0 { assert r[i] == u[i - 1]; }
    }
  }

  /** A run substitution collapses every run to a single space. */
  lemma {:induction false} RunCollapsed(pat: Pattern, s: string)
    requires RunPattern(pat)
    ensures Collapsed(SubAll(pat, s), RunClass(pat))
    decreases |s|
  {
    if s != [] {
      RunStep(pat, s);
      RunMatch(pat, s);
      var inRun := RunClass(pat);
      if inRun(s[0]) {
        var t := DropLeading(s, inRun);
        RunCollapsed(pat, t);
        if t != [] {
          RunFirst(pat, t);
        }
        CollapsedPrepend(' ', SubAll(pat, t), inRun);
      } else {
        RunCollapsed(pat, s[1..]);
        CollapsedPrepend(s[0], SubAll(pat, s[1..]), inRun);
      }
    }
  }

  /** Any piece of a collapsed string is collapsed. */
  lemma CollapsedInfix(s: string, k: nat, r: string, inRun: char -> bool)
    requires k + |r| <= |s| && Collapsed(s, inRun)
    requires forall i :: 0 <= i < |r| ==> r[i] == s[k + i]
    ensures Collapsed(r, inRun)
  {
  }

  /** Stripping keeps a collapsed string collapsed. */
  lemma StripCollapsed(s: string, inRun: char -> bool)
    requires Collapsed(s, inRun)
    ensures Collapsed(Strip(s), inRun)
  {
    var k := StripIsInfix(s);
    CollapsedInfix(s, k, Strip(s), inRun);
  }

  /** The cleaned note is stripped, holds no tab and no two adjacent spaces —
      for the chain as written and for the corrected one alike. */
  lemma CleanNoteShape(text: string)
    ensures var r := CleanNoteAsWritten(text);
      Trimmed(r) && '\t' !in r && forall i, j :: 0 <= i < j < |r| && j == i + 1 ==> !(r[i] == ' ' && r[j] == ' ')
    ensures var r := CleanNote(text);
      Trimmed(r) && '\t' !in r && forall i, j :: 0 <= i < j < |r| && j == i + 1 ==> !(r[i] == ' ' && r[j] == ' ')
  {
    var y := StripFrontMatter(text);
    assert ReadSteps == ReadSteps[..8] + [Blanks];
    assert FixedReadSteps == FixedReadSteps[..8] + [Blanks];
    ApplyAllSnoc(ReadSteps[..8], Blanks, y);
    ApplyAllSnoc(FixedReadSteps[..8], Blanks, y);
    CollapsedNoTab(Strip(SubAll(Blanks, ApplyAll(ReadSteps[..8], y))), ApplyAll(ReadSteps[..8], y));
    CollapsedNoTab(Strip(SubAll(Blanks, ApplyAll(FixedReadSteps[..8], y))), ApplyAll(FixedReadSteps[..8], y));
  }

  lemma CollapsedNoTab(r: string, x: string)
    requires r == Strip(SubAll(Blanks, x))
    ensures '\t' !in r && forall i, j :: 0 <= i < j < |r| && j == i + 1 ==> !(r[i] == ' ' && r[j] == ' ')
  {
    RunCollapsed(Blanks, x);
    StripCollapsed(SubAll(Blanks, x), IsBlank);
    BlankCollapsedShape(r);
  }

  /** With blanks collapsed, no tab is left and no two spaces are adjacent. */
  lemma BlankCollapsedShape(r: string)
    requires Collapsed(r, IsBlank)
    ensures '\t' !in r && forall i, j :: 0 <= i < j < |r| && j == i + 1 ==> !(r[i] == ' ' && r[j] == ' ')
  {
    forall i | 0 <= i < |r| ensures r[i] != '\t' {
      if r[i] == '\t' { assert IsBlank(r[i]); }
    }
  }

  // ================================================================ blank-line gaps

  /** Two newlines with only whitespace between them are adjacent: every blank
      line is exactly `"\n\n"`, and no three newlines follow one another. */
  ghost predicate SingleGaps(s: string) {
    forall i, j :: 0 <= i < j < |s| && s[i] == '\n' && j > i + 1 && (forall k :: i < k < j ==> IsSpace(s[k])) ==> s[j] != '\n'
  }

  /** No newline can be reached from the start of `t` through whitespace only. */
  ghost predicate LeadFree(t: string) {
    forall k :: 0 <= k < |t| && (forall j :: 0 <= j < k ==> IsSpace(t[j])) ==> t[k] != '\n'
  }

  lemma LeadFreeCons(c: char, t: string)
    requires c != '\n' && (IsSpace(c) ==> LeadFree(t))
    ensures LeadFree([c] + t)
  {
    var s := [c] + t;
    forall k | 0 <= k < |s| && (forall j :: 0 <= j < k ==> IsSpace(s[j])) ensures s[k] != '\n' {
      if k > 0 {
        assert IsSpace(s[0]);
        forall j | 0 <= j < k - 1 ensures IsSpace(t[j]) { assert t[j] == s[j + 1]; }
        assert s[k] == t[k - 1];
      }
    }
  }

  lemma LeadFreeDrop(t: string, n: nat)
    requires n <= |t| && LeadFree(t) && forall j :: 0 <= j < n ==> IsSpace(t[j])
    ensures LeadFree(t[n..])
  {
    var u := t[n..];
    forall k | 0 <= k < |u| && (forall j :: 0 <= j < k ==> IsSpace(u[j])) ensures u[k] != '\n' {
      forall j | 0 <= j < n + k ensures IsSpace(t[j]) {
        if j >= n { assert t[j] == u[j - n]; }
      }
      assert u[k] == t[n + k];
    }
  }

  /** A character in front of a string with single gaps keeps them, unless it is
      a newline that whitespace joins to a second one further on. */
  lemma GapsCons(c: char, t: string)
    requires SingleGaps(t)
    requires c == '\n' ==> LeadFree(t) || (t != [] && t[0] == '\n' && LeadFree(t[1..]))
    ensures SingleGaps([c] + t)
  {
    var s := [c] + t;
    forall i, j | 0 <= i < j < |s| && s[i] == '\n' && j > i + 1 && (forall k :: i < k < j ==> IsSpace(s[k]))
      ensures s[j] != '\n'
    {
      if i > 0 {
        assert t[i - 1] == s[i] && t[j - 1] == s[j];
        forall k | i - 1 < k < j - 1 ensures IsSpace(t[k]) { assert t[k] == s[k + 1]; }
      } else if LeadFree(t) {
        forall m | 0 <= m < j - 1 ensures IsSpace(t[m]) { assert t[m] == s[m + 1]; }
        assert s[j] == t[j - 1];
      } else {
        var u := t[1..];
        forall m | 0 <= m < j - 2 ensures IsSpace(u[m]) { assert u[m] == s[m + 2]; }
        assert s[j] == u[j - 2];
      }
    }
  }

  /** A string with single gaps that starts with a newline has no further newline
      within reach through whitespace, except one right after the first. */
  lemma GapsHead(s: string)
    requires SingleGaps(s) && s != [] && s[0] == '\n'
    ensures LeadFree(s[1..]) || (|s| > 1 && s[1] == '\n' && LeadFree(s[2..]))
  {
    if |s| > 1 && s[1] == '\n' {
      var u := s[2..];
      forall k | 0 <= k < |u| && (forall j :: 0 <= j < k ==> IsSpace(u[j])) ensures u[k] != '\n' {
        forall m | 0 < m < k + 2 ensures IsSpace(s[m]) { if m >= 2 { assert s[m] == u[m - 2]; } }
        assert u[k] == s[k + 2];
      }
    } else {
      var u := s[1..];
      forall k | 0 <= k < |u| && (forall j :: 0 <= j < k ==> IsSpace(u[j])) ensures u[k] != '\n' {
        if k == 0 {
          assert u[0] == s[1];
        } else {
          forall m | 0 < m < k + 1 ensures IsSpace(s[m]) { assert s[m] == u[m - 1]; }
          assert u[k] == s[k + 1];
        }
      }
    }
  }

  /** Any piece of a string with single gaps has single gaps. */
  lemma GapsInfix(s: string, k: nat, r: string)
    requires k + |r| <= |s| && SingleGaps(s)
    requires forall i :: 0 <= i < |r| ==> r[i] == s[k + i]
    ensures SingleGaps(r)
  {
    forall i, j | 0 <= i < j < |r| && r[i] == '\n' && j > i + 1 && (forall m :: i < m < j ==> IsSpace(r[m]))
      ensures r[j] != '\n'
    {
      forall m | k + i < m < k + j ensures IsSpace(s[m]) { assert s[m] == r[m - k]; }
      assert s[k + i] == r[i] && s[k + j] == r[j];
    }
  }

  lemma GapsSuffix(s: string, n: nat)
    requires n <= |s| && SingleGaps(s)
    ensures SingleGaps(s[n..])
  {
    GapsInfix(s, n, s[n..]);
  }

  /** A whitespace stretch from `i` through `k` lies inside the run that starts at `i`. */
  lemma {:induction false} RunBound(s: string, i: nat, k: nat)
    requires i <= k < |s| && forall j :: i <= j <= k ==> IsSpace(s[j])
    ensures k < Chunker.SpaceRunEnd(s, i)
    decreases k - i
  {
    if i < k { RunBound(s, i + 1, k); }
  }

  /** After a blank-line match the scan resumes past the last newline of the run. */
  lemma LeadFreeAfterBreak(x: string, e: nat)
    requires x != [] && Chunker.BreakEnd(x, 0) == Some(e)
    ensures LeadFree(x[e..])
  {
    var u := x[e..];
    forall k | 0 <= k < |u| && (forall j :: 0 <= j < k ==> IsSpace(u[j])) ensures u[k] != '\n' {
      assert u[k] == x[e + k];
      if IsSpace(x[e + k]) {
        forall j | e <= j <= e + k ensures IsSpace(x[j]) { if j < e + k { assert x[j] == u[j - e]; } }
        RunBound(x, e, e + k);
        assert Chunker.NotNewlineAt(x, e + k);
      }
    }
  }

  /** A newline where no blank-line match starts has no second newline within
      reach through whitespace. */
  lemma LeadFreeWithoutBreak(x: string)
    requires x != [] && x[0] == '\n' && Chunker.BreakEnd(x, 0).None?
    ensures LeadFree(x[1..])
  {
    var u := x[1..];
    forall k | 0 <= k < |u| && (forall j :: 0 <= j < k ==> IsSpace(u[j])) ensures u[k] != '\n' {
      var b := x[0..k + 2];
      assert !Chunker.IsBreak(b);
      forall m | 0 < m < |b| - 1 ensures IsSpace(b[m]) { assert b[m] == u[m - 1]; }
      assert b[0] == '\n' && b[|b| - 1] == u[k];
    }
  }

  lemma {:induction false} LeadFreeBlankLines(t: string)
    requires LeadFree(t)
    ensures LeadFree(SubAll(BlankLines, t))
    decreases |t|
  {
    if t != [] {
      assert t[0] != '\n';
      assert MatchAt(BlankLines, t) == MatchBlankLines(t);
      SubAllNoMatch(BlankLines, t);
      if IsSpace(t[0]) {
        LeadFreeDrop(t, 1);
        LeadFreeBlankLines(t[1..]);
      }
      LeadFreeCons(t[0], SubAll(BlankLines, t[1..]));
    }
  }

  /** `re.sub(r'\n\s*\n', '\n\n', ·)` leaves single gaps: the greedy match takes
      every newline of its whitespace run. */
  lemma {:induction false} BlankLinesGaps(x: string)
    ensures SingleGaps(SubAll(BlankLines, x))
    decreases |x|
  {
    if x != [] {
      match Chunker.BreakEnd(x, 0)
      case Some(e) =>
        BlankLinesGaps(x[e..]);
        GapsAfterBreak(x, e);
      case None =>
        BlankLinesGaps(x[1..]);
        GapsWithoutBreak(x);
    }
  }

  /** A blank-line match puts `"\n\n"` before a rest that starts without newline. */
  lemma GapsAfterBreak(x: string, e: nat)
    requires x != [] && Chunker.BreakEnd(x, 0) == Some(e)
    requires SingleGaps(SubAll(BlankLines, x[e..]))
    ensures SingleGaps(SubAll(BlankLines, x))
  {
    BlankLinesMatch(x, e);
    LeadFreeAfterBreak(x, e);
    LeadFreeBlankLines(x[e..]);
    GapsBlankLine(SubAll(BlankLines, x[e..]));
  }

  lemma BlankLinesMatch(x: string, e: nat)
    requires x != [] && Chunker.BreakEnd(x, 0) == Some(e)
    ensures SubAll(BlankLines, x) == "\n\n" + SubAll(BlankLines, x[e..])
  {
    assert MatchAt(BlankLines, x) == MatchBlankLines(x);
    SubAllMatch(BlankLines, x, e, "\n\n");
  }

  /** One blank line in front of a rest that starts without a newline. */
  lemma GapsBlankLine(o: string)
    requires SingleGaps(o) && LeadFree(o)
    ensures SingleGaps("\n\n" + o)
  {
    GapsCons('\n', o);
    assert (['\n'] + o)[1..] == o;
    GapsCons('\n', ['\n'] + o);
    assert "\n\n" + o == ['\n'] + (['\n'] + o);
  }

  /** Where no blank-line match starts, the character is kept. */
  lemma GapsWithoutBreak(x: string)
    requires x != [] && Chunker.BreakEnd(x, 0).None?
    requires SingleGaps(SubAll(BlankLines, x[1..]))
    ensures SingleGaps(SubAll(BlankLines, x))
  {
    assert MatchAt(BlankLines, x) == MatchBlankLines(x);
    SubAllNoMatch(BlankLines, x);
    if x[0] == '\n' {
      LeadFreeWithoutBreak(x);
      LeadFreeBlankLines(x[1..]);
    }
    GapsCons(x[0], SubAll(BlankLines, x[1..]));
  }

  lemma {:induction false} LeadFreeBlanks(t: string)
    requires LeadFree(t)
    ensures LeadFree(SubAll(Blanks, t))
    decreases |t|
  {
    if t != [] {
      if IsBlank(t[0]) {
        var d := DropLeading(t, IsBlank);
        LeadFreeDrop(t, |t| - |d|);
        LeadFreeBlanks(d);
        LeadFreeAfterRun(t);
      } else {
        assert t[0] != '\n';
        if IsSpace(t[0]) {
          LeadFreeDrop(t, 1);
          LeadFreeBlanks(t[1..]);
        }
        RunStepKept(Blanks, t);
        LeadFreeCons(t[0], SubAll(Blanks, t[1..]));
      }
    }
  }

  lemma LeadFreeAfterRun(t: string)
    requires t != [] && IsBlank(t[0]) && LeadFree(SubAll(Blanks, DropLeading(t, IsBlank)))
    ensures LeadFree(SubAll(Blanks, t))
  {
    RunStepRun(Blanks, t);
    LeadFreeCons(' ', SubAll(Blanks, DropLeading(t, IsBlank)));
  }

  /** `re.sub(r'[ \t]+', ' ', ·)` keeps single gaps: it neither adds nor removes a
      newline, and what it puts between two of them is whitespace again. */
  lemma {:induction false} BlanksGaps(s: string)
    requires SingleGaps(s)
    ensures SingleGaps(SubAll(Blanks, s))
    decreases |s|
  {
    if s != [] {
      if IsBlank(s[0]) {
        RunStepRun(Blanks, s);
        var d := DropLeading(s, IsBlank);
        GapsSuffix(s, |s| - |d|);
        BlanksGaps(d);
        GapsCons(' ', SubAll(Blanks, d));
      } else {
        RunStepKept(Blanks, s);
        GapsSuffix(s, 1);
        BlanksGaps(s[1..]);
        if s[0] == '\n' {
          GapsHead(s);
          if LeadFree(s[1..]) {
            LeadFreeBlanks(s[1..]);
          } else {
            RunStepKept(Blanks, s[1..]);
            assert s[1..][1..] == s[2..];
            LeadFreeBlanks(s[2..]);
          }
        }
        GapsCons(s[0], SubAll(Blanks, s[1..]));
      }
    }
  }

  /** The last two substitutions and the final strip leave single gaps. */
  lemma ChainGaps(x: string)
    ensures SingleGaps(Strip(SubAll(Blanks, SubAll(BlankLines, x))))
  {
    BlankLinesGaps(x);
    BlanksGaps(SubAll(BlankLines, x));
    var c := SubAll(Blanks, SubAll(BlankLines, x));
    var k := StripIsInfix(c);
    GapsInfix(c, k, Strip(c));
  }

  /** In the cleaned note, two newlines with only whitespace between them are
      adjacent — for the chain as written and for the corrected one alike. */
  lemma CleanNoteGaps(text: string)
    ensures var r := CleanNoteAsWritten(text);
      forall i, j :: 0 <= i < j < |r| && r[i] == '\n' && r[j] == '\n' && (forall k :: i < k < j ==> IsSpace(r[k])) ==> j == i + 1
    ensures var r := CleanNote(text);
      forall i, j :: 0 <= i < j < |r| && r[i] == '\n' && r[j] == '\n' && (forall k :: i < k < j ==> IsSpace(r[k])) ==> j == i + 1
  {
    var y := StripFrontMatter(text);
    StepsEndWithWhitespace();
    StepsGaps(ReadSteps, ReadSteps[..7], y);
    StepsGaps(FixedReadSteps, FixedReadSteps[..7], y);
    GapsMeaning(CleanNoteAsWritten(text));
    GapsMeaning(CleanNote(text));
  }

  lemma StepsEndWithWhitespace()
    ensures ReadSteps == ReadSteps[..7] + [BlankLines] + [Blanks]
    ensures FixedReadSteps == FixedReadSteps[..7] + [BlankLines] + [Blanks]
  {
  }

  /** Any chain that ends with the two whitespace substitutions, then stripped. */
  lemma StepsGaps(steps: seq<Pattern>, pre: seq<Pattern>, y: string)
    requires steps == pre + [BlankLines] + [Blanks]
    ensures SingleGaps(Strip(ApplyAll(steps, y)))
  {
    ApplyAllSnoc(pre + [BlankLines], Blanks, y);
    ApplyAllSnoc(pre, BlankLines, y);
    ChainGaps(ApplyAll(pre, y));
  }

  lemma GapsMeaning(r: string)
    requires SingleGaps(r)
    ensures forall i, j :: 0 <= i < j < |r| && r[i] == '\n' && r[j] == '\n' && (forall k :: i < k < j ==> IsSpace(r[k])) ==> j == i + 1
  {
  }

  // ================================================================ meaningful text

  /** Dropping the characters that are not meaningful leaves only meaningful ones. */
  lemma {:induction false} SpecialDropped(s: string)
    ensures forall c <- SubAll(Special, s) :: IsMeaningful(c)
    decreases |s|
  {
    if s != [] {
      SpecialDropped(s[1..]);
    }
  }

  /** Collapsing whitespace keeps a text of meaningful characters meaningful. */
  lemma {:induction false} SpacesKeepMeaningful(s: string)
    requires forall c <- s :: IsMeaningful(c)
    ensures forall c <- SubAll(Spaces, s) :: IsMeaningful(c)
    decreases |s|
  {
    if s != [] {
      RunStep(Spaces, s);
      assert RunClass(Spaces) == IsSpace;
      if IsSpace(s[0]) {
        var t := DropLeading(s, IsSpace);
        MeaningfulSuffix(s, |s| - |t|);
        SpacesKeepMeaningful(t);
        MeaningfulConcat(" ", SubAll(Spaces, t));
      } else {
        MeaningfulSuffix(s, 1);
        SpacesKeepMeaningful(s[1..]);
        MeaningfulConcat([s[0]], SubAll(Spaces, s[1..]));
      }
    }
  }

  lemma MeaningfulSuffix(s: string, k: nat)
    requires k <= |s| && forall c <- s :: IsMeaningful(c)
    ensures forall c <- s[k..] :: IsMeaningful(c)
  {
    forall c | c in s[k..] ensures IsMeaningful(c) {
      var i :| 0 <= i < |s[k..]| && s[k..][i] == c;
      assert s[k + i] == c;
    }
  }

  lemma MeaningfulConcat(a: string, b: string)
    requires forall c <- a :: IsMeaningful(c)
    requires forall c <- b :: IsMeaningful(c)
    ensures forall c <- a + b :: IsMeaningful(c)
  {
  }

  lemma MeaningfulUnfold(content: string)
    ensures MeaningfulText(content) == Strip(SubAll(Spaces, SubAll(Special, SubAll(MarkerLine, content))))
  {
    ApplyAllTriple(MarkerLine, Special, Spaces, content);
  }

  /** A string whose whitespace runs are collapsed to single spaces is normalized
      once stripped. */
  lemma CollapsedSpacesNormalized(y: string)
    requires Collapsed(y, IsSpace)
    ensures Normalized(Strip(y))
  {
    StripCollapsed(y, IsSpace);
  }

  lemma StripKeepsMeaningful(y: string)
    requires forall c <- y :: IsMeaningful(c)
    ensures forall c <- Strip(y) :: IsMeaningful(c)
  {
    var k := StripIsInfix(y);
    var r := Strip(y);
    forall c | c in r ensures IsMeaningful(c) {
      var i :| 0 <= i < |r| && r[i] == c;
      assert y[k + i] in y;
    }
  }

  /** The measured text is normalized and made of meaningful characters only. */
  lemma MeaningfulTextShape(content: string)
    ensures Normalized(MeaningfulText(content))
    ensures forall c <- MeaningfulText(content) :: IsMeaningful(c)
  {
    MeaningfulUnfold(content);
    var x := SubAll(Special, SubAll(MarkerLine, content));
    var y := SubAll(Spaces, x);
    RunCollapsed(Spaces, x);
    CollapsedSpacesNormalized(y);
    SpecialDropped(SubAll(MarkerLine, content));
    SpacesKeepMeaningful(x);
    StripKeepsMeaningful(y);
  }

  lemma MarkerExtends(line: string, rest: string)
    requires StartsWithMarker(line)
    ensures StartsWithMarker(line + rest)
  {
    var s := line + rest;
    assert forall p: string :: |p| <= |line| ==> s[..|p|] == line[..|p|];
  }

  lemma LineEndOfLine(line: string, rest: string)
    requires '\n' !in line
    requires rest == [] || rest[0] == '\n'
    ensures LineEnd(line + rest) == |line|
  {
    var s := line + rest;
    if rest == [] {
      assert s == line;
    } else {
      forall k | 0 <= k < |line| ensures s[k] != '\n' {
        assert s[k] == line[k];
      }
      IndexOfFirst(s, '\n', |line|);
    }
  }

  lemma MarkerLineMatch(line: string, rest: string)
    requires StartsWithMarker(line) && '\n' !in line
    requires rest == [] || rest[0] == '\n'
    ensures line != [] && MatchAt(MarkerLine, line + rest) == Some((|line|, ""))
  {
    assert line != [] by { assert line[..1][0] == line[0]; }
    MarkerExtends(line, rest);
    LineEndOfLine(line, rest);
    assert MatchAt(MarkerLine, line + rest) == MatchMarkerLine(line + rest);
  }

  /** A placeholder and the rest of its line are dropped in one piece. */
  lemma MarkerLineDropped(line: string, rest: string)
    requires StartsWithMarker(line) && '\n' !in line
    requires rest == [] || rest[0] == '\n'
    ensures SubAll(MarkerLine, line + rest) == SubAll(MarkerLine, rest)
  {
    var s := line + rest;
    MarkerLineMatch(line, rest);
    SubAllMatch(MarkerLine, s, |line|, "");
    assert s[|line|..] == rest;
  }

  // ================================================================ path filter

  /** A pattern that contains another one makes the shorter one's match certain. */
  lemma {:induction false} ContainsSuffix(s: string, p: string, q: string)
    requires Contains(s, p + q)
    ensures Contains(s, q)
    decreases |s|
  {
    if StartsWith(s, p + q) {
      assert StartsWith(s[|p|..], q) by {
        assert s[|p|..][..|q|] == (p + q)[|p|..];
      }
      ContainsDrop(s, |p|, q);
    } else {
      ContainsSuffix(s[1..], p, q);
    }
  }

  lemma {:induction false} ContainsDrop(s: string, n: nat, q: string)
    requires n <= |s| && Contains(s[n..], q)
    ensures Contains(s, q)
    decreases n
  {
    if n > 0 {
      assert s[1..][n - 1..] == s[n..];
      ContainsDrop(s[1..], n - 1, q);
    } else {
      assert s[0..] == s;
    }
  }

  lemma LowerPatterns()
    ensures Lower(".obsidian") == ".obsidian" && Lower("template") == "template"
    ensures Lower("Template") == "template" && Lower(".trash") == ".trash" && Lower("Trash") == "trash"
  {
    LowerObsidian();
    LowerTemplate();
    LowerTrash();
  }

  lemma LowerObsidian()
    ensures Lower(".obsidian") == ".obsidian"
  {
    LowerMatches(".obsidian", ".obsidian");
  }

  lemma LowerTemplate()
    ensures Lower("template") == "template" && Lower("Template") == "template"
  {
    LowerMatches("template", "template");
    LowerMatches("Template", "template");
  }

  lemma LowerTrash()
    ensures Lower(".trash") == ".trash" && Lower("Trash") == "trash"
  {
    LowerMatches(".trash", ".trash");
    LowerMatches("Trash", "trash");
  }

  /** Each ignore pattern, lower-cased, is one of four strings. */
  lemma LoweredPattern(i: int)
    requires 0 <= i < |IgnorePatterns|
    ensures var q := Lower(IgnorePatterns[i]);
      q == ".obsidian" || q == "template" || q == ".trash" || q == "trash"
  {
    var p := IgnorePatterns[i];
    if i == 0 {
      assert p == ".obsidian";
      LowerObsidian();
    } else if i == 1 || i == 2 {
      assert p == "template" || p == "Template";
      LowerTemplate();
    } else {
      assert p == ".trash" || p == "Trash";
      LowerTrash();
    }
  }

  lemma IgnoredPathOnly(path: string)
    ensures IgnoredPath(path) ==>
      var lp := Lower(path);
      Contains(lp, ".obsidian") || Contains(lp, "template") || Contains(lp, "trash")
  {
    var lp := Lower(path);
    if IgnoredPath(path) {
      var i :| 0 <= i < |IgnorePatterns| && Contains(lp, Lower(IgnorePatterns[i]));
      var q := Lower(IgnorePatterns[i]);
      LoweredPattern(i);
      if q == ".trash" {
        assert q == "." + "trash";
        ContainsSuffix(lp, ".", "trash");
      }
    }
  }

  lemma IgnoredPathAll(path: string)
    ensures var lp := Lower(path);
      Contains(lp, ".obsidian") || Contains(lp, "template") || Contains(lp, "trash") ==> IgnoredPath(path)
  {
    var lp := Lower(path);
    LowerPatterns();
    if Contains(lp, ".obsidian") {
      assert Lower(IgnorePatterns[0]) == ".obsidian";
    } else if Contains(lp, "template") {
      assert Lower(IgnorePatterns[1]) == "template";
    } else if Contains(lp, "trash") {
      assert Lower(IgnorePatterns[4]) == "trash";
    }
  }

  /** Matching is case-insensitive, so the five ignore patterns amount to three:
      `Template` repeats `template`, and `trash` covers `.trash`. */
  lemma IgnoredPathIff(path: string)
    ensures IgnoredPath(path) <==>
      var lp := Lower(path);
      Contains(lp, ".obsidian") || Contains(lp, "template") || Contains(lp, "trash")
  {
    IgnoredPathOnly(path);
    IgnoredPathAll(path);
  }

  /** A file passes exactly when its text is long enough, its path is not a
      system or template path, and its meaningful text is long enough — and the
      text that is measured last is normalized and made of meaningful characters. */
  lemma ShouldProcessIff(path: string, content: string)
    ensures ShouldProcessFile(path, content) <==>
      && |Strip(content)| >= MinLength
      && !Contains(Lower(path), ".obsidian") && !Contains(Lower(path), "template")
      && !Contains(Lower(path), "trash")
      && |MeaningfulText(content)| >= MinLength
    ensures ShouldProcessFile(path, content) ==>
      Normalized(MeaningfulText(content)) && forall c <- MeaningfulText(content) :: IsMeaningful(c)
  {
    IgnoredPathIff(path);
    MeaningfulTextShape(content);
  }
}
