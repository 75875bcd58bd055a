/** Splitting a note into paragraphs with the pattern `\n\s*\n` (as `re.split` and
    `re.sub` use it), and `_chunk_content`, which packs paragraphs into chunks for
    the LLM. */
module Chunker {
  import opened Text

  // ================================================================ paragraph breaks

  /** A piece of text the pattern `\n\s*\n` matches. */
  predicate IsBreak(b: string) {
    |b| >= 2 && b[0] == '\n' && b[|b| - 1] == '\n' && AllSpace(b)
  }

  /** The end of the whitespace run that starts at `i`. */
  function SpaceRunEnd(s: string, i: nat): (e: nat)
    requires i <= |s|
    ensures i <= e <= |s| && (e == |s| || !IsSpace(s[e]))
    ensures forall k :: i <= k < e ==> IsSpace(s[k])
    decreases |s| - i
  {
    if i < |s| && IsSpace(s[i]) then SpaceRunEnd(s, i + 1) else i
  }

  /** Position `m` of `s` holds something other than a newline. */
  predicate NotNewlineAt(s: string, m: nat)
    requires m < |s|
  {
    s[m] != '\n'
  }

  /** The last newline in `s[lo..hi]`. */
  function LastNewline(s: string, lo: nat, hi: nat): (r: Option<nat>)
    requires lo <= hi <= |s|
    ensures r.Some? ==> lo <= r.value < hi && s[r.value] == '\n'
    ensures r.Some? ==> forall m :: r.value < m < hi ==> NotNewlineAt(s, m)
    ensures r.None? ==> forall m :: lo <= m < hi ==> NotNewlineAt(s, m)
    decreases hi - lo
  {
    if hi == lo then None
    else if s[hi - 1] == '\n' then Some(hi - 1)
    else LastNewline(s, lo, hi - 1)
  }

  /** Where the match of `\n\s*\n` that starts at `i` ends, if one starts there: the
      greedy `\s*` runs to the end of the whitespace and backs up to its last newline. */
  function BreakEnd(s: string, i: nat): (r: Option<nat>)
    requires i < |s|
    ensures r.Some? ==> i + 2 <= r.value <= |s| && IsBreak(s[i..r.value])
    ensures r.Some? ==> forall m :: r.value <= m < SpaceRunEnd(s, r.value) ==> NotNewlineAt(s, m)
    ensures r.None? ==> forall e :: i + 2 <= e <= |s| ==> !IsBreak(s[i..e])
  {
    if s[i] != '\n' then
      NoBreakAtOther(s, i);
      None
    else
      var run := SpaceRunEnd(s, i + 1);
      match LastNewline(s, i + 1, run)
      case None =>
        NoBreakWithoutNewline(s, i, run);
        None
      case Some(k) =>
        BreakAtLastNewline(s, i, k, run);
        Some(k + 1)
  }

  lemma NoBreakAtOther(s: string, i: nat)
    requires i < |s| && s[i] != '\n'
    ensures forall e :: i + 2 <= e <= |s| ==> !IsBreak(s[i..e])
  {
    assert forall e :: i + 2 <= e <= |s| ==> s[i..e][0] == s[i];
  }

  lemma NoBreakWithoutNewline(s: string, i: nat, run: nat)
    requires i < |s| && run == SpaceRunEnd(s, i + 1)
    requires forall m :: i + 1 <= m < run ==> NotNewlineAt(s, m)
    ensures forall e :: i + 2 <= e <= |s| ==> !IsBreak(s[i..e])
  {
    forall e | i + 2 <= e <= |s| ensures !IsBreak(s[i..e]) {
      BreakInsideRun(s, i, e, run);
    }
  }

  lemma BreakAtLastNewline(s: string, i: nat, k: nat, run: nat)
    requires i < |s| && s[i] == '\n' && run == SpaceRunEnd(s, i + 1)
    requires i + 1 <= k < run && s[k] == '\n'
    ensures IsBreak(s[i..k + 1]) && SpaceRunEnd(s, k + 1) == run
  {
    var b := s[i..k + 1];
    forall m | 0 <= m < |b| ensures IsSpace(b[m]) {
      assert b[m] == s[i + m];
    }
    SpaceRunEndFrom(s, i + 1, k + 1);
  }

  /** A break starting at `i` ends at a newline inside the whitespace run after `i`. */
  lemma BreakInsideRun(s: string, i: nat, e: nat, run: nat)
    requires i + 2 <= e <= |s| && run == SpaceRunEnd(s, i + 1)
    requires forall m :: i + 1 <= m < run ==> NotNewlineAt(s, m)
    ensures !IsBreak(s[i..e])
  {
    var b := s[i..e];
    if e - 1 < run {
      // the last character of `b` is inside the run, so it is not a newline
      assert b[|b| - 1] == s[e - 1] && NotNewlineAt(s, e - 1);
    } else {
      // the run ends inside `b`, at a character that is not whitespace
      assert b[run - i] == s[run];
    }
  }

  /** Starting later inside the same run ends at the same place. */
  lemma {:induction false} SpaceRunEndFrom(s: string, i: nat, j: nat)
    requires i <= |s| && i <= j <= SpaceRunEnd(s, i)
    ensures SpaceRunEnd(s, j) == SpaceRunEnd(s, i)
    decreases j - i
  {
    if i < j { SpaceRunEndFrom(s, i + 1, j); }
  }

  /** Paragraphs with the breaks that separated them put back in between. */
  function Interleave(parts: seq<string>, seps: seq<string>): string
    requires |parts| == |seps| + 1
  {
    if seps == [] then parts[0]
    else parts[0] + seps[0] + Interleave(parts[1..], seps[1..])
  }

  /** `re.split(r'\n\s*\n', s[start..])` continued from position `i`: the scan looks
      for the leftmost match at or after `i`, and no match starts in `start..i`. */
  function SplitFrom(s: string, start: nat, i: nat): (r: (seq<string>, seq<string>))
    requires start <= i <= |s|
    ensures |r.0| == |r.1| + 1
    ensures forall k :: 0 <= k < |r.1| ==> IsBreak(r.1[k])
    ensures Interleave(r.0, r.1) == s[start..]
    decreases |s| - i
  {
    if i == |s| then ([s[start..]], [])
    else
      match BreakEnd(s, i)
      case None => SplitFrom(s, start, i + 1)
      case Some(e) =>
        var rest := SplitFrom(s, e, e);
        var parts := [s[start..i]] + rest.0;
        var seps := [s[i..e]] + rest.1;
        assert parts[1..] == rest.0 && seps[1..] == rest.1;
        assert s[start..] == s[start..i] + s[i..e] + s[e..];
        (parts, seps)
  }

  /** `re.split(r'\n\s*\n', s)`: the paragraphs of `s`. */
  function Paragraphs(s: string): (ps: seq<string>)
    ensures |ps| >= 1
  {
    SplitFrom(s, 0, 0).0
  }

  /** The breaks between the paragraphs of `s`, in order. */
  function Breaks(s: string): seq<string> {
    SplitFrom(s, 0, 0).1
  }

  /** Splitting loses nothing: the paragraphs with their breaks put back are `s`. */
  lemma ParagraphsRoundTrip(s: string)
    ensures |Paragraphs(s)| == |Breaks(s)| + 1
    ensures forall k :: 0 <= k < |Breaks(s)| ==> IsBreak(Breaks(s)[k])
    ensures Interleave(Paragraphs(s), Breaks(s)) == s
  {
    assert s[0..] == s;
  }

  /** No blank line occurs anywhere inside `p`. */
  predicate BreakFree(p: string) {
    forall a, b :: 0 <= a < b <= |p| ==> !IsBreak(p[a..b])
  }

  /** No paragraph contains a match of the pattern: the split is as fine as the
      pattern allows. */
  lemma {:induction false} SplitFromNoBreakInside(s: string, start: nat, i: nat)
    requires start <= i <= |s|
    requires forall a :: start <= a < i ==> BreakEnd(s, a).None?
    ensures forall k :: 0 <= k < |SplitFrom(s, start, i).0| ==> BreakFree(SplitFrom(s, start, i).0[k])
    decreases |s| - i
  {
    if i == |s| {
      NoBreakIn(s, start, |s|);
      assert s[start..] == s[start..|s|];
    } else if BreakEnd(s, i).None? {
      SplitFromSkip(s, start, i);
      SplitFromNoBreakInside(s, start, i + 1);
    } else {
      var e := BreakEnd(s, i).value;
      SplitFromBreak(s, start, i, e);
      SplitFromNoBreakInside(s, e, e);
      NoBreakIn(s, start, i);
      BreakFreeCons(s[start..i], SplitFrom(s, e, e).0);
    }
  }

  lemma SplitFromSkip(s: string, start: nat, i: nat)
    requires start <= i < |s| && BreakEnd(s, i).None?
    ensures SplitFrom(s, start, i) == SplitFrom(s, start, i + 1)
  {
  }

  lemma SplitFromBreak(s: string, start: nat, i: nat, e: nat)
    requires start <= i < |s| && BreakEnd(s, i) == Some(e)
    ensures SplitFrom(s, start, i).0 == [s[start..i]] + SplitFrom(s, e, e).0
  {
  }

  lemma BreakFreeCons(p: string, ps: seq<string>)
    requires BreakFree(p) && forall k :: 0 <= k < |ps| ==> BreakFree(ps[k])
    ensures forall k :: 0 <= k < |[p] + ps| ==> BreakFree(([p] + ps)[k])
  {
    forall k | 0 <= k < |[p] + ps| ensures BreakFree(([p] + ps)[k]) {
      if k > 0 { assert ([p] + ps)[k] == ps[k - 1]; }
    }
  }

  /** When no match starts in `lo..hi`, the piece `s[lo..hi]` contains none. */
  lemma NoBreakIn(s: string, lo: nat, hi: nat)
    requires lo <= hi <= |s|
    requires forall a :: lo <= a < hi ==> BreakEnd(s, a).None?
    ensures BreakFree(s[lo..hi])
  {
    forall a, b | 0 <= a < b <= hi - lo ensures !IsBreak(s[lo..hi][a..b]) {
      assert forall m :: 0 <= m < b - a ==> s[lo..hi][a..b][m] == s[lo + a..lo + b][m];
      assert s[lo..hi][a..b] == s[lo + a..lo + b];
      if b >= a + 2 {
        assert BreakEnd(s, lo + a).None?;
      } else {
        assert |s[lo + a..lo + b]| < 2;
      }
    }
  }

  /** Paragraphs never contain a blank line. */
  lemma ParagraphsHaveNoBreak(s: string)
    ensures forall k, a, b :: 0 <= k < |Paragraphs(s)| && 0 <= a < b <= |Paragraphs(s)[k]| ==>
              !IsBreak(Paragraphs(s)[k][a..b])
  {
    SplitFromNoBreakInside(s, 0, 0);
    forall k | 0 <= k < |Paragraphs(s)| ensures BreakFree(Paragraphs(s)[k]) {}
  }

  // ================================================================ packing

  /** The loop state of `_chunk_content`: `chunks` and `current_chunk`, with the
      paragraphs each of them was built from (`groups` for the saved chunks, `open`
      for the chunk being built). */
  datatype Packer = Packer(chunks: seq<string>, current: string,
                           groups: seq<seq<string>>, open: seq<string>)

  const PackStart := Packer([], "", [], [])

  /** One iteration of the paragraph loop. */
  function PackStep(st: Packer, para: string, maxChars: nat): Packer {
    if |st.current| + |para| > maxChars && st.current != "" then
      Packer(st.chunks + [Strip(st.current)], para, st.groups + [st.open], [para])
    else if st.current != "" then
      Packer(st.chunks, st.current + "\n\n" + para, st.groups, st.open + [para])
    else
      Packer(st.chunks, para, st.groups, [para])
  }

  /** The loop state after the given paragraphs, first to last. */
  function PackAll(paras: seq<string>, maxChars: nat): Packer {
    if paras == [] then PackStart
    else PackStep(PackAll(paras[..|paras| - 1], maxChars), paras[|paras| - 1], maxChars)
  }

  /** The saved chunks, and the last one if it is not empty. */
  function Finish(st: Packer): seq<string> {
    if st.current != "" then st.chunks + [Strip(st.current)] else st.chunks
  }

  function FinishGroups(st: Packer): seq<seq<string>> {
    if st.current != "" then st.groups + [st.open] else st.groups
  }

  /** `[content[i:i+max_chars] for i in range(0, len(content), max_chars)]` */
  function Slices(s: string, n: nat): (r: seq<string>)
    requires n > 0
    ensures forall k :: 0 <= k < |r| ==> 0 < |r[k]| <= n
    ensures Concat(r) == s
    decreases |s|
  {
    if s == [] then []
    else if |s| <= n then [s]
    else
      var rest := Slices(s[n..], n);
      assert [s[..n]] + rest != [] && ([s[..n]] + rest)[1..] == rest;
      assert s == s[..n] + s[n..];
      [s[..n]] + rest
  }

  /** `_chunk_content`; `range` with a step of 0 raises, so `maxChars` is positive. */
  function Chunks(content: string, maxChars: nat): seq<string>
    requires maxChars > 0
  {
    if |content| <= maxChars then [content]
    else
      var packed := Finish(PackAll(Paragraphs(content), maxChars));
      if packed == [] then Slices(content, maxChars) else packed
  }

  lemma PackAllSnoc(paras: seq<string>, i: nat, maxChars: nat)
    requires i < |paras|
    ensures PackAll(paras[..i + 1], maxChars) == PackStep(PackAll(paras[..i], maxChars), paras[i], maxChars)
  {
    assert paras[..i + 1][..i] == paras[..i];
  }

  /** One iteration of the loop of `_chunk_content`, on the variables it updates:
      from the state after paragraph `i - 1` to the state after paragraph `i`. */
  method PackParagraph(chunks: seq<string>, currentChunk: string, para: string, maxChars: nat,
                       ghost paras: seq<string>, ghost i: nat)
    returns (chunks': seq<string>, currentChunk': string)
    requires i < |paras| && para == paras[i]
    requires chunks == PackAll(paras[..i], maxChars).chunks && currentChunk == PackAll(paras[..i], maxChars).current
    ensures chunks' == PackAll(paras[..i + 1], maxChars).chunks
    ensures currentChunk' == PackAll(paras[..i + 1], maxChars).current
  {
    PackAllSnoc(paras, i, maxChars);
    chunks', currentChunk' := chunks, currentChunk;
    if |currentChunk| + |para| > maxChars && currentChunk != "" {
      chunks' := chunks + [Strip(currentChunk)];
      currentChunk' := para;
    } else {
      if currentChunk != "" {
        currentChunk' := currentChunk + "\n\n" + para;
      } else {
        currentChunk' := para;
      }
    }
  }

  /** After the loop of `_chunk_content`: the chunk being built is saved if it is
      not empty. */
  method FinishChunks(chunks: seq<string>, currentChunk: string, ghost paras: seq<string>, maxChars: nat)
    returns (r: seq<string>)
    requires chunks == PackAll(paras[..|paras|], maxChars).chunks
    requires currentChunk == PackAll(paras[..|paras|], maxChars).current
    ensures r == Finish(PackAll(paras, maxChars))
  {
    assert paras[..|paras|] == paras;
    r := chunks;
    if currentChunk != "" {
      r := chunks + [Strip(currentChunk)];
    }
  }

  /** The paragraph loop of `_chunk_content`. */
  method PackParagraphs(paragraphs: seq<string>, maxChars: nat) returns (chunks: seq<string>, currentChunk: string)
    ensures chunks == PackAll(paragraphs[..|paragraphs|], maxChars).chunks
    ensures currentChunk == PackAll(paragraphs[..|paragraphs|], maxChars).current
  {
    chunks := [];
    currentChunk := "";
    var i := 0;
    while i < |paragraphs|
      invariant 0 <= i <= |paragraphs|
      invariant chunks == PackAll(paragraphs[..i], maxChars).chunks
      invariant currentChunk == PackAll(paragraphs[..i], maxChars).current
    {
      chunks, currentChunk := PackParagraph(chunks, currentChunk, paragraphs[i], maxChars, paragraphs, i);
      i := i + 1;
    }
  }

  /** `_chunk_content` as the source writes it: a loop over the paragraphs. */
  method ChunkContent(content: string, maxChars: nat) returns (chunks: seq<string>)
    requires maxChars > 0
    ensures chunks == Chunks(content, maxChars)
  {
    if |content| <= maxChars {
      return [content];
    }
    var paragraphs := Paragraphs(content);
    var currentChunk;
    chunks, currentChunk := PackParagraphs(paragraphs, maxChars);
    chunks := FinishChunks(chunks, currentChunk, paragraphs, maxChars);
    if chunks == [] {
      chunks := Slices(content, maxChars);
    }
  }

  // ---------------------------------------------------------------- packing: properties

  /** The paragraphs that are not empty, in order. */
  function NonEmpty(ps: seq<string>): (r: seq<string>)
    ensures forall k :: 0 <= k < |r| ==> r[k] != ""
  {
    if ps == [] then []
    else NonEmpty(ps[..|ps| - 1]) + (if ps[|ps| - 1] != "" then [ps[|ps| - 1]] else [])
  }

  function Flatten(groups: seq<seq<string>>): seq<string> {
    if groups == [] then [] else Flatten(groups[..|groups| - 1]) + groups[|groups| - 1]
  }

  /** Each saved chunk is its group of paragraphs joined by blank lines and
      stripped, and a group of two or more paragraphs exceeds the limit by at most
      the two characters of one separator. */
  ghost predicate GroupsShape(chunks: seq<string>, groups: seq<seq<string>>, maxChars: nat) {
    && |chunks| == |groups|
    && (forall k :: 0 <= k < |groups| ==> ChunkFits(chunks[k], groups[k], maxChars))
  }

  /** A chunk is its group joined by blank lines and stripped, and a group of two or
      more paragraphs is at most two characters over the limit. */
  ghost predicate ChunkFits(chunk: string, group: seq<string>, maxChars: nat) {
    && chunk == Strip(JoinWith(group, "\n\n"))
    && (|group| >= 2 ==> |JoinWith(group, "\n\n")| <= maxChars + 2)
  }

  /** The chunk being built is its paragraphs joined by blank lines. */
  ghost predicate OpenShape(current: string, open: seq<string>, maxChars: nat) {
    && current == JoinWith(open, "\n\n")
    && (|open| >= 2 ==> |current| <= maxChars + 2)
    && (current != "" ==> NonEmpty(open) != [])
  }

  /** Empty paragraphs aside, the groups and the open chunk hold exactly the
      paragraphs seen so far, in order, and every saved group has a non-empty one. */
  ghost predicate Coverage(groups: seq<seq<string>>, open: seq<string>, seen: seq<string>) {
    && NonEmpty(Flatten(groups) + open) == NonEmpty(seen)
    && (groups != [] ==> NonEmpty(Flatten(groups)) != [])
  }

  /** What the packing loop keeps true. */
  ghost predicate PackInvariant(st: Packer, seen: seq<string>, maxChars: nat) {
    && GroupsShape(st.chunks, st.groups, maxChars)
    && OpenShape(st.current, st.open, maxChars)
    && Coverage(st.groups, st.open, seen)
  }

  lemma {:induction false} NonEmptyAppend(a: seq<string>, b: seq<string>)
    ensures NonEmpty(a + b) == NonEmpty(a) + NonEmpty(b)
    decreases |b|
  {
    if b == [] {
      assert a + b == a;
    } else {
      var b' := b[..|b| - 1];
      assert (a + b)[..|a + b| - 1] == a + b';
      NonEmptyAppend(a, b');
    }
  }

  lemma FlattenSnoc(groups: seq<seq<string>>, g: seq<string>)
    ensures Flatten(groups + [g]) == Flatten(groups) + g
  {
    assert (groups + [g])[..|groups|] == groups;
  }

  /** A joined text is empty only when every paragraph in it is empty. */
  lemma {:induction false} JoinEmpty(ps: seq<string>)
    requires JoinWith(ps, "\n\n") == ""
    ensures NonEmpty(ps) == []
    ensures |ps| <= 1
  {
    if |ps| == 1 {
      assert NonEmpty(ps) == NonEmpty([]) + [] by { assert ps[..0] == []; }
    }
  }

  lemma JoinSnoc(ps: seq<string>, p: string)
    requires ps != []
    ensures JoinWith(ps + [p], "\n\n") == JoinWith(ps, "\n\n") + "\n\n" + p
  {
    JoinWithSnoc(ps, p, "\n\n");
  }

  lemma {:induction false} JoinWithSnoc(ps: seq<string>, p: string, sep: string)
    requires ps != []
    ensures JoinWith(ps + [p], sep) == JoinWith(ps, sep) + sep + p
    decreases |ps|
  {
    if |ps| == 1 {
      assert ps + [p] == [ps[0], p];
      assert [ps[0], p][1..] == [p];
    } else {
      assert (ps + [p])[1..] == ps[1..] + [p];
      JoinWithSnoc(ps[1..], p, sep);
    }
  }

  lemma NonEmptySingle(p: string)
    ensures NonEmpty([p]) == (if p != "" then [p] else [])
  {
    assert [p][..0] == [];
  }

  lemma PackStepInvariant(st: Packer, seen: seq<string>, para: string, seen': seq<string>, maxChars: nat)
    requires PackInvariant(st, seen, maxChars) && seen' == seen + [para]
    ensures PackInvariant(PackStep(st, para, maxChars), seen', maxChars)
  {
    if |st.current| + |para| > maxChars && st.current != "" {
      CloseInvariant(st, seen, para, maxChars);
    } else if st.current != "" {
      ExtendInvariant(st, seen, para, maxChars);
    } else {
      RestartInvariant(st, seen, para, maxChars);
    }
  }

  /** Saving the chunk being built and starting a new one with `para`. */
  lemma CloseInvariant(st: Packer, seen: seq<string>, para: string, maxChars: nat)
    requires PackInvariant(st, seen, maxChars) && st.current != ""
    ensures PackInvariant(Packer(st.chunks + [Strip(st.current)], para, st.groups + [st.open], [para]),
                          seen + [para], maxChars)
  {
    ClosedGroups(st.chunks, st.groups, st.current, st.open, maxChars);
    NonEmptySingle(para);
    CloseCoverage(st.groups, st.open, seen, para);
  }

  lemma CloseCoverage(groups: seq<seq<string>>, open: seq<string>, seen: seq<string>, para: string)
    requires Coverage(groups, open, seen) && NonEmpty(open) != []
    ensures Coverage(groups + [open], [para], seen + [para])
  {
    NonEmptyAppend(seen, [para]);
    FlattenSnoc(groups, open);
    NonEmptyAppend(Flatten(groups) + open, [para]);
    NonEmptyAppend(Flatten(groups), open);
  }

  /** Adding `para` to the chunk being built, after a blank line. */
  lemma ExtendInvariant(st: Packer, seen: seq<string>, para: string, maxChars: nat)
    requires PackInvariant(st, seen, maxChars) && st.current != ""
    requires |st.current| + |para| <= maxChars
    ensures PackInvariant(Packer(st.chunks, st.current + "\n\n" + para, st.groups, st.open + [para]),
                          seen + [para], maxChars)
  {
    ExtendOpen(st.current, st.open, para, maxChars);
    ExtendCoverage(st.groups, st.open, seen, para);
  }

  lemma ExtendOpen(current: string, open: seq<string>, para: string, maxChars: nat)
    requires OpenShape(current, open, maxChars) && current != "" && |current| + |para| <= maxChars
    ensures OpenShape(current + "\n\n" + para, open + [para], maxChars)
  {
    assert open != [];
    JoinSnoc(open, para);
    NonEmptyAppend(open, [para]);
  }

  lemma ExtendCoverage(groups: seq<seq<string>>, open: seq<string>, seen: seq<string>, para: string)
    requires Coverage(groups, open, seen)
    ensures Coverage(groups, open + [para], seen + [para])
  {
    NonEmptyAppend(seen, [para]);
    assert Flatten(groups) + (open + [para]) == Flatten(groups) + open + [para];
    NonEmptyAppend(Flatten(groups) + open, [para]);
  }

  /** Starting the chunk with `para` when the chunk being built is empty. */
  lemma RestartInvariant(st: Packer, seen: seq<string>, para: string, maxChars: nat)
    requires PackInvariant(st, seen, maxChars) && st.current == ""
    ensures PackInvariant(Packer(st.chunks, para, st.groups, [para]), seen + [para], maxChars)
  {
    NonEmptySingle(para);
    JoinEmpty(st.open);
    RestartCoverage(st.groups, st.open, seen, para);
  }

  lemma RestartCoverage(groups: seq<seq<string>>, open: seq<string>, seen: seq<string>, para: string)
    requires Coverage(groups, open, seen) && NonEmpty(open) == []
    ensures Coverage(groups, [para], seen + [para])
  {
    NonEmptyAppend(seen, [para]);
    NonEmptyAppend(Flatten(groups), open);
    NonEmptyAppend(Flatten(groups), [para]);
  }

  lemma ClosedGroups(chunks: seq<string>, groups: seq<seq<string>>, current: string, open: seq<string>, maxChars: nat)
    requires GroupsShape(chunks, groups, maxChars) && OpenShape(current, open, maxChars)
    ensures GroupsShape(chunks + [Strip(current)], groups + [open], maxChars)
  {
    OpenFits(current, open, maxChars);
    GroupsSnoc(chunks, groups, Strip(current), open, maxChars);
  }

  lemma GroupsSnoc(chunks: seq<string>, groups: seq<seq<string>>, c: string, g: seq<string>, maxChars: nat)
    requires GroupsShape(chunks, groups, maxChars) && ChunkFits(c, g, maxChars)
    ensures GroupsShape(chunks + [c], groups + [g], maxChars)
  {
    var cs, gs := chunks + [c], groups + [g];
    forall k | 0 <= k < |gs| ensures ChunkFits(cs[k], gs[k], maxChars) {
      if k < |groups| {
        assert cs[k] == chunks[k] && gs[k] == groups[k];
      } else {
        assert cs[k] == c && gs[k] == g;
      }
    }
  }

  lemma OpenFits(current: string, open: seq<string>, maxChars: nat)
    requires OpenShape(current, open, maxChars)
    ensures ChunkFits(Strip(current), open, maxChars)
  {
  }

  lemma {:induction false} PackAllInvariant(paras: seq<string>, maxChars: nat)
    ensures PackInvariant(PackAll(paras, maxChars), paras, maxChars)
  {
    if paras == [] {
    } else {
      var init, last := paras[..|paras| - 1], paras[|paras| - 1];
      assert init + [last] == paras;
      PackAllInvariant(init, maxChars);
      PackStepInvariant(PackAll(init, maxChars), init, last, paras, maxChars);
    }
  }

  /** Content within the limit is one chunk, unchanged. */
  lemma ShortContentOneChunk(content: string, maxChars: nat)
    requires maxChars > 0 && |content| <= maxChars
    ensures Chunks(content, maxChars) == [content]
  {
  }

  /** Longer content is cut at paragraph breaks into groups of paragraphs: chunk `k`
      is group `k` joined by blank lines and stripped; the groups hold every
      non-empty paragraph exactly once, in order; and a chunk made of two or more
      paragraphs is at most two characters over the limit (the separator is not
      counted), while a chunk of one paragraph may be any length. */
  lemma LongContentChunks(content: string, maxChars: nat)
    requires maxChars > 0 && |content| > maxChars
    requires NonEmpty(Paragraphs(content)) != []
    ensures var groups := FinishGroups(PackAll(Paragraphs(content), maxChars));
            var chunks := Chunks(content, maxChars);
            && |chunks| == |groups|
            && (forall k :: 0 <= k < |groups| ==> chunks[k] == Strip(JoinWith(groups[k], "\n\n")))
            && (forall k :: 0 <= k < |groups| ==> |groups[k]| >= 2 ==> |JoinWith(groups[k], "\n\n")| <= maxChars + 2)
            && NonEmpty(Flatten(groups)) == NonEmpty(Paragraphs(content))
  {
    LongContentGroups(content, maxChars);
    ShapeMeans(Chunks(content, maxChars), FinishGroups(PackAll(Paragraphs(content), maxChars)), maxChars);
  }

  lemma LongContentGroups(content: string, maxChars: nat)
    requires maxChars > 0 && |content| > maxChars
    requires NonEmpty(Paragraphs(content)) != []
    ensures GroupsShape(Chunks(content, maxChars), FinishGroups(PackAll(Paragraphs(content), maxChars)), maxChars)
    ensures NonEmpty(Flatten(FinishGroups(PackAll(Paragraphs(content), maxChars)))) == NonEmpty(Paragraphs(content))
  {
    var paras := Paragraphs(content);
    var st := PackAll(paras, maxChars);
    PackAllInvariant(paras, maxChars);
    if st.current != "" {
      ClosedGroups(st.chunks, st.groups, st.current, st.open, maxChars);
      FlattenSnoc(st.groups, st.open);
    } else {
      JoinEmpty(st.open);
      NonEmptyAppend(Flatten(st.groups), st.open);
      assert st.groups != [];
    }
  }

  lemma ShapeMeans(chunks: seq<string>, groups: seq<seq<string>>, maxChars: nat)
    requires GroupsShape(chunks, groups, maxChars)
    ensures |chunks| == |groups|
    ensures forall k :: 0 <= k < |groups| ==> chunks[k] == Strip(JoinWith(groups[k], "\n\n"))
    ensures forall k :: 0 <= k < |groups| ==> |groups[k]| >= 2 ==> |JoinWith(groups[k], "\n\n")| <= maxChars + 2
  {
    forall k | 0 <= k < |groups| ensures chunks[k] == Strip(JoinWith(groups[k], "\n\n")) {
      assert ChunkFits(chunks[k], groups[k], maxChars);
    }
  }

  /** When every paragraph is empty nothing is packed, and the content is cut into
      slices of the limit's length that put back together give the content. */
  lemma FallbackSlices(content: string, maxChars: nat)
    requires maxChars > 0 && |content| > maxChars
    requires NonEmpty(Paragraphs(content)) == []
    ensures Chunks(content, maxChars) == Slices(content, maxChars)
    ensures Concat(Chunks(content, maxChars)) == content
    ensures forall k :: 0 <= k < |Chunks(content, maxChars)| ==> 0 < |Chunks(content, maxChars)[k]| <= maxChars
  {
    var paras := Paragraphs(content);
    var st := PackAll(paras, maxChars);
    PackAllInvariant(paras, maxChars);
    NonEmptyAppend(Flatten(st.groups), st.open);
  }

  // ---------------------------------------------------------------- examples

  /** The blank line between "ab" and " " is one break; the text after it is a
      paragraph of its own. */
  lemma ParagraphsExample()
    ensures Paragraphs("ab\n\n ") == ["ab", " "]
  {
    var s := "ab\n\n ";
    assert BreakEnd(s, 0).None?;
    assert BreakEnd(s, 1).None?;
    assert SpaceRunEnd(s, 3) == 5;
    assert LastNewline(s, 3, 5) == Some(3);
    assert BreakEnd(s, 2) == Some(4);
    assert s[4..] == " ";
    assert SplitFrom(s, 4, 5) == ([" "], []);
    assert SplitFrom(s, 4, 4) == ([" "], []);
    assert s[0..2] == "ab";
    assert SplitFrom(s, 0, 2).0 == ["ab", " "];
    assert SplitFrom(s, 0, 0) == SplitFrom(s, 0, 1) == SplitFrom(s, 0, 2);
  }
  lemma PackExample()
    ensures Finish(PackAll(["ab", " "], 1)) == ["ab", ""]
  {
    var ps := ["ab", " "];
    PackFirstExample(ps);
    StripWord();
    PackSecondExample(PackAll(ps[..1], 1), PackAll(ps, 1));
  }

  lemma StripWord()
    ensures Strip("ab") == "ab"
  {
    StripTrimmed("ab");
  }

  lemma PackFirstExample(ps: seq<string>)
    requires ps == ["ab", " "]
    ensures PackAll(ps[..1], 1) == Packer([], "ab", [], ["ab"])
  {
    PackAllSnoc(ps, 0, 1);
    assert ps[..0] == [];
  }

  lemma PackSecondExample(s1: Packer, s2: Packer)
    requires s1 == Packer([], "ab", [], ["ab"]) && Strip("ab") == "ab"
    requires s2 == PackStep(s1, " ", 1)
    ensures Finish(s2) == ["ab", ""]
  {
    assert s2 == Packer(["ab"], " ", [["ab"]], [" "]);
    assert AllSpace(" ");
  }

  /** A whitespace-only last paragraph is saved as a chunk and strip() empties it,
      so a chunk can be the empty string. */
  lemma EmptyChunkExample()
    ensures Chunks("ab\n\n ", 1) == ["ab", ""]
  {
    ParagraphsExample();
    PackExample();
  }
}
