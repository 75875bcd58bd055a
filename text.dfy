/** ASCII models of the Python string operations the flashcard pipeline relies on:
    whitespace, strip(), split(), ' '.join(), replace(), lower(), startswith(), `in`. */
module Text {

  datatype Option<+T> = None | Some(value: T)

  /** Python's str.isspace restricted to ASCII: space, \t \n \v \f \r and the
      separators \x1c..\x1f. This is also what `\s` matches in a `re` pattern. */
  predicate IsSpace(c: char) {
    var n := c as int;
    n == 32 || 9 <= n <= 13 || 28 <= n <= 31
  }

  /** What `\w` matches, restricted to ASCII. */
  predicate IsWordChar(c: char) {
    ('a' <= c <= 'z') || ('A' <= c <= 'Z') || ('0' <= c <= '9') || c == '_'
  }

  predicate AllSpace(s: string) {
    forall i :: 0 <= i < |s| ==> IsSpace(s[i])
  }

  predicate NoSpace(s: string) {
    forall i :: 0 <= i < |s| ==> !IsSpace(s[i])
  }

  /** Neither end of `s` is whitespace. */
  predicate Trimmed(s: string) {
    s == [] || (!IsSpace(s[0]) && !IsSpace(s[|s| - 1]))
  }

  /** The shape of `' '.join(x.split())`: trimmed, and the only whitespace is a
      single space with a non-space character on each side. */
  ghost predicate Normalized(s: string) {
    && Trimmed(s)
    && (forall i :: 0 <= i < |s| && IsSpace(s[i]) ==> s[i] == ' ')
    && NoAdjacentSpaces(s)
  }

  ghost predicate NoAdjacentSpaces(s: string) {
    forall i, j :: 0 <= i < j < |s| && j == i + 1 ==> !(IsSpace(s[i]) && IsSpace(s[j]))
  }

  predicate StartsWith(s: string, p: string) {
    |p| <= |s| && s[..|p|] == p
  }

  /** A string does not start with a prefix whose first character differs from its own. */
  lemma DiffersAtStart(s: string, p: string)
    requires s != [] && p != [] && s[0] != p[0]
    ensures !StartsWith(s, p)
  {
    if |p| <= |s| { assert s[..|p|][0] == s[0]; }
  }

  /** Python's `p in s` for strings. */
  predicate Contains(s: string, p: string)
    decreases |s|
  {
    StartsWith(s, p) || (s != [] && Contains(s[1..], p))
  }

  // ---------------------------------------------------------------- strip

  /** Where the whitespace that starts at `i` ends. */
  function SkipLeading(s: string, i: nat): (k: nat)
    requires i <= |s|
    ensures i <= k <= |s| && (k == |s| || !IsSpace(s[k]))
    ensures forall m :: i <= m < k ==> IsSpace(s[m])
    decreases |s| - i
  {
    if i < |s| && IsSpace(s[i]) then SkipLeading(s, i + 1) else i
  }

  /** Where the whitespace that ends at `j` starts. */
  function SkipTrailing(s: string, j: nat): (e: nat)
    requires j <= |s|
    ensures e <= j && (e == 0 || !IsSpace(s[e - 1]))
    ensures forall m :: e <= m < j ==> IsSpace(s[m])
  {
    if j > 0 && IsSpace(s[j - 1]) then SkipTrailing(s, j - 1) else j
  }

  /** str.strip(): the text between the leading and the trailing whitespace;
      `StripIsInfix` states that only those margins go. */
  function Strip(s: string): (r: string)
    ensures Trimmed(r)
    ensures |r| <= |s|
    ensures r == [] <==> AllSpace(s)
  {
    var k, e := SkipLeading(s, 0), SkipTrailing(s, |s|);
    if k < e then
      assert !AllSpace(s) by { assert !IsSpace(s[k]); }
      s[k..e]
    else
      assert k == |s|;
      []
  }

  lemma StripTrimmed(s: string)
    requires Trimmed(s)
    ensures Strip(s) == s
  {
    if s != [] {
      assert SkipLeading(s, 0) == 0 && SkipTrailing(s, |s|) == |s|;
      assert s[0..|s|] == s;
    }
  }

  /** Strip keeps a contiguous piece of its argument and drops only whitespace
      before and after it; with `Trimmed` this pins the result down. */
  lemma StripIsInfix(s: string) returns (k: nat)
    ensures k + |Strip(s)| <= |s|
    ensures forall i :: 0 <= i < |Strip(s)| ==> Strip(s)[i] == s[k + i]
    ensures forall i :: 0 <= i < k ==> IsSpace(s[i])
    ensures forall i :: k + |Strip(s)| <= i < |s| ==> IsSpace(s[i])
  {
    k := SkipLeading(s, 0);
    var e := SkipTrailing(s, |s|);
    if e <= k {
      assert k == |s|;
    }
  }

  // ---------------------------------------------------------------- split and join

  /** The longest prefix of `s` without whitespace. */
  function TakeWord(s: string): (w: string)
    ensures |w| <= |s| && w == s[..|w|]
    ensures NoSpace(w)
    ensures |w| == |s| || IsSpace(s[|w|])
  {
    if s == [] || IsSpace(s[0]) then [] else [s[0]] + TakeWord(s[1..])
  }

  /** str.split() with no argument: the maximal runs of non-whitespace, in order. */
  function Words(s: string): (ws: seq<string>)
    ensures forall i :: 0 <= i < |ws| ==> ws[i] != [] && NoSpace(ws[i])
    decreases |s|
  {
    if s == [] then []
    else if IsSpace(s[0]) then Words(s[1..])
    else
      var w := TakeWord(s);
      assert w[0] == s[0];
      [w] + Words(s[|w|..])
  }

  /** str.split() finds no word exactly in an all-whitespace string. */
  lemma {:induction false} WordsEmpty(s: string)
    ensures Words(s) == [] <==> AllSpace(s)
    decreases |s|
  {
    if s != [] && IsSpace(s[0]) {
      WordsEmpty(s[1..]);
      assert AllSpace(s) <==> AllSpace(s[1..]) by {
        assert forall i :: 1 <= i < |s| ==> s[i] == s[1..][i - 1];
      }
    }
  }

  /** sep.join(parts). */
  function JoinWith(parts: seq<string>, sep: string): string
  {
    if |parts| == 0 then ""
    else if |parts| == 1 then parts[0]
    else parts[0] + sep + JoinWith(parts[1..], sep)
  }

  lemma {:induction false} JoinWithCons(p: string, rest: seq<string>, sep: string)
    requires rest != []
    ensures JoinWith([p] + rest, sep) == p + sep + JoinWith(rest, sep)
  {
    assert ([p] + rest)[1..] == rest;
  }

  lemma {:induction false} JoinWithNonEmpty(parts: seq<string>, sep: string)
    requires parts != [] && parts[0] != []
    ensures JoinWith(parts, sep) != [] && JoinWith(parts, sep)[0] == parts[0][0]
  {
  }

  /** Joining non-empty words with single spaces gives a normalized string. */
  lemma {:induction false} JoinWordsNormalized(ws: seq<string>)
    requires forall i :: 0 <= i < |ws| ==> ws[i] != [] && NoSpace(ws[i])
    ensures Normalized(JoinWith(ws, " "))
  {
    if |ws| >= 2 {
      var rest := JoinWith(ws[1..], " ");
      JoinWordsNormalized(ws[1..]);
      JoinWithNonEmpty(ws[1..], " ");
      var w := ws[0];
      var s := w + " " + rest;
      assert JoinWith(ws, " ") == s;
      forall i | 0 <= i < |s| && IsSpace(s[i]) ensures s[i] == ' ' {
        if i > |w| { assert s[i] == rest[i - |w| - 1]; }
      }
      forall i, j | 0 <= i < j < |s| && j == i + 1 ensures !(IsSpace(s[i]) && IsSpace(s[j])) {
        if i == |w| {
          assert s[j] == rest[0];
        } else if i > |w| {
          assert s[i] == rest[i - |w| - 1] && s[j] == rest[j - |w| - 1];
        } else if j == |w| {
          assert s[i] == w[i];
        } else {
          assert s[i] == w[i];
        }
      }
      assert s[|s| - 1] == rest[|rest| - 1];
    }
  }

  /** `' '.join(s.split())` always yields a normalized string. */
  lemma WordsJoinNormalized(s: string)
    ensures Normalized(JoinWith(Words(s), " "))
  {
    JoinWordsNormalized(Words(s));
  }

  /** The part of a normalized string after one of its spaces is normalized. */
  lemma NormalizedAfterSpace(s: string, k: nat)
    requires Normalized(s) && k < |s| && IsSpace(s[k])
    ensures s[k] == ' ' && 0 < k < |s| - 1
    ensures Normalized(s[k + 1..]) && !IsSpace(s[k + 1])
  {
    var t := s[k + 1..];
    assert !IsSpace(s[k + 1]) by {
      assert 0 <= k && k + 1 == k + 1 && k + 1 < |s|;
    }
    forall i | 0 <= i < |t| && IsSpace(t[i]) ensures t[i] == ' ' {
      assert t[i] == s[k + 1 + i];
    }
    forall i, j | 0 <= i < j < |t| && j == i + 1 ensures !(IsSpace(t[i]) && IsSpace(t[j])) {
      assert t[i] == s[k + 1 + i] && t[j] == s[k + 1 + j];
    }
    assert t[|t| - 1] == s[|s| - 1];
  }

  lemma WordsOfWordFirst(s: string)
    requires s != [] && !IsSpace(s[0])
    ensures Words(s) == [TakeWord(s)] + Words(s[|TakeWord(s)|..])
  {
  }

  lemma WordsSkipSpace(s: string, k: nat)
    requires k < |s| && IsSpace(s[k])
    ensures Words(s[k..]) == Words(s[k + 1..])
  {
    assert s[k..][1..] == s[k + 1..];
  }

  /** Where the first word ends in one space followed by a word character, the
      words are that word and the words of the rest. */
  lemma WordsSplitAtSpace(s: string, k: nat)
    requires s != [] && !IsSpace(s[0]) && k == |TakeWord(s)|
    requires k + 1 < |s| && IsSpace(s[k]) && !IsSpace(s[k + 1])
    ensures Words(s) == [TakeWord(s)] + Words(s[k + 1..])
    ensures Words(s[k + 1..]) != []
    ensures s[k] == ' ' ==> s == TakeWord(s) + " " + s[k + 1..]
  {
    var w, t := TakeWord(s), s[k + 1..];
    WordsOfWordFirst(s);
    WordsSkipSpace(s, k);
    WordsOfWordFirst(t);
    if s[k] == ' ' {
      SplitAround(s, k);
      assert [s[k]] == " ";
    }
  }

  lemma SplitAround(s: string, k: nat)
    requires k < |s|
    ensures s == s[..k] + [s[k]] + s[k + 1..]
  {
  }

  /** On a string that is already normalized, `' '.join(s.split())` changes nothing. */
  lemma {:induction false} NormalizedWordsJoin(s: string)
    requires Normalized(s)
    ensures JoinWith(Words(s), " ") == s
    decreases |s|
  {
    if s != [] {
      var w := TakeWord(s);
      WordsOfWordFirst(s);
      if |w| < |s| {
        var k := |w|;
        NormalizedAfterSpace(s, k);
        var t := s[k + 1..];
        WordsSplitAtSpace(s, k);
        NormalizedWordsJoin(t);
        JoinWithCons(w, Words(t), " ");
      } else {
        SingleWord(s);
      }
    }
  }

  lemma SingleWord(s: string)
    requires s != [] && |TakeWord(s)| == |s|
    ensures JoinWith(Words(s), " ") == s
  {
    WordsOfWordFirst(s);
    assert s[|s|..] == [];
  }

  // ---------------------------------------------------------------- replace

  /** str.replace(pat, rep): every non-overlapping occurrence of `pat`, scanning
      from the left, is replaced by `rep`. */
  function ReplaceAll(s: string, pat: string, rep: string): string
    requires pat != []
    decreases |s|
  {
    if |s| < |pat| then s
    else if s[..|pat|] == pat then rep + ReplaceAll(s[|pat|..], pat, rep)
    else [s[0]] + ReplaceAll(s[1..], pat, rep)
  }

  /** One step of a single-character replace. */
  lemma ReplaceCharCons(d: char, rest: string, c: char, rep: string)
    ensures ReplaceAll([d] + rest, [c], rep) == (if d == c then rep else [d]) + ReplaceAll(rest, [c], rep)
  {
    assert ([d] + rest)[..1] == [d] && ([d] + rest)[1..] == rest;
  }

  /** Replacing a pattern by itself changes nothing. */
  lemma {:induction false} ReplaceWithItself(s: string, pat: string)
    requires pat != []
    ensures ReplaceAll(s, pat, pat) == s
    decreases |s|
  {
    if |s| >= |pat| {
      if s[..|pat|] == pat {
        ReplaceWithItself(s[|pat|..], pat);
        assert s == pat + s[|pat|..];
      } else {
        ReplaceWithItself(s[1..], pat);
        assert s == [s[0]] + s[1..];
      }
    }
  }

  /** Replacing a character that does not occur changes nothing. */
  lemma {:induction false} ReplaceAbsentChar(s: string, c: char, rep: string)
    requires c !in s
    ensures ReplaceAll(s, [c], rep) == s
    decreases |s|
  {
    if s != [] {
      assert s[..1] != [c] by { assert s[0] != c; }
      ReplaceAbsentChar(s[1..], c, rep);
      assert s == [s[0]] + s[1..];
    }
  }

  /** Every character after a one-character replace comes from the input (and is
      not the replaced one) or from the replacement. */
  lemma {:induction false} ReplaceCharFootprint(s: string, c: char, rep: string, d: char)
    ensures d in ReplaceAll(s, [c], rep) ==> (d in s && d != c) || d in rep
    decreases |s|
  {
    if s != [] {
      ReplaceCharFootprint(s[1..], c, rep, d);
      if s[..1] == [c] {
        assert s[0] == c;
      } else {
        assert s[0] != c;
      }
    }
  }

  /** A one-character replace distributes over concatenation. */
  lemma {:induction false} ReplaceCharAppend(a: string, b: string, c: char, rep: string)
    ensures ReplaceAll(a + b, [c], rep) == ReplaceAll(a, [c], rep) + ReplaceAll(b, [c], rep)
    decreases |a|
  {
    if a != [] {
      assert (a + b)[1..] == a[1..] + b;
      assert (a + b)[..1] == a[..1];
      ReplaceCharAppend(a[1..], b, c, rep);
      if a[..1] == [c] {
        assert ReplaceAll(a, [c], rep) == rep + ReplaceAll(a[1..], [c], rep);
        assert ReplaceAll(a + b, [c], rep) == rep + ReplaceAll(a[1..] + b, [c], rep);
      } else {
        assert ReplaceAll(a, [c], rep) == [a[0]] + ReplaceAll(a[1..], [c], rep);
        assert ReplaceAll(a + b, [c], rep) == [a[0]] + ReplaceAll(a[1..] + b, [c], rep);
      }
    } else {
      assert a + b == b;
    }
  }

  lemma {:induction false} ReplaceCharNoSpace(w: string, c: char, rep: string)
    requires NoSpace(w) && NoSpace(rep)
    ensures NoSpace(ReplaceAll(w, [c], rep))
    decreases |w|
  {
    if w != [] {
      ReplaceCharNoSpace(w[1..], c, rep);
    }
  }

  lemma {:induction false} ReplaceCharNonEmpty(w: string, c: char, rep: string)
    requires w != [] && rep != []
    ensures ReplaceAll(w, [c], rep) != []
  {
  }

  /** Replacing a non-space character by a non-empty word keeps a joined word
      list a joined word list. */
  lemma {:induction false} ReplaceInJoinedWords(ws: seq<string>, c: char, rep: string) returns (ws': seq<string>)
    requires !IsSpace(c) && rep != [] && NoSpace(rep)
    requires forall i :: 0 <= i < |ws| ==> ws[i] != [] && NoSpace(ws[i])
    ensures forall i :: 0 <= i < |ws'| ==> ws'[i] != [] && NoSpace(ws'[i])
    ensures ReplaceAll(JoinWith(ws, " "), [c], rep) == JoinWith(ws', " ")
    decreases |ws|
  {
    if |ws| == 0 {
      ws' := [];
    } else if |ws| == 1 {
      ReplaceCharNoSpace(ws[0], c, rep);
      ReplaceCharNonEmpty(ws[0], c, rep);
      ws' := [ReplaceAll(ws[0], [c], rep)];
    } else {
      var tail := ReplaceInJoinedWords(ws[1..], c, rep);
      var head := ReplaceAll(ws[0], [c], rep);
      ReplaceCharNoSpace(ws[0], c, rep);
      ReplaceCharNonEmpty(ws[0], c, rep);
      ReplaceAcrossSpace(ws[0], JoinWith(ws[1..], " "), c, rep);
      ws' := [head] + tail;
      assert tail != [] by {
        if tail == [] {
          assert JoinWith(tail, " ") == "";
          JoinWithNonEmpty(ws[1..], " ");
          ReplaceCharNonEmpty(JoinWith(ws[1..], " "), c, rep);
        }
      }
      JoinWithCons(head, tail, " ");
    }
  }

  /** A one-character replace of a non-space character leaves a joining space alone. */
  lemma ReplaceAcrossSpace(w: string, rest: string, c: char, rep: string)
    requires !IsSpace(c)
    ensures ReplaceAll(w + " " + rest, [c], rep) == ReplaceAll(w, [c], rep) + " " + ReplaceAll(rest, [c], rep)
  {
    ReplaceCharAppend(w, " " + rest, c, rep);
    ReplaceCharAppend(" ", rest, c, rep);
    ReplaceAbsentChar(" ", c, rep);
    assert w + " " + rest == w + (" " + rest);
  }

  /** A normalized string stays normalized when a non-space character is
      replaced by a non-empty word in which no whitespace occurs. */
  lemma ReplaceKeepsNormalized(s: string, c: char, rep: string)
    requires Normalized(s)
    requires !IsSpace(c) && rep != [] && NoSpace(rep)
    ensures Normalized(ReplaceAll(s, [c], rep))
  {
    NormalizedWordsJoin(s);
    var ws' := ReplaceInJoinedWords(Words(s), c, rep);
    JoinWordsNormalized(ws');
  }

  // ---------------------------------------------------------------- other helpers

  function LowerChar(c: char): char {
    if 'A' <= c <= 'Z' then (c as int + 32) as char else c
  }

  /** str.lower() on ASCII letters. */
  function Lower(s: string): (r: string)
    ensures |r| == |s|
    ensures forall i :: 0 <= i < |s| ==> r[i] == LowerChar(s[i])
  {
    seq(|s|, i requires 0 <= i < |s| => LowerChar(s[i]))
  }

  /** A character that no position holds is not in the string. */
  lemma NotIn(c: char, s: string)
    requires forall i :: 0 <= i < |s| ==> s[i] != c
    ensures c !in s
  {
  }

  /** A string lower-cases to `t` when each character does. */
  lemma LowerMatches(s: string, t: string)
    requires |s| == |t| && forall i :: 0 <= i < |s| ==> LowerChar(s[i]) == t[i]
    ensures Lower(s) == t
  {
  }

  /** The drop point of a pattern such as `^[abc\s]+`: the leading run of characters
      satisfying `inClass` is removed. */
  function DropLeading(s: string, inClass: char -> bool): (r: string)
    ensures |r| <= |s| && r == s[|s| - |r|..]
    ensures forall i :: 0 <= i < |s| - |r| ==> inClass(s[i])
    ensures r == [] || !inClass(r[0])
  {
    if s != [] && inClass(s[0]) then
      var r := DropLeading(s[1..], inClass);
      assert s[1..][|s| - 1 - |r|..] == s[|s| - |r|..];
      r
    else s
  }

  /** The index of the first occurrence of `c`. */
  function IndexOf(s: string, c: char): (i: nat)
    requires c in s
    ensures i < |s| && s[i] == c && c !in s[..i]
    ensures forall k :: 0 <= k < i ==> s[k] != c
  {
    if s[0] == c then 0 else 1 + IndexOf(s[1..], c)
  }

  /** s.split(c) for one character: the pieces between occurrences of `c`. */
  function SplitOn(s: string, c: char): (parts: seq<string>)
    ensures |parts| >= 1
    ensures forall i :: 0 <= i < |parts| ==> c !in parts[i]
    ensures JoinWith(parts, [c]) == s
    decreases |s|
  {
    if c !in s then [s]
    else
      var i := IndexOf(s, c);
      var rest := SplitOn(s[i + 1..], c);
      JoinWithCons(s[..i], rest, [c]);
      assert s == s[..i] + [c] + s[i + 1..];
      [s[..i]] + rest
  }

  /** split is the only way to cut `s` at `c` into pieces without `c`. */
  lemma {:induction false} SplitOnUnique(s: string, c: char, parts: seq<string>)
    requires |parts| >= 1 && forall i :: 0 <= i < |parts| ==> c !in parts[i]
    requires JoinWith(parts, [c]) == s
    ensures SplitOn(s, c) == parts
    decreases |parts|
  {
    if |parts| == 1 {
    } else {
      var p := parts[0];
      var rest := parts[1..];
      JoinWithCons(p, rest, [c]);
      assert parts == [p] + rest;
      assert s == p + [c] + JoinWith(rest, [c]);
      assert s[|p|] == c;
      var i := IndexOf(s, c);
      assert i == |p|;
      assert s[i + 1..] == JoinWith(rest, [c]);
      SplitOnUnique(s[i + 1..], c, rest);
      assert s[..i] == p;
    }
  }

  function DigitChar(d: nat): char
    requires d < 10
  {
    ('0' as int + d) as char
  }

  /** str(n) for a natural number: its decimal digits. */
  function NatToString(n: nat): (r: string)
    ensures r != [] && forall i :: 0 <= i < |r| ==> '0' <= r[i] <= '9'
  {
    if n < 10 then [DigitChar(n)] else NatToString(n / 10) + [DigitChar(n % 10)]
  }

  function Concat(parts: seq<string>): string
  {
    if parts == [] then "" else parts[0] + Concat(parts[1..])
  }
}
