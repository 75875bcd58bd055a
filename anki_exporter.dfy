/** The Anki side of the pipeline: `_clean_text_for_anki`, which turns a card's
    text into one CSV cell, and the row selection of `export_to_csv`. */
module AnkiExport {
  import opened Text

  // ================================================================ cell cleaning

  /** The two replace calls that escape the angle brackets. */
  function Escaped(s: string): string {
    ReplaceAll(ReplaceAll(s, "<", "&lt;"), ">", "&gt;")
  }

  /** The first two stages: newlines turned into `<br>`, then `' '.join(text.split())`. */
  function Spaced(text: string): string {
    JoinWith(Words(ReplaceAll(text, "\n", "<br>")), " ")
  }

  /** `_clean_text_for_anki`: newlines become `<br>`, whitespace is normalized,
      `<` and `>` are escaped, the `<br>`-for-`<br>` replace runs, and the result is
      stripped. */
  function CleanForAnki(text: string): string {
    if text == "" then ""
    else Strip(ReplaceAll(Escaped(Spaced(text)), "<br>", "<br>"))
  }

  /** A one-character replace brings in the first character of its replacement
      wherever the replaced character occurs. */
  lemma {:induction false} ReplaceCharIntroduces(s: string, c: char, rep: string)
    requires c in s && rep != []
    ensures rep[0] in ReplaceAll(s, [c], rep)
    decreases |s|
  {
    if s[..1] != [c] {
      assert s[0] != c;
      ReplaceCharIntroduces(s[1..], c, rep);
    }
  }

  /** After escaping, no angle bracket is left. */
  lemma EscapedNoBrackets(s: string)
    ensures '<' !in Escaped(s) && '>' !in Escaped(s)
  {
    var lt := ReplaceAll(s, "<", "&lt;");
    ReplaceCharFootprint(s, '<', "&lt;", '<');
    ReplaceCharFootprint(lt, '>', "&gt;", '<');
    ReplaceCharFootprint(lt, '>', "&gt;", '>');
  }

  /** Escaping keeps a normalized string normalized. */
  lemma EscapedNormalized(s: string)
    requires Normalized(s)
    ensures Normalized(Escaped(s))
  {
    assert NoSpace("&lt;") && NoSpace("&gt;");
    ReplaceKeepsNormalized(s, '<', "&lt;");
    ReplaceKeepsNormalized(ReplaceAll(s, "<", "&lt;"), '>', "&gt;");
  }

  /** Escaping changes nothing in a string without angle brackets. */
  lemma EscapedIdentity(s: string)
    requires '<' !in s && '>' !in s
    ensures Escaped(s) == s
  {
    ReplaceAbsentChar(s, '<', "&lt;");
    ReplaceAbsentChar(s, '>', "&gt;");
  }

  /** Escaping empties exactly the empty string. */
  lemma EscapedEmpty(s: string)
    ensures Escaped(s) == [] <==> s == []
  {
    if s != [] {
      ReplaceCharNonEmpty(s, '<', "&lt;");
      ReplaceCharNonEmpty(ReplaceAll(s, "<", "&lt;"), '>', "&gt;");
    }
  }

  /** On non-empty text the cleaner is the escaped, whitespace-normalized text:
      the `<br>` replace and the final strip change nothing. */
  lemma CleanUnfold(text: string)
    requires text != ""
    ensures CleanForAnki(text) == Escaped(Spaced(text))
    ensures Normalized(CleanForAnki(text))
  {
    WordsJoinNormalized(ReplaceAll(text, "\n", "<br>"));
    EscapedNormalized(Spaced(text));
    ReplaceWithItself(Escaped(Spaced(text)), "<br>");
    StripTrimmed(Escaped(Spaced(text)));
  }

  /** A cleaned cell contains no `<` and no `>`: the `<br>` markers are escaped
      along with everything else. */
  lemma CleanNoAngleBrackets(text: string)
    ensures '<' !in CleanForAnki(text) && '>' !in CleanForAnki(text)
  {
    if text != "" {
      CleanUnfold(text);
      EscapedNoBrackets(Spaced(text));
    }
  }

  /** A cleaned cell is stripped, and its only whitespace is single spaces between
      non-space characters. */
  lemma CleanNormalized(text: string)
    ensures Normalized(CleanForAnki(text))
  {
    if text != "" {
      CleanUnfold(text);
    }
  }

  /** The normalized text is empty exactly when there is no word and no newline. */
  lemma SpacedEmptyIff(text: string)
    ensures Spaced(text) == "" <==> AllSpace(text) && '\n' !in text
  {
    var w := ReplaceAll(text, "\n", "<br>");
    if '\n' in text {
      ReplaceCharIntroduces(text, '\n', "<br>");
      var k :| 0 <= k < |w| && w[k] == '<';
      assert !IsSpace(w[k]);
    } else {
      ReplaceAbsentChar(text, '\n', "<br>");
    }
    WordsEmpty(w);
    if Words(w) != [] {
      JoinWithNonEmpty(Words(w), " ");
    }
  }

  /** A cleaned cell is empty exactly when the text is all whitespace without a
      newline; a newline alone already yields a non-empty cell. */
  lemma CleanEmptyIff(text: string)
    ensures CleanForAnki(text) == "" <==> AllSpace(text) && '\n' !in text
  {
    if text != "" {
      CleanUnfold(text);
      SpacedEmptyIff(text);
      EscapedEmpty(Spaced(text));
    }
  }

  /** The only whitespace a normalized string holds is spaces. */
  lemma NormalizedNoNewline(s: string)
    requires Normalized(s)
    ensures '\n' !in s
  {
    forall i | 0 <= i < |s| ensures s[i] != '\n' {
      if IsSpace(s[i]) { assert s[i] == ' '; }
    }
  }

  /** Cleaning a cleaned cell changes nothing. */
  lemma CleanIdempotent(text: string)
    ensures CleanForAnki(CleanForAnki(text)) == CleanForAnki(text)
  {
    var y := CleanForAnki(text);
    if y != "" {
      CleanNormalized(text);
      CleanNoAngleBrackets(text);
      NormalizedNoNewline(y);
      ReplaceAbsentChar(y, '\n', "<br>");
      NormalizedWordsJoin(y);
      assert Spaced(y) == y;
      EscapedIdentity(y);
      CleanUnfold(y);
    }
  }

  lemma SpacedNewline()
    ensures Spaced("\n") == "<br>"
  {
    var w := ReplaceAll("\n", "\n", "<br>");
    assert w == "<br>";
    assert TakeWord(w) == w;
    SingleWord(w);
  }

  /** A tag around bracket-free text has just its two brackets escaped. */
  lemma EscapedTag(w: string)
    requires '<' !in w && '>' !in w
    ensures Escaped("<" + w + ">") == "&lt;" + w + "&gt;"
  {
    ReplaceCharAppend("<" + w, ">", '<', "&lt;");
    ReplaceCharAppend("<", w, '<', "&lt;");
    ReplaceCharCons('<', "", '<', "&lt;");
    ReplaceAbsentChar(w, '<', "&lt;");
    ReplaceAbsentChar(">", '<', "&lt;");
    ReplaceCharAppend("&lt;" + w, ">", '>', "&gt;");
    ReplaceCharAppend("&lt;", w, '>', "&gt;");
    NotIn('>', "&lt;");
    ReplaceAbsentChar("&lt;", '>', "&gt;");
    ReplaceAbsentChar(w, '>', "&gt;");
    ReplaceCharCons('>', "", '>', "&gt;");
  }

  lemma EscapedBreak()
    ensures Escaped("<br>") == "&lt;br&gt;"
  {
    assert "<br>" == "<" + "br" + ">";
    EscapedTag("br");
    assert "&lt;" + "br" + "&gt;" == "&lt;br&gt;";
  }

  /** A lone newline becomes an escaped line break, not an empty cell. */
  lemma CleanNewline()
    ensures CleanForAnki("\n") == "&lt;br&gt;"
  {
    CleanUnfold("\n");
    SpacedNewline();
    EscapedBreak();
  }

  // ================================================================ row selection

  /** A card as the exporter receives it: a dict of string fields. */
  type Record = map<string, string>

  /** `card.get(key, '')`. */
  function Field(card: Record, key: string): string {
    if key in card then card[key] else ""
  }

  /** One CSV row: question, answer, tags. */
  datatype Row = Row(question: string, answer: string, tags: string)

  /** What `export_to_csv` does with a card list: `NoFlashcards` is the
      `ValueError` raised on an empty list; otherwise the rows written. */
  datatype Export = NoFlashcards | Rows(rows: seq<Row>)

  /** The row written for a card, with cleaned question and answer. */
  function RowFor(card: Record): Row {
    Row(CleanForAnki(Field(card, "question")), CleanForAnki(Field(card, "answer")), Field(card, "tags"))
  }

  /** The card survives the `if question and answer` test. */
  predicate Keeps(card: Record) {
    RowFor(card).question != "" && RowFor(card).answer != ""
  }

  /** The rows the loop writes for one card: none or one. */
  function Written(card: Record): seq<Row> {
    if Keeps(card) then [RowFor(card)] else []
  }

  /** `f` applied to each element in order, the results concatenated. */
  function ConcatMap<T, U>(f: T -> seq<U>, xs: seq<T>): seq<U>
    decreases |xs|
  {
    if xs == [] then [] else ConcatMap(f, xs[..|xs| - 1]) + f(xs[|xs| - 1])
  }

  lemma {:induction false} ConcatMapAppend<T, U>(f: T -> seq<U>, a: seq<T>, b: seq<T>)
    ensures ConcatMap(f, a + b) == ConcatMap(f, a) + ConcatMap(f, b)
    decreases |b|
  {
    if b == [] {
      assert a + b == a;
    } else {
      assert (a + b)[..|a + b| - 1] == a + b[..|b| - 1] && (a + b)[|a + b| - 1] == b[|b| - 1];
      ConcatMapAppend(f, a, b[..|b| - 1]);
    }
  }

  lemma {:induction false} ConcatMapMembers<T, U>(f: T -> seq<U>, xs: seq<T>, y: U)
    ensures y in ConcatMap(f, xs) <==> exists x :: x in xs && y in f(x)
    decreases |xs|
  {
    if xs != [] {
      var init, last := xs[..|xs| - 1], xs[|xs| - 1];
      ConcatMapMembers(f, init, y);
      assert xs == init + [last];
      if y in ConcatMap(f, xs) && y !in ConcatMap(f, init) {
        assert y in f(last);
      }
      if y !in ConcatMap(f, xs) {
        forall x | x in xs ensures y !in f(x) {
          if x != last {
            assert x in init;
          }
        }
      }
    }
  }

  /** The rows written for `cards`, in input order. */
  function SelectRows(cards: seq<Record>): seq<Row> {
    ConcatMap(Written, cards)
  }

  /** The rows of the first `i + 1` cards: those of the first `i`, then card `i`'s. */
  lemma SelectRowsSnoc(cards: seq<Record>, i: nat)
    requires i < |cards|
    ensures SelectRows(cards[..i + 1]) == SelectRows(cards[..i]) + Written(cards[i])
  {
    assert cards[..i + 1][..i] == cards[..i];
  }

  /** One iteration of the loop of `export_to_csv`: the card's cleaned fields are
      written when both question and answer are non-empty. */
  method WriteCard(rows: seq<Row>, card: Record) returns (rows': seq<Row>)
    ensures rows' == rows + Written(card)
  {
    var question := CleanForAnki(Field(card, "question"));
    var answer := CleanForAnki(Field(card, "answer"));
    var tags := Field(card, "tags");
    rows' := rows;
    if question != "" && answer != "" {
      rows' := rows + [Row(question, answer, tags)];
    }
  }

  /** `export_to_csv` as a loop building the row sequence instead of writing a file. */
  method ExportToCsv(cards: seq<Record>) returns (r: Export)
    ensures r.NoFlashcards? <==> cards == []
    ensures r.Rows? ==> r.rows == SelectRows(cards)
  {
    if |cards| == 0 {
      return NoFlashcards;
    }
    var rows: seq<Row> := [];
    var i := 0;
    while i < |cards|
      invariant 0 <= i <= |cards|
      invariant rows == SelectRows(cards[..i])
    {
      SelectRowsSnoc(cards, i);
      rows := WriteCard(rows, cards[i]);
      i := i + 1;
    }
    assert cards[..|cards|] == cards;
    r := Rows(rows);
  }

  /** Row selection works card by card: the rows of two lists are the rows of the
      first followed by the rows of the second. */
  lemma SelectRowsAppend(a: seq<Record>, b: seq<Record>)
    ensures SelectRows(a + b) == SelectRows(a) + SelectRows(b)
  {
    ConcatMapAppend(Written, a, b);
  }

  /** A row is written exactly for each kept card. */
  lemma SelectRowsMembers(cards: seq<Record>, row: Row)
    ensures row in SelectRows(cards) <==> exists c :: c in cards && Keeps(c) && RowFor(c) == row
  {
    ConcatMapMembers(Written, cards, row);
    if row in SelectRows(cards) {
      var c :| c in cards && row in Written(c);
      WrittenRow(c, row);
    } else {
      forall c | c in cards && Keeps(c) ensures RowFor(c) != row {
        assert RowFor(c) in Written(c);
      }
    }
  }

  lemma WrittenRow(card: Record, row: Row)
    requires row in Written(card)
    ensures Keeps(card) && RowFor(card) == row
  {
  }

  /** Every written cell pair is non-empty, normalized and free of angle brackets. */
  lemma {:induction false} SelectRowsClean(cards: seq<Record>)
    ensures forall row <- SelectRows(cards) ::
              && row.question != "" && row.answer != ""
              && Normalized(row.question) && Normalized(row.answer)
              && '<' !in row.question && '>' !in row.question
              && '<' !in row.answer && '>' !in row.answer
    decreases |cards|
  {
    if cards != [] {
      var last := cards[|cards| - 1];
      SelectRowsClean(cards[..|cards| - 1]);
      CleanNormalized(Field(last, "question"));
      CleanNormalized(Field(last, "answer"));
      CleanNoAngleBrackets(Field(last, "question"));
      CleanNoAngleBrackets(Field(last, "answer"));
    }
  }

  /** A card whose question and answer are not blank after strip(), as both
      parsers guarantee, is always written. */
  lemma CardWithTextKept(card: Record)
    requires Strip(Field(card, "question")) != "" && Strip(Field(card, "answer")) != ""
    ensures Keeps(card)
  {
    CleanEmptyIff(Field(card, "question"));
    CleanEmptyIff(Field(card, "answer"));
  }

  /** When every card has non-blank text, one row is written per card. */
  lemma {:induction false} AllCardsWritten(cards: seq<Record>)
    requires forall c <- cards :: Strip(Field(c, "question")) != "" && Strip(Field(c, "answer")) != ""
    ensures |SelectRows(cards)| == |cards|
    decreases |cards|
  {
    if cards != [] {
      CardWithTextKept(cards[|cards| - 1]);
      AllCardsWritten(cards[..|cards| - 1]);
    }
  }
}
