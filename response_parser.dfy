/** The Response Parser of the LLM client (`_extract_flashcards_from_response` and
    `_parse_qa_format`): a structured path that reads the widest `{...}` span of the
    reply as JSON, and a line-by-line heuristic fallback for "Q:/A:" style text. */
module ResponseParser {
  import opened Text
  import opened Json

  /** A flashcard as the source returns it: a dictionary. The structured path keeps
      the model's dictionaries unchanged, extra keys included. */
  type Card = map<string, Json>

  /** What both parsing paths guarantee of every card they return: a string question
      and a string answer, neither blank after strip(). */
  predicate IsValidCard(c: Card) {
    && "question" in c && "answer" in c
    && c["question"].JString? && c["answer"].JString?
    && Strip(c["question"].str) != "" && Strip(c["answer"].str) != ""
  }

  /** Every card of the list is valid. */
  predicate AllValid(cards: seq<Card>) {
    forall k :: 0 <= k < |cards| ==> IsValidCard(cards[k])
  }

  lemma AllValidSnoc(cards: seq<Card>, c: Card)
    requires AllValid(cards) && IsValidCard(c)
    ensures AllValid(cards + [c])
  {
    EverySnoc(cards, c, IsValidCard);
  }

  lemma AllValidCons(c: Card, cards: seq<Card>)
    requires IsValidCard(c) && AllValid(cards)
    ensures AllValid([c] + cards)
  {
    EveryCons(c, cards, IsValidCard);
  }

  lemma EverySnoc<T>(xs: seq<T>, x: T, p: T -> bool)
    requires forall k :: 0 <= k < |xs| ==> p(xs[k])
    requires p(x)
    ensures forall k :: 0 <= k < |xs + [x]| ==> p((xs + [x])[k])
  {
  }

  lemma EveryCons<T>(x: T, xs: seq<T>, p: T -> bool)
    requires p(x)
    requires forall k :: 0 <= k < |xs| ==> p(xs[k])
    ensures forall k :: 0 <= k < |[x] + xs| ==> p(([x] + xs)[k])
  {
  }

  function MakeCard(q: string, a: string): Card {
    map["question" := JString(q), "answer" := JString(a)]
  }

  lemma MakeCardFields(q: string, a: string)
    ensures "question" in MakeCard(q, a) && MakeCard(q, a)["question"] == JString(q)
    ensures "answer" in MakeCard(q, a) && MakeCard(q, a)["answer"] == JString(a)
  {
    assert "question"[0] != "answer"[0];
  }

  // ================================================================ heuristic path

  /** line.startswith(('Q:', 'Domanda:', '**Q:', 'Question:')) */
  predicate IsQuestionLine(line: string) {
    StartsWith(line, "Q:") || StartsWith(line, "Domanda:") ||
    StartsWith(line, "**Q:") || StartsWith(line, "Question:")
  }

  /** line.startswith(('A:', 'Risposta:', '**A:', 'Answer:')) */
  predicate IsAnswerLine(line: string) {
    StartsWith(line, "A:") || StartsWith(line, "Risposta:") ||
    StartsWith(line, "**A:") || StartsWith(line, "Answer:")
  }

  /** line.startswith(('-', '*', '+')) */
  predicate IsBulletLine(line: string) {
    line != [] && (line[0] == '-' || line[0] == '*' || line[0] == '+')
  }

  /** The character class `[Q\*:Domanda\s]`: a set of characters, not a word. */
  predicate InQuestionClass(c: char) { c in "Q*:Domanda" || IsSpace(c) }

  /** The character class `[A\*:Risposta\s]`. */
  predicate InAnswerClass(c: char) { c in "A*:Risposta" || IsSpace(c) }

  /** The question text of a question-marker line: the maximal leading run of
      class characters removed, then stripped. */
  function QuestionText(line: string): (q: string)
    ensures Trimmed(q)
    ensures q == [] || !InQuestionClass(q[0])
  {
    var d := DropLeading(line, InQuestionClass);
    assert d == [] || !IsSpace(d[0]);
    var q := Strip(d);
    assert q == [] || q[0] == d[0] by {
      if q != [] { assert SkipLeading(d, 0) == 0; }
    }
    q
  }

  function AnswerText(line: string): (a: string)
    ensures Trimmed(a)
    ensures a == [] || !InAnswerClass(a[0])
  {
    var d := DropLeading(line, InAnswerClass);
    assert d == [] || !IsSpace(d[0]);
    var a := Strip(d);
    assert a == [] || a[0] == d[0] by {
      if a != [] { assert SkipLeading(d, 0) == 0; }
    }
    a
  }

  /** The parser's loop state: the cards so far, `current_q` ("" when there is none,
      which Python treats the same as None) and `current_a`. */
  datatype QAState = QAState(cards: seq<Card>, question: string, answer: seq<string>)

  const QAStart := QAState([], "", [])

  /** The card list once the pending question, if it has an answer, is sealed. */
  function Seal(st: QAState): seq<Card> {
    if st.question != "" && st.answer != [] then
      st.cards + [MakeCard(st.question, Strip(JoinWith(st.answer, " ")))]
    else st.cards
  }

  /** One iteration of the loop over the reply's lines. */
  function QAStep(st: QAState, raw: string): QAState {
    var line := Strip(raw);
    if IsQuestionLine(line) then
      QAState(Seal(st), QuestionText(line), [])
    else
      QAState(st.cards, st.question, NextAnswer(st, line))
  }

  /** The pending answer lines after a stripped line that is not a question marker:
      an answer marker replaces them, a continuation line extends them. */
  function NextAnswer(st: QAState, line: string): seq<string> {
    if IsAnswerLine(line) then
      var a := AnswerText(line);
      if a != "" then [a] else []
    else if st.question != "" && line != "" && !IsBulletLine(line) then
      st.answer + [line]
    else st.answer
  }

  /** The loop state after the given lines, processed first to last. */
  function QAFold(lines: seq<string>): QAState {
    if lines == [] then QAStart
    else QAStep(QAFold(lines[..|lines| - 1]), lines[|lines| - 1])
  }

  /** One iteration of the loop of `_parse_qa_format`. */
  method ParseLine(flashcards: seq<Card>, currentQ: string, currentA: seq<string>, raw: string, ghost lines: seq<string>, ghost i: nat)
    returns (flashcards': seq<Card>, currentQ': string, currentA': seq<string>)
    requires i < |lines| && raw == lines[i] && QAState(flashcards, currentQ, currentA) == QAFoldFirst(lines, i)
    ensures QAState(flashcards', currentQ', currentA') == QAFoldFirst(lines, i + 1)
  {
    flashcards', currentQ', currentA' := flashcards, currentQ, currentA;
    var line := Strip(raw);
    if IsQuestionLine(line) {
      if currentQ != "" && currentA != [] {
        flashcards' := flashcards + [MakeCard(currentQ, Strip(JoinWith(currentA, " ")))];
      }
      currentQ' := QuestionText(line);
      currentA' := [];
    } else if IsAnswerLine(line) {
      var answer := AnswerText(line);
      currentA' := if answer != "" then [answer] else [];
    } else if currentQ != "" && line != "" && !IsBulletLine(line) {
      currentA' := currentA + [line];
    }
  }

  lemma TakeOfTake<T>(xs: seq<T>, n: nat)
    requires 0 < n <= |xs|
    ensures xs[..n][..n - 1] == xs[..n - 1] && xs[..n][n - 1] == xs[n - 1]
  {
  }

  /** The fold over a non-empty list of lines ends with a step on the last line. */
  lemma FoldLast(lines: seq<string>, init: seq<string>, last: string)
    requires lines != [] && init == lines[..|lines| - 1] && last == lines[|lines| - 1]
    ensures QAFold(lines) == QAStep(QAFold(init), last)
  {
  }

  lemma TakeAll<T>(xs: seq<T>)
    ensures xs[..|xs|] == xs
  {
  }

  /** The loop state after the first `n` lines. */
  function QAFoldFirst(lines: seq<string>, n: nat): QAState
    requires n <= |lines|
  {
    if n == 0 then QAStart else QAStep(QAFoldFirst(lines, n - 1), lines[n - 1])
  }

  lemma {:induction false} FoldFirstAll(lines: seq<string>, n: nat)
    requires n <= |lines|
    ensures QAFoldFirst(lines, n) == QAFold(lines[..n])
  {
    if n > 0 {
      FoldFirstAll(lines, n - 1);
      TakeOfTake(lines, n);
      FoldLast(lines[..n], lines[..n - 1], lines[n - 1]);
    }
  }

  /** `_parse_qa_format` as a function of the reply. */
  function ParseQA(response: string): seq<Card> {
    Seal(QAFold(SplitOn(response, '\n')))
  }

  /** The loop of `_parse_qa_format`: it updates the pending question and answer
      lines and appends sealed cards, and seals the last question at the end. */
  method ParseQALines(lines: seq<string>) returns (flashcards: seq<Card>)
    ensures flashcards == Seal(QAFold(lines))
  {
    flashcards := [];
    var currentQ := "";
    var currentA: seq<string> := [];
    var i := 0;
    while i < |lines|
      invariant 0 <= i <= |lines|
      invariant QAState(flashcards, currentQ, currentA) == QAFoldFirst(lines, i)
    {
      flashcards, currentQ, currentA := ParseLine(flashcards, currentQ, currentA, lines[i], lines, i);
      i := i + 1;
    }
    FoldFirstAll(lines, |lines|);
    TakeAll(lines);
    flashcards := SealPending(flashcards, currentQ, currentA);
  }

  /** After the loop: the last question becomes a card when it has answer lines. */
  method SealPending(flashcards: seq<Card>, currentQ: string, currentA: seq<string>)
    returns (cards: seq<Card>)
    ensures cards == Seal(QAState(flashcards, currentQ, currentA))
  {
    cards := flashcards;
    if currentQ != "" && currentA != [] {
      cards := flashcards + [MakeCard(currentQ, Strip(JoinWith(currentA, " ")))];
    }
  }

  /** `_parse_qa_format` as the source writes it: the reply split at newlines, then
      the loop over the lines. */
  method ParseQAFormat(response: string) returns (flashcards: seq<Card>)
    ensures flashcards == ParseQA(response)
    ensures AllValid(flashcards)
  {
    var lines := SplitOn(response, '\n');
    flashcards := ParseQALines(lines);
    ParseQAValid(response);
  }

  // ---------------------------------------------------------------- heuristic path: properties

  /** The loop state stays well formed: sealed cards are valid, the pending question
      is stripped, and every pending answer line is non-empty and stripped. */
  ghost predicate GoodState(st: QAState) {
    && AllValid(st.cards)
    && Trimmed(st.question)
    && (forall k :: 0 <= k < |st.answer| ==> st.answer[k] != [] && Trimmed(st.answer[k]))
  }

  lemma SealValid(st: QAState)
    requires GoodState(st)
    ensures AllValid(Seal(st))
  {
    if st.question != "" && st.answer != [] {
      var card := MakeCard(st.question, Strip(JoinWith(st.answer, " ")));
      SealedCardValid(st.question, st.answer);
      AllValidSnoc(st.cards, card);
    }
  }

  /** The card sealed from a pending question and its answer lines is valid. */
  lemma SealedCardValid(q: string, answer: seq<string>)
    requires q != "" && Trimmed(q)
    requires answer != [] && answer[0] != [] && !IsSpace(answer[0][0])
    ensures IsValidCard(MakeCard(q, Strip(JoinWith(answer, " "))))
  {
    var joined := JoinWith(answer, " ");
    JoinWithNonEmpty(answer, " ");
    StripTrimmed(q);
    NonBlankCard(q, joined);
  }

  lemma NonBlankCard(q: string, joined: string)
    requires Strip(q) == q && q != [] && joined != [] && !IsSpace(joined[0])
    ensures IsValidCard(MakeCard(q, Strip(joined)))
  {
    var a := Strip(joined);
    assert a != [];
    StripTrimmed(a);
    MakeCardFields(q, a);
  }

  lemma QAStepGood(st: QAState, raw: string)
    requires GoodState(st)
    ensures GoodState(QAStep(st, raw))
  {
    var line := Strip(raw);
    if IsQuestionLine(line) {
      assert QAStep(st, raw) == QAState(Seal(st), QuestionText(line), []);
      NewQuestionGood(st, QuestionText(line));
    } else if IsAnswerLine(line) {
      var a := AnswerText(line);
      assert QAStep(st, raw) == QAState(st.cards, st.question, if a != "" then [a] else []);
      ResetAnswerGood(st, a);
    } else if st.question != "" && line != "" && !IsBulletLine(line) {
      assert QAStep(st, raw) == QAState(st.cards, st.question, st.answer + [line]);
      AppendGoodLine(st, line);
    } else {
      assert NextAnswer(st, line) == st.answer;
    }
  }

  lemma NewQuestionGood(st: QAState, q: string)
    requires GoodState(st) && Trimmed(q)
    ensures GoodState(QAState(Seal(st), q, []))
  {
    SealValid(st);
  }

  lemma ResetAnswerGood(st: QAState, a: string)
    requires GoodState(st) && Trimmed(a)
    ensures GoodState(QAState(st.cards, st.question, if a != "" then [a] else []))
  {
  }

  lemma AppendGoodLine(st: QAState, line: string)
    requires GoodState(st) && line != [] && Trimmed(line)
    ensures GoodState(QAState(st.cards, st.question, st.answer + [line]))
  {
    var a := st.answer + [line];
    forall k | 0 <= k < |a| ensures a[k] != [] && Trimmed(a[k]) {
      if k < |st.answer| { assert a[k] == st.answer[k]; }
    }
  }

  lemma {:induction false} QAFoldGood(lines: seq<string>)
    ensures GoodState(QAFold(lines))
  {
    if lines != [] {
      QAFoldGood(lines[..|lines| - 1]);
      QAStepGood(QAFold(lines[..|lines| - 1]), lines[|lines| - 1]);
    }
  }

  /** Every card of the heuristic parser has a non-blank question and answer. */
  lemma ParseQAValid(response: string)
    ensures AllValid(ParseQA(response))
  {
    QAFoldGood(SplitOn(response, '\n'));
    SealValid(QAFold(SplitOn(response, '\n')));
  }

  /** The question texts of the question-marker lines, in line order. */
  function MarkerQuestions(lines: seq<string>): seq<string> {
    if lines == [] then []
    else
      var line := Strip(lines[|lines| - 1]);
      MarkerQuestions(lines[..|lines| - 1]) + (if IsQuestionLine(line) then [QuestionText(line)] else [])
  }

  /** The question text of a card ("" when it has none). */
  function QuestionOf(c: Card): string {
    if "question" in c && c["question"].JString? then c["question"].str else ""
  }

  function Questions(cards: seq<Card>): (qs: seq<string>)
    ensures |qs| == |cards|
  {
    if cards == [] then []
    else Questions(cards[..|cards| - 1]) + [QuestionOf(cards[|cards| - 1])]
  }

  /** `a` is `b` with some elements left out. */
  predicate IsSubsequence<T(==)>(a: seq<T>, b: seq<T>)
    decreases |b|
  {
    a == [] ||
    (b != [] &&
     ((a[|a| - 1] == b[|b| - 1] && IsSubsequence(a[..|a| - 1], b[..|b| - 1])) ||
      IsSubsequence(a, b[..|b| - 1])))
  }

  lemma SubsequenceExtend<T>(a: seq<T>, b: seq<T>, x: T)
    requires IsSubsequence(a, b)
    ensures IsSubsequence(a, b + [x])
  {
    assert (b + [x])[..|b|] == b;
  }

  lemma SubsequenceBoth<T>(a: seq<T>, b: seq<T>, x: T)
    requires IsSubsequence(a, b)
    ensures IsSubsequence(a + [x], b + [x])
  {
    assert (a + [x])[..|a|] == a;
    assert (b + [x])[..|b|] == b;
  }

  lemma {:induction false} SubsequenceShorter<T>(a: seq<T>, b: seq<T>)
    requires IsSubsequence(a, b)
    ensures |a| <= |b|
    decreases |b|
  {
    if a != [] {
      if a[|a| - 1] == b[|b| - 1] && IsSubsequence(a[..|a| - 1], b[..|b| - 1]) {
        SubsequenceShorter(a[..|a| - 1], b[..|b| - 1]);
      } else {
        SubsequenceShorter(a, b[..|b| - 1]);
      }
    }
  }

  /** How the parser's cards relate to the marker lines seen so far: the sealed
      questions come from distinct marker lines in order, and the pending
      question, if any, is the text of the latest marker line. */
  ghost predicate OrderedState(st: QAState, mq: seq<string>) {
    if st.question != "" then
      mq != [] && mq[|mq| - 1] == st.question && IsSubsequence(Questions(st.cards), mq[..|mq| - 1])
    else IsSubsequence(Questions(st.cards), mq)
  }

  lemma QuestionsAppend(cards: seq<Card>, c: Card)
    ensures Questions(cards + [c]) == Questions(cards) + [QuestionOf(c)]
  {
    assert (cards + [c])[..|cards|] == cards;
  }

  /** Sealing the pending question keeps the sealed questions a subsequence of the
      marker lines. */
  lemma SealOrdered(st: QAState, mq: seq<string>)
    requires OrderedState(st, mq)
    ensures IsSubsequence(Questions(Seal(st)), mq)
  {
    if st.question != "" {
      var init := mq[..|mq| - 1];
      assert mq == init + [st.question];
      if st.answer != [] {
        var c := MakeCard(st.question, Strip(JoinWith(st.answer, " ")));
        QuestionsAppend(st.cards, c);
        MakeCardFields(st.question, Strip(JoinWith(st.answer, " ")));
        assert QuestionOf(c) == st.question;
        SubsequenceBoth(Questions(st.cards), init, st.question);
      } else {
        SubsequenceExtend(Questions(st.cards), init, st.question);
      }
    }
  }

  lemma OrderedStep(st: QAState, mq: seq<string>, raw: string)
    requires OrderedState(st, mq)
    ensures OrderedState(QAStep(st, raw),
                         mq + (if IsQuestionLine(Strip(raw)) then [QuestionText(Strip(raw))] else []))
  {
    var line := Strip(raw);
    if IsQuestionLine(line) {
      var q := QuestionText(line);
      QAStepQuestion(st, raw);
      SealOrdered(st, mq);
      assert (mq + [q])[..|mq|] == mq;
      if q == "" {
        SubsequenceExtend(Questions(Seal(st)), mq, q);
      }
    } else {
      assert mq + [] == mq;
      QAStepOther(st, raw);
    }
  }

  /** A question-marker line seals the pending question and opens a new one. */
  lemma QAStepQuestion(st: QAState, raw: string)
    requires IsQuestionLine(Strip(raw))
    ensures QAStep(st, raw) == QAState(Seal(st), QuestionText(Strip(raw)), [])
  {
  }

  /** Any other line leaves the sealed cards and the pending question as they are. */
  lemma QAStepOther(st: QAState, raw: string)
    requires !IsQuestionLine(Strip(raw))
    ensures QAStep(st, raw).cards == st.cards && QAStep(st, raw).question == st.question
  {
  }

  lemma {:induction false} QAFoldOrdered(lines: seq<string>)
    ensures OrderedState(QAFold(lines), MarkerQuestions(lines))
  {
    if lines != [] {
      var init := lines[..|lines| - 1];
      QAFoldOrdered(init);
      OrderedStep(QAFold(init), MarkerQuestions(init), lines[|lines| - 1]);
    }
  }

  /** The heuristic parser yields at most one card per question-marker line, in line
      order, each card's question being the text of its marker line. */
  lemma ParseQAOrdered(response: string)
    ensures IsSubsequence(Questions(ParseQA(response)), MarkerQuestions(SplitOn(response, '\n')))
    ensures |ParseQA(response)| <= |MarkerQuestions(SplitOn(response, '\n'))|
  {
    var lines := SplitOn(response, '\n');
    QAFoldOrdered(lines);
    SealOrdered(QAFold(lines), MarkerQuestions(lines));
    SubsequenceShorter(Questions(ParseQA(response)), MarkerQuestions(lines));
  }

  /** An answer-marker line replaces whatever answer lines were pending by its own
      text (or by nothing when that text is empty); cards and question stay. */
  lemma AnswerLineResets(st: QAState, raw: string)
    requires IsAnswerLine(Strip(raw)) && !IsQuestionLine(Strip(raw))
    ensures QAStep(st, raw).cards == st.cards && QAStep(st, raw).question == st.question
    ensures QAStep(st, raw).answer ==
            (if AnswerText(Strip(raw)) != "" then [AnswerText(Strip(raw))] else [])
  {
  }

  /** Any other line extends the pending answer exactly when it is non-blank, is not
      a bullet and a question is pending; otherwise it is ignored. */
  lemma ContinuationLine(st: QAState, raw: string)
    requires !IsAnswerLine(Strip(raw)) && !IsQuestionLine(Strip(raw))
    ensures QAStep(st, raw) ==
            if st.question != "" && Strip(raw) != "" && !IsBulletLine(Strip(raw))
            then st.(answer := st.answer + [Strip(raw)]) else st
  {
  }

  // ---------------------------------------------------------------- heuristic path: examples

  /** The marker class is a set of characters, so the "Q" of "Question:" is dropped
      but the "u" stops the run. */
  lemma QuestionWordMarker()
    ensures QuestionText("Question: Why?") == "uestion: Why?"
  {
    var rest := "uestion: Why?";
    NotIn('u', "Q*:Domanda");
    assert "Question: Why?" == "Q" + rest;
    QuestionLetterDropped(rest);
  }

  /** Only the leading "Q" of a word such as "Question" is in the marker class. */
  lemma QuestionLetterDropped(rest: string)
    requires rest != [] && Trimmed(rest) && !InQuestionClass(rest[0])
    ensures QuestionText("Q" + rest) == rest
  {
    var line := "Q" + rest;
    assert line[1..] == rest;
    assert InQuestionClass(line[0]);
    StripTrimmed(rest);
  }

  lemma MarkedLineStripped(m: string, q: string)
    requires m != [] && !IsSpace(m[0]) && q != [] && Trimmed(q)
    ensures Strip(m + q) == m + q
  {
    var line := m + q;
    assert line[|line| - 1] == q[|q| - 1];
    StripTrimmed(line);
  }

  lemma QuestionMarkerDropped(q: string)
    requires q != [] && !InQuestionClass(q[0])
    ensures DropLeading("Q: " + q, InQuestionClass) == q
  {
    var line := "Q: " + q;
    assert line[1..][1..][1..] == q;
  }

  lemma AnswerMarkerDropped(a: string)
    requires a != [] && !InAnswerClass(a[0])
    ensures DropLeading("A: " + a, InAnswerClass) == a
  {
    var line := "A: " + a;
    assert line[1..][1..][1..] == a;
  }

  lemma QuestionMarkerLine(q: string)
    ensures IsQuestionLine("Q: " + q)
  {
    assert ("Q: " + q)[..2] == "Q:";
  }

  lemma QuestionTextAfterMarker(q: string)
    requires q != [] && Trimmed(q) && !InQuestionClass(q[0])
    ensures QuestionText("Q: " + q) == q
  {
    QuestionMarkerDropped(q);
    StripTrimmed(q);
  }

  lemma AnswerMarkerLine(a: string)
    ensures IsAnswerLine("A: " + a) && !IsQuestionLine("A: " + a)
  {
    var line := "A: " + a;
    assert line[..2] == "A:";
    DiffersAtStart(line, "Q:");
    DiffersAtStart(line, "Domanda:");
    DiffersAtStart(line, "**Q:");
    DiffersAtStart(line, "Question:");
  }

  lemma AnswerTextAfterMarker(a: string)
    requires a != [] && Trimmed(a) && !InAnswerClass(a[0])
    ensures AnswerText("A: " + a) == a
  {
    AnswerMarkerDropped(a);
    StripTrimmed(a);
  }

  /** A "Q: " line seals the pending card and opens a question with the text after
      the marker. */
  lemma QuestionStep(st: QAState, q: string)
    requires q != [] && Trimmed(q) && !InQuestionClass(q[0])
    ensures QAStep(st, "Q: " + q) == QAState(Seal(st), q, [])
  {
    MarkedLineStripped("Q: ", q);
    QuestionMarkerLine(q);
    QuestionTextAfterMarker(q);
  }

  /** An "A: " line replaces the pending answer by the text after the marker. */
  lemma AnswerStep(st: QAState, a: string)
    requires a != [] && Trimmed(a) && !InAnswerClass(a[0])
    ensures QAStep(st, "A: " + a) == QAState(st.cards, st.question, [a])
  {
    MarkedLineStripped("A: ", a);
    AnswerMarkerLine(a);
    AnswerTextAfterMarker(a);
  }

  /** A question and its answer as a reply might present them. */
  datatype QAPair = QAPair(q: string, a: string)

  /** A pair that the "Q: "/"A: " rendering reproduces exactly: single-line, stripped
      texts that do not start with a marker-class character. */
  predicate Renderable(p: QAPair) {
    && p.q != [] && Trimmed(p.q) && !InQuestionClass(p.q[0]) && '\n' !in p.q
    && p.a != [] && Trimmed(p.a) && !InAnswerClass(p.a[0]) && '\n' !in p.a
  }

  /** The lines "Q: q" and "A: a" for every pair, in order. */
  function QALines(ps: seq<QAPair>): (lines: seq<string>)
    ensures |lines| == 2 * |ps|
  {
    if ps == [] then []
    else QALines(ps[..|ps| - 1]) + ["Q: " + ps[|ps| - 1].q, "A: " + ps[|ps| - 1].a]
  }

  function PairCards(ps: seq<QAPair>): (cards: seq<Card>)
    ensures |cards| == |ps|
  {
    if ps == [] then [] else PairCards(ps[..|ps| - 1]) + [MakeCard(ps[|ps| - 1].q, ps[|ps| - 1].a)]
  }

  lemma FoldSnoc(lines: seq<string>, l: string)
    ensures QAFold(lines + [l]) == QAStep(QAFold(lines), l)
  {
    assert (lines + [l])[..|lines|] == lines;
  }

  lemma FoldTwoMore(lines: seq<string>, l1: string, l2: string)
    ensures QAFold(lines + [l1, l2]) == QAStep(QAStep(QAFold(lines), l1), l2)
  {
    FoldSnoc(lines, l1);
    FoldSnoc(lines + [l1], l2);
    SnocTwo(lines, l1, l2);
  }

  lemma SnocTwo<T>(xs: seq<T>, a: T, b: T)
    ensures xs + [a] + [b] == xs + [a, b]
  {
  }

  lemma SealPairs(ps: seq<QAPair>)
    requires ps != [] && Renderable(ps[|ps| - 1])
    ensures Seal(QAState(PairCards(ps[..|ps| - 1]), ps[|ps| - 1].q, [ps[|ps| - 1].a])) == PairCards(ps)
  {
    var p := ps[|ps| - 1];
    assert JoinWith([p.a], " ") == p.a;
    StripTrimmed(p.a);
    assert PairCards(ps) == PairCards(ps[..|ps| - 1]) + [MakeCard(p.q, p.a)];
  }

  lemma {:induction false} QALinesFold(ps: seq<QAPair>)
    requires forall k :: 0 <= k < |ps| ==> Renderable(ps[k])
    ensures QAFold(QALines(ps)) ==
            if ps == [] then QAStart
            else QAState(PairCards(ps[..|ps| - 1]), ps[|ps| - 1].q, [ps[|ps| - 1].a])
  {
    if ps != [] {
      var init := ps[..|ps| - 1];
      var p := ps[|ps| - 1];
      assert forall k :: 0 <= k < |init| ==> init[k] == ps[k];
      QALinesFold(init);
      var st := QAFold(QALines(init));
      assert Seal(st) == PairCards(init) by {
        if init != [] { SealPairs(init); }
      }
      FoldTwoMore(QALines(init), "Q: " + p.q, "A: " + p.a);
      QuestionStep(st, p.q);
      AnswerStep(QAState(Seal(st), p.q, []), p.a);
    }
  }

  /** Rendering pairs as alternating "Q: " and "A: " lines and parsing the text back
      gives one card per pair, in order, with the original texts. */
  lemma RenderedPairsParse(ps: seq<QAPair>)
    requires forall k :: 0 <= k < |ps| ==> Renderable(ps[k])
    ensures ParseQA(JoinWith(QALines(ps), "\n")) == PairCards(ps)
  {
    var lines := QALines(ps);
    if ps == [] {
      ParseEmpty();
    } else {
      QALinesNoNewline(ps);
      SplitOnUnique(JoinWith(lines, "\n"), '\n', lines);
      QALinesFold(ps);
      SealPairs(ps);
    }
  }

  /** An empty reply has no cards. */
  lemma ParseEmpty()
    ensures ParseQA("") == []
  {
    assert SplitOn("", '\n') == [""];
    FoldSnoc([], "");
    assert [] + [""] == [""];
    BlankLineIgnored(QAStart, "");
  }

  /** A blank line changes nothing. */
  lemma BlankLineIgnored(st: QAState, raw: string)
    requires AllSpace(raw)
    ensures QAStep(st, raw) == st
  {
    assert Strip(raw) == "";
    assert !IsQuestionLine("") && !IsAnswerLine("");
  }

  lemma {:induction false} QALinesNoNewline(ps: seq<QAPair>)
    requires forall k :: 0 <= k < |ps| ==> Renderable(ps[k])
    ensures forall i :: 0 <= i < |QALines(ps)| ==> '\n' !in QALines(ps)[i]
  {
    if ps != [] {
      var init := ps[..|ps| - 1];
      assert forall k :: 0 <= k < |init| ==> init[k] == ps[k];
      QALinesNoNewline(init);
      var p := ps[|ps| - 1];
      assert Renderable(p);
      assert '\n' !in "Q: " + p.q && '\n' !in "A: " + p.a;
    }
  }
  lemma ExampleRenderable() returns (ps: seq<QAPair>)
    ensures ps == [QAPair("What is X?", "X is Y."), QAPair("What is Z?", "Z is W.")]
    ensures forall k :: 0 <= k < |ps| ==> Renderable(ps[k])
  {
    ps := [QAPair("What is X?", "X is Y."), QAPair("What is Z?", "Z is W.")];
    ExampleXRenderable(ps[0]);
    ExampleZRenderable(ps[1]);
  }
  lemma ExampleXRenderable(p: QAPair)
    requires p == QAPair("What is X?", "X is Y.")
    ensures Renderable(p)
  {
    NotIn('\n', p.q);
    NotIn('\n', p.a);
    NotIn('W', "Q*:Domanda");
    NotIn('X', "A*:Risposta");
  }
  lemma ExampleZRenderable(p: QAPair)
    requires p == QAPair("What is Z?", "Z is W.")
    ensures Renderable(p)
  {
    NotIn('\n', p.q);
    NotIn('\n', p.a);
    NotIn('W', "Q*:Domanda");
    NotIn('Z', "A*:Risposta");
  }
  lemma ExampleLines(ps: seq<QAPair>)
    requires ps == [QAPair("What is X?", "X is Y."), QAPair("What is Z?", "Z is W.")]
    ensures QALines(ps) == ["Q: What is X?", "A: X is Y.", "Q: What is Z?", "A: Z is W."]
    ensures PairCards(ps) == [MakeCard("What is X?", "X is Y."), MakeCard("What is Z?", "Z is W.")]
  {
    assert ps[..1] == [ps[0]] && ps[..1][..0] == [];
    assert "Q: " + "What is X?" == "Q: What is X?" && "A: " + "X is Y." == "A: X is Y.";
    assert "Q: " + "What is Z?" == "Q: What is Z?" && "A: " + "Z is W." == "A: Z is W.";
  }
  /** The four lines "Q: What is X?", "A: X is Y.", "Q: What is Z?", "A: Z is W.",
      joined by newlines, parse to the two cards. */
  lemma ExampleTwoCards()
    ensures ParseQA(JoinWith(["Q: What is X?", "A: X is Y.", "Q: What is Z?", "A: Z is W."], "\n")) ==
      [MakeCard("What is X?", "X is Y."), MakeCard("What is Z?", "Z is W.")]
  {
    var ps := ExampleRenderable();
    ExampleLines(ps);
    RenderedPairsParse(ps);
  }

  // ================================================================ structured path

  function LastIndexOf(s: string, c: char): (j: nat)
    requires c in s
    ensures j < |s| && s[j] == c && c !in s[j + 1..]
    ensures forall k :: j < k < |s| ==> s[k] != c
  {
    if s[|s| - 1] == c then |s| - 1
    else
      assert c in s[..|s| - 1] by {
        var k :| 0 <= k < |s| && s[k] == c;
        assert s[..|s| - 1][k] == c;
      }
      var j := LastIndexOf(s[..|s| - 1], c);
      assert s[j + 1..] == s[..|s| - 1][j + 1..] + [s[|s| - 1]];
      j
  }

  /** `re.search(r'\{.*\}', response, re.DOTALL)`: the span from the first `{` to the
      last `}`, present exactly when some `{` has a `}` after it. */
  function JsonSpan(s: string): (r: Option<string>)
    ensures r.Some? <==> exists i, j :: 0 <= i < j < |s| && s[i] == '{' && s[j] == '}'
  {
    if '{' !in s then None
    else
      var i := IndexOf(s, '{');
      if forall k :: i < k < |s| ==> s[k] != '}' then None
      else
        var j := LastIndexOf(s, '}');
        Some(s[i..j + 1])
  }

  /** The span is fixed by its ends: it starts at a `{` with none before it and ends
      at a `}` with none after it. */
  lemma JsonSpanBounds(s: string) returns (i: nat, j: nat)
    requires JsonSpan(s).Some?
    ensures i < j < |s| && JsonSpan(s).value == s[i..j + 1]
    ensures s[i] == '{' && '{' !in s[..i]
    ensures s[j] == '}' && '}' !in s[j + 1..]
  {
    i := IndexOf(s, '{');
    j := LastIndexOf(s, '}');
  }

  /** What the filter loop does with one entry of the `flashcards` list: keep it,
      skip it, or raise (calling strip() on a non-string). */
  datatype EntryCheck = Keep | Skip | Raise

  function CheckEntry(e: Json): EntryCheck {
    if e.JObject? && "question" in e.fields && "answer" in e.fields then
      var q := e.fields["question"];
      if !q.JString? then Raise
      else if Strip(q.str) == "" then Skip   // `and` short-circuits: answer not touched
      else
        var a := e.fields["answer"];
        if !a.JString? then Raise
        else if Strip(a.str) == "" then Skip
        else Keep
    else Skip
  }

  /** The entries that are dictionaries passing IsValidCard, unchanged and in order. */
  function ValidEntries(items: seq<Json>): (r: seq<Card>)
    ensures AllValid(r)
    ensures |r| <= |items|
  {
    if items == [] then []
    else
      var rest := ValidEntries(items[1..]);
      if items[0].JObject? && IsValidCard(items[0].fields) then
        AllValidCons(items[0].fields, rest);
        [items[0].fields] + rest
      else rest
  }

  /** Some entry of the list makes the filter loop raise. */
  predicate SomeRaises(items: seq<Json>) {
    exists k :: 0 <= k < |items| && CheckEntry(items[k]) == Raise
  }

  lemma RaisesCons(items: seq<Json>)
    requires items != []
    ensures SomeRaises(items) <==> CheckEntry(items[0]) == Raise || SomeRaises(items[1..])
  {
    if SomeRaises(items) {
      var k :| 0 <= k < |items| && CheckEntry(items[k]) == Raise;
      if k > 0 { assert items[1..][k - 1] == items[k]; }
    }
    if SomeRaises(items[1..]) {
      var k :| 0 <= k < |items[1..]| && CheckEntry(items[1..][k]) == Raise;
      assert items[k + 1] == items[1..][k];
    }
  }

  /** The loop `for card in flashcards` over a JSON list: `None` when some entry
      raises, which abandons the whole structured path. */
  function FilterEntries(items: seq<Json>): (r: Option<seq<Card>>)
    ensures r.None? <==> SomeRaises(items)
    ensures r.Some? ==> r.value == ValidEntries(items)
  {
    if items == [] then Some([])
    else
      var rest := FilterEntries(items[1..]);
      RaisesCons(items);
      CheckEntryKeep(items[0]);
      match CheckEntry(items[0])
      case Raise => None
      case Skip => rest
      case Keep => if rest.Some? then Some([items[0].fields] + rest.value) else None
  }

  /** The structured path once `json.loads` succeeded: `None` for the errors that
      send the source to the heuristic fallback. */
  function StructuredCards(data: Json): (r: Option<seq<Card>>)
    ensures r.Some? ==> AllValid(r.value)
  {
    if !data.JObject? then None   // no .get on a non-dict
    else
      var list := if "flashcards" in data.fields then data.fields["flashcards"] else JArray([]);
      match list
      case JArray(items) => FilterEntries(items)
      case JString(_) => Some([])   // iterates characters: none is a dict
      case JObject(_) => Some([])   // iterates keys: none is a dict
      case _ => None                // null, bool, number: not iterable
  }

  /** `_extract_flashcards_from_response`: structured path first, heuristic fallback
      when there is no span, decoding fails or the filter raises. */
  function ExtractFlashcards(response: string, decode: Decoder): (r: seq<Card>)
    ensures AllValid(r)
  {
    ParseQAValid(response);
    match JsonSpan(response)
    case None => ParseQA(response)
    case Some(span) =>
      match decode(span)
      case None => ParseQA(response)
      case Some(data) =>
        match StructuredCards(data)
        case None => ParseQA(response)
        case Some(cards) => cards
  }

  // ---------------------------------------------------------------- structured path: properties

  /** A decoded object with a `flashcards` list in which no entry raises yields exactly
      the valid entries, in order and unchanged, even when there are none: an empty
      result here does not fall back to the heuristic parser. */
  lemma StructuredKeepsValidEntries(response: string, decode: Decoder, fields: map<string, Json>, items: seq<Json>)
    requires JsonSpan(response).Some? && decode(JsonSpan(response).value) == Some(JObject(fields))
    requires "flashcards" in fields && fields["flashcards"] == JArray(items)
    requires forall k :: 0 <= k < |items| ==> CheckEntry(items[k]) != Raise
    ensures ExtractFlashcards(response, decode) == ValidEntries(items)
  {
    var filtered := FilterEntries(items);
    assert filtered.Some?;
    StructuredPath(response, decode, JObject(fields), filtered.value);
  }

  /** Once the span decodes and the filter does not raise, its cards are the result. */
  lemma StructuredPath(response: string, decode: Decoder, data: Json, cards: seq<Card>)
    requires JsonSpan(response).Some? && decode(JsonSpan(response).value) == Some(data)
    requires StructuredCards(data) == Some(cards)
    ensures ExtractFlashcards(response, decode) == cards
  {
  }

  /** The three ways into the heuristic fallback. */
  lemma FallbackCases(response: string, decode: Decoder)
    requires || JsonSpan(response).None?
             || decode(JsonSpan(response).value).None?
             || StructuredCards(decode(JsonSpan(response).value).value).None?
    ensures ExtractFlashcards(response, decode) == ParseQA(response)
  {
  }

  /** An entry is kept exactly when it is a dictionary passing IsValidCard. */
  lemma CheckEntryKeep(e: Json)
    ensures CheckEntry(e) == Keep <==> e.JObject? && IsValidCard(e.fields)
  {
  }

  /** A string question with a blank value is skipped without looking at the answer,
      so a non-string answer next to a blank question does not raise. */
  lemma BlankQuestionShortCircuits(fields: map<string, Json>, q: string)
    requires "question" in fields && "answer" in fields
    requires fields["question"] == JString(q) && AllSpace(q)
    ensures CheckEntry(JObject(fields)) == Skip
  {
  }
}
