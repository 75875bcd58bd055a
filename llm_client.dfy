/** The LLM client's control flow: `_generate_flashcards_from_chunk` (a bounded retry
    loop with exponential backoff and one prompt reinforcement) and
    `generate_flashcards` (chunking of long notes and collection of the cards).
    The LLM provider is a stub: a stream of outcomes consumed one per request. */
module LlmClient {
  import opened Text
  import opened Json
  import opened ResponseParser
  import opened Chunker

  const MaxRetries: nat := 3
  const RetryDelay: nat := 2
  /** Notes longer than this are chunked, with the chunker's default limit. */
  const ChunkThreshold: nat := 6000

  const Reinforcement: string :=
    "\n\nPLEASE ENSURE TO GENERATE VALID FLASHCARDS IN THE SPECIFIED JSON FORMAT."

  /** What one request to the provider gives: an exception, or the reply text. */
  datatype Outcome = Raised | Reply(text: string)

  /** The outcome of request `i`; a stub that has run out raises. */
  function OutcomeAt(outcomes: seq<Outcome>, i: nat): Outcome {
    if i < |outcomes| then outcomes[i] else Raised
  }

  /** The outcomes left after `n` requests. */
  function Drop(outcomes: seq<Outcome>, n: nat): seq<Outcome> {
    if n <= |outcomes| then outcomes[n..] else []
  }

  /** How cards are drawn from a reply: `_extract_flashcards_from_response`, with
      the JSON decoder fixed. The retry loop depends on nothing else about it. */
  type Extractor = string -> seq<Card>

  function ExtractWith(decode: Decoder): Extractor {
    response => ExtractFlashcards(response, decode)
  }

  /** A request that ends the loop: a reply from which cards are extracted. */
  predicate Succeeds(o: Outcome, extract: Extractor) {
    o.Reply? && extract(o.text) != []
  }

  function Pow2(n: nat): (r: nat)
    ensures r >= 1
  {
    if n == 0 then 1 else 2 * Pow2(n - 1)
  }

  /** What a run of requests did: the cards returned, the prompt of every request
      sent, in order, and the seconds slept between them. */
  datatype Attempts = Attempts(cards: seq<Card>, prompts: seq<string>, delays: seq<nat>)

  // ================================================================ one chunk

  /** The index of the first request among the first `n` that succeeds. */
  function FirstSuccess(outcomes: seq<Outcome>, extract: Extractor, n: nat): (r: Option<nat>)
    ensures r.Some? ==> r.value < n && Succeeds(OutcomeAt(outcomes, r.value), extract)
    ensures r.Some? ==> forall j :: 0 <= j < r.value ==> !Succeeds(OutcomeAt(outcomes, j), extract)
    ensures r.None? ==> forall j :: 0 <= j < n ==> !Succeeds(OutcomeAt(outcomes, j), extract)
  {
    if n == 0 then None
    else
      match FirstSuccess(outcomes, extract, n - 1)
      case Some(i) => Some(i)
      case None => if Succeeds(OutcomeAt(outcomes, n - 1), extract) then Some(n - 1) else None
  }

  /** The prompt of request `j`: the reinforcement is appended once, after a first
      request that returned a reply without cards; a first request that raised
      never gets it appended. */
  function PromptAt(base: string, outcomes: seq<Outcome>, j: nat): string {
    if j >= 1 && OutcomeAt(outcomes, 0).Reply? then base + Reinforcement else base
  }

  function SentPrompts(base: string, outcomes: seq<Outcome>, n: nat): (ps: seq<string>)
    ensures |ps| == n
    ensures forall j :: 0 <= j < n ==> ps[j] == PromptAt(base, outcomes, j)
  {
    if n == 0 then [] else SentPrompts(base, outcomes, n - 1) + [PromptAt(base, outcomes, n - 1)]
  }

  /** The sleeps before requests 2, 3, ...: `retryDelay * 2^j` before request `j + 2`. */
  function Backoff(retryDelay: nat, n: nat): (ds: seq<nat>)
    ensures |ds| == n
    ensures forall j :: 0 <= j < n ==> ds[j] == retryDelay * Pow2(j)
  {
    if n == 0 then [] else Backoff(retryDelay, n - 1) + [retryDelay * Pow2(n - 1)]
  }

  /** `_generate_flashcards_from_chunk` in closed form: requests are sent until one
      succeeds or `maxAttempts` have been sent; there is a sleep between any two
      requests and none after the last. */
  function RetrySpec(base: string, outcomes: seq<Outcome>, extract: Extractor,
                     maxAttempts: nat, retryDelay: nat): Attempts
  {
    match FirstSuccess(outcomes, extract, maxAttempts)
    case Some(i) =>
      Attempts(extract(OutcomeAt(outcomes, i).text),
               SentPrompts(base, outcomes, i + 1), Backoff(retryDelay, i))
    case None =>
      Attempts([], SentPrompts(base, outcomes, maxAttempts),
               Backoff(retryDelay, if maxAttempts == 0 then 0 else maxAttempts - 1))
  }

  /** The number of sleeps once `attempt` requests have failed. */
  function SleepsAfter(attempt: nat, maxAttempts: nat): nat {
    if attempt < maxAttempts || attempt == 0 then attempt else attempt - 1
  }

  /** `_generate_flashcards_from_chunk` as the source writes it; the provider call
      of either kind is the next outcome of the stub. */
  method GenerateFromChunk(base: string, outcomes: seq<Outcome>, extract: Extractor,
                           maxAttempts: nat, retryDelay: nat) returns (r: Attempts)
    ensures r == RetrySpec(base, outcomes, extract, maxAttempts, retryDelay)
  {
    var prompt := base;
    var attempt := 0;
    var prompts: seq<string> := [];
    var delays: seq<nat> := [];
    while attempt < maxAttempts
      invariant 0 <= attempt <= maxAttempts
      invariant FirstSuccess(outcomes, extract, attempt) == None
      invariant prompts == SentPrompts(base, outcomes, attempt)
      invariant delays == Backoff(retryDelay, SleepsAfter(attempt, maxAttempts))
      invariant attempt < maxAttempts ==> prompt == PromptAt(base, outcomes, attempt)
    {
      SentStep(base, outcomes, attempt, prompts, prompt);
      prompts := prompts + [prompt];
      var outcome := OutcomeAt(outcomes, attempt);
      match outcome
      case Reply(response) =>
        var flashcards := extract(response);
        if |flashcards| > 0 {
          SuccessResult(base, outcomes, extract, maxAttempts, retryDelay, attempt, prompts, delays);
          return Attempts(flashcards, prompts, delays);
        }
        attempt, prompt, delays := RetryAfterReply(attempt, maxAttempts, retryDelay, prompt, delays,
                                                   base, outcomes, extract);
      case Raised =>
        attempt, delays := RetryAfterError(attempt, maxAttempts, retryDelay, prompt, delays,
                                           base, outcomes, extract);
    }
    FailureResult(base, outcomes, extract, maxAttempts, retryDelay, prompts, delays);
    return Attempts([], prompts, delays);
  }

  /** The retry loop after request `attempt + 1` returned a reply without cards:
      the next attempt, a sleep before it, and the reinforced prompt after the
      first request. */
  method RetryAfterReply(attempt: nat, maxAttempts: nat, retryDelay: nat, prompt: string, delays: seq<nat>,
                         ghost base: string, ghost outcomes: seq<Outcome>, ghost extract: Extractor)
    returns (attempt': nat, prompt': string, delays': seq<nat>)
    requires attempt < maxAttempts && OutcomeAt(outcomes, attempt).Reply?
    requires !Succeeds(OutcomeAt(outcomes, attempt), extract)
    requires FirstSuccess(outcomes, extract, attempt) == None
    requires prompt == PromptAt(base, outcomes, attempt)
    requires delays == Backoff(retryDelay, SleepsAfter(attempt, maxAttempts))
    ensures attempt' == attempt + 1
    ensures FirstSuccess(outcomes, extract, attempt') == None
    ensures delays' == Backoff(retryDelay, SleepsAfter(attempt', maxAttempts))
    ensures attempt' < maxAttempts ==> prompt' == PromptAt(base, outcomes, attempt')
  {
    BackoffStep(retryDelay, attempt, maxAttempts, delays);
    PromptStep(base, outcomes, attempt, maxAttempts, prompt);
    attempt', prompt', delays' := attempt + 1, prompt, delays;
    if attempt' < maxAttempts {
      delays' := delays + [retryDelay * Pow2(attempt' - 1)];
      if attempt' == 1 {
        prompt' := prompt + Reinforcement;
      }
    }
  }

  /** The retry loop after request `attempt + 1` raised: the next attempt and a
      sleep before it; the prompt is kept. */
  method RetryAfterError(attempt: nat, maxAttempts: nat, retryDelay: nat, prompt: string, delays: seq<nat>,
                         ghost base: string, ghost outcomes: seq<Outcome>, ghost extract: Extractor)
    returns (attempt': nat, delays': seq<nat>)
    requires attempt < maxAttempts && OutcomeAt(outcomes, attempt).Raised?
    requires FirstSuccess(outcomes, extract, attempt) == None
    requires prompt == PromptAt(base, outcomes, attempt)
    requires delays == Backoff(retryDelay, SleepsAfter(attempt, maxAttempts))
    ensures attempt' == attempt + 1
    ensures FirstSuccess(outcomes, extract, attempt') == None
    ensures delays' == Backoff(retryDelay, SleepsAfter(attempt', maxAttempts))
    ensures attempt' < maxAttempts ==> prompt == PromptAt(base, outcomes, attempt')
  {
    BackoffStep(retryDelay, attempt, maxAttempts, delays);
    PromptStep(base, outcomes, attempt, maxAttempts, prompt);
    attempt', delays' := attempt + 1, delays;
    if attempt' < maxAttempts {
      delays' := delays + [retryDelay * Pow2(attempt' - 1)];
    }
  }

  /** The loop's early return, when request `attempt + 1` is the first to succeed. */
  lemma SuccessResult(base: string, outcomes: seq<Outcome>, extract: Extractor, maxAttempts: nat,
                      retryDelay: nat, attempt: nat, prompts: seq<string>, delays: seq<nat>)
    requires attempt < maxAttempts && Succeeds(OutcomeAt(outcomes, attempt), extract)
    requires FirstSuccess(outcomes, extract, attempt) == None
    requires prompts == SentPrompts(base, outcomes, attempt + 1)
    requires delays == Backoff(retryDelay, SleepsAfter(attempt, maxAttempts))
    ensures RetrySpec(base, outcomes, extract, maxAttempts, retryDelay)
         == Attempts(extract(OutcomeAt(outcomes, attempt).text), prompts, delays)
  {
    FirstSuccessIs(outcomes, extract, maxAttempts, attempt);
  }

  /** The loop's final return, once all `maxAttempts` requests have failed. */
  lemma FailureResult(base: string, outcomes: seq<Outcome>, extract: Extractor, maxAttempts: nat,
                      retryDelay: nat, prompts: seq<string>, delays: seq<nat>)
    requires FirstSuccess(outcomes, extract, maxAttempts) == None
    requires prompts == SentPrompts(base, outcomes, maxAttempts)
    requires delays == Backoff(retryDelay, SleepsAfter(maxAttempts, maxAttempts))
    ensures RetrySpec(base, outcomes, extract, maxAttempts, retryDelay) == Attempts([], prompts, delays)
  {
  }

  lemma SentStep(base: string, outcomes: seq<Outcome>, attempt: nat, prompts: seq<string>, prompt: string)
    requires prompts == SentPrompts(base, outcomes, attempt) && prompt == PromptAt(base, outcomes, attempt)
    ensures prompts + [prompt] == SentPrompts(base, outcomes, attempt + 1)
  {
  }

  /** The sleeps once request `attempt + 1` has failed: one more unless it was the last. */
  lemma BackoffStep(retryDelay: nat, attempt: nat, maxAttempts: nat, delays: seq<nat>)
    requires attempt < maxAttempts && delays == Backoff(retryDelay, SleepsAfter(attempt, maxAttempts))
    ensures attempt + 1 < maxAttempts ==>
      delays + [retryDelay * Pow2(attempt)] == Backoff(retryDelay, SleepsAfter(attempt + 1, maxAttempts))
    ensures attempt + 1 == maxAttempts ==> delays == Backoff(retryDelay, SleepsAfter(attempt + 1, maxAttempts))
  {
  }

  /** The prompt of the next request: reinforced only after a first reply. */
  lemma PromptStep(base: string, outcomes: seq<Outcome>, attempt: nat, maxAttempts: nat, prompt: string)
    requires attempt < maxAttempts && prompt == PromptAt(base, outcomes, attempt)
    ensures attempt == 0 && OutcomeAt(outcomes, 0).Reply? ==> prompt + Reinforcement == PromptAt(base, outcomes, 1)
    ensures !(attempt == 0 && OutcomeAt(outcomes, 0).Reply?) ==> prompt == PromptAt(base, outcomes, attempt + 1)
  {
  }

  lemma {:induction false} FirstSuccessIs(outcomes: seq<Outcome>, extract: Extractor, n: nat, i: nat)
    requires i < n && Succeeds(OutcomeAt(outcomes, i), extract)
    requires forall j :: 0 <= j < i ==> !Succeeds(OutcomeAt(outcomes, j), extract)
    ensures FirstSuccess(outcomes, extract, n) == Some(i)
  {
    if n - 1 > i {
      FirstSuccessIs(outcomes, extract, n - 1, i);
    } else {
      NoSuccess(outcomes, extract, n - 1);
    }
  }

  lemma {:induction false} NoSuccess(outcomes: seq<Outcome>, extract: Extractor, n: nat)
    requires forall j :: 0 <= j < n ==> !Succeeds(OutcomeAt(outcomes, j), extract)
    ensures FirstSuccess(outcomes, extract, n) == None
  {
    if n > 0 { NoSuccess(outcomes, extract, n - 1); }
  }

  // ---------------------------------------------------------------- one chunk: properties

  /** The loop sends between one and `maxAttempts` requests, one sleep fewer than
      requests, and returns cards exactly when some request succeeded: then the
      cards are those of the last reply, and every earlier request failed. */
  lemma RetryOutcome(base: string, outcomes: seq<Outcome>, extract: Extractor, maxAttempts: nat, retryDelay: nat)
    requires maxAttempts >= 1
    ensures var r := RetrySpec(base, outcomes, extract, maxAttempts, retryDelay);
            && 1 <= |r.prompts| <= maxAttempts
            && |r.delays| == |r.prompts| - 1
            && (r.cards != [] <==> exists j :: 0 <= j < maxAttempts && Succeeds(OutcomeAt(outcomes, j), extract))
            && (r.cards != [] ==>
                  && Succeeds(OutcomeAt(outcomes, |r.prompts| - 1), extract)
                  && r.cards == extract(OutcomeAt(outcomes, |r.prompts| - 1).text))
            && (forall j :: 0 <= j < |r.prompts| - 1 ==> !Succeeds(OutcomeAt(outcomes, j), extract))
            && (r.cards == [] ==> |r.prompts| == maxAttempts)
  {
  }

  /** An extractor whose cards all pass the validity filter. */
  ghost predicate ValidExtractor(extract: Extractor) {
    forall response: string :: AllValid(extract(response))
  }

  lemma ExtractWithValid(decode: Decoder)
    ensures ValidExtractor(ExtractWith(decode))
  {
    forall response: string ensures AllValid(ExtractWith(decode)(response)) {
      assert ExtractWith(decode)(response) == ExtractFlashcards(response, decode);
    }
  }

  /** Every card returned passes the validity filter. */
  lemma RetryCardsValid(base: string, outcomes: seq<Outcome>, extract: Extractor, maxAttempts: nat, retryDelay: nat)
    requires ValidExtractor(extract)
    ensures AllValid(RetrySpec(base, outcomes, extract, maxAttempts, retryDelay).cards)
  {
  }

  /** With the client's settings, a chunk whose three requests all fail costs three
      requests and sleeps of 2 and 4 seconds, and the second and third prompts carry
      the reinforcement exactly when the first request returned a reply. */
  lemma DefaultRetryExhausted(base: string, outcomes: seq<Outcome>, extract: Extractor)
    requires forall j :: 0 <= j < MaxRetries ==> !Succeeds(OutcomeAt(outcomes, j), extract)
    ensures var r := RetrySpec(base, outcomes, extract, MaxRetries, RetryDelay);
            && r.cards == []
            && r.delays == [2, 4]
            && r.prompts[0] == base
            && r.prompts[1] == r.prompts[2]
            && (r.prompts[1] == base + Reinforcement <==> OutcomeAt(outcomes, 0).Reply?)
            && (r.prompts[1] == base <==> OutcomeAt(outcomes, 0).Raised?)
  {
    NoSuccess(outcomes, extract, MaxRetries);
    var ds := Backoff(RetryDelay, 2);
    assert ds[0] == 2 && ds[1] == 2 * Pow2(1) == 4;
    assert |base + Reinforcement| != |base|;
  }

  // ================================================================ a whole note

  function Combine(a: Attempts, b: Attempts): Attempts {
    Attempts(a.cards + b.cards, a.prompts + b.prompts, a.delays + b.delays)
  }

  const NoAttempts := Attempts([], [], [])

  /** The label of chunk `i` (counting from 1) of `n`. */
  function PartLabel(filename: string, i: nat, n: nat): string {
    filename + " (part " + NatToString(i) + "/" + NatToString(n) + ")"
  }

  /** The chunks from index `i` on, each processed with its own label and the
      outcomes its predecessors left. */
  function RunChunks(chunks: seq<string>, i: nat, filename: string, language: string,
                     outcomes: seq<Outcome>, extract: Extractor,
                     buildPrompt: (string, string, string) -> string): Attempts
    requires i <= |chunks|
    decreases |chunks| - i
  {
    if i == |chunks| then NoAttempts
    else
      var r := RetrySpec(buildPrompt(chunks[i], PartLabel(filename, i + 1, |chunks|), language),
                         outcomes, extract, MaxRetries, RetryDelay);
      Combine(r, RunChunks(chunks, i + 1, filename, language, Drop(outcomes, |r.prompts|), extract, buildPrompt))
  }

  /** `generate_flashcards`: short notes are one chunk under their own file name;
      longer ones are chunked and every chunk labelled "name (part i/n)". */
  function GenerateSpec(content: string, filename: string, language: string,
                        outcomes: seq<Outcome>, decode: Decoder,
                        buildPrompt: (string, string, string) -> string): Attempts
  {
    if |content| > ChunkThreshold then
      RunChunks(Chunks(content, ChunkThreshold), 0, filename, language, outcomes, ExtractWith(decode), buildPrompt)
    else
      RetrySpec(buildPrompt(content, filename, language), outcomes, ExtractWith(decode), MaxRetries, RetryDelay)
  }

  /** `generate_flashcards` as the source writes it. `buildPrompt` stands for
      `_create_prompt`, which is not part of this model. */
  method GenerateFlashcards(content: string, filename: string, language: string,
                            outcomes: seq<Outcome>, decode: Decoder,
                            buildPrompt: (string, string, string) -> string) returns (r: Attempts)
    ensures r == GenerateSpec(content, filename, language, outcomes, decode, buildPrompt)
  {
    if |content| > ChunkThreshold {
      var chunks := ChunkContent(content, ChunkThreshold);
      r := CollectChunks(chunks, filename, language, outcomes, ExtractWith(decode), buildPrompt);
    } else {
      r := GenerateFromChunk(buildPrompt(content, filename, language), outcomes, ExtractWith(decode),
                             MaxRetries, RetryDelay);
    }
  }

  /** The loop of `generate_flashcards` over the chunks: each chunk is sent under
      its part label, and the cards of all chunks are collected in chunk order. */
  method CollectChunks(chunks: seq<string>, filename: string, language: string,
                       outcomes: seq<Outcome>, extract: Extractor,
                       buildPrompt: (string, string, string) -> string) returns (r: Attempts)
    ensures r == RunChunks(chunks, 0, filename, language, outcomes, extract, buildPrompt)
  {
    var all := NoAttempts;
    var stream := outcomes;
    var i := 0;
    CombineUnit(RunChunks(chunks, 0, filename, language, outcomes, extract, buildPrompt));
    while i < |chunks|
      invariant 0 <= i <= |chunks|
      invariant Combine(all, RunChunks(chunks, i, filename, language, stream, extract, buildPrompt)) ==
                RunChunks(chunks, 0, filename, language, outcomes, extract, buildPrompt)
    {
      all, stream := CollectChunk(chunks, i, filename, language, all, stream, extract, buildPrompt, outcomes);
      i := i + 1;
    }
    CombineUnit(all);
    r := all;
  }

  /** One iteration of the chunk loop: chunk `i + 1` of `n` is sent under its part
      label, its cards are added, and the requests it used are consumed. */
  method CollectChunk(chunks: seq<string>, i: nat, filename: string, language: string,
                      all: Attempts, stream: seq<Outcome>, extract: Extractor,
                      buildPrompt: (string, string, string) -> string, ghost outcomes: seq<Outcome>)
    returns (all': Attempts, stream': seq<Outcome>)
    requires i < |chunks|
    requires Combine(all, RunChunks(chunks, i, filename, language, stream, extract, buildPrompt)) ==
             RunChunks(chunks, 0, filename, language, outcomes, extract, buildPrompt)
    ensures Combine(all', RunChunks(chunks, i + 1, filename, language, stream', extract, buildPrompt)) ==
            RunChunks(chunks, 0, filename, language, outcomes, extract, buildPrompt)
  {
    var chunkName := PartLabel(filename, i + 1, |chunks|);
    var part := GenerateFromChunk(buildPrompt(chunks[i], chunkName, language), stream, extract,
                                  MaxRetries, RetryDelay);
    RunChunksStep(chunks, i, filename, language, stream, extract, buildPrompt);
    CombineAssoc(all, part, RunChunks(chunks, i + 1, filename, language, Drop(stream, |part.prompts|), extract, buildPrompt));
    all' := Combine(all, part);
    stream' := Drop(stream, |part.prompts|);
  }

  lemma RunChunksStep(chunks: seq<string>, i: nat, filename: string, language: string,
                      outcomes: seq<Outcome>, extract: Extractor,
                      buildPrompt: (string, string, string) -> string)
    requires i < |chunks|
    ensures var r := RetrySpec(buildPrompt(chunks[i], PartLabel(filename, i + 1, |chunks|), language),
                               outcomes, extract, MaxRetries, RetryDelay);
            RunChunks(chunks, i, filename, language, outcomes, extract, buildPrompt) ==
            Combine(r, RunChunks(chunks, i + 1, filename, language, Drop(outcomes, |r.prompts|), extract, buildPrompt))
  {
  }

  lemma CombineUnit(a: Attempts)
    ensures Combine(NoAttempts, a) == a && Combine(a, NoAttempts) == a
  {
    assert [] + a.cards == a.cards && a.cards + [] == a.cards;
    assert [] + a.prompts == a.prompts && a.prompts + [] == a.prompts;
    assert [] + a.delays == a.delays && a.delays + [] == a.delays;
  }

  lemma CombineAssoc(a: Attempts, b: Attempts, c: Attempts)
    ensures Combine(Combine(a, b), c) == Combine(a, Combine(b, c))
  {
    assert a.cards + b.cards + c.cards == a.cards + (b.cards + c.cards);
    assert a.prompts + b.prompts + c.prompts == a.prompts + (b.prompts + c.prompts);
    assert a.delays + b.delays + c.delays == a.delays + (b.delays + c.delays);
  }

  // ---------------------------------------------------------------- a whole note: properties

  /** Every chunk costs between one and three requests, and every card returned
      passes the validity filter. */
  lemma {:induction false} RunChunksBounds(chunks: seq<string>, i: nat, filename: string, language: string,
                                           outcomes: seq<Outcome>, extract: Extractor,
                                           buildPrompt: (string, string, string) -> string)
    requires i <= |chunks| && ValidExtractor(extract)
    ensures var r := RunChunks(chunks, i, filename, language, outcomes, extract, buildPrompt);
            && |chunks| - i <= |r.prompts| <= MaxRetries * (|chunks| - i)
            && AllValid(r.cards)
    decreases |chunks| - i
  {
    if i < |chunks| {
      var base := buildPrompt(chunks[i], PartLabel(filename, i + 1, |chunks|), language);
      var r := RetrySpec(base, outcomes, extract, MaxRetries, RetryDelay);
      RetryOutcome(base, outcomes, extract, MaxRetries, RetryDelay);
      RetryCardsValid(base, outcomes, extract, MaxRetries, RetryDelay);
      RunChunksBounds(chunks, i + 1, filename, language, Drop(outcomes, |r.prompts|), extract, buildPrompt);
    }
  }

  /** A note of up to 6000 characters is a single chunk sent under its own file
      name; a longer one costs at least one and at most three requests per chunk,
      and its first request is for the first chunk, labelled "(part 1/n)". */
  lemma GenerateShape(content: string, filename: string, language: string,
                      outcomes: seq<Outcome>, decode: Decoder,
                      buildPrompt: (string, string, string) -> string)
    ensures var r := GenerateSpec(content, filename, language, outcomes, decode, buildPrompt);
            && AllValid(r.cards)
            && (|content| <= ChunkThreshold ==>
                  1 <= |r.prompts| <= MaxRetries && r.prompts[0] == buildPrompt(content, filename, language))
            && (|content| > ChunkThreshold ==>
                  |Chunks(content, ChunkThreshold)| <= |r.prompts| <= MaxRetries * |Chunks(content, ChunkThreshold)| &&
                  r.prompts[0] == buildPrompt(Chunks(content, ChunkThreshold)[0],
                                              PartLabel(filename, 1, |Chunks(content, ChunkThreshold)|), language))
  {
    var extract := ExtractWith(decode);
    ExtractWithValid(decode);
    if |content| > ChunkThreshold {
      var chunks := Chunks(content, ChunkThreshold);
      RunChunksBounds(chunks, 0, filename, language, outcomes, extract, buildPrompt);
      ChunksNonEmpty(content, ChunkThreshold);
      var base := buildPrompt(chunks[0], PartLabel(filename, 1, |chunks|), language);
      RetryOutcome(base, outcomes, extract, MaxRetries, RetryDelay);
    } else {
      var base := buildPrompt(content, filename, language);
      RetryOutcome(base, outcomes, extract, MaxRetries, RetryDelay);
      RetryCardsValid(base, outcomes, extract, MaxRetries, RetryDelay);
    }
  }

  /** The chunker always returns at least one chunk. */
  lemma ChunksNonEmpty(content: string, maxChars: nat)
    requires maxChars > 0
    ensures Chunks(content, maxChars) != []
  {
    if |content| > maxChars {
      var packed := Finish(PackAll(Paragraphs(content), maxChars));
      if packed == [] {
        assert Slices(content, maxChars) != [];
      }
    }
  }

  /** The label of the second of three parts. */
  lemma PartLabelExample()
    ensures PartLabel("notes.md", 2, 3) == "notes.md (part 2/3)"
  {
  }
}
