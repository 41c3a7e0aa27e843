/**
  * The control flow of `summarize_text` in src/video_summary/cli.py: one
  * completion request per chunk, one more to combine the partial summaries
  * when there are several chunks, and trimming under a character limit.
  *
  * The completion service is the parameter `complete`, which maps the request
  * sent to the message it answers with; the requests are recorded, in order, in the
  * result, so the call structure can be stated about them.
  */
module Summarize {
  import opened Wrappers
  import opened PyStr
  import opened Limit
  import opened Chunking
  import opened Trimming

  /** Some limit is set: what `summarize_text` checks before building any prompt. */
  predicate HasLimit(limits: Limits) {
    limits.paragraphs.Some? || limits.charLimit.Some?
  }

  /** The content of one chat message; `Text` renders it as the source's f-strings do. */
  datatype Message =
    | Instruction(limits: Limits)                  // the system message
    | ChunkPrompt(limits: Limits, chunk: string)   // the user message of `summarize_chunk`
    | RefinePrompt(limits: Limits, combined: string) // the user message of the refine request
  {
    /** The number the message asks for: the paragraph count whenever it is set. */
    function Count(): nat
      requires HasLimit(limits)
    {
      if limits.paragraphs.Some? then limits.paragraphs.value else limits.charLimit.value
    }

    /** The unit of `Count`, as the rendered text names it. */
    function Unit(): string {
      if limits.paragraphs.Some? then " paragraphs" else " characters"
    }

    /** What the message asks for: the count followed by its unit, e.g. `3 paragraphs`. */
    function Asked(): string
      requires HasLimit(limits)
    {
      Decimal(Count()) + Unit()
    }

    /** The text a user message carries: a transcript chunk or the joined partial summaries. */
    function Body(): string
      requires !Instruction?
    {
      if ChunkPrompt? then chunk else combined
    }

    /**
      * Every message asks for `Count()` of `Unit()` (so the paragraph count wins
      * when both are set), and a user message ends with the text it carries,
      * after a blank line.
      */
    function Text(): (r: string)
      requires HasLimit(limits)
      ensures Contains(r, Asked())
      ensures !Instruction? ==> EndsWith(r, "\n\n" + Body())
    {
      var asked := Asked();
      if Instruction? then InstructionText(limits.paragraphs.Some?, asked)
      else WithBody(Heading(), asked, Body())
    }

    /** The line of a user message in front of the blank line and the text it carries. */
    function Heading(): (r: string)
      requires HasLimit(limits) && !Instruction?
      ensures Contains(r, Asked())
    {
      var asked := Asked();
      var front := if ChunkPrompt? then
          if limits.paragraphs.Some? then "Summarize this transcript chunk into at most "
          else "Summarize this transcript chunk within "
        else
          if limits.paragraphs.Some? then "Combine and refine into exactly "
          else "Combine and refine into a summary within ";
      var back := if ChunkPrompt? then " (will refine later):"
        else if limits.paragraphs.Some? then ":"
        else " (shorter is fine if clear):";
      Framed(front, asked, back)
    }
  }

  /** The system instruction, asking for `asked`: a paragraph count or a character limit. */
  function InstructionText(paragraphs: bool, asked: string): (r: string)
    ensures Contains(r, asked)
  {
    if paragraphs then
      Framed("You are an expert summarizer. Return exactly ", asked,
        ", separated by a single blank line, no headings, no title, no bullet points.")
    else
      Framed("You are an expert summarizer. Produce a concise summary no longer than ", asked,
        ". Avoid pre/postamble, no headings or bullet points. If truncation would harm clarity, prioritize clarity while staying under the limit.")
  }

  /** `asked` filled into the text around it, as `.format` and the f-strings do. */
  function Framed(front: string, asked: string, back: string): (r: string)
    ensures Contains(r, asked)
    ensures |r| == |front| + |asked| + |back|
  {
    ContainsMiddle(front, asked, back);
    front + asked + back
  }

  /** `f"{heading}\n\n{body}"`, which still mentions what the heading does and ends with the body. */
  function WithBody(heading: string, asked: string, body: string): (r: string)
    requires Contains(heading, asked)
    ensures Contains(r, asked)
    ensures EndsWith(r, "\n\n" + body)
  {
    ContainsPrefix(heading, asked, "\n\n" + body);
    assert heading + "\n\n" + body == heading + ("\n\n" + body);
    assert (heading + ("\n\n" + body))[|heading|..] == "\n\n" + body;
    heading + "\n\n" + body
  }

  /** One chat-completion request (temperature 0.3): the model, the system message and the user message. */
  datatype Request = Request(model: string, system: Message, user: Message)

  /** The summary and every request made to produce it, in the order made. */
  datatype Summary = Summary(text: string, requests: seq<Request>)

  /** "Internal error: either paragraphs or char_limit must be provided". */
  datatype SummaryError = MissingConstraint

  /** The message the service answers with: `resp.choices[0].message`. */
  datatype Completion = Completion(content: string)

  /**
    * `resp.choices[0].message.content.strip()`: the content with the
    * whitespace at either end removed, and no more.
    */
  function Reply(complete: Request -> Completion, q: Request): (r: string)
    ensures Padded(complete(q).content, r) && Trimmed(r)
  {
    var content := complete(q).content;
    StripTrims(content);
    Strip(content)
  }

  /** The replies to a list of requests, in order. */
  function Replies(complete: Request -> Completion, qs: seq<Request>): seq<string> {
    seq(|qs|, i requires 0 <= i < |qs| => Reply(complete, qs[i]))
  }

  /**
    * The last step of both paths: trim only under a character limit. Without
    * one the reply is returned as it is; under a limit c a reply that fits is
    * kept and anything else is cut to at most c + 3 characters.
    */
  function Finish(reply: string, charLimit: Option<nat>): (r: string)
    ensures charLimit.None? ==> r == reply
    ensures charLimit.Some? ==> |r| <= charLimit.value + 3
    ensures charLimit.Some? && |reply| <= charLimit.value ==> r == reply
    ensures charLimit.Some? && |reply| > charLimit.value ==> |r| >= 3 && r[|r| - 3..] == "..."
  {
    match charLimit
    case None => reply
    case Some(c) => TrimToCharLimit(reply, c)
  }

  /** Every request goes to `model` with the same system instruction. */
  predicate AllSent(qs: seq<Request>, model: string, limits: Limits) {
    forall i :: 0 <= i < |qs| ==> qs[i].model == model && qs[i].system == Instruction(limits)
  }

  /**
    * `summarize_text(text, model, paragraphs, char_limit)`.
    * It fails when neither limit is set. With a single chunk it makes one
    * request and no refine request. With k > 1 chunks it makes k chunk
    * requests, in chunk order, and then one refine request over their replies
    * joined by blank lines. Every request carries the same model and system
    * instruction. The final reply is trimmed if and only if a character limit
    * is set.
    */
  function SummarizeText(text: string, model: string, limits: Limits, complete: Request -> Completion)
    : (r: Result<Summary, SummaryError>)
    ensures r.Err? <==> !HasLimit(limits)
    ensures r.Ok? ==>
      var chunks, qs := Chunks(text), r.value.requests;
      && |qs| >= 1
      && AllSent(qs, model, limits)
      && (|chunks| == 1 ==> qs == [Request(model, Instruction(limits), ChunkPrompt(limits, chunks[0]))])
      && (|chunks| > 1 ==>
            && |qs| == |chunks| + 1
            && (forall i :: 0 <= i < |chunks| ==> qs[i].user == ChunkPrompt(limits, chunks[i]))
            && qs[|chunks|].user == RefinePrompt(limits, Join("\n\n", Replies(complete, qs[..|chunks|]))))
      && r.value.text == Finish(Reply(complete, qs[|qs| - 1]), limits.charLimit)
  {
    if !HasLimit(limits) then Err(MissingConstraint)
    else
      var chunks := Chunks(text);
      if |chunks| == 1 then Ok(SummarizeSingle(chunks[0], model, limits, complete))
      else Ok(SummarizeAndRefine(chunks, model, limits, complete))
  }

  /** Lines 125-129: a single chunk is summarised by one request and not refined. */
  function SummarizeSingle(chunk: string, model: string, limits: Limits, complete: Request -> Completion)
    : (s: Summary)
    requires HasLimit(limits)
    ensures s.requests == [Request(model, Instruction(limits), ChunkPrompt(limits, chunk))]
    ensures s.text == Finish(Reply(complete, s.requests[0]), limits.charLimit)
  {
    var q := Request(model, Instruction(limits), ChunkPrompt(limits, chunk));
    Summary(Finish(Reply(complete, q), limits.charLimit), [q])
  }

  /** Lines 131-150: one request per chunk, then one refine request over the joined replies. */
  function SummarizeAndRefine(chunks: seq<string>, model: string, limits: Limits, complete: Request -> Completion)
    : (s: Summary)
    requires HasLimit(limits)
    ensures |s.requests| == |chunks| + 1
    ensures AllSent(s.requests, model, limits)
    ensures forall i :: 0 <= i < |chunks| ==> s.requests[i].user == ChunkPrompt(limits, chunks[i])
    ensures s.requests[|chunks|].user == RefinePrompt(limits, Join("\n\n", Replies(complete, s.requests[..|chunks|])))
    ensures s.text == Finish(Reply(complete, s.requests[|chunks|]), limits.charLimit)
  {
    var asks := ChunkRequests(chunks, model, limits);
    var refine := Request(model, Instruction(limits), RefinePrompt(limits, Join("\n\n", Replies(complete, asks))));
    SentAppend(asks, refine, model, limits);
    assert (asks + [refine])[..|chunks|] == asks;
    Summary(Finish(Reply(complete, refine), limits.charLimit), asks + [refine])
  }

  /** The requests of `partials = [summarize_chunk(c) for c in chunks]`, one per chunk in order. */
  function ChunkRequests(chunks: seq<string>, model: string, limits: Limits): (qs: seq<Request>)
    ensures |qs| == |chunks|
    ensures AllSent(qs, model, limits)
    ensures forall i :: 0 <= i < |chunks| ==> qs[i].user == ChunkPrompt(limits, chunks[i])
  {
    seq(|chunks|, i requires 0 <= i < |chunks| => Request(model, Instruction(limits), ChunkPrompt(limits, chunks[i])))
  }

  /** One more request to the same model with the same instruction keeps them all alike. */
  lemma SentAppend(qs: seq<Request>, q: Request, model: string, limits: Limits)
    requires AllSent(qs, model, limits) && q.model == model && q.system == Instruction(limits)
    ensures AllSent(qs + [q], model, limits)
  {
    forall i | 0 <= i < |qs| + 1
      ensures (qs + [q])[i].model == model && (qs + [q])[i].system == Instruction(limits)
    {
      if i < |qs| { assert (qs + [q])[i] == qs[i]; }
    }
  }

  /**
    * The number of completion requests follows from the transcript length:
    * one for a transcript of at most `MaxChars` characters, otherwise
    * `ceil(len / MaxChars)` chunk requests plus one refine request.
    */
  lemma RequestCount(text: string, model: string, limits: Limits, complete: Request -> Completion)
    requires HasLimit(limits)
    ensures var qs := SummarizeText(text, model, limits, complete).value.requests;
      |qs| == if |text| <= MaxChars then 1 else CeilDiv(|text|, MaxChars) + 1
  {
  }

  /** The transcript text carried by each request; a refine request carries none. */
  function SentChunks(qs: seq<Request>): seq<string> {
    seq(|qs|, i requires 0 <= i < |qs| => if qs[i].user.ChunkPrompt? then qs[i].user.chunk else [])
  }

  /**
    * Every character of the transcript is sent exactly once, in order: the
    * chunks carried by the requests spell out the transcript, and the refine
    * request (if any) carries no transcript text of its own.
    */
  lemma TranscriptSentOnce(text: string, model: string, limits: Limits, complete: Request -> Completion)
    requires HasLimit(limits)
    ensures Concat(SentChunks(SummarizeText(text, model, limits, complete).value.requests)) == text
  {
    var chunks := Chunks(text);
    if |chunks| == 1 {
      SingleSendsChunk(chunks[0], model, limits, complete);
      assert Concat(chunks) == chunks[0] + Concat([]);
    } else {
      RefineSendsChunks(chunks, model, limits, complete);
    }
  }

  lemma SingleSendsChunk(chunk: string, model: string, limits: Limits, complete: Request -> Completion)
    requires HasLimit(limits)
    ensures Concat(SentChunks(SummarizeSingle(chunk, model, limits, complete).requests)) == chunk
  {
    var qs := SummarizeSingle(chunk, model, limits, complete).requests;
    SentOne(qs);
  }

  /** A single chunk request sends exactly its chunk. */
  lemma SentOne(qs: seq<Request>)
    requires |qs| == 1 && qs[0].user.ChunkPrompt?
    ensures Concat(SentChunks(qs)) == qs[0].user.chunk
  {
    var sent := SentChunks(qs);
    assert sent == [qs[0].user.chunk];
    assert Concat(sent) == qs[0].user.chunk + Concat([]);
  }

  lemma RefineSendsChunks(chunks: seq<string>, model: string, limits: Limits, complete: Request -> Completion)
    requires HasLimit(limits)
    ensures Concat(SentChunks(SummarizeAndRefine(chunks, model, limits, complete).requests)) == Concat(chunks)
  {
    SentChunksOf(chunks, limits, SummarizeAndRefine(chunks, model, limits, complete).requests);
  }

  /** Requests that carry the chunks in order, then one more request, send exactly the chunks. */
  lemma SentChunksOf(chunks: seq<string>, limits: Limits, qs: seq<Request>)
    requires |qs| == |chunks| + 1 && !qs[|chunks|].user.ChunkPrompt?
    requires forall i :: 0 <= i < |chunks| ==> qs[i].user == ChunkPrompt(limits, chunks[i])
    ensures Concat(SentChunks(qs)) == Concat(chunks)
  {
    var n := |chunks|;
    var sent := SentChunks(qs);
    assert sent == chunks + [[]] by {
      forall i | 0 <= i < n
        ensures sent[i] == chunks[i]
      {
        assert qs[i].user == ChunkPrompt(limits, chunks[i]);
      }
      assert sent[n] == [];
    }
    ConcatEmptyTail(chunks);
  }

  lemma {:induction false} ConcatEmptyTail(parts: seq<string>)
    ensures Concat(parts + [[]]) == Concat(parts)
  {
    if parts == [] {
      assert Concat([[]]) == [] + Concat([]);
    } else {
      assert (parts + [[]])[1..] == parts[1..] + [[]];
      ConcatEmptyTail(parts[1..]);
    }
  }

  /**
    * Under a character limit the summary is at most the limit plus the
    * three-character ellipsis.
    */
  lemma SummaryLength(text: string, model: string, limits: Limits, complete: Request -> Completion)
    requires limits.charLimit.Some?
    ensures |SummarizeText(text, model, limits, complete).value.text| <= limits.charLimit.value + 3
  {
  }
}
