/**
  * `main` in src/video_summary/cli.py, without its I/O: which limit is in
  * force (`--limit`, the positional paragraph count, or the default), where the
  * summary is written, and how the two feed `summarize_text`.
  */
module Cli {
  import opened Wrappers
  import opened PyStr
  import opened Limit
  import opened Chunking
  import opened Trimming
  import opened Summarize

  /** The paragraph count used when neither `--limit` nor a positional count is given. */
  const DefaultParagraphs: nat := 3

  /** A `fail(...)` of `main` before summarisation starts. */
  datatype CliError =
    | BadLimit(cause: LimitError)   // `parse_limit` refused `--limit`
    | NonPositiveCount              // "paragraphs must be a positive integer"

  /** Python truthiness of `args.limit`: absent and `""` are both false. */
  predicate Truthy(s: Option<string>) {
    s.Some? && s.value != []
  }

  /**
    * Lines 203-221 of `main`: the `(effective_paragraphs, char_limit)` pair
    * handed to `summarize_text`. A truthy `--limit` alone decides it, and the
    * positional count is then ignored; otherwise a positional count must be
    * positive and is used as given; otherwise three paragraphs. Whatever it
    * returns sets exactly one side of the pair, to a positive value.
    */
  function EffectiveLimits(limit: Option<string>, paragraphs: Option<int>): (r: Result<Limits, CliError>)
    ensures r.Ok? ==> r.value.Valid()
    ensures Truthy(limit) ==>
      match ParseLimit(limit.value)
      case Ok(l) => r == Ok(l)
      case Err(e) => r == Err(BadLimit(e))
    ensures !Truthy(limit) && paragraphs.None? ==> r == Ok(Paragraphs(DefaultParagraphs).ToLimits())
    ensures !Truthy(limit) && paragraphs.Some? ==>
      r == if paragraphs.value > 0 then Ok(Paragraphs(paragraphs.value).ToLimits()) else Err(NonPositiveCount)
  {
    var parsed := if Truthy(limit) then ParseLimit(limit.value) else Ok(Limits(None, None));
    match parsed
    case Err(e) => Err(BadLimit(e))
    case Ok(l) =>
      if l.paragraphs.Some? then Ok(Limits(l.paragraphs, l.charLimit))
      else if l.charLimit.Some? then Ok(Limits(None, l.charLimit))
      else if paragraphs.None? then Ok(Limits(Some(DefaultParagraphs), None))
      else if paragraphs.value <= 0 then Err(NonPositiveCount)
      else Ok(Limits(Some(paragraphs.value), None))
  }

  /** With a truthy `--limit`, the positional paragraph count makes no difference. */
  lemma PositionalIgnoredUnderLimit(limit: string, p1: Option<int>, p2: Option<int>)
    requires limit != []
    ensures EffectiveLimits(Some(limit), p1) == EffectiveLimits(Some(limit), p2)
  {
  }

  /** `video.mp4 5 --limit 3p` summarises to three paragraphs. */
  lemma LimitWinsOverPositional(limit: string)
    requires limit == "3p"
    ensures EffectiveLimits(Some(limit), Some(5)) == Ok(Paragraphs(3).ToLimits())
  {
    assert Zeros(0) == [] by {}
    assert "" + Zeros(0) + Decimal(3) + ['p'] + "" == limit;
    ParseParagraphsForm("", 0, 3, 'p', "");
  }

  /**
    * `--limit ""` is falsy and so counts as absent, while a whitespace-only
    * `--limit` is truthy, reaches `parse_limit` and is refused as empty.
    */
  lemma EmptyVersusBlankLimit(blank: string, paragraphs: Option<int>)
    requires blank != [] && AllSpace(blank)
    ensures EffectiveLimits(Some(""), paragraphs) == EffectiveLimits(None, paragraphs)
    ensures EffectiveLimits(Some(blank), paragraphs) == Err(BadLimit(EmptyLimit))
  {
    ParseBlank(blank);
  }

  /**
    * `Path(video).stem` (as of Python 3.12): the file name without its last
    * suffix; a leading dot or a trailing dot does not start a suffix.
    */
  function Stem(name: string): (r: string)
    ensures r <= name
    ensures r != name ==>
      && 0 < |r| < |name| - 1 && name[|r|] == '.'
      && forall j :: |r| < j < |name| ==> name[j] != '.'
    ensures r == name ==>
      || (|name| > 0 && name[|name| - 1] == '.')
      || forall j :: 0 < j < |name| ==> name[j] != '.'
  {
    var i := RFind(name, '.');
    if 0 < i < |name| - 1 then name[..i] else name
  }

  /** The last suffix is dropped: `Stem("talk.v2.mp4") == "talk.v2"`. */
  lemma StemDropsLastSuffix(base: string, ext: string)
    requires base != [] && ext != [] && '.' !in ext
    ensures Stem(base + "." + ext) == base
  {
    var name := base + "." + ext;
    assert name[|base|] == '.';
    var i := RFind(name, '.');
    assert i == |base| by {
      assert i >= |base|;
      assert forall j :: |base| < j < |name| ==> name[j] == ext[j - |base| - 1];
    }
    assert name[..i] == base;
  }

  /**
    * `video_path.parent / f"{video_path.stem}.summary.txt"` for a normalised
    * POSIX path: the summary goes beside the video.
    */
  function DefaultOutPath(video: string): (r: string)
    ensures |r| >= 12 && r[|r| - 12..] == ".summary.txt"
    ensures var d := RFind(video, '/') + 1;
      && d <= |r| && r[..d] == video[..d]
      && forall j :: d <= j < |r| ==> r[j] != '/'
  {
    var slash := RFind(video, '/');
    var stem := Stem(video[slash + 1..]);
    BesideVideo(video, slash, stem);
    video[..slash + 1] + stem + ".summary.txt"
  }

  /**
    * A prefix of the name after the last slash, put after the directory and
    * followed by `.summary.txt`, keeps the directory and adds no slash.
    */
  lemma BesideVideo(video: string, slash: int, stem: string)
    requires -1 <= slash < |video|
    requires forall j :: slash < j < |video| ==> video[j] != '/'
    requires stem <= video[slash + 1..]
    ensures var r := video[..slash + 1] + stem + ".summary.txt";
      && |r| >= 12 && r[|r| - 12..] == ".summary.txt"
      && r[..slash + 1] == video[..slash + 1]
      && forall j :: slash + 1 <= j < |r| ==> r[j] != '/'
  {
    assert forall j :: 0 <= j < |stem| ==> stem[j] == video[slash + 1 + j];
    AppendedWithoutSlash(video[..slash + 1], stem, ".summary.txt");
    var r := video[..slash + 1] + stem + ".summary.txt";
    assert r[|r| - 12..] == ".summary.txt";
  }

  /** Appending slash-free text to a directory prefix keeps the prefix and adds no slash. */
  lemma AppendedWithoutSlash(dir: string, stem: string, suffix: string)
    requires forall j :: 0 <= j < |stem| ==> stem[j] != '/'
    requires forall j :: 0 <= j < |suffix| ==> suffix[j] != '/'
    ensures var r := dir + stem + suffix;
      r[..|dir|] == dir && forall j :: |dir| <= j < |r| ==> r[j] != '/'
  {
    var r := dir + stem + suffix;
    forall j | |dir| <= j < |r|
      ensures r[j] != '/'
    {
      if j < |dir| + |stem| {
        assert r[j] == stem[j - |dir|];
      } else {
        assert r[j] == suffix[j - |dir| - |stem|];
      }
    }
  }

  /** A bare file name is summarised to `<stem>.summary.txt` in the working directory. */
  lemma DefaultOutPathBareName(video: string)
    requires '/' !in video
    ensures DefaultOutPath(video) == Stem(video) + ".summary.txt"
  {
    assert RFind(video, '/') == -1;
    assert video[0..] == video;
  }

  /** The summary of `dir/name` is written to `dir/<stem>.summary.txt`. */
  lemma DefaultOutPathBesideVideo(dir: string, name: string)
    requires '/' !in name
    ensures DefaultOutPath(dir + "/" + name) == dir + "/" + Stem(name) + ".summary.txt"
  {
    var video := dir + "/" + name;
    var slash := RFind(video, '/');
    assert video[|dir|] == '/';
    assert slash == |dir| by {
      assert slash >= |dir|;
      assert forall j :: |dir| < j < |video| ==> video[j] == name[j - |dir| - 1];
    }
    assert video[..slash + 1] == dir + "/";
    assert video[slash + 1..] == name;
  }

  /** Lines 245-249: a truthy `--out` wins, else the default beside the video. */
  function OutPath(out: Option<string>, video: string): (r: string)
    ensures Truthy(out) ==> r == out.value
    ensures !Truthy(out) ==>
      && |r| >= 12 && r[|r| - 12..] == ".summary.txt"
      && var d := RFind(video, '/') + 1; d <= |r| && r[..d] == video[..d]
  {
    if Truthy(out) then out.value else DefaultOutPath(video)
  }

  /** What `main` produces: where the summary goes and the summary itself. */
  datatype Outcome = Outcome(outPath: string, summary: Summary)

  datatype RunError =
    | Usage(usage: CliError)               // a `fail(...)` in `main`
    | Summarization(internal: SummaryError) // a `fail(...)` in `summarize_text`

  /**
    * `main` from the arguments to the written summary, with the transcript
    * and the completion service as inputs; checking that the video exists,
    * ffmpeg, Whisper, the API key and the file write are not modelled.
    * The completion service is total here, so a request that raises is not
    * a cause of failure. Among the causes modelled, a run fails exactly when
    * the limits are refused, always as a usage error: the "Internal error"
    * of `summarize_text` cannot be reached from `main`, since every accepted
    * pair of limits sets one of them. The
    * summary is trimmed exactly when a character limit `c` is in force, and
    * is then at most `c + 3` long; under a paragraph count it is the model's
    * last reply, stripped and otherwise untouched.
    */
  function Run(video: string, paragraphs: Option<int>, limit: Option<string>, out: Option<string>,
               model: string, transcript: string, complete: Request -> Completion): (r: Result<Outcome, RunError>)
    ensures var e := EffectiveLimits(limit, paragraphs);
      && (r.Err? <==> e.Err?)
      && (r.Err? ==> r.error == Usage(e.error))
      && (r.Ok? ==> r.value.outPath == OutPath(out, video)
                    && SummarizeText(transcript, model, e.value, complete) == Ok(r.value.summary))
    ensures r.Ok? ==>
      var c, s := EffectiveLimits(limit, paragraphs).value.charLimit, r.value.summary;
      && |s.requests| >= 1
      && (c.Some? ==> |s.text| <= c.value + 3 && s.text == TrimToCharLimit(Reply(complete, s.requests[|s.requests| - 1]), c.value))
      && (c.None? ==> s.text == Reply(complete, s.requests[|s.requests| - 1]))
  {
    match EffectiveLimits(limit, paragraphs)
    case Err(e) => Err(Usage(e))
    case Ok(limits) =>
      match SummarizeText(transcript, model, limits, complete)
      case Err(e) => Err(Summarization(e))
      case Ok(summary) => Ok(Outcome(OutPath(out, video), summary))
  }
}
