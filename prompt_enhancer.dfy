/**
 * The decision logic of the prompt-enhancement endpoint (`POST` of
 * api/translate-prompt.ts).
 *
 * The chat-completion call is not modelled: its outcome is an input. It is
 * either the completion's `content`, which may be absent, or a failure
 * carrying an error message. Reading the request body can fail as well, and
 * the endpoint's `catch` block handles both failures alike.
 */
module PromptEnhancer {
  import opened Options
  import opened JsString

  // ---------------------------------------------------------------------------
  // Fixed texts
  // ---------------------------------------------------------------------------

  /** Body of the 400 response for a missing `text` ("please provide text"). */
  const MissingTextError: string := "텍스트를 제공해주세요."

  /** Markers of a refusal; the last one only counts in a short completion. */
  const NotAppropriate: string := "not appropriate"
  const ICannot: string := "I cannot"
  const IApologize: string := "I apologize"
  const ImSorry: string := "I'm sorry"

  /** A completion shorter than this is too short to use as it is. */
  const MinLength: nat := 100
  /** A completion with fewer `' '`-separated pieces than this is too short as well. */
  const MinPieces: nat := 15

  // The longer texts are written as their words joined by single spaces,
  // which is the same text the endpoint writes out in full.

  /** The business-consultation prompt that replaces a refusal. */
  const DefaultPrompt: string := Join(DefaultWords, ' ')
  const DefaultWords: seq<string> :=
    ["Hyperrealistic", "business", "consultation", "in", "modern", "office", "bathed",
     "in", "soft", "natural", "light.", "Professional", "insurance", "consultant",
     "and", "client", "discuss", "important", "matters", "at", "polished", "mahogany",
     "desk.", "Trust-building", "atmosphere", "with", "elegant", "decor,",
     "leather-bound", "portfolios,", "subtle", "facial", "expressions", "conveying",
     "confidence.", "Photographic", "quality", "with", "meticulous", "detail."]

  /** The text that a too-short completion is wrapped in. */
  const EnrichPreamble: string := "Hyperrealistic scene with incredible detail: "
  const EnrichPostamble: string := ". " + Join(EnrichWords, ' ')
  const EnrichWords: seq<string> :=
    ["Rich", "textures,", "natural", "lighting,", "atmospheric", "depth,", "volumetric",
     "shadows,", "perfect", "perspective,", "photographic", "quality,", "4K",
     "resolution,", "environmental", "storytelling,", "emotional", "weight,",
     "meticulous", "attention", "to", "small", "details."]

  /** The template of the response to a failure, around the error message. */
  const ErrorPreamble: string := "A " + Join(ErrorHeadWords, ' ') + " "
  const ErrorHeadWords: seq<string> :=
    ["hyper-realistic", "visual", "interpretation", "with", "meticulous", "details,",
     "natural", "lighting,", "photographic", "quality,", "precise", "textures,", "and",
     "atmospheric", "depth.", "The", "scene", "features"]
  const ErrorPostamble: string := ", " + Join(ErrorTailWords, ' ')
  const ErrorTailWords: seq<string> :=
    ["rendered", "with", "extraordinary", "clarity,", "volumetric", "light,", "and",
     "perfect", "perspective.", "4K", "resolution."]
  /** What the template names when the failure carries no message. */
  const UnknownInput: string := "unknown input"

  // ---------------------------------------------------------------------------
  // Requests, completions and responses
  // ---------------------------------------------------------------------------

  /**
   * The request as the endpoint reads it: a body that is not JSON makes
   * `req.json()` throw with a message; otherwise the `text` field, absent or a
   * string.
   */
  datatype Request = Unreadable(message: Option<string>) | Request(text: Option<string>)

  /** The outcome of the chat-completion call: its content, or a thrown error's message. */
  datatype Completion = Completion(content: Option<string>) | CompletionFailed(message: Option<string>)

  datatype ResponseBody =
    | ErrorBody(error: string)
    | PromptBody(prompt: string, isValidImagePrompt: bool)

  datatype Response = Response(status: int, body: ResponseBody)

  // ---------------------------------------------------------------------------
  // The decision
  // ---------------------------------------------------------------------------

  /** `!text`: the field is absent or the empty string. */
  predicate MissingText(text: Option<string>) {
    text.None? || text.value == []
  }

  /** The completion reads as a refusal to write a prompt. */
  predicate IsRefusal(p: string) {
    || Includes(p, NotAppropriate)
    || Includes(p, ICannot)
    || Includes(p, IApologize)
    || (Includes(p, ImSorry) && |p| < MinLength)
  }

  /** The completion is too short, in characters or in `' '`-separated pieces. */
  predicate NeedsEnrichment(p: string) {
    |p| < MinLength || |Split(p, ' ')| < MinPieces
  }

  /** `message.content || ''` */
  function ContentText(content: Option<string>): string {
    if content.None? then [] else content.value
  }

  /**
   * The enriched prompt: the completion between the fixed preamble and
   * postamble. It keeps the completion intact and is never too short itself.
   */
  function Enrich(p: string): (r: string)
    ensures OccursAt(r, p, |EnrichPreamble|)
    ensures |r| == |EnrichPreamble| + |p| + |EnrichPostamble|
    ensures !NeedsEnrichment(r)
  {
    var r := EnrichPreamble + p + EnrichPostamble;
    assert r[|EnrichPreamble|..|EnrichPreamble| + |p|] == p;
    EnrichPostambleSpaces();
    CountCharAppend(EnrichPreamble + p, EnrichPostamble, ' ');
    r
  }

  /**
   * The three-way decision on the completion text: a refusal becomes the
   * default prompt, a too-short text is enriched, anything else is kept.
   * Whatever the completion, the prompt returned is not too short.
   */
  function PostProcess(content: Option<string>): (r: string)
    ensures var p := ContentText(content);
      r == p || r == DefaultPrompt || r == Enrich(p)
    ensures !NeedsEnrichment(r)
  {
    var p := ContentText(content);
    if IsRefusal(p) then
      DefaultPromptNotShort();
      DefaultPrompt
    else if NeedsEnrichment(p) then Enrich(p)
    else p
  }

  /** `error?.message || "unknown input"` */
  function ErrorText(message: Option<string>): (r: string)
    ensures r != []
    ensures message.Some? && message.value != [] ==> r == message.value
  {
    if message.None? || message.value == [] then UnknownInput else message.value
  }

  /**
   * The response text of the `catch` block: the error's text inside the fixed
   * template, which keeps it intact and is never too short.
   */
  function ErrorFallback(message: Option<string>): (r: string)
    ensures OccursAt(r, ErrorText(message), |ErrorPreamble|)
    ensures |r| == |ErrorPreamble| + |ErrorText(message)| + |ErrorPostamble|
    ensures !NeedsEnrichment(r)
  {
    var t := ErrorText(message);
    var r := ErrorPreamble + t + ErrorPostamble;
    assert r[|ErrorPreamble|..|ErrorPreamble| + |t|] == t;
    ErrorTemplateSpaces();
    CountCharAppend(ErrorPreamble, t + ErrorPostamble, ' ');
    assert r == ErrorPreamble + (t + ErrorPostamble);
    r
  }

  /** A 200 response carrying `prompt`. */
  function Prompt(prompt: string): Response {
    Response(200, PromptBody(prompt, true))
  }

  /**
   * The endpoint. A missing `text` is answered with 400 before any completion
   * is asked for; every other path, the failures included, answers 200 with a
   * prompt marked valid that is never empty nor too short. That prompt is the
   * processed completion, or the failure template around the error's text.
   */
  function HandlePost(request: Request, completion: Completion): (r: Response)
    ensures request.Request? && MissingText(request.text) <==> r.status == 400
    ensures r.status == 400 ==> r.body == ErrorBody(MissingTextError)
    ensures r.status != 400 ==> r.status == 200 && r.body.PromptBody? && r.body.isValidImagePrompt
    ensures r.status != 400 ==> !NeedsEnrichment(r.body.prompt) && r.body.prompt != []
    ensures request.Unreadable? ==> r.body.prompt == ErrorFallback(request.message)
    ensures request.Request? && !MissingText(request.text) && completion.CompletionFailed? ==>
      r.body.prompt == ErrorFallback(completion.message)
    ensures request.Request? && !MissingText(request.text) && completion.Completion? ==>
      r.body.prompt == PostProcess(completion.content)
  {
    match request
    case Unreadable(message) => Prompt(ErrorFallback(message))
    case Request(text) =>
      if MissingText(text) then Response(400, ErrorBody(MissingTextError))
      else match completion
        case CompletionFailed(message) => Prompt(ErrorFallback(message))
        case Completion(content) => Prompt(PostProcess(content))
  }

  // ---------------------------------------------------------------------------
  // Properties of the decision
  // ---------------------------------------------------------------------------

  /** A missing `text` gives the 400 response whatever the completion would have been. */
  lemma MissingTextIgnoresCompletion(text: Option<string>, c1: Completion, c2: Completion)
    requires MissingText(text)
    ensures HandlePost(Request(text), c1) == Response(400, ErrorBody(MissingTextError))
    ensures HandlePost(Request(text), c1) == HandlePost(Request(text), c2)
  {
  }

  /** Any of the three unconditional markers gives exactly the default prompt. */
  lemma HardRefusalGivesDefault(p: string)
    requires Includes(p, NotAppropriate) || Includes(p, ICannot) || Includes(p, IApologize)
    ensures PostProcess(Some(p)) == DefaultPrompt
  {
  }

  /**
   * `"I'm sorry"` alone counts only in a short completion: a longer one goes on
   * to the enrichment check.
   */
  lemma LongApologyIsNotRefusal(p: string)
    requires Includes(p, ImSorry) && |p| >= MinLength
    requires !Includes(p, NotAppropriate) && !Includes(p, ICannot) && !Includes(p, IApologize)
    ensures !IsRefusal(p)
    ensures PostProcess(Some(p)) == if |Split(p, ' ')| < MinPieces then Enrich(p) else p
  {
  }

  /** The default prompt is not the enrichment of any text. */
  lemma {:induction false} DefaultPromptIsNotEnriched(q: string)
    ensures DefaultPrompt != Enrich(q)
  {
    var n := |DefaultWords| - 1;
    var d := Join(DefaultWords[..n], ' ') + [' '];
    assert DefaultPrompt == d + DefaultWords[n];
    assert DefaultPrompt[|DefaultPrompt| - 2] == 'l';
    var e := EnrichPreamble + q + ". " + Join(EnrichWords[..|EnrichWords| - 1], ' ') + [' '];
    assert Enrich(q) == e + EnrichWords[|EnrichWords| - 1];
    assert Enrich(q)[|Enrich(q)| - 2] == 's';
  }

  /**
   * Ordering of the checks: a refusal, however short, is replaced by the
   * default prompt and is never wrapped.
   */
  lemma RefusalIsNeverWrapped(p: string, q: string)
    requires IsRefusal(p)
    ensures PostProcess(Some(p)) == DefaultPrompt
    ensures PostProcess(Some(p)) != Enrich(q)
  {
    DefaultPromptIsNotEnriched(q);
  }

  /** The enriched prompt contains the completion as a substring. */
  lemma EnrichContains(p: string)
    ensures Includes(Enrich(p), p)
  {
    IncludesIff(Enrich(p), p, |EnrichPreamble|);
  }

  /** An absent or empty completion is enriched, so the prompt is never empty. */
  lemma EmptyCompletionIsEnriched()
    ensures PostProcess(None) == Enrich([])
    ensures PostProcess(Some([])) == Enrich([])
    ensures PostProcess(None) != []
  {
    assert !IsRefusal([]);
  }

  /**
   * A completion that is no refusal but is too short, by length or by piece
   * count, is wrapped in the enrichment text.
   */
  lemma ShortCompletionIsEnriched(p: string)
    requires !IsRefusal(p) && NeedsEnrichment(p)
    ensures PostProcess(Some(p)) == Enrich(p)
    ensures Includes(PostProcess(Some(p)), p)
  {
    EnrichContains(p);
  }

  /** A completion that is neither a refusal nor too short is returned unchanged. */
  lemma PassThrough(p: string)
    requires !IsRefusal(p) && !NeedsEnrichment(p)
    ensures PostProcess(Some(p)) == p
  {
  }

  /**
   * Processing is stable: a processed prompt that does not read as a refusal
   * comes back unchanged when processed once more.
   */
  lemma PostProcessStable(content: Option<string>)
    ensures !IsRefusal(PostProcess(content)) ==>
      PostProcess(Some(PostProcess(content))) == PostProcess(content)
  {
  }

  /** The failure template names the message, or `unknown input` when it has none. */
  lemma ErrorFallbackText(message: Option<string>)
    ensures message.None? || message == Some([]) ==>
      ErrorFallback(message) == ErrorPreamble + UnknownInput + ErrorPostamble
    ensures message.Some? && message.value != [] ==>
      ErrorFallback(message) == ErrorPreamble + message.value + ErrorPostamble
  {
  }

  /** A short refusal, as the completion might return it. */
  lemma ShortRefusalExample()
    ensures PostProcess(Some("I cannot create that.")) == DefaultPrompt
  {
    assert OccursAt("I cannot create that.", ICannot, 0);
    IncludesIff("I cannot create that.", ICannot, 0);
  }

  // ---------------------------------------------------------------------------
  // Facts about the fixed texts
  // ---------------------------------------------------------------------------

  /** The default prompt is long enough and has enough pieces. */
  lemma DefaultPromptNotShort()
    ensures !NeedsEnrichment(DefaultPrompt)
  {
    JoinSeparators(DefaultWords, ' ');
    JoinLength(DefaultWords, ' ', 2);
  }

  /** The enrichment postamble alone has more than enough spaces, and with the preamble enough length. */
  lemma EnrichPostambleSpaces()
    ensures |EnrichPreamble| + |EnrichPostamble| >= MinLength
    ensures CountChar(EnrichPostamble, ' ') >= MinPieces - 1
  {
    JoinSeparators(EnrichWords, ' ');
    JoinLength(EnrichWords, ' ', 2);
    CountCharAppend(". ", Join(EnrichWords, ' '), ' ');
  }

  /** The error template alone is long enough and has enough spaces. */
  lemma ErrorTemplateSpaces()
    ensures |ErrorPreamble| + |ErrorPostamble| >= MinLength
    ensures CountChar(ErrorPreamble, ' ') >= MinPieces - 1
  {
    JoinSeparators(ErrorHeadWords, ' ');
    JoinLength(ErrorHeadWords, ' ', 3);
    JoinLength(ErrorTailWords, ' ', 2);
    var body := Join(ErrorHeadWords, ' ');
    CountCharAppend("A ", body, ' ');
    CountCharAppend("A " + body, " ", ' ');
  }
}
