/** The provider adapter (`services/geminiService.ts`): the credential gate, the
    prompt-size limit, the normalisation of array answers, the image-size mapping,
    and the dispatch of the three exported generators to Gemini, OpenAI or Groq
    under the retry policy. Each provider call is a backend function from the
    request and the attempt number to what that attempt returns. */
module Service {
  import opened Wrappers
  import opened Domain
  import opened Retry
  import Text
  import Seqs

  // ----- credential gate (validateConfig) -----

  function ConfigError(p: Provider): ApiError {
    ApiError(None, "Please enter your " + ProviderUpper(p) + " API Key in the settings.")
  }

  /** `validateConfig`: throws exactly when no API key was entered. */
  function ValidateConfig(cfg: ApiConfig): (r: Option<ApiError>)
    ensures r.Some? <==> cfg.apiKey == ""
    ensures r.Some? ==> r.value.status.None? && Text.IsPrefix("Please enter your ", r.value.message)
  {
    if cfg.apiKey == "" then Some(ConfigError(cfg.provider)) else None
  }

  // ----- prompt-generation input limit (getPromptGenPrompt) -----

  const PromptContentLimit: nat := 50000
  const TruncationMark: string := "...(truncated)"

  /** The blog text sent for prompt generation: longer than 50000 characters, it is
      cut to its first 50000 and marked as truncated. */
  function TruncateForPrompt(content: string): (r: string)
    ensures |content| <= PromptContentLimit ==> r == content
    ensures |content| > PromptContentLimit ==>
              |r| == PromptContentLimit + |TruncationMark|
              && Text.IsPrefix(content[..PromptContentLimit], r)
              && r[PromptContentLimit..] == TruncationMark
  {
    if |content| > PromptContentLimit then content[..PromptContentLimit] + TruncationMark else content
  }

  /** Truncating a second time changes nothing. */
  lemma TruncateIdempotent(content: string)
    ensures TruncateForPrompt(TruncateForPrompt(content)) == TruncateForPrompt(content)
  {
    var once := TruncateForPrompt(content);
    if |content| > PromptContentLimit {
      assert once[..PromptContentLimit] == content[..PromptContentLimit];
      assert once[..PromptContentLimit] + TruncationMark == once;
    }
  }

  // ----- parsed JSON and the array normalisation of the REST adapter -----

  /** A value `JSON.parse` can produce. Object entries are listed in the order
      `Object.values` enumerates them. */
  datatype Json =
    | JNull
    | JBool(b: bool)
    | JNumber(n: int)
    | JString(s: string)
    | JArray(items: seq<Json>)
    | JObject(entries: seq<(string, Json)>)

  /** The TypeError `Object.values(null)` throws. */
  const NullConversionError: ApiError := ApiError(None, "Cannot convert undefined or null to object")

  /** `Object.values`: an object's values, a string's characters, nothing for a
      number or boolean; `null` is refused. */
  function ObjectValues(j: Json): (r: Result<seq<Json>, ApiError>)
    ensures r.Failure? <==> j.JNull?
    ensures j.JObject? ==> r.Success? && |r.value| == |j.entries|
                           && forall i :: 0 <= i < |j.entries| ==> r.value[i] == j.entries[i].1
  {
    match j
    case JNull => Failure(NullConversionError)
    case JBool(_) => Success([])
    case JNumber(_) => Success([])
    case JString(s) => Success(seq(|s|, i requires 0 <= i < |s| => JString([s[i]])))
    case JArray(items) => Success(items)
    case JObject(entries) => Success(seq(|entries|, i requires 0 <= i < |entries| => entries[i].1))
  }

  /** The array branch of the REST adapter: an array is kept; otherwise the values
      are taken, and when the first of them is an array, that array is the answer. */
  function NormaliseArray(parsed: Json): (r: Result<seq<Json>, ApiError>)
    ensures parsed.JArray? ==> r == Success(parsed.items)
    ensures r.Failure? <==> parsed.JNull?
    ensures parsed.JObject? && 0 < |parsed.entries| && parsed.entries[0].1.JArray? ==>
              r == Success(parsed.entries[0].1.items)
    ensures parsed.JObject? && !(0 < |parsed.entries| && parsed.entries[0].1.JArray?) ==>
              r.Success? && |r.value| == |parsed.entries|
              && forall i :: 0 <= i < |parsed.entries| ==> r.value[i] == parsed.entries[i].1
  {
    if parsed.JArray? then Success(parsed.items)
    else
      match ObjectValues(parsed)
      case Failure(e) => Failure(e)
      case Success(values) =>
        if 0 < |values| && values[0].JArray? then Success(values[0].items) else Success(values)
  }

  /** A provider that wraps the array in an object under any key, with any further
      entries, yields the same list, in the same order, as one that returns it bare. */
  lemma UnwrapWrappedArray(key: string, xs: seq<Json>, more: seq<(string, Json)>)
    ensures NormaliseArray(JObject([(key, JArray(xs))] + more)) == NormaliseArray(JArray(xs))
    ensures NormaliseArray(JArray(xs)) == Success(xs)
  {
  }

  // ----- answers of the backends -----

  /** What a REST call (`fetch` to OpenAI or Groq) yields: the parsed body, or the
      provider's error text (its `error.message`, else the status text). */
  datatype RestReply<+T> = RestOk(value: T) | RestFail(detail: string)

  /** `${PROVIDER} API Error: ` */
  function ChatErrorLabel(p: Provider): string {
    ProviderUpper(p) + " API Error: "
  }

  const ImageErrorLabel: string := "OpenAI Image Error: "

  /** The REST adapters throw a plain `Error`: it carries the provider's text but no status. */
  function FromRest<T>(heading: string, reply: RestReply<T>): (o: Outcome<T>)
    ensures reply.RestOk? <==> o.Ok?
    ensures o.Ok? ==> o.value == reply.value
    ensures o.Err? ==> o.error.status.None? && Text.IsPrefix(heading, o.error.message)
  {
    match reply
    case RestOk(v) => Ok(v)
    case RestFail(d) => Err(ApiError(None, heading + d))
  }

  /** A REST failure is retried only when its text mentions "overloaded": a 429 or 503
      answer from OpenAI or Groq counts as permanent. */
  lemma RestFailureTransientOnlyIfOverloaded<T>(heading: string, d: string)
    ensures IsTransient(FromRest<T>(heading, RestFail(d)).error) <==> Text.Contains(heading + d, "overloaded")
  {
  }

  // ----- blog content (generateBlogContent) -----

  /** The `contentHtml` the selected provider returns on attempt `k`. */
  function ProviderContent(p: Provider, gemini: nat -> Outcome<string>,
                           rest: (Provider, nat) -> RestReply<string>, k: nat): Outcome<string>
  {
    if p == Gemini then gemini(k) else FromRest(ChatErrorLabel(p), rest(p, k))
  }

  /** The post built from one attempt: the caller's title, the provider's HTML, no prompts yet. */
  function PostFrom(title: string, o: Outcome<string>): (r: Outcome<BlogPost>)
    ensures r.Ok? <==> o.Ok?
    ensures r.Ok? ==> r.value == BlogPost(title, o.value, [])
  {
    match o
    case Ok(html) => Ok(BlogPost(title, html, []))
    case Err(e) => Err(e)
  }

  /** The post each attempt of `generateBlogContent` yields. */
  function PostAttempts(title: string, p: Provider, gemini: nat -> Outcome<string>,
                        rest: (Provider, nat) -> RestReply<string>): nat -> Outcome<BlogPost> {
    (k: nat) => PostFrom(title, ProviderContent(p, gemini, rest, k))
  }

  /** The retried content call settles on the provider's answer to its last attempt. */
  lemma SettledPost(title: string, p: Provider, gemini: nat -> Outcome<string>,
                    rest: (Provider, nat) -> RestReply<string>)
    ensures var c := RunWithRetry(PostAttempts(title, p, gemini, rest), TextRetries, TextBaseDelay);
            && (c.result.Success? ==>
                  c.result.value.title == title && c.result.value.suggestedImagePrompts == []
                  && ProviderContent(p, gemini, rest, c.attempts - 1) == Ok(c.result.value.contentHtml))
            && (c.result.Failure? ==> ProviderContent(p, gemini, rest, c.attempts - 1) == Err(c.result.error))
  {
    var a := PostAttempts(title, p, gemini, rest);
    var c := RunWithRetry(a, TextRetries, TextBaseDelay);
    var o := ProviderContent(p, gemini, rest, c.attempts - 1);
    assert a(c.attempts - 1) == PostFrom(title, o);
    SettledFrom(title, o, c.result);
  }

  /** Settling the post built from an answer gives back the answer. */
  lemma SettledFrom(title: string, o: Outcome<string>, r: Result<BlogPost, ApiError>)
    requires r == Settle(PostFrom(title, o))
    ensures r.Success? ==> r.value.title == title && r.value.suggestedImagePrompts == [] && o == Ok(r.value.contentHtml)
    ensures r.Failure? ==> o == Err(r.error)
  {
  }

  /** `generateBlogContent`: validate, then ask the selected provider under the text budget. */
  function GenerateBlogContent(cfg: ApiConfig, title: string, gemini: nat -> Outcome<string>,
                               rest: (Provider, nat) -> RestReply<string>): (c: Call<BlogPost>)
    ensures c.attempts == 0 <==> cfg.apiKey == ""
    ensures c.attempts == 0 ==> c.result == Failure(ConfigError(cfg.provider)) && c.delays == []
    ensures c.attempts <= TextRetries + 1
    ensures 0 < c.attempts ==> |c.delays| == c.attempts - 1
    ensures forall i :: 0 <= i < |c.delays| ==> c.delays[i] == Backoff(TextBaseDelay, i)
    ensures c.result.Success? ==>
              c.result.value.title == title && c.result.value.suggestedImagePrompts == []
              && ProviderContent(cfg.provider, gemini, rest, c.attempts - 1) == Ok(c.result.value.contentHtml)
    ensures c.result.Failure? && 0 < c.attempts ==>
              ProviderContent(cfg.provider, gemini, rest, c.attempts - 1) == Err(c.result.error)
  {
    if ValidateConfig(cfg).Some? then Call(Failure(ConfigError(cfg.provider)), 0, [])
    else
      SettledPost(title, cfg.provider, gemini, rest);
      RunWithRetry(PostAttempts(title, cfg.provider, gemini, rest), TextRetries, TextBaseDelay)
  }

  /** With Gemini selected, the REST backends are never consulted. */
  lemma GeminiContentIgnoresRest(cfg: ApiConfig, title: string, gemini: nat -> Outcome<string>,
                                 rest1: (Provider, nat) -> RestReply<string>,
                                 rest2: (Provider, nat) -> RestReply<string>)
    requires cfg.provider == Gemini
    ensures GenerateBlogContent(cfg, title, gemini, rest1) == GenerateBlogContent(cfg, title, gemini, rest2)
  {
    if cfg.apiKey != "" {
      var a := PostAttempts(title, cfg.provider, gemini, rest1);
      var b := PostAttempts(title, cfg.provider, gemini, rest2);
      assert forall k :: a(k) == b(k);
      RetryExtensional(a, b, TextRetries, TextBaseDelay);
    }
  }

  // ----- image prompts (generateImagePromptsFromContent) -----

  /** What the prompt-generation call sends: the (possibly truncated) text and the count. */
  datatype PromptRequest = PromptRequest(content: string, count: nat)

  function PromptRequestFor(content: string, count: nat): (r: PromptRequest)
    ensures |r.content| <= PromptContentLimit + |TruncationMark|
    ensures |content| <= PromptContentLimit ==> r.content == content
    ensures r.content == TruncateForPrompt(content)
    ensures r.count == count
  {
    PromptRequest(TruncateForPrompt(content), count)
  }

  /** The selected provider's answer on attempt `k`: Gemini's schema-checked array is
      returned as parsed; a REST answer goes through `NormaliseArray`. */
  function ProviderPrompts(p: Provider, req: PromptRequest, gemini: (PromptRequest, nat) -> Outcome<Json>,
                           rest: (Provider, PromptRequest, nat) -> RestReply<Json>, k: nat): (o: Outcome<Json>)
    ensures p == Gemini ==> o == gemini(req, k)
    ensures p != Gemini && o.Ok? ==> o.value.JArray?
    ensures p != Gemini && rest(p, req, k).RestFail? ==>
              o == Err(ApiError(None, ChatErrorLabel(p) + rest(p, req, k).detail))
    ensures p != Gemini && rest(p, req, k).RestOk? ==>
              (o.Ok? <==> !rest(p, req, k).value.JNull?)
              && (o.Ok? ==> o.value == JArray(NormaliseArray(rest(p, req, k).value).value))
              && (o.Err? ==> o.error == NullConversionError)
  {
    if p == Gemini then gemini(req, k)
    else
      match FromRest(ChatErrorLabel(p), rest(p, req, k))
      case Err(e) => Err(e)
      case Ok(parsed) =>
        match NormaliseArray(parsed)
        case Success(items) => Ok(JArray(items))
        case Failure(e) => Err(e)
  }

  /** `generateImagePromptsFromContent`: validate, then ask for `count` prompts under the text budget. */
  function GenerateImagePrompts(cfg: ApiConfig, content: string, count: nat,
                                gemini: (PromptRequest, nat) -> Outcome<Json>,
                                rest: (Provider, PromptRequest, nat) -> RestReply<Json>): (c: Call<Json>)
    ensures c.attempts == 0 <==> cfg.apiKey == ""
    ensures c.attempts == 0 ==> c.result == Failure(ConfigError(cfg.provider)) && c.delays == []
    ensures c.attempts <= TextRetries + 1
    ensures 0 < c.attempts ==> |c.delays| == c.attempts - 1
    ensures forall i :: 0 <= i < |c.delays| ==> c.delays[i] == Backoff(TextBaseDelay, i)
    ensures cfg.provider != Gemini && c.result.Success? ==> c.result.value.JArray?
    ensures c.result.Success? ==>
              ProviderPrompts(cfg.provider, PromptRequestFor(content, count), gemini, rest, c.attempts - 1)
              == Ok(c.result.value)
    ensures c.result.Failure? && 0 < c.attempts ==>
              ProviderPrompts(cfg.provider, PromptRequestFor(content, count), gemini, rest, c.attempts - 1)
              == Err(c.result.error)
  {
    if ValidateConfig(cfg).Some? then Call(Failure(ConfigError(cfg.provider)), 0, [])
    else
      var req := PromptRequestFor(content, count);
      RunWithRetry((k: nat) => ProviderPrompts(cfg.provider, req, gemini, rest, k), TextRetries, TextBaseDelay)
  }

  // ----- images (generateBlogImage) -----

  /** DALL-E 3 offers few sizes: 4K becomes portrait 1024x1792, anything else the square. */
  function DallESize(size: ImageSize): (r: string)
    ensures r == "1024x1792" <==> size == Size4K
    ensures r == "1024x1792" || r == "1024x1024"
  {
    if size == Size4K then "1024x1792" else "1024x1024"
  }

  /** The mapping is lossy: 1K and 2K requests are indistinguishable to OpenAI. */
  lemma DallESizeIsLossy()
    ensures Size1K != Size2K && DallESize(Size1K) == DallESize(Size2K)
  {
  }

  datatype OpenAiImageRequest = OpenAiImageRequest(model: string, prompt: string, n: nat, size: string, responseFormat: string)

  datatype GeminiImageRequest = GeminiImageRequest(model: string, prompt: string, size: ImageSize, ratio: AspectRatio)

  const GeminiImageModel: string := "gemini-3-pro-image-preview"
  const DallEModel: string := "dall-e-3"

  /** What the image call sends to Gemini and to OpenAI for one prompt. */
  function GeminiImageRequestFor(prompt: string, size: ImageSize, ratio: AspectRatio): GeminiImageRequest {
    GeminiImageRequest(GeminiImageModel, prompt, size, ratio)
  }

  function OpenAiImageRequestFor(prompt: string, size: ImageSize): OpenAiImageRequest {
    OpenAiImageRequest(DallEModel, prompt, 1, DallESize(size), "b64_json")
  }

  /** One part of Gemini's first candidate: text, or inline image data (base64). */
  datatype Part = TextPart(text: string) | InlineData(data: string)

  const DataUrlPrefix: string := "data:image/png;base64,"

  function DataUrl(base64: string): (r: string)
    ensures Text.IsPrefix(DataUrlPrefix, r)
  {
    DataUrlPrefix + base64
  }

  const NoGeminiImageError: ApiError := ApiError(None, "No image data returned from Gemini")

  /** The data URL of the first inline-data part, or the no-image error. */
  function GeminiImageFromParts(parts: seq<Part>): (r: Outcome<string>)
    ensures r.Err? <==> forall i :: 0 <= i < |parts| ==> !parts[i].InlineData?
    ensures r.Err? ==> r.error == NoGeminiImageError
    ensures r.Ok? ==> exists i :: 0 <= i < |parts| && parts[i].InlineData? && r.value == DataUrl(parts[i].data)
                                  && forall j :: 0 <= j < i ==> !parts[j].InlineData?
  {
    match Seqs.FindIndex(parts, (p: Part) => p.InlineData?)
    case None => Err(NoGeminiImageError)
    case Some(i) => Ok(DataUrl(parts[i].data))
  }

  /** Groq's refusal to generate images. The message is spelled in pieces so that
      the verifier can inspect its characters. */
  const GroqImageError: ApiError :=
    ApiError(None, "Groq does " + "not support " + "image " + "generation. "
                   + "Please use " + "Gemini or " + "OpenAI for " + "images.")

  /** The Groq refusal is not transient: it is never retried. */
  lemma GroqImageErrorIsPermanent()
    ensures !IsTransient(GroqImageError)
  {
    var m := GroqImageError.message;
    var p1 := "Groq does " + "not support ";
    var p2 := p1 + "image " + "generation. ";
    var p3 := p2 + "Please use " + "Gemini or ";
    assert 'v' !in "Groq does " && 'v' !in "not support ";
    assert 'v' !in p1;
    assert 'v' !in "image " && 'v' !in "generation. ";
    assert 'v' !in p2;
    assert 'v' !in "Please use " && 'v' !in "Gemini or ";
    assert 'v' !in p3;
    assert 'v' !in "OpenAI for " && 'v' !in "images.";
    assert m == p3 + "OpenAI for " + "images.";
    assert 'v' !in m;
    assert "overloaded"[1] == 'v';
    Text.AbsentCharExcludes(m, "overloaded", 1);
  }

  /** The image data URL the selected provider produces on attempt `k`. */
  function ProviderImage(p: Provider, prompt: string, size: ImageSize, ratio: AspectRatio,
                         gemini: (GeminiImageRequest, nat) -> Outcome<seq<Part>>,
                         openai: (OpenAiImageRequest, nat) -> RestReply<string>, k: nat): (o: Outcome<string>)
    ensures o.Ok? ==> Text.IsPrefix(DataUrlPrefix, o.value)
    ensures p == Gemini && gemini(GeminiImageRequestFor(prompt, size, ratio), k).Err? ==>
              o == Err(gemini(GeminiImageRequestFor(prompt, size, ratio), k).error)
    ensures p == Gemini && gemini(GeminiImageRequestFor(prompt, size, ratio), k).Ok? ==>
              o == GeminiImageFromParts(gemini(GeminiImageRequestFor(prompt, size, ratio), k).value)
    ensures p == OpenAi && openai(OpenAiImageRequestFor(prompt, size), k).RestOk? ==>
              o == Ok(DataUrl(openai(OpenAiImageRequestFor(prompt, size), k).value))
    ensures p == OpenAi && openai(OpenAiImageRequestFor(prompt, size), k).RestFail? ==>
              o == Err(ApiError(None, ImageErrorLabel + openai(OpenAiImageRequestFor(prompt, size), k).detail))
    ensures p == Groq ==> o == Err(GroqImageError)
  {
    match p
    case Gemini =>
      (match gemini(GeminiImageRequestFor(prompt, size, ratio), k)
       case Err(e) => Err(e)
       case Ok(parts) => GeminiImageFromParts(parts))
    case OpenAi =>
      (match openai(OpenAiImageRequestFor(prompt, size), k)
       case RestOk(b64) => Ok(DataUrl(b64))
       case RestFail(d) => Err(ApiError(None, ImageErrorLabel + d)))
    case Groq => Err(GroqImageError)
  }

  /** The image each attempt of `generateBlogImage` yields. */
  function ImageAttempts(p: Provider, prompt: string, size: ImageSize, ratio: AspectRatio,
                         gemini: (GeminiImageRequest, nat) -> Outcome<seq<Part>>,
                         openai: (OpenAiImageRequest, nat) -> RestReply<string>): nat -> Outcome<string> {
    (k: nat) => ProviderImage(p, prompt, size, ratio, gemini, openai, k)
  }

  /** `generateBlogImage`: validate, then ask the selected provider under the image budget. */
  function GenerateBlogImage(cfg: ApiConfig, prompt: string, size: ImageSize, ratio: AspectRatio,
                             gemini: (GeminiImageRequest, nat) -> Outcome<seq<Part>>,
                             openai: (OpenAiImageRequest, nat) -> RestReply<string>): (c: Call<string>)
    ensures c.attempts == 0 <==> cfg.apiKey == ""
    ensures c.attempts == 0 ==> c.result == Failure(ConfigError(cfg.provider)) && c.delays == []
    ensures c.attempts <= ImageRetries + 1
    ensures 0 < c.attempts ==> |c.delays| == c.attempts - 1
    ensures forall i :: 0 <= i < |c.delays| ==> c.delays[i] == Backoff(ImageBaseDelay, i)
    ensures c.result.Success? ==> Text.IsPrefix(DataUrlPrefix, c.result.value)
    ensures c.result.Success? ==>
              ProviderImage(cfg.provider, prompt, size, ratio, gemini, openai, c.attempts - 1) == Ok(c.result.value)
    ensures c.result.Failure? && 0 < c.attempts ==>
              ProviderImage(cfg.provider, prompt, size, ratio, gemini, openai, c.attempts - 1) == Err(c.result.error)
    ensures cfg.apiKey != "" && cfg.provider == Groq ==> c == Call(Failure(GroqImageError), 1, [])
  {
    if ValidateConfig(cfg).Some? then Call(Failure(ConfigError(cfg.provider)), 0, [])
    else
      GroqImageErrorIsPermanent();
      RunWithRetry(ImageAttempts(cfg.provider, prompt, size, ratio, gemini, openai), ImageRetries, ImageBaseDelay)
  }

  /** Only the selected provider's backend is consulted: backends that agree on it
      give the same call. */
  lemma ImageIgnoresOtherBackend(cfg: ApiConfig, prompt: string, size: ImageSize, ratio: AspectRatio,
                                 gemini1: (GeminiImageRequest, nat) -> Outcome<seq<Part>>,
                                 gemini2: (GeminiImageRequest, nat) -> Outcome<seq<Part>>,
                                 openai1: (OpenAiImageRequest, nat) -> RestReply<string>,
                                 openai2: (OpenAiImageRequest, nat) -> RestReply<string>)
    requires cfg.provider == Gemini ==> forall q, k :: gemini1(q, k) == gemini2(q, k)
    requires cfg.provider == OpenAi ==> forall q, k :: openai1(q, k) == openai2(q, k)
    ensures GenerateBlogImage(cfg, prompt, size, ratio, gemini1, openai1)
            == GenerateBlogImage(cfg, prompt, size, ratio, gemini2, openai2)
  {
    if cfg.apiKey != "" {
      var a := ImageAttempts(cfg.provider, prompt, size, ratio, gemini1, openai1);
      var b := ImageAttempts(cfg.provider, prompt, size, ratio, gemini2, openai2);
      forall k: nat ensures a(k) == b(k) {
        AttemptAgrees(cfg.provider, prompt, size, ratio, gemini1, gemini2, openai1, openai2, k);
      }
      RetryExtensional(a, b, ImageRetries, ImageBaseDelay);
    }
  }

  /** One attempt depends only on the selected provider's backend. */
  lemma AttemptAgrees(p: Provider, prompt: string, size: ImageSize, ratio: AspectRatio,
                      gemini1: (GeminiImageRequest, nat) -> Outcome<seq<Part>>,
                      gemini2: (GeminiImageRequest, nat) -> Outcome<seq<Part>>,
                      openai1: (OpenAiImageRequest, nat) -> RestReply<string>,
                      openai2: (OpenAiImageRequest, nat) -> RestReply<string>, k: nat)
    requires p == Gemini ==> gemini1(GeminiImageRequestFor(prompt, size, ratio), k)
                             == gemini2(GeminiImageRequestFor(prompt, size, ratio), k)
    requires p == OpenAi ==> openai1(OpenAiImageRequestFor(prompt, size), k) == openai2(OpenAiImageRequestFor(prompt, size), k)
    ensures ImageAttempts(p, prompt, size, ratio, gemini1, openai1)(k)
            == ImageAttempts(p, prompt, size, ratio, gemini2, openai2)(k)
  {
  }

  /** A first Gemini answer with inline data settles the call at once: one attempt,
      no wait, and the data URL of the first inline part. */
  lemma GeminiImageFirstAttempt(cfg: ApiConfig, prompt: string, size: ImageSize, ratio: AspectRatio,
                                gemini: (GeminiImageRequest, nat) -> Outcome<seq<Part>>,
                                openai: (OpenAiImageRequest, nat) -> RestReply<string>,
                                parts: seq<Part>, i: nat)
    requires cfg.apiKey != "" && cfg.provider == Gemini
    requires gemini(GeminiImageRequestFor(prompt, size, ratio), 0) == Ok(parts)
    requires i < |parts| && parts[i].InlineData?
    requires forall j :: 0 <= j < i ==> !parts[j].InlineData?
    ensures GenerateBlogImage(cfg, prompt, size, ratio, gemini, openai) == Call(Success(DataUrl(parts[i].data)), 1, [])
  {
    var o := GeminiImageFromParts(parts);
    assert o.Ok?;
    var n :| 0 <= n < |parts| && parts[n].InlineData? && o.value == DataUrl(parts[n].data)
             && forall j :: 0 <= j < n ==> !parts[j].InlineData?;
    assert n == i;
    var a := ImageAttempts(cfg.provider, prompt, size, ratio, gemini, openai);
    assert a(0) == Ok(DataUrl(parts[i].data));
    RetryStop(a, ImageRetries, ImageBaseDelay);
  }

  /** OpenAI receives the DALL-E size and the prompt; the aspect ratio is dropped. */
  lemma OpenAiImageRequestShape(prompt: string, size: ImageSize, ratio1: AspectRatio, ratio2: AspectRatio,
                                gemini: (GeminiImageRequest, nat) -> Outcome<seq<Part>>,
                                openai: (OpenAiImageRequest, nat) -> RestReply<string>, k: nat)
    requires openai(OpenAiImageRequestFor(prompt, size), k).RestOk?
    ensures ProviderImage(OpenAi, prompt, size, ratio1, gemini, openai, k)
            == ProviderImage(OpenAi, prompt, size, ratio2, gemini, openai, k)
            == Ok(DataUrl(openai(OpenAiImageRequestFor(prompt, size), k).value))
  {
  }
}
