/** The generation workflow of the editor view (`App.tsx`): asking for one image
    prompt per placeholder marker, the optimistic gallery updates around one image
    request, the sequential "generate all" queue, and the substitution of markers
    by image markup when the post is exported. Adapter calls are parameters: the
    answer the adapter gives to each request. */
module Workflow {
  import opened Wrappers
  import opened Domain
  import Text
  import Seqs
  import Markers

  // ----- prompt generation (handleGeneratePrompts) -----

  /** What the workflow asks the adapter for: the scanned text and the number of prompts. */
  datatype PromptAsk = PromptAsk(content: string, count: nat)

  datatype PromptNotice = NoPost | NoPlaceholders | PromptsStored | PromptsFailed(error: ApiError)

  /** The post after the step, the request made (if any) and what the user is told. */
  datatype PromptStep = PromptStep(post: Option<BlogPost>, ask: Option<PromptAsk>, notice: PromptNotice)

  /** The text scanned for markers: the editor's plain text, or the stored HTML when
      the editor yields nothing. */
  function PromptSource(post: BlogPost, editorText: string): string {
    if editorText != "" then editorText else post.contentHtml
  }

  /** `handleGeneratePrompts`: count the distinct markers; with none, refuse before any
      request; otherwise ask for that many prompts and store them in the post. */
  function GeneratePrompts(post: Option<BlogPost>, editorText: string,
                           respond: PromptAsk -> Result<seq<string>, ApiError>): (r: PromptStep)
    ensures post.None? ==> r == PromptStep(None, None, NoPost)
    ensures post.Some? ==>
              (r.ask.None? <==> |Markers.DistinctMarkers(PromptSource(post.value, editorText))| == 0)
    ensures r.ask.None? ==> r.post == post
    ensures r.ask.Some? ==>
              post.Some? && 0 < r.ask.value.count
              && r.ask.value == PromptAsk(PromptSource(post.value, editorText),
                                          |Markers.DistinctMarkers(PromptSource(post.value, editorText))|)
    ensures r.post.Some? ==>
              post.Some? && r.post.value.title == post.value.title
              && r.post.value.contentHtml == post.value.contentHtml
    ensures r.notice == PromptsStored ==>
              r.ask.Some? && respond(r.ask.value).Success? && r.post.Some?
              && r.post.value.suggestedImagePrompts == respond(r.ask.value).value
    ensures r.notice.PromptsFailed? ==> r.post == post
  {
    match post
    case None => PromptStep(None, None, NoPost)
    case Some(p) =>
      var content := PromptSource(p, editorText);
      var count := |Markers.DistinctMarkers(content)|;
      if count == 0 then PromptStep(post, None, NoPlaceholders)
      else
        var ask := PromptAsk(content, count);
        match respond(ask)
        case Success(prompts) => PromptStep(Some(p.(suggestedImagePrompts := prompts)), Some(ask), PromptsStored)
        case Failure(e) => PromptStep(post, Some(ask), PromptsFailed(e))
  }

  /** A prompt request is made exactly when some marker occurs in the scanned text. */
  lemma AsksIffMarkerOccurs(p: BlogPost, editorText: string,
                            respond: PromptAsk -> Result<seq<string>, ApiError>)
    ensures GeneratePrompts(Some(p), editorText, respond).ask.Some?
            <==> exists m :: Markers.IsMarker(m) && Text.Contains(PromptSource(p, editorText), m)
  {
    Markers.HasMarkerIff(PromptSource(p, editorText));
  }

  // ----- one image request (handleGenerateImage) -----

  predicate HasId(images: seq<GeneratedImage>, id: string) {
    exists i :: 0 <= i < |images| && images[i].id == id
  }

  /** The entry shown while an image is being generated. */
  function PendingImage(id: string, prompt: string): GeneratedImage {
    GeneratedImage(id, prompt, "", true)
  }

  /** Before the request: the pending entry goes first. */
  function StartImage(images: seq<GeneratedImage>, id: string, prompt: string): (r: seq<GeneratedImage>)
    ensures |r| == |images| + 1 && r[1..] == images
    ensures r[0].isLoading && r[0].dataUrl == "" && r[0].prompt == prompt && r[0].id == id
  {
    [PendingImage(id, prompt)] + images
  }

  /** On success: every entry with the request's id gets the data and stops loading;
      every other entry is unchanged. */
  function FinishImage(images: seq<GeneratedImage>, id: string, dataUrl: string): (r: seq<GeneratedImage>)
    ensures |r| == |images|
    ensures forall i :: 0 <= i < |images| && images[i].id != id ==> r[i] == images[i]
    ensures forall i :: 0 <= i < |images| && images[i].id == id ==>
              r[i] == images[i].(dataUrl := dataUrl, isLoading := false)
    decreases |images|
  {
    if |images| == 0 then []
    else
      var head := if images[0].id == id then images[0].(dataUrl := dataUrl, isLoading := false) else images[0];
      [head] + FinishImage(images[1..], id, dataUrl)
  }

  /** On failure: the entries with the request's id are removed, the others kept in order. */
  function DropImage(images: seq<GeneratedImage>, id: string): (r: seq<GeneratedImage>)
    ensures !HasId(r, id)
    ensures forall i :: 0 <= i < |images| && images[i].id != id ==> images[i] in r
    ensures forall i :: 0 <= i < |r| ==> r[i] in images
  {
    Seqs.Filter(images, OtherId(id))
  }

  /** The test `img => img.id !== id` of the failure handler. */
  function OtherId(id: string): GeneratedImage -> bool {
    (img: GeneratedImage) => img.id != id
  }

  /** Each entry without the id is kept as often as it occurs, and none with it. */
  lemma DropImageCounts(images: seq<GeneratedImage>, id: string)
    ensures forall g :: multiset(DropImage(images, id))[g] == if g.id == id then 0 else multiset(images)[g]
  {
    Seqs.FilterMultiset(images, OtherId(id));
  }

  /** Removal keeps the order: it works on each part of the gallery separately. */
  lemma DropImageConcat(a: seq<GeneratedImage>, b: seq<GeneratedImage>, id: string)
    ensures DropImage(a + b, id) == DropImage(a, id) + DropImage(b, id)
  {
    Seqs.FilterConcat(a, b, OtherId(id));
  }

  /** The gallery after one request and the error rethrown, if any. */
  datatype ImageStep = ImageStep(images: seq<GeneratedImage>, error: Option<ApiError>)

  /** `handleGenerateImage`: prepend a pending entry, then complete or remove it. */
  function GenerateImage(images: seq<GeneratedImage>, id: string, prompt: string,
                         outcome: Result<string, ApiError>): (r: ImageStep)
    ensures r.error.Some? <==> outcome.Failure?
    ensures outcome.Failure? ==> r.error.value == outcome.error && !HasId(r.images, id)
    ensures outcome.Success? ==> |r.images| == |images| + 1
  {
    var started := StartImage(images, id, prompt);
    match outcome
    case Success(url) => ImageStep(FinishImage(started, id, url), None)
    case Failure(e) => ImageStep(DropImage(started, id), Some(e))
  }

  /** With a fresh id, success leaves exactly one new, finished entry in front. */
  lemma FreshImageSucceeds(images: seq<GeneratedImage>, id: string, prompt: string, url: string)
    requires !HasId(images, id)
    ensures GenerateImage(images, id, prompt, Success(url)).images
            == [GeneratedImage(id, prompt, url, false)] + images
  {
    var started := StartImage(images, id, prompt);
    var r := FinishImage(started, id, url);
    assert r[0] == GeneratedImage(id, prompt, url, false);
    forall i | 1 <= i < |r| ensures r[i] == images[i - 1] {
      assert started[i] == images[i - 1];
    }
    assert r == [GeneratedImage(id, prompt, url, false)] + images;
  }

  /** With a fresh id, failure restores the gallery exactly and rethrows. */
  lemma FreshImageFailureRestores(images: seq<GeneratedImage>, id: string, prompt: string, e: ApiError)
    requires !HasId(images, id)
    ensures GenerateImage(images, id, prompt, Failure(e)) == ImageStep(images, Some(e))
  {
    var f := OtherId(id);
    assert [PendingImage(id, prompt)] + images == [PendingImage(id, prompt)] + images;
    DropKeepsOthers(images, id);
    assert Seqs.Filter([PendingImage(id, prompt)] + images, f) == Seqs.Filter(images, f);
  }

  /** Dropping an id that no entry carries changes nothing. */
  lemma {:induction false} DropKeepsOthers(images: seq<GeneratedImage>, id: string)
    requires !HasId(images, id)
    ensures DropImage(images, id) == images
    decreases |images|
  {
    if |images| > 0 {
      assert !HasId(images[1..], id) by {
        forall i | 0 <= i < |images[1..]| ensures images[1..][i].id != id {
          assert images[1..][i] == images[i + 1];
        }
      }
      DropKeepsOthers(images[1..], id);
      assert images == [images[0]] + images[1..];
    }
  }

  // ----- generate all (handleGenerateAllImages) -----

  /** The test "no image carries this prompt yet". */
  function NeedsImage(images: seq<GeneratedImage>): string -> bool {
    (p: string) => !HasImageFor(images, p)
  }

  /** The suggested prompts that no image carries yet, in list order. */
  function Queue(prompts: seq<string>, images: seq<GeneratedImage>): (r: seq<string>)
    ensures forall i :: 0 <= i < |r| ==> r[i] in prompts && !HasImageFor(images, r[i])
    ensures forall i :: 0 <= i < |prompts| && !HasImageFor(images, prompts[i]) ==> prompts[i] in r
  {
    Seqs.Filter(prompts, NeedsImage(images))
  }

  /** The queue keeps list order: queuing a longer list appends to the queue. */
  lemma QueueKeepsOrder(prompts: seq<string>, more: seq<string>, images: seq<GeneratedImage>)
    ensures Queue(prompts + more, images) == Queue(prompts, images) + Queue(more, images)
  {
    Seqs.FilterConcat(prompts, more, NeedsImage(images));
  }

  /** The gallery after the queue, and the prompts skipped because their request
      failed, in queue order. */
  datatype QueueRun = QueueRun(images: seq<GeneratedImage>, skipped: seq<string>)

  /** Request each queued prompt once, in order, the k-th with id `idFor(k)`; a
      failure is logged and skipped. */
  function RunQueue(queue: seq<string>, images: seq<GeneratedImage>, k: nat,
                    idFor: nat -> string, generate: (string, nat) -> Result<string, ApiError>): (r: QueueRun)
    ensures |r.skipped| <= |queue|
    decreases |queue|
  {
    if |queue| == 0 then QueueRun(images, [])
    else
      var step := GenerateImage(images, idFor(k), queue[0], generate(queue[0], k));
      var rest := RunQueue(queue[1..], step.images, k + 1, idFor, generate);
      QueueRun(rest.images, Skipped(prompt := queue[0], outcome := generate(queue[0], k)) + rest.skipped)
  }

  /** The prompt of a request that failed, which the loop logs and moves past: the
      error `handleGenerateImage` rethrows is exactly the request's failure. */
  function Skipped(prompt: string, outcome: Result<string, ApiError>): seq<string> {
    if outcome.Failure? then [prompt] else []
  }

  /** Every skipped prompt is a queued prompt whose request failed at its turn. */
  lemma {:induction false} SkippedFailed(queue: seq<string>, images: seq<GeneratedImage>, k: nat,
                                         idFor: nat -> string, generate: (string, nat) -> Result<string, ApiError>)
    ensures forall s :: s in RunQueue(queue, images, k, idFor, generate).skipped ==>
              exists i :: 0 <= i < |queue| && queue[i] == s && generate(queue[i], k + i).Failure?
    decreases |queue|
  {
    if |queue| > 0 {
      var step := GenerateImage(images, idFor(k), queue[0], generate(queue[0], k));
      var rest := RunQueue(queue[1..], step.images, k + 1, idFor, generate);
      SkippedFailed(queue[1..], step.images, k + 1, idFor, generate);
      forall s | s in rest.skipped
        ensures exists i :: 0 <= i < |queue| && queue[i] == s && generate(queue[i], k + i).Failure?
      {
        var j :| 0 <= j < |queue[1..]| && queue[1..][j] == s && generate(queue[1..][j], k + 1 + j).Failure?;
        assert queue[j + 1] == s && k + (j + 1) == k + 1 + j;
      }
      if generate(queue[0], k).Failure? {
        assert queue[0] == queue[0] && generate(queue[0], k + 0).Failure?;
      }
    }
  }

  /** Every queued prompt whose request fails at its turn is skipped. */
  lemma {:induction false} FailedSkipped(queue: seq<string>, images: seq<GeneratedImage>, k: nat,
                                         idFor: nat -> string, generate: (string, nat) -> Result<string, ApiError>)
    ensures forall i :: 0 <= i < |queue| && generate(queue[i], k + i).Failure? ==>
              queue[i] in RunQueue(queue, images, k, idFor, generate).skipped
    decreases |queue|
  {
    if |queue| > 0 {
      var step := GenerateImage(images, idFor(k), queue[0], generate(queue[0], k));
      var rest := RunQueue(queue[1..], step.images, k + 1, idFor, generate);
      FailedSkipped(queue[1..], step.images, k + 1, idFor, generate);
      forall i | 1 <= i < |queue| && generate(queue[i], k + i).Failure?
        ensures queue[i] in rest.skipped
      {
        assert queue[1..][i - 1] == queue[i] && k + 1 + (i - 1) == k + i;
      }
    }
  }

  /** Each queued request either adds an image or is skipped: with fresh ids the
      gallery gains `|queue| - |skipped|` entries. */
  lemma {:induction false} SkippedCount(queue: seq<string>, images: seq<GeneratedImage>, k: nat,
                                        idFor: nat -> string, generate: (string, nat) -> Result<string, ApiError>)
    ensures |RunQueue(queue, images, k, idFor, generate).skipped| + |Produced(queue, k, idFor, generate)| == |queue|
    decreases |queue|
  {
    if |queue| > 0 {
      var step := GenerateImage(images, idFor(k), queue[0], generate(queue[0], k));
      SkippedCount(queue[1..], step.images, k + 1, idFor, generate);
    }
  }

  /** A run depends only on the answer each queued prompt gets at its own turn: the
      k+i-th request is made once, for the i-th queued prompt. */
  lemma {:induction false} RunQueueExtensional(queue: seq<string>, images: seq<GeneratedImage>, k: nat, idFor: nat -> string,
                                               g1: (string, nat) -> Result<string, ApiError>,
                                               g2: (string, nat) -> Result<string, ApiError>)
    requires forall i :: 0 <= i < |queue| ==> g1(queue[i], k + i) == g2(queue[i], k + i)
    ensures RunQueue(queue, images, k, idFor, g1) == RunQueue(queue, images, k, idFor, g2)
    decreases |queue|
  {
    if |queue| > 0 {
      assert g1(queue[0], k + 0) == g2(queue[0], k + 0);
      var step := GenerateImage(images, idFor(k), queue[0], g1(queue[0], k));
      forall i | 0 <= i < |queue[1..]| ensures g1(queue[1..][i], k + 1 + i) == g2(queue[1..][i], k + 1 + i) {
        assert queue[1..][i] == queue[i + 1];
      }
      RunQueueExtensional(queue[1..], step.images, k + 1, idFor, g1, g2);
    }
  }

  datatype AllNotice = NoPostForImages | GroqRejected | QueueEmpty | QueueRan

  datatype AllRun = AllRun(images: seq<GeneratedImage>, skipped: seq<string>, notice: AllNotice)

  /** `handleGenerateAllImages`: refuse Groq before any request, then work through the queue. */
  function GenerateAll(post: Option<BlogPost>, cfg: ApiConfig, images: seq<GeneratedImage>,
                       idFor: nat -> string, generate: (string, nat) -> Result<string, ApiError>): (r: AllRun)
    ensures post.None? || cfg.provider == Groq ==> r.images == images && r.skipped == []
    ensures post.Some? && cfg.provider == Groq ==> r.notice == GroqRejected
    ensures post.Some? && cfg.provider != Groq ==>
              (r.notice == QueueEmpty <==> |Queue(post.value.suggestedImagePrompts, images)| == 0)
              && r.images == RunQueue(Queue(post.value.suggestedImagePrompts, images), images, 0, idFor, generate).images
              && r.skipped == RunQueue(Queue(post.value.suggestedImagePrompts, images), images, 0, idFor, generate).skipped
  {
    match post
    case None => AllRun(images, [], NoPostForImages)
    case Some(p) =>
      if cfg.provider == Groq then AllRun(images, [], GroqRejected)
      else
        var queue := Queue(p.suggestedImagePrompts, images);
        if |queue| == 0 then AllRun(images, [], QueueEmpty)
        else
          var run := RunQueue(queue, images, 0, idFor, generate);
          AllRun(run.images, run.skipped, QueueRan)
  }

  /** With fresh ids, "generate all" puts one finished image per successful request
      of the queue in front of the gallery, the latest first. */
  lemma GenerateAllResult(p: BlogPost, cfg: ApiConfig, images: seq<GeneratedImage>,
                          idFor: nat -> string, generate: (string, nat) -> Result<string, ApiError>)
    requires cfg.provider != Groq
    requires FreshIds(idFor, 0, |Queue(p.suggestedImagePrompts, images)|, Ids(images))
    ensures GenerateAll(Some(p), cfg, images, idFor, generate).images
            == Produced(Queue(p.suggestedImagePrompts, images), 0, idFor, generate) + images
  {
    RunQueueResult(Queue(p.suggestedImagePrompts, images), images, 0, idFor, generate);
  }

  /** The ids the entries of `images` carry. */
  function Ids(images: seq<GeneratedImage>): set<string>
    decreases |images|
  {
    if |images| == 0 then {} else {images[0].id} + Ids(images[1..])
  }

  lemma {:induction false} IdsMeaning(images: seq<GeneratedImage>, id: string)
    ensures id in Ids(images) <==> HasId(images, id)
    decreases |images|
  {
    if |images| > 0 {
      IdsMeaning(images[1..], id);
      if HasId(images[1..], id) {
        var i :| 0 <= i < |images[1..]| && images[1..][i].id == id;
        assert images[i + 1].id == id;
      }
      if HasId(images, id) && images[0].id != id {
        var i :| 0 <= i < |images| && images[i].id == id;
        assert images[1..][i - 1].id == id;
      }
    }
  }

  /** The ids handed to requests k .. k+n-1 are fresh: each is outside `used` and
      outside the ids handed out before it. */
  predicate FreshIds(idFor: nat -> string, k: nat, n: nat, used: set<string>)
    decreases n
  {
    n == 0 || (idFor(k) !in used && FreshIds(idFor, k + 1, n - 1, used + {idFor(k)}))
  }

  /** Ids fresh against a set stay fresh against any part of it. */
  lemma {:induction false} FreshIdsShrink(idFor: nat -> string, k: nat, n: nat, used: set<string>, fewer: set<string>)
    requires FreshIds(idFor, k, n, used) && fewer <= used
    ensures FreshIds(idFor, k, n, fewer)
    decreases n
  {
    if n > 0 {
      FreshIdsShrink(idFor, k + 1, n - 1, used + {idFor(k)}, fewer + {idFor(k)});
    }
  }

  /** Pairwise distinct ids that no entry carries are fresh. */
  lemma {:induction false} FreshIdsFromDistinct(idFor: nat -> string, k: nat, n: nat, used: set<string>)
    requires forall j :: k <= j < k + n ==> idFor(j) !in used
    requires forall i, j :: k <= i < j < k + n ==> idFor(i) != idFor(j)
    ensures FreshIds(idFor, k, n, used)
    decreases n
  {
    if n > 0 {
      forall j | k + 1 <= j < k + n ensures idFor(j) !in used + {idFor(k)} {
        assert idFor(k) != idFor(j);
      }
      FreshIdsFromDistinct(idFor, k + 1, n - 1, used + {idFor(k)});
    }
  }

  /** The finished entry request `k` adds: one on success, none on failure. */
  function Added(prompt: string, k: nat, idFor: nat -> string,
                 generate: (string, nat) -> Result<string, ApiError>): seq<GeneratedImage> {
    match generate(prompt, k)
    case Success(url) => [GeneratedImage(idFor(k), prompt, url, false)]
    case Failure(_) => []
  }

  /** The finished entries a queue run adds, newest first. */
  function Produced(queue: seq<string>, k: nat, idFor: nat -> string,
                    generate: (string, nat) -> Result<string, ApiError>): seq<GeneratedImage>
    decreases |queue|
  {
    if |queue| == 0 then []
    else Produced(queue[1..], k + 1, idFor, generate) + Added(queue[0], k, idFor, generate)
  }

  /** With fresh ids, the run prepends one finished entry per successful request, the
      latest first, and leaves the earlier gallery untouched: failures leave no trace. */
  lemma {:induction false} RunQueueResult(queue: seq<string>, images: seq<GeneratedImage>, k: nat,
                                          idFor: nat -> string, generate: (string, nat) -> Result<string, ApiError>)
    requires FreshIds(idFor, k, |queue|, Ids(images))
    ensures RunQueue(queue, images, k, idFor, generate).images == Produced(queue, k, idFor, generate) + images
    decreases |queue|
  {
    if |queue| > 0 {
      var added := Added(queue[0], k, idFor, generate);
      RunQueueStep(queue, images, k, idFor, generate);
      RunQueueResult(queue[1..], added + images, k + 1, idFor, generate);
      ProducedFirst(queue, images, k, idFor, generate);
    }
  }

  /** What a run produces is what its first request adds, under what the rest produces. */
  lemma ProducedFirst(queue: seq<string>, images: seq<GeneratedImage>, k: nat,
                      idFor: nat -> string, generate: (string, nat) -> Result<string, ApiError>)
    requires 0 < |queue|
    ensures Produced(queue[1..], k + 1, idFor, generate) + (Added(queue[0], k, idFor, generate) + images)
            == Produced(queue, k, idFor, generate) + images
  {
  }

  /** The first request of a run with fresh ids: the rest of the run starts from the
      gallery with that request's entry added, and its ids are still fresh. */
  lemma RunQueueStep(queue: seq<string>, images: seq<GeneratedImage>, k: nat,
                     idFor: nat -> string, generate: (string, nat) -> Result<string, ApiError>)
    requires 0 < |queue| && FreshIds(idFor, k, |queue|, Ids(images))
    ensures RunQueue(queue, images, k, idFor, generate).images
            == RunQueue(queue[1..], Added(queue[0], k, idFor, generate) + images, k + 1, idFor, generate).images
    ensures FreshIds(idFor, k + 1, |queue[1..]|, Ids(Added(queue[0], k, idFor, generate) + images))
  {
    StepAdds(images, queue[0], k, |queue[1..]|, idFor, generate);
  }

  /** One request of the run, with fresh ids: the gallery gains exactly the entry the
      request adds, and the remaining ids stay fresh. */
  lemma StepAdds(images: seq<GeneratedImage>, prompt: string, k: nat, n: nat,
                 idFor: nat -> string, generate: (string, nat) -> Result<string, ApiError>)
    requires FreshIds(idFor, k, n + 1, Ids(images))
    ensures var step := GenerateImage(images, idFor(k), prompt, generate(prompt, k));
            step.images == Added(prompt, k, idFor, generate) + images
            && FreshIds(idFor, k + 1, n, Ids(step.images))
  {
    var used := Ids(images) + {idFor(k)};
    IdsMeaning(images, idFor(k));
    match generate(prompt, k)
    case Success(url) =>
      var added := GeneratedImage(idFor(k), prompt, url, false);
      FreshImageSucceeds(images, idFor(k), prompt, url);
      assert ([added] + images)[1..] == images;
      assert Ids([added] + images) == used;
    case Failure(e) =>
      FreshImageFailureRestores(images, idFor(k), prompt, e);
      assert [] + images == images;
      FreshIdsShrink(idFor, k + 1, n, used, Ids(images));
  }

  // ----- export substitution (getProcessedHtml) -----

  /** The markup for a ready image: the figure with the prompt as alt text and
      caption. Layout and style attributes are not modelled. */
  function Figure(dataUrl: string, prompt: string): string {
    "<figure><img src=\"" + dataUrl + "\" alt=\"" + prompt + "\" /><figcaption>" + prompt + "</figcaption></figure>"
  }

  /** The markup for a slot whose image is missing or not ready. */
  function Placeholder(prompt: string): string {
    PlaceholderOpen + prompt + PlaceholderClose
  }

  const PlaceholderOpen: string := "<div>" + "Image " + "Placeholder: "
  const PlaceholderClose: string := "</div>"

  /** `images[i]` is the first entry carrying `prompt`, the one `find` returns. */
  predicate FirstWithPrompt(images: seq<GeneratedImage>, prompt: string, i: int) {
    0 <= i < |images| && images[i].prompt == prompt
    && forall j :: 0 <= j < i ==> images[j].prompt != prompt
  }

  /** The markup for the slot of `prompt`: a figure when the first image with that
      prompt is ready, a placeholder otherwise (also when there is no such image). */
  function SlotMarkup(prompt: string, images: seq<GeneratedImage>): (r: string)
    ensures forall i :: FirstWithPrompt(images, prompt, i) && IsReady(images[i]) ==>
              r == Figure(images[i].dataUrl, prompt)
    ensures (forall i :: FirstWithPrompt(images, prompt, i) ==> !IsReady(images[i])) ==>
              r == Placeholder(prompt)
  {
    match Seqs.FindIndex(images, (img: GeneratedImage) => img.prompt == prompt)
    case Some(i) =>
      assert FirstWithPrompt(images, prompt, i);
      if IsReady(images[i]) then Figure(images[i].dataUrl, prompt) else Placeholder(prompt)
    case None => Placeholder(prompt)
  }

  /** The markup each prompt's slot gets. */
  function SlotFor(images: seq<GeneratedImage>): string -> string {
    (prompt: string) => SlotMarkup(prompt, images)
  }

  /** Marker `j` is filled: it has a prompt at the same position and that prompt is
      non-empty; `pair` is the replacement it gets, `slot` giving the markup. */
  predicate Fills(markers: seq<string>, prompts: seq<string>, slot: string -> string,
                  j: int, pair: (string, string)) {
    0 <= j < |markers| && j < |prompts| && prompts[j] != ""
    && pair == (markers[j], slot(prompts[j]))
  }

  /** The replacements for markers `i..`, in marker order: the j-th distinct marker
      pairs with the j-th suggested prompt; markers past the list or paired with an
      empty prompt are skipped. */
  function SubstitutionsFrom(markers: seq<string>, prompts: seq<string>, slot: string -> string,
                             i: nat): (r: seq<(string, string)>)
    requires i <= |markers|
    ensures forall k :: 0 <= k < |r| ==> r[k].0 in markers[i..]
    decreases |markers| - i
  {
    if i == |markers| then []
    else
      var rest := SubstitutionsFrom(markers, prompts, slot, i + 1);
      if i < |prompts| && prompts[i] != "" then [(markers[i], slot(prompts[i]))] + rest
      else rest
  }

  /** `pair` is the replacement of some filled marker at position `i` or later. */
  predicate FilledFrom(markers: seq<string>, prompts: seq<string>, slot: string -> string,
                       i: nat, pair: (string, string)) {
    exists j :: i <= j < |markers| && Fills(markers, prompts, slot, j, pair)
  }

  /** Every replacement made belongs to a filled marker. */
  lemma {:induction false} SubstitutionsSound(markers: seq<string>, prompts: seq<string>,
                                              slot: string -> string, i: nat)
    requires i <= |markers|
    ensures forall k :: 0 <= k < |SubstitutionsFrom(markers, prompts, slot, i)| ==>
              FilledFrom(markers, prompts, slot, i, SubstitutionsFrom(markers, prompts, slot, i)[k])
    decreases |markers| - i
  {
    if i < |markers| {
      var rest := SubstitutionsFrom(markers, prompts, slot, i + 1);
      SubstitutionsSound(markers, prompts, slot, i + 1);
      var r := SubstitutionsFrom(markers, prompts, slot, i);
      forall k | 0 <= k < |r| ensures FilledFrom(markers, prompts, slot, i, r[k]) {
        if i < |prompts| && prompts[i] != "" {
          if k == 0 {
            assert Fills(markers, prompts, slot, i, r[k]);
          } else {
            assert FilledFrom(markers, prompts, slot, i + 1, rest[k - 1]);
            var j :| i + 1 <= j < |markers| && Fills(markers, prompts, slot, j, rest[k - 1]);
            assert r[k] == rest[k - 1];
            assert Fills(markers, prompts, slot, j, r[k]);
          }
        } else {
          assert FilledFrom(markers, prompts, slot, i + 1, rest[k]);
          var j :| i + 1 <= j < |markers| && Fills(markers, prompts, slot, j, rest[k]);
          assert Fills(markers, prompts, slot, j, r[k]);
        }
      }
    }
  }

  /** Every filled marker gets its replacement. */
  lemma {:induction false} SubstitutionsComplete(markers: seq<string>, prompts: seq<string>,
                                                 slot: string -> string, i: nat)
    requires i <= |markers|
    ensures forall j :: i <= j < |markers| && j < |prompts| && prompts[j] != "" ==>
              (markers[j], slot(prompts[j])) in SubstitutionsFrom(markers, prompts, slot, i)
    decreases |markers| - i
  {
    if i < |markers| {
      SubstitutionsComplete(markers, prompts, slot, i + 1);
    }
  }

  function Substitutions(markers: seq<string>, prompts: seq<string>, images: seq<GeneratedImage>)
    : seq<(string, string)>
  {
    SubstitutionsFrom(markers, prompts, SlotFor(images), 0)
  }

  /** Every pattern is non-empty, as `replaceAll` with a marker always is here. */
  predicate NonEmptyPatterns(subs: seq<(string, string)>) {
    forall k :: 0 <= k < |subs| ==> 0 < |subs[k].0|
  }

  /** Apply the replacements one after the other, each to the result of the previous. */
  function ApplyAll(html: string, subs: seq<(string, string)>): string
    requires NonEmptyPatterns(subs)
    decreases |subs|
  {
    if |subs| == 0 then html
    else ApplyAll(Text.ReplaceAll(html, subs[0].0, subs[0].1), subs[1..])
  }

  /** The same fold with JavaScript's `replaceAll`, which expands `$` patterns. */
  function ApplyAllAsWritten(html: string, subs: seq<(string, string)>): string
    requires NonEmptyPatterns(subs)
    decreases |subs|
  {
    if |subs| == 0 then html
    else ApplyAllAsWritten(Text.JsReplaceAll(html, subs[0].0, subs[0].1), subs[1..])
  }

  /** The replacements the export makes for the editor's text `text`. */
  function ExportSubstitutions(text: string, prompts: seq<string>, images: seq<GeneratedImage>)
    : (r: seq<(string, string)>)
    ensures forall k :: 0 <= k < |r| ==> Markers.IsMarker(r[k].0) && Text.Contains(text, r[k].0)
    ensures NonEmptyPatterns(r)
  {
    var markers := Markers.DistinctMarkers(text);
    var r := Substitutions(markers, prompts, images);
    forall k | 0 <= k < |r| ensures Markers.IsMarker(r[k].0) && Text.Contains(text, r[k].0) && 0 < |r[k].0| {
      var j :| 0 <= j < |markers| && markers[j] == r[k].0;
      assert Markers.IsMarker(markers[j]);
    }
    r
  }

  /** `getProcessedHtml` with literal insertion: the editor's HTML `html` with every
      filled marker found in its plain text `text` replaced by its slot markup. */
  function ProcessedHtml(post: Option<BlogPost>, html: string, text: string,
                         images: seq<GeneratedImage>): (r: string)
    ensures post.None? || html == "" ==> r == ""
    ensures post.Some? && (|images| == 0 || |post.value.suggestedImagePrompts| == 0) ==> r == html
  {
    if post.None? || html == "" then ""
    else if |images| == 0 || |post.value.suggestedImagePrompts| == 0 then html
    else ApplyAll(html, ExportSubstitutions(text, post.value.suggestedImagePrompts, images))
  }

  /** `getProcessedHtml` as written, inserting through JavaScript's `replaceAll`. */
  function ProcessedHtmlAsWritten(post: Option<BlogPost>, html: string, text: string,
                                  images: seq<GeneratedImage>): (r: string)
    ensures post.None? || html == "" ==> r == ""
    ensures post.Some? && (|images| == 0 || |post.value.suggestedImagePrompts| == 0) ==> r == html
  {
    if post.None? || html == "" then ""
    else if |images| == 0 || |post.value.suggestedImagePrompts| == 0 then html
    else ApplyAllAsWritten(html, ExportSubstitutions(text, post.value.suggestedImagePrompts, images))
  }

  /** A marker without a usable prompt at its position is never replaced: distinct
      markers pair with prompts by position only. */
  lemma UnfilledMarkerNotReplaced(markers: seq<string>, prompts: seq<string>, images: seq<GeneratedImage>, j: nat)
    requires Markers.NoDuplicates(markers)
    requires j < |markers| && (|prompts| <= j || prompts[j] == "")
    ensures forall k :: 0 <= k < |Substitutions(markers, prompts, images)| ==>
              Substitutions(markers, prompts, images)[k].0 != markers[j]
  {
    var r := Substitutions(markers, prompts, images);
    SubstitutionsSound(markers, prompts, SlotFor(images), 0);
    forall k | 0 <= k < |r| ensures r[k].0 != markers[j] {
      assert FilledFrom(markers, prompts, SlotFor(images), 0, r[k]);
      var i :| 0 <= i < |markers| && Fills(markers, prompts, SlotFor(images), i, r[k]);
      assert i != j;
    }
  }

  /** The distinct markers of a text that is one marker. */
  lemma SoleMarker(n: nat)
    ensures Markers.DistinctMarkers(Markers.Marker(n)) == [Markers.Marker(n)]
  {
    Markers.ScanMarker(n, "");
    assert Markers.Marker(n) + "" == Markers.Marker(n);
    assert Markers.Distinct([Markers.Marker(n)][..0]) == [];
  }

  /** A draft that is one marker, paired with a non-empty prompt, exports as
      exactly the slot markup for that prompt. */
  lemma SoleMarkerFilled(n: nat, title: string, p: string, images: seq<GeneratedImage>)
    requires p != "" && 0 < |images|
    ensures var m := Markers.Marker(n);
            ProcessedHtml(Some(BlogPost(title, m, [p])), m, m, images) == SlotMarkup(p, images)
  {
    var m := Markers.Marker(n);
    var x := SlotMarkup(p, images);
    OneSubstitution(n, p, images);
    assert ApplyAll(m, [(m, x)]) == ApplyAll(Text.ReplaceAll(m, m, x), []);
    Text.ReplaceWhole(m, x);
  }

  /** The export of a one-marker draft makes a single replacement. */
  lemma OneSubstitution(n: nat, p: string, images: seq<GeneratedImage>)
    requires p != ""
    ensures ExportSubstitutions(Markers.Marker(n), [p], images)
            == [(Markers.Marker(n), SlotMarkup(p, images))]
  {
    var m := Markers.Marker(n);
    SoleMarker(n);
    assert SubstitutionsFrom([m], [p], SlotFor(images), 1) == [];
  }

  /** The same draft exported as written: the slot markup is inserted after `$`
      expansion, with the marker as the matched text and nothing before or after. */
  lemma SoleMarkerFilledAsWritten(n: nat, title: string, p: string, images: seq<GeneratedImage>)
    requires p != "" && 0 < |images|
    ensures var m := Markers.Marker(n);
            ProcessedHtmlAsWritten(Some(BlogPost(title, m, [p])), m, m, images)
            == Text.Substitution(SlotMarkup(p, images), m, "", "")
  {
    var m := Markers.Marker(n);
    var x := SlotMarkup(p, images);
    OneSubstitution(n, p, images);
    assert ApplyAllAsWritten(m, [(m, x)]) == ApplyAllAsWritten(Text.JsReplaceAll(m, m, x), []);
    Text.JsReplaceWhole(m, x);
  }

  /** When no prompt holds `$`, the export as written agrees with literal insertion. */
  lemma {:induction false} NoDollarAgrees(html: string, subs: seq<(string, string)>)
    requires NonEmptyPatterns(subs)
    requires forall k :: 0 <= k < |subs| ==> '$' !in subs[k].1
    ensures ApplyAllAsWritten(html, subs) == ApplyAll(html, subs)
    decreases |subs|
  {
    if |subs| > 0 {
      NoDollarAgrees(Text.ReplaceAll(html, subs[0].0, subs[0].1), subs[1..]);
    }
  }

  /** A prompt that reads `$&`, its image still loading: literal insertion shows
      the placeholder with the prompt, JavaScript's `replaceAll` puts the marker
      back in place of the prompt. */
  lemma DollarPromptMangled()
    ensures var m := Markers.Marker(1);
            var post := Some(BlogPost("t", m, ["$&"]));
            var images := [PendingImage("1", "$&")];
            && ProcessedHtml(post, m, m, images) == Placeholder("$&")
            && ProcessedHtmlAsWritten(post, m, m, images) == PlaceholderOpen + m + PlaceholderClose
            && ProcessedHtml(post, m, m, images) != ProcessedHtmlAsWritten(post, m, m, images)
  {
    var m := Markers.Marker(1);
    var images := [PendingImage("1", "$&")];
    PendingSlot("$&");
    SoleMarkerFilled(1, "t", "$&", images);
    SoleMarkerFilledAsWritten(1, "t", "$&", images);
    ExpandDollarAmpPlaceholder(m);
    assert |m| > 2;
  }

  /** A slot whose only image is still loading shows the placeholder. */
  lemma PendingSlot(p: string)
    ensures SlotMarkup(p, [PendingImage("1", p)]) == Placeholder(p)
  {
    assert FirstWithPrompt([PendingImage("1", p)], p, 0);
  }

  /** `$&` in the placeholder for the prompt `$&` expands to the matched text. */
  lemma ExpandDollarAmpPlaceholder(m: string)
    ensures Text.Substitution(Placeholder("$&"), m, "", "") == PlaceholderOpen + m + PlaceholderClose
  {
    var open, close := PlaceholderOpen, PlaceholderClose;
    PlaceholderTextsPlain();
    calc {
      Text.Substitution(Placeholder("$&"), m, "", "");
      { assert Placeholder("$&") == open + ("$&" + close); }
      Text.Substitution(open + ("$&" + close), m, "", "");
      { Text.SubstitutionPlainPrefix(open, "$&" + close, m, "", ""); }
      open + Text.Substitution("$&" + close, m, "", "");
      { ExpandDollarAmp(close, m); }
      open + (m + Text.Substitution(close, m, "", ""));
      open + (m + close);
      open + m + close;
    }
  }

  /** The fixed text of the placeholder holds no `$`. */
  lemma PlaceholderTextsPlain()
    ensures '$' !in PlaceholderOpen && '$' !in PlaceholderClose
  {
    assert '$' !in "<div>" && '$' !in "Image " && '$' !in "Placeholder: ";
  }

  /** A leading `$&` expands to the matched text. */
  lemma ExpandDollarAmp(b: string, m: string)
    ensures Text.Substitution("$&" + b, m, "", "") == m + Text.Substitution(b, m, "", "")
  {
    var rep := "$&" + b;
    assert rep[0] == '$' && rep[1] == '&' && rep[2..] == b;
  }
}
