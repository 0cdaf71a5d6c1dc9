# Blog generator core in Dafny

This project models the decision logic of an AI blog-writing tool. The tool drafts a
blog post with one of three providers (Gemini, OpenAI, Groq), asks for one image
prompt per `[[INSERT_IMAGE_n]]` placeholder in the draft, generates the images, and
exports the post with the images put in place of the placeholders.

Three parts of the program are modelled, each as a module of pure functions over
immutable datatypes:

- **Provider adapter** (`services/geminiService.ts`):
  - the retry policy (`Retry`), modelled over the stream of outcomes that successive attempts produce, with the waits recorded instead of slept;
  - the credential gate, the 50000-character limit on prompt input, the normalisation of array answers, the DALL-E size mapping, and the dispatch of the three generators (`Service`).
- **Editor workflow** (`App.tsx`):
  - marker scanning and de-duplication (`Markers`);
  - prompt generation, the optimistic gallery updates around one image request, the "generate all" queue, and the substitution of markers on export (`Workflow`).
- **Image panel** (`components/ImagePanel.tsx`): badges, download names, the "save all" order and readiness filter, the progress counter, the prompt export text and the visible controls (`Gallery`).

Supporting modules:

- `Wrappers` holds `Option` and `Result`.
- `Domain` holds the entities of `types.ts`.
- `Seqs` models `findIndex`, `indexOf` and `filter`.
- `Text` models substring search, decimal rendering, `join`, and `replaceAll`. It has both the literal form and the JavaScript form, which expands `$` patterns.

Each provider call is a parameter: a function from the request and the attempt number to what that attempt returns.

The retry test (`services/geminiService.ts:12`) looks for status 503 or 429 or a message containing "overloaded". The OpenAI and Groq adapters, however, throw a plain `Error` that carries no status (`services/geminiService.ts:144`). So a rate-limited REST call is retried only when its message happens to contain "overloaded" (`Service.RestFailureTransientOnlyIfOverloaded`). Only errors from the Gemini SDK can carry status 429 or 503.

## Model

| member | source | states |
|---|---|---|
| Retry.RunWithRetry | services/geminiService.ts:7-21 | The call makes between 1 and retries+1 attempts. Every attempt before the last failed with a transient error (503, 429, or a message containing "overloaded"). The result is the last attempt's value or error. The waits are delay, 2·delay, 4·delay, … A transient last failure means the budget was spent. |
| Retry.BackoffIsDoubling | services/geminiService.ts:15-16 | The wait before retry i+1 is delay·2^i, since each retry doubles the delay. |
| Retry.CumulativeWait | services/geminiService.ts:14-17 | The waits of a run add up to delay·(2^k − 1) after k retries. |
| Retry.FirstSuccessWins | services/geminiService.ts:7-19 | When attempt k+1 succeeds, the k before it failed transiently, and k ≤ retries, the call returns that success after k+1 attempts. |
| Retry.BudgetExhausted | services/geminiService.ts:14-19 | When every allowed attempt fails transiently, the call makes exactly retries+1 attempts and rethrows the last error. |
| Retry.PermanentFailureNotRetried | services/geminiService.ts:11-19 | A non-transient first failure is rethrown after one attempt, with no wait. |
| Retry.RetryExtensional | services/geminiService.ts:7-21 | The run depends only on the outcomes of the attempts. |
| Retry.RateLimitedTwiceThenSuccess | services/geminiService.ts:7-17 | Under the text budget, two 429 failures and then a success return that success after waits of 2000 ms and 4000 ms. |
| Service.ValidateConfig | services/geminiService.ts:23-27 | The gate fails exactly when the API key is empty. It fails with the "Please enter your … API Key" error, which carries no status. |
| Service.TruncateForPrompt | services/geminiService.ts:57-60 | Content of at most 50000 characters is unchanged. Longer content becomes its first 50000 characters followed by "...(truncated)". |
| Service.TruncateIdempotent | services/geminiService.ts:58-60 | Truncating twice gives the same text as truncating once. |
| Service.ObjectValues | services/geminiService.ts:160 | `Object.values` fails only on null. For an object it gives the values in entry order. |
| Service.NormaliseArray | services/geminiService.ts:155-163 | An array is returned as it is. An object whose first value is an array yields that array. Any other object yields all its values in order. Null fails. |
| Service.UnwrapWrappedArray | services/geminiService.ts:158-162 | An array wrapped as the first entry of an object, with any further entries, normalises to the same list as the bare array. Which entry JavaScript puts first is the `Service.ObjectValues` line under "Left out". |
| Service.FromRest | services/geminiService.ts:142-145 | A REST failure becomes an error with no status whose message starts with the provider heading. A REST success passes its value through. |
| Service.RestFailureTransientOnlyIfOverloaded | services/geminiService.ts:142-145 | A REST failure counts as transient exactly when its message contains "overloaded". |
| Service.PostFrom | services/geminiService.ts:218-222 | A successful answer gives a post with the caller's title, the provider's HTML and no prompts. |
| Service.GenerateBlogContent | services/geminiService.ts:198-224 | An empty key fails before any attempt. Otherwise there are at most 4 attempts with the 2000 ms doubling schedule. A success has the input title and no prompts, and its HTML is what the selected provider returned on the last attempt. |
| Service.GeminiContentIgnoresRest | services/geminiService.ts:212-216 | With Gemini selected, the REST backends do not affect the outcome. |
| Service.PromptRequestFor | services/geminiService.ts:57-60 | The request keeps the prompt count. Its content is the content truncated to 50000 characters with the mark appended, so at most 50000 characters plus the mark, and content within the limit is sent unchanged. |
| Service.ProviderPrompts | services/geminiService.ts:142-163 | Gemini's answer is passed through. For OpenAI and Groq, a REST failure becomes an error headed with the provider's name. A REST answer succeeds exactly when it is not null, and then it is the answer normalised to an array. A null answer fails with the conversion error. |
| Service.GenerateImagePrompts | services/geminiService.ts:226-243 | The key gate comes first. The text budget and schedule apply, with one wait between consecutive attempts. A success is the selected provider's answer on the last attempt, normalised to an array for the REST providers. A failure after an attempt is that attempt's error. |
| Service.DallESize | services/geminiService.ts:170 | 4K maps to "1024x1792" and every other size to "1024x1024". |
| Service.DallESizeIsLossy | services/geminiService.ts:170 | The 1K and 2K sizes send the same request size. |
| Service.DataUrl | services/geminiService.ts:193 | Every image result is a PNG base64 data URL. |
| Service.GeminiImageFromParts | services/geminiService.ts:105-108 | The result is the data URL of the first inline-data part. When no part has inline data, the result is the no-image error. |
| Service.GroqImageErrorIsPermanent | services/geminiService.ts:259 | Groq's image refusal has no status and does not mention "overloaded", so it is not transient. |
| Service.ProviderImage | services/geminiService.ts:97-109 | Gemini gets the image model with the prompt, size and ratio. Its error is passed through, and its parts give the data URL of the first inline-data part or the no-image error. OpenAI's reply becomes a data URL, and its failure an "OpenAI Image Error" with no status. Groq always fails with the refusal. Every success is a data URL. |
| Service.GenerateBlogImage | services/geminiService.ts:245-262 | The key gate comes first. There are at most 3 attempts with the 4000 ms doubling schedule, with one wait between consecutive attempts. A success is the selected provider's image on the last attempt, and a failure after an attempt is that attempt's error. Groq with a key fails after exactly one attempt and no wait. |
| Service.ImageIgnoresOtherBackend | services/geminiService.ts:253-261 | Only the selected provider's backend affects the call: backends that agree on it give the same result, attempts and waits. |
| Service.GeminiImageFirstAttempt | services/geminiService.ts:97-109 | A first Gemini answer with inline data gives, after one attempt and no wait, the data URL of its first inline-data part. |
| Service.OpenAiImageRequestShape | services/geminiService.ts:168-185 | OpenAI gets the prompt and the DALL-E size, and the aspect ratio has no effect. |
| Seqs.FindIndex | App.tsx:201 | `findIndex` gives the first position that passes the test, or nothing when no position passes. |
| Seqs.IndexOf | components/ImagePanel.tsx:54-56 | `indexOf` gives the first position holding the value, and -1 exactly when the value is absent. |
| Seqs.Filter | App.tsx:158-160 | `filter` keeps exactly the elements that pass the test. |
| Markers.MatchAtSound | App.tsx:100 | A match at the start of the text is a whole marker: the opening, at least one digit, then `]]`. |
| Markers.MatchAtMarker | App.tsx:100 | A marker at the start of the text is matched whole, because the digit run stops at `]]`. |
| Markers.MarkerWithinMarker | App.tsx:100 | A marker found at or inside a marker is that same marker, at the same place. |
| Markers.ScanSound | App.tsx:100 | Every match is a marker that occurs in the text. |
| Markers.ScanInTextOrder | App.tsx:100 | The i-th match occurs at the i-th recorded position, and each match ends before the next one begins, so matches are listed left to right without overlap. |
| Markers.ScanComplete | App.tsx:100 | Every occurrence of a marker in the text is matched, at its own position. |
| Markers.ScanMarker | App.tsx:100 | A marker at the start of the text is matched, and scanning resumes right after it. |
| Markers.ScanSkipsPlainText | App.tsx:100 | Text without `[` yields no match. |
| Markers.Distinct | App.tsx:101 | De-duplication keeps the same elements, once each. |
| Markers.DistinctKeepsFirstOccurrenceOrder | App.tsx:101 | Distinct elements keep the order of their first occurrences. |
| Markers.DistinctMarkers | App.tsx:100-102 | The counted markers are distinct markers that occur in the text. |
| Markers.DistinctMarkersComplete | App.tsx:100-102 | Every marker that occurs in the text is counted. |
| Markers.HasMarkerIff | App.tsx:100-104 | The text has a counted marker exactly when some marker occurs in it. |
| Markers.MarkersDiffer | App.tsx:100-102 | Different numbers give different markers, so each is counted. |
| Markers.DuplicateMarkerCountedOnce | App.tsx:100-102 | `[[INSERT_IMAGE_1]][[INSERT_IMAGE_2]][[INSERT_IMAGE_1]]` yields two markers, 1 then 2. |
| Markers.ScanThreeMarkers | App.tsx:100 | Three markers written back to back are matched as three markers, in order. |
| Workflow.GeneratePrompts | App.tsx:91-121 | Without a post, nothing happens. A request is made exactly when the scanned text has at least one distinct marker, and it asks for that many prompts. With no request the post is unchanged. Storing replaces only the prompt list, and a failure leaves the post as it was. |
| Workflow.AsksIffMarkerOccurs | App.tsx:97-108 | A prompt request is made exactly when some marker occurs in the scanned text. |
| Workflow.StartImage | App.tsx:125-133 | One loading entry with an empty data URL is put in front of the unchanged gallery. |
| Workflow.FinishImage | App.tsx:139-141 | Only entries with the request's id get the data and stop loading. Every other entry is unchanged. |
| Workflow.DropImage | App.tsx:144 | No entry with the request's id is left, every other entry is kept, and nothing new appears. |
| Workflow.DropImageCounts | App.tsx:144 | Each entry without the id keeps its number of copies, and entries with the id have none. |
| Workflow.DropImageConcat | App.tsx:144 | Removing from a joined gallery removes from each part, keeping their order. |
| Workflow.GenerateImage | App.tsx:123-149 | The error is rethrown exactly when the request failed. After a failure no entry has the id. |
| Workflow.FreshImageSucceeds | App.tsx:125-141 | With a fresh id, success leaves the finished image in front of the unchanged gallery. |
| Workflow.FreshImageFailureRestores | App.tsx:133-145 | With a fresh id, failure restores the gallery exactly and rethrows. |
| Workflow.DropKeepsOthers | App.tsx:144 | Removing an id that no entry has changes nothing. |
| Workflow.IdsMeaning | App.tsx:125-144 | An id is among the gallery's ids exactly when some entry carries it. |
| Workflow.Queue | App.tsx:158-160 | The queue is exactly the suggested prompts that no image carries. |
| Workflow.QueueKeepsOrder | App.tsx:158-160 | The queue keeps the order of the prompt list. |
| Workflow.SkippedFailed | App.tsx:163-169 | Every prompt the loop skips is a queued prompt whose request failed at its turn. |
| Workflow.FailedSkipped | App.tsx:163-169 | Every queued prompt whose request fails at its turn is skipped, and the loop goes on. |
| Workflow.SkippedCount | App.tsx:163-169 | Each queued request either adds an image or is skipped: skipped prompts and produced images together number the queue. |
| Workflow.RunQueueExtensional | App.tsx:164-170 | The run, its gallery and its skipped prompts, depends only on what each queued request returns at its turn. |
| Workflow.GenerateAll | App.tsx:150-170 | Groq and a missing post make no request, skip nothing and change nothing. Otherwise the run stops at once exactly when the queue is empty, and the gallery and the skipped prompts are those of running the queue over the gallery. |
| Workflow.GenerateAllResult | App.tsx:151-171 | With fresh ids, "generate all" puts one finished image per successful request in front of the unchanged gallery, latest first. |
| Workflow.RunQueueResult | App.tsx:164-170 | When each request's id is new to the gallery and to the ids issued before it, the gallery gains one finished image per successful request, latest first. Failed requests leave no trace. |
| Workflow.FreshIdsFromDistinct | App.tsx:125 | Ids that are pairwise different and absent from the gallery meet the freshness condition of a queue run. |
| Workflow.SlotMarkup | App.tsx:201-212 | The first image with the prompt gives a figure if it is ready. A placeholder is used otherwise, including when no image has the prompt. |
| Workflow.SubstitutionsSound | App.tsx:197-199 | Every replacement pairs the i-th distinct marker with the slot markup of the i-th prompt, and that prompt is non-empty. |
| Workflow.SubstitutionsComplete | App.tsx:197-199 | Every marker with a non-empty prompt at its position gets its replacement. |
| Workflow.ExportSubstitutions | App.tsx:191-199 | Every replacement pattern is a marker found in the editor's text, and so is non-empty. |
| Workflow.UnfilledMarkerNotReplaced | App.tsx:197-199 | No replacement targets a marker past the end of the prompt list or one paired with an empty prompt. |
| Workflow.ProcessedHtml | App.tsx:187-217 | Empty HTML or no post gives "". No images or no prompts leaves the HTML unchanged. Otherwise the replacements are inserted literally. |
| DraftExport.ReplacePieces | App.tsx:208 | One `replaceAll` of a marker over a draft replaces exactly the runs that are that marker. |
| DraftExport.ApplyAllPieces | App.tsx:196-213 | The fold of replacements over a draft gives each marker the replacement of the first pair naming it and leaves plain runs alone. |
| DraftExport.ExportResolves | App.tsx:196-212 | With the export's replacements, the j-th distinct marker gets the markup of the j-th prompt when that prompt is non-empty, and stays otherwise. |
| DraftExport.ProcessedDraft | App.tsx:187-217 | For a draft with any number of markers whose slot markups hold no `[`, the export is the draft with each filled marker swapped for its markup. Without images it is the HTML unchanged. |
| DraftExport.ProcessedDraftAsWritten | App.tsx:187-217 | When the markups hold no `$` either, the export as written is the same. |
| DraftExport.SlotMarkupLacks | App.tsx:201-212 | A `[` or `$` that is in neither the prompt nor any image's data URL is in no slot markup. |
| Workflow.ProcessedHtmlAsWritten | App.tsx:187-217 | The export as written: the same edge cases, with insertion through JavaScript's `replaceAll`. |
| Workflow.SoleMarkerFilled | App.tsx:196-212 | A draft that is one marker with a prompt exports as exactly that prompt's slot markup. |
| Workflow.SoleMarkerFilledAsWritten | App.tsx:208-211 | The same draft, exported as written, yields the `$`-expansion of the slot markup. |
| Workflow.NoDollarAgrees | App.tsx:208-211 | When no markup holds `$`, the as-written export equals literal insertion. |
| Workflow.PendingSlot | App.tsx:203-211 | A prompt whose only image is still loading gets the placeholder. |
| Workflow.ExpandDollarAmpPlaceholder | App.tsx:210-211 | In the placeholder for prompt `$&`, the expansion puts the marker where the prompt was. |
| Workflow.DollarPromptMangled | App.tsx:208-211 | For prompt `$&`, the literal export shows the prompt, but the as-written export shows the marker instead. |
| Text.ReplaceAllAbsent | App.tsx:208 | Text without the pattern is unchanged. |
| Text.ReplaceWhole | App.tsx:208 | Replacing a text that is exactly the pattern yields the replacement. |
| Text.Substitution | App.tsx:208-211 | A replacement without `$` is inserted as it is. |
| Text.JsReplaceAll | App.tsx:208-211 | `replaceAll` equals literal replacement whenever the replacement has no `$`. |
| Text.JsReplaceWhole | App.tsx:208-211 | `replaceAll` on a text that is exactly the pattern yields the expansion of the replacement. |
| Gallery.ImageLabel | components/ImagePanel.tsx:101-106 | A gallery badge equals the prompt list's badge for the first position of its prompt (line 242). An unlisted prompt gets "Custom Image". |
| Gallery.LabelRoundTrip | components/ImagePanel.tsx:101-106 | Reading a badge back gives `indexOf` of its prompt. |
| Gallery.LabelsDistinguishPrompts | components/ImagePanel.tsx:101-106 | Different listed prompts get different badges. |
| Text.NatToStringInjective | components/ImagePanel.tsx:60-61 | Two numbers render to the same decimal text exactly when they are equal. |
| Gallery.FilenameMeaning | components/ImagePanel.tsx:58-62 | A name starts with "Image-" exactly when the prompt is listed, and then carries list position + 1. Every name ends in ".png". |
| Gallery.FilenamesDistinguishPrompts | components/ImagePanel.tsx:58-62 | A listed prompt's file name differs from that of every other prompt, listed or custom, at any clock reading. |
| Gallery.Insert | components/ImagePanel.tsx:71-78 | Inserting adds exactly the element: the multiset grows by it and nothing else. |
| Gallery.InsertKeepsOrder | components/ImagePanel.tsx:71-78 | Inserting into a save-all order keeps it a save-all order. |
| Gallery.SortForDownload | components/ImagePanel.tsx:71-78 | The result is a rearrangement of the gallery, in an order the comparator admits. |
| Gallery.DownloadOrderMeaning | components/ImagePanel.tsx:71-78 | In that order, listed images come before custom ones and follow list positions. |
| Gallery.FilterKeepsDownloadOrder | components/ImagePanel.tsx:80-81 | Skipping images that are not ready keeps the order. |
| Gallery.ReadyInOrder | components/ImagePanel.tsx:71-93 | The ready images after sorting are in save-all order and are, copy for copy, the gallery's ready images. |
| Seqs.FilterMultiset | components/ImagePanel.tsx:80-81 | `filter` keeps every copy of each element that passes the test and no copy of one that fails. |
| Seqs.FilterPermutation | components/ImagePanel.tsx:71-81 | Filtering two rearrangements of a list gives rearrangements of each other. |
| Gallery.SavesFromMeaning | components/ImagePanel.tsx:80-93 | There is one save per image, in order: the i-th links the i-th image's data URL under the name given for save k+i. |
| Gallery.DownloadAll | components/ImagePanel.tsx:64-99 | There is one save per ready image, each linking its image's data URL under its download name, read at the clock tick of its save. The notice is raised exactly when no image is ready. |
| Gallery.DownloadAllSavesReady | components/ImagePanel.tsx:64-99 | The saved images are in save-all order and are, copy for copy, the gallery's ready images. |
| Gallery.GeneratedCount | components/ImagePanel.tsx:108 | The counter plus the length of the generate-all queue is the number of prompts. |
| Gallery.AllGenerated | components/ImagePanel.tsx:109 | "All generated" holds exactly when there is a prompt and every prompt has an image, that is, when the queue is empty. |
| Gallery.ExportLinesMeaning | components/ImagePanel.tsx:43 | Line i reads "Image i+1: " followed by prompt i. |
| Gallery.PromptExport | components/ImagePanel.tsx:41-43 | There is no export exactly when there are no prompts. A single prompt gives its one line. |
| Gallery.PromptExportSnoc | components/ImagePanel.tsx:43 | One more prompt appends a blank line and its numbered line. |
| Gallery.ExportLineRoundTrip | components/ImagePanel.tsx:43 | Every export line reads back as its position and prompt, whatever the prompt contains. |
| Gallery.Panel | components/ImagePanel.tsx:112-232 | With content, the panel shows exactly one of the prompt step and the gallery. The gallery shows exactly when there are prompts. "Generate all" shows exactly when the queue is non-empty. "Save all" shows exactly when there are images. |
| Gallery.StoredPromptsOpenGallery | components/ImagePanel.tsx:112 | Once a non-empty prompt list is stored, the prompt button is hidden and the gallery shows. |

## Left out

- Network and SDK calls (`GoogleGenAI`, `fetch`) and the `JSON.parse` of their bodies, including the stripping of Markdown fences: each call is a parameter that returns the attempt's outcome.
- The empty-answer check of the Gemini text call (`No content generated`): it is part of the Gemini backend's outcome.
- The prompt templates (`getSystemInstruction`, `getBlogPrompt` and the prompt-generation text): they are free text for the model, so the reference content, tone and audience are not parameters of `Service.GenerateBlogContent`.
- The `setTimeout` sleeps: retry waits are recorded as `Call.delays`, and the 300 ms pauses between downloads are not recorded.
- `Date.now()`: image ids are the parameter `idFor` and custom file stamps the parameter `now`.
- Workflow.RunQueueResult and Workflow.GenerateAllResult: they assume each id is new to the gallery and to the ids issued before it, which `Date.now()` does not guarantee within one millisecond. The hypothesis is stronger than the behaviour needs: requests that fail at once (an empty key, say) may repeat an id, yet each failed entry is removed before the next is added, so the gallery stays unchanged. Such a run is outside these two lemmas.
- `localStorage`, Blob/anchor downloads, clipboard, `alert`/`confirm`, the loading flag, the mobile tab switch, and `console` logging.
- `components/Editor.tsx`, `components/InputSection.tsx`, `constants.ts`, `vite.config.ts`, `handleGenerateBlog`, `resetApp`, and the HTML/Markdown export wrappers: none is part of this model. The editor is reduced to the two strings it yields, its HTML and its plain text.
- Workflow.SlotMarkup: the figure and placeholder markup keeps the data URL, prompt and caption but omits the style attributes and whitespace of the templates.
- Workflow.UnfilledMarkerNotReplaced: it states that no replacement targets the marker. That the marker's text survives the other replacements is stated by `DraftExport.ProcessedDraft`, and only for the drafts that lemma covers.
- DraftExport.ProcessedDraft: it covers HTML that splits into whole markers and runs without `[`, with slot markups that hold no `[`. HTML with a stray `[` against a marker, and a prompt or data URL that contains `[`, are outside it; `Workflow.ProcessedHtml` still defines the export there.
- Service.TruncateForPrompt: lengths are counted in characters (Unicode scalar values), while JavaScript's `.length` and `substring` count UTF-16 code units. A text with characters outside the Basic Multilingual Plane is cut at a different place, and when the 50000th unit is the first half of a surrogate pair the source sends a lone surrogate, which the model cannot. `Service.ObjectValues` splits a string into characters in the same way, where `Object.values` splits it into UTF-16 code units, giving two halves for each character outside that plane.
- Service.GenerateBlogContent: the REST backend is modelled as yielding the post's HTML string directly. A reply without `contentHtml` (giving `undefined`), a `null` reply (a `TypeError` with no status), and errors raised before the provider heading is attached (a `fetch` `TypeError`, `data.choices[0]` on a reply without choices, a `JSON.parse` `SyntaxError`) are not modelled. `Service.FromRest`'s heading therefore holds only for the failures the model has.
- Workflow.GenerateImage: each handler is one atomic step on the gallery. The three functional updates of `handleGenerateImage` (`prev => …` at App.tsx:133, 139 and 144) can interleave with those of another request in flight, and that interleaving is not modelled.
- Workflow.GenerateAll: the loop is modelled as running to the end over the gallery it started with. A run that goes on after `resetApp` cleared the gallery, and prompts stored by `setBlogPost(prev => prev ? … : null)` (App.tsx:112) while it runs, are not modelled.
- Workflow.GeneratePrompts: the adapter's answer is given as a list of strings. Non-string array elements and the link to `Service.GenerateImagePrompts`, which returns parsed JSON, are not modelled.
- Service.ObjectValues: object entries are taken in the order given, and JavaScript's reordering of integer-like keys is not modelled. An object with a further key such as `"0"` lists that entry first in JavaScript, so its wrapped array is not unwrapped there, while `Service.UnwrapWrappedArray` unwraps it. The `Json` datatype also admits repeated keys in an object, which `JSON.parse` never yields.
- Gallery.SortForDownload: the comparator answers 1 for two custom images in either order, so ECMAScript leaves the result implementation-defined. The model assumes the engine returns a rearrangement in key order (`Gallery.ValidDownloadOrder`), and builds one such order by insertion.
- The error message `handleGenerate` shows in the panel, and the per-prompt "Generate This" button.

## Findings

| source | as written | input that shows it | evidently intended | confidence | as-written member | corrected member |
|---|---|---|---|---|---|---|
| App.tsx:208-211 | `content.replaceAll(marker, tag)` passes the figure or placeholder markup, which contains the prompt, as a replacement string, so `$&`, `$$`, `` $` `` and `$'` in a prompt are expanded | a draft `[[INSERT_IMAGE_1]]`, prompt `$&`, its image still loading | the placeholder shows the prompt `$&` | not executed | Workflow.DollarPromptMangled | Workflow.ProcessedHtml |
