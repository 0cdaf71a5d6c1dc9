/** The entities of the authoring tool, as declared in `types.ts`. */
module Domain {
  import opened Wrappers

  /** The three AI providers a user can select. */
  datatype Provider = Gemini | OpenAi | Groq

  /** `provider.toUpperCase()`, used in error messages. */
  function ProviderUpper(p: Provider): string {
    match p
    case Gemini => "GEMINI"
    case OpenAi => "OPENAI"
    case Groq => "GROQ"
  }

  /** Selected provider and its API key; an empty key means none was entered. */
  datatype ApiConfig = ApiConfig(provider: Provider, apiKey: string)

  datatype ImageSize = Size1K | Size2K | Size4K

  datatype AspectRatio =
    | Square | Portrait2x3 | Landscape3x2 | Portrait3x4 | Landscape4x3
    | Portrait9x16 | Landscape16x9 | Cinematic21x9

  /** A drafted post; `suggestedImagePrompts` is filled by a later call. */
  datatype BlogPost = BlogPost(title: string, contentHtml: string, suggestedImagePrompts: seq<string>)

  /** One entry of the gallery. `dataUrl` is empty while the image is being generated. */
  datatype GeneratedImage = GeneratedImage(id: string, prompt: string, dataUrl: string, isLoading: bool)

  /** An image that can be shown or downloaded: finished and carrying data. */
  predicate IsReady(img: GeneratedImage) {
    !img.isLoading && img.dataUrl != ""
  }

  /** Some image was generated for `prompt`: prompt text is the only join key. */
  predicate HasImageFor(images: seq<GeneratedImage>, prompt: string) {
    exists i :: 0 <= i < |images| && images[i].prompt == prompt
  }

  /** A thrown error: the HTTP-like `status` when the thrower attached one, and its message. */
  datatype ApiError = ApiError(status: Option<int>, message: string)
}
