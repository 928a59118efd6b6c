/**
 * `generateWallpapers` (services/geminiService.ts): builds the image
 * request for a prompt, hands it to the provider, and normalises the answer
 * into GeneratedImage records or a thrown Error.
 *
 * The provider call is opaque, so it is a parameter `respond` from the
 * request to what the call produced. `Date.now()` is read once per image
 * while the records are built; the parameter `clock` gives the reading taken
 * for the image at each index.
 */
module GeminiService {
  import opened Wrappers
  import Text

  /** What a `throw` carries: an `Error` with its message, or any other value. */
  datatype Thrown = ErrorThrown(message: string) | OtherThrown

  /** The record type `GeneratedImage`: an id and the base64 image data. */
  datatype GeneratedImage = GeneratedImage(id: string, base64: string)

  datatype Config = Config(numberOfImages: nat, outputMimeType: string, aspectRatio: string)

  datatype Request = Request(model: string, prompt: string, config: Config)

  /** One entry of `response.generatedImages`: `img.image.imageBytes`. */
  datatype ProviderImage = ProviderImage(imageBytes: string)

  /** What the awaited provider call produced: a response whose
      `generatedImages` may be missing, or a thrown value. */
  datatype ProviderOutcome =
    | Responded(generatedImages: Option<seq<ProviderImage>>)
    | Threw(thrown: Thrown)

  const MODEL_NAME := "imagen-4.0-generate-001"
  const PROMPT_SUFFIX := ", 9:16 aspect ratio, phone wallpaper, high quality, stunning detail"
  const IMAGE_COUNT: nat := 4
  const MIME_TYPE := "image/jpeg"
  const ASPECT_RATIO := "9:16"
  const NO_IMAGES_MESSAGE := "No images were generated. The prompt may have been blocked."
  const FAILURE_PREFIX := "Failed to generate images: "
  const UNKNOWN_FAILURE_MESSAGE := "An unknown error occurred during image generation."

  /** The request sent for a user prompt: the prompt followed by the fixed
      suffix, four JPEG images at 9:16. The prompt is forwarded as given,
      without validation. */
  function BuildRequest(prompt: string): (r: Request)
    ensures |r.prompt| == |prompt| + |PROMPT_SUFFIX|
    ensures r.prompt[..|prompt|] == prompt && r.prompt[|prompt|..] == PROMPT_SUFFIX
    ensures r.config.numberOfImages == 4 && r.config.outputMimeType == "image/jpeg"
    ensures r.config.aspectRatio == "9:16"
  {
    Request(MODEL_NAME, prompt + PROMPT_SUFFIX, Config(IMAGE_COUNT, MIME_TYPE, ASPECT_RATIO))
  }

  /** The user prompt inside an augmented request prompt, if it carries the
      suffix. */
  function SubmittedPrompt(augmented: string): (p: Option<string>)
    ensures p.Some? ==> p.value + PROMPT_SUFFIX == augmented
  {
    if |augmented| >= |PROMPT_SUFFIX| && augmented[|augmented| - |PROMPT_SUFFIX|..] == PROMPT_SUFFIX
    then Some(augmented[..|augmented| - |PROMPT_SUFFIX|])
    else None
  }

  /** The user prompt can be read back from every request: distinct prompts
      give distinct requests. */
  lemma BuildRequestRecoversPrompt(prompt: string)
    ensures SubmittedPrompt(BuildRequest(prompt).prompt) == Some(prompt)
  {
  }

  /** `img-${Date.now()}-${index}`: starts with "img-" and, made of digits
      and dashes after it, contains no whitespace. */
  function ImageId(now: nat, index: nat): (id: string)
    ensures |id| > 4 && id[..4] == "img-"
    ensures Text.NoWhitespace(id)
  {
    "img-" + Text.DecimalDigits(now) + "-" + Text.DecimalDigits(index)
  }

  /** Two ids are equal only when both the clock reading and the index are:
      whatever the clock reads, ids of different indices differ. */
  lemma ImageIdInjective(t1: nat, i1: nat, t2: nat, i2: nat)
    ensures ImageId(t1, i1) == ImageId(t2, i2) ==> t1 == t2 && i1 == i2
  {
    var a, c := Text.DecimalDigits(t1), Text.DecimalDigits(t2);
    var b, d := Text.DecimalDigits(i1), Text.DecimalDigits(i2);
    if ImageId(t1, i1) == ImageId(t2, i2) {
      assert ImageId(t1, i1) == "img-" + (a + "-" + b);
      assert ImageId(t2, i2) == "img-" + (c + "-" + d);
      assert a + "-" + b == c + "-" + d by {
        var x, y := "img-" + (a + "-" + b), "img-" + (c + "-" + d);
        assert x[4..] == a + "-" + b && y[4..] == c + "-" + d;
      }
      assert '-' !in a && '-' !in c;
      Text.SplitAtSeparator('-', a, b, c, d);
      Text.DecimalDigitsInjective(t1, t2);
      Text.DecimalDigitsInjective(i1, i2);
    }
  }

  /** `response.generatedImages.map((img, index) => ({ id, base64 }))` */
  function ToImages(imgs: seq<ProviderImage>, clock: nat -> nat): (out: seq<GeneratedImage>)
    ensures |out| == |imgs|
    ensures forall i :: 0 <= i < |out| ==> out[i].id == ImageId(clock(i), i)
    ensures forall i :: 0 <= i < |out| ==> out[i].base64 == imgs[i].imageBytes
  {
    seq(|imgs|, i requires 0 <= i < |imgs| => GeneratedImage(ImageId(clock(i), i), imgs[i].imageBytes))
  }

  /** The ids of one batch are pairwise distinct. */
  lemma BatchIdsDistinct(imgs: seq<ProviderImage>, clock: nat -> nat, i: nat, j: nat)
    requires i < j < |imgs|
    ensures ToImages(imgs, clock)[i].id != ToImages(imgs, clock)[j].id
  {
    ImageIdInjective(clock(i), i, clock(j), j);
  }

  /** The try/catch of generateWallpapers: anything thrown inside the `try`,
      including the empty-result error, is rethrown with its message after
      FAILURE_PREFIX; a thrown non-Error becomes a fixed message. */
  function Rethrow(t: Thrown): (e: Thrown)
    ensures e.ErrorThrown?
    ensures t.ErrorThrown? ==> e.message == FAILURE_PREFIX + t.message
    ensures t.OtherThrown? ==> e.message == UNKNOWN_FAILURE_MESSAGE
  {
    match t
    case ErrorThrown(m) => ErrorThrown(FAILURE_PREFIX + m)
    case OtherThrown => ErrorThrown(UNKNOWN_FAILURE_MESSAGE)
  }

  /** `generateWallpapers(prompt)`. It succeeds exactly when the provider
      answered with a non-empty list, and then returns one record per
      provider image, in order, carrying its bytes. Every failure is an
      Error, so a caller's fallback for non-Error values is unreachable. */
  function GenerateWallpapers(prompt: string, respond: Request -> ProviderOutcome, clock: nat -> nat)
    : (r: Result<seq<GeneratedImage>, Thrown>)
    ensures r.Success? <==>
      respond(BuildRequest(prompt)).Responded?
      && respond(BuildRequest(prompt)).generatedImages.Some?
      && |respond(BuildRequest(prompt)).generatedImages.value| > 0
    ensures r.Success? ==>
      var imgs := respond(BuildRequest(prompt)).generatedImages.value;
      |r.value| == |imgs|
      && (forall i :: 0 <= i < |imgs| ==> r.value[i].base64 == imgs[i].imageBytes)
      && (forall i, j :: 0 <= i < j < |imgs| ==> r.value[i].id != r.value[j].id)
    ensures r.Success? ==> r.value == ToImages(respond(BuildRequest(prompt)).generatedImages.value, clock)
    ensures r.Failure? ==> r.error.ErrorThrown?
    ensures respond(BuildRequest(prompt)).Responded?
      && (respond(BuildRequest(prompt)).generatedImages.None?
          || respond(BuildRequest(prompt)).generatedImages.value == [])
      ==> r == Failure(ErrorThrown(FAILURE_PREFIX + NO_IMAGES_MESSAGE))
    ensures respond(BuildRequest(prompt)).Threw? ==>
      match respond(BuildRequest(prompt)).thrown
      case ErrorThrown(m) => r == Failure(ErrorThrown(FAILURE_PREFIX + m))
      case OtherThrown => r == Failure(ErrorThrown(UNKNOWN_FAILURE_MESSAGE))
  {
    match respond(BuildRequest(prompt))
    case Threw(t) => Failure(Rethrow(t))
    case Responded(generated) =>
      if generated.None? || |generated.value| == 0 then
        Failure(Rethrow(ErrorThrown(NO_IMAGES_MESSAGE)))
      else
        var imgs := generated.value;
        var out := ToImages(imgs, clock);
        assert forall i, j :: 0 <= i < j < |imgs| ==> out[i].id != out[j].id by {
          forall i, j | 0 <= i < j < |imgs| ensures out[i].id != out[j].id {
            BatchIdsDistinct(imgs, clock, i, j);
          }
        }
        Success(out)
  }
}
