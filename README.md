# VibeWall core, modelled in Dafny

VibeWall is a client-side application. The user types a free-text "vibe",
and an image-generation service returns phone wallpapers for it. The user can
view them, remix the prompt, download one image or all of them as a ZIP, and
replay earlier prompts from a persisted history. This project models the part
of it that is logic rather than presentation:

- `app.dfy`, module `App`: the App component's state as the class
  `AppState`. Its fields are `prompt`, `images`, `isLoading`, `error`,
  `selectedImage`, `history` and `showHistory`, plus `storage`, the value kept
  under `vibewall_history`. The class has one method per handler:
  - the generation lifecycle, with `BeginGenerate`, `CompleteSuccess`,
    `CompleteFailure` and `Generate`;
  - `Remix`, `HistorySelect`, `ClearHistory` and the load on mount;
  - the download names and the archive entries.
- `history.dfy`, module `History`: the bounded most-recent-first record
  operation `[p, ...prev.filter(x => x !== p)].slice(0, 20)`, with its
  ordering, bound, uniqueness and eviction properties.
- `gemini_service.dfy`, module `GeminiService`: `generateWallpapers` as a
  pure function returning a `Result`. It covers:
  - the augmented prompt and the fixed request configuration;
  - the empty-result check;
  - the mapping to `{id, base64}` records;
  - the wrapping of thrown errors.
- `text.dfy`, module `Text`: the JavaScript string operations these rely on:
  - `trim()`;
  - the `\s` character class;
  - `replace(/\s+/g, '_')`;
  - the decimal rendering of numbers in template literals.
- `wrappers.dfy`, module `Wrappers`: `Option` and `Result`.

The provider call is a parameter `respond: Request -> ProviderOutcome`, so
the model relates the result to the very request that was built.
`Date.now()` is a parameter `clock: nat -> nat` that gives the reading taken
while building the record at each index. localStorage is the field `storage`,
and JSON encoding is taken as the identity.

On these points the code behaves differently from what one might expect,
and the model follows the code:
- Remix resubmits the `prompt` state. The prompt input edits that state on
  every keystroke (`EditPrompt`). So a remix sends the text currently typed,
  not necessarily the last submitted prompt.
- The prompt is sent untrimmed. A successful result holds as many images as
  the provider returned, which is any non-zero number, not exactly four.
- The empty-result error is thrown inside the `try`, so it comes out
  re-wrapped as "Failed to generate images: No images were generated. The
  prompt may have been blocked.". Transport errors come out with the same
  prefix.

## Model

| member | source | states |
|---|---|---|
| `Text.IsWhitespace` | App.tsx:39 | the ECMAScript WhiteSpace and LineTerminator set used by `\s` and `trim()`; no such character is `_`, `-`, `.` or a digit, so the name parts built around it stay whitespace-free |
| `Text.LeadingWhitespace` | App.tsx:39 | the run trimmed from the start is within the string and stops at a non-whitespace character |
| `Text.TrailingWhitespace` | App.tsx:39 | the run trimmed from the end is within the string and stops at a non-whitespace character |
| `Text.LeadingRunIsWhitespace` | App.tsx:39 | every character of the trimmed leading run is whitespace, so the run is maximal |
| `Text.TrailingRunIsWhitespace` | App.tsx:39 | every character of the trimmed trailing run is whitespace, so the run is maximal |
| `Text.Trim` | App.tsx:39 | `trim()` is the part of the string that starts right after the leading whitespace run, and it neither starts nor ends with whitespace; `TrimDropsOnlyWhitespace` states that everything after it is whitespace, and `TrimEmptyIffBlank` states when it is empty |
| `Text.TrimDropsOnlyWhitespace` | App.tsx:39 | everything `trim()` drops after its result is whitespace, so the result is the string with exactly its leading and trailing whitespace runs removed |
| `Text.TrimEmptyIffBlank` | App.tsx:39 | `!s.trim()` holds exactly when every character of `s` is whitespace (both directions) |
| `Text.Sanitize` | App.tsx:93 | `replace(/\s+/g, '_')` never leaves whitespace in the name |
| `Text.SanitizeKeepsPlain` | App.tsx:82 | a prompt without whitespace is used in the name unchanged |
| `Text.SanitizeIdempotent` | App.tsx:82 | sanitizing an already sanitized name changes nothing |
| `Text.SanitizeRun` | App.tsx:82 | a whole run of whitespace, however long, becomes a single `_` |
| `Text.SanitizeConcat` | App.tsx:82 | the replacement works run by run: it distributes over any cut that does not split a whitespace run |
| `Text.LeadingWhitespaceConcat` | App.tsx:82 | text after a string does not extend that string's leading run unless the run reaches into it |
| `Text.DecimalDigits` | services/geminiService.ts:28 | `${n}` is a non-empty string of decimal digits |
| `Text.DigitsCanonical` | services/geminiService.ts:28 | `${n}` has no leading zero: it starts with `0` only for 0 |
| `Text.DigitsRoundTrip` | services/geminiService.ts:28 | reading the decimal rendering back gives the number |
| `Text.DecimalDigitsInjective` | App.tsx:98 | different numbers render differently |
| `Text.SplitAtSeparator` | services/geminiService.ts:28 | `a-b` and `c-d` with dash-free heads are equal only when their parts are |
| `History.Without` | App.tsx:51 | the filter keeps exactly the entries different from the prompt, and never lengthens the list |
| `History.Record` | App.tsx:51 | the new history has exactly min(20, 1 + the number of other previous entries) entries; the submitted string, exactly as given, is first and occurs nowhere else |
| `History.WithoutConcat` | App.tsx:51 | the filter works entry by entry: it distributes over concatenation |
| `History.WithoutAbsent` | App.tsx:51 | filtering out a prompt that is not in the history changes nothing |
| `History.WithoutIsSubsequence` | App.tsx:51 | the filter keeps the relative order of the remaining entries |
| `History.SubsequencePrefix` | App.tsx:51 | cutting with `slice(0, 20)` keeps the relative order |
| `History.WithoutNoDuplicates` | App.tsx:51 | filtering a list without duplicates leaves none |
| `History.RecordKeepsOrder` | App.tsx:51 | all entries after the first keep the relative order they had in the previous history |
| `History.RecordPreservesNoDuplicates` | App.tsx:51 | a history without duplicates stays without duplicates |
| `History.RecordKeepsAllWhenRoom` | App.tsx:51 | below the bound nothing is evicted: the new history holds exactly the prompt and all previous entries |
| `History.WithoutAt` | App.tsx:51 | each kept entry sits, after filtering, at the number of kept entries before it |
| `History.WithoutPositionsIncrease` | App.tsx:51 | newer entries stay before older ones after filtering |
| `History.RecordEvictsOldest` | App.tsx:51 | only the tail is dropped: if an older entry survives the cut, every newer one does too |
| `History.RecordKeepsNewest` | App.tsx:51 | an entry is kept exactly when fewer than 19 other entries precede it (the "only if" for a history without duplicates), so a full list keeps its 19 newest other entries |
| `History.RecordIdempotent` | App.tsx:51 | submitting the same prompt twice leaves the history of one submission |
| `History.RecordMovesToFront` | App.tsx:51 | resubmitting an entry moves it to the front and keeps every other entry in place; ["a","b","c"] with "b" gives ["b","a","c"] |
| `GeminiService.BuildRequest` | services/geminiService.ts:13-21 | the request prompt is the user prompt followed by exactly the fixed suffix, and the request asks for 4 images in image/jpeg at 9:16 |
| `GeminiService.SubmittedPrompt` | services/geminiService.ts:15 | stripping the suffix yields a prompt that gives back the augmented text |
| `GeminiService.BuildRequestRecoversPrompt` | services/geminiService.ts:15 | the user prompt can be read back from every request, so distinct prompts give distinct requests |
| `GeminiService.ImageId` | services/geminiService.ts:28 | `img-{now}-{index}` starts with `img-` and contains no whitespace; `ImageIdInjective` states its uniqueness |
| `GeminiService.ImageIdInjective` | services/geminiService.ts:28 | `img-{now}-{index}` ids are equal only for equal clock readings and equal indices |
| `GeminiService.ToImages` | services/geminiService.ts:27-30 | one record per provider image, in order, each with id `img-{clock(i)}-{i}` and carrying that image's bytes |
| `GeminiService.BatchIdsDistinct` | services/geminiService.ts:28 | ids within one batch are pairwise distinct, whatever the clock reads |
| `GeminiService.Rethrow` | services/geminiService.ts:31-36 | every failure leaves as an Error: "Failed to generate images: " plus the message, or the fixed unknown-failure text |
| `GeminiService.GenerateWallpapers` | services/geminiService.ts:11-38 | success exactly when the response has a non-empty list; on success the output is exactly the mapped records (`ToImages`: ids `img-{clock(i)}-{i}`) and has that list's length, bytes and order, with distinct ids; a missing or empty list gives the re-wrapped "No images were generated" failure; a thrown Error is wrapped with its message; any other thrown value gives the unknown-failure message; every failure is an Error |
| `App.Restored` | App.tsx:27-36 | what the load on mount shows for a stored value: the saved list, or the initial [] when the value is absent or unparsable; used by `AppState.Synced` |
| `App.CaughtMessage` | App.tsx:60 | the message of a caught Error, or 'An unknown error occurred.' for anything else; `UnknownErrorUnreachable` shows the second case never arises from the service |
| `App.FolderName` | App.tsx:93 | `vibewall-{sanitized prompt}` starts with `vibewall-` and contains no whitespace |
| `App.EntryName` | App.tsx:98 | `{folder}-{i+1}.jpg` starts with the folder name and a dash and ends with `.jpg`; `EntryNamesDistinct` states uniqueness |
| `App.ImageFileName` | App.tsx:82 | `vibewall-{sanitized prompt}-{id}.jpeg` starts with the folder name and a dash and ends with `.jpeg`; `ImageFileNamesDistinct` states uniqueness |
| `App.EntryNamesDistinct` | App.tsx:98 | archive entry names `{folder}-{i+1}.jpg` are pairwise distinct |
| `App.ImageFileNamesDistinct` | App.tsx:82 | single-image names differ for different ids |
| `App.DownloadNamesHaveNoWhitespace` | App.tsx:93 | folder, entry and single-image names of service images contain no whitespace |
| `App.UnknownErrorUnreachable` | App.tsx:60 | a generation failure never shows 'An unknown error occurred.', because the service only throws Errors |
| `App.AppState.constructor` | App.tsx:18-24 | the initial state: empty prompt, no images, not loading, no error, no selection, empty history, history view closed |
| `App.AppState.LoadHistory` | App.tsx:27-36 | a saved list becomes the history; an absent or unparsable value leaves it unchanged; on the initial state, history then equals what storage restores |
| `App.AppState.BeginGenerate` | App.tsx:38-54 | a blank prompt only sets the validation error and leaves prompt, images, loading, history and storage unchanged; any other prompt sets loading, clears error and images, becomes the prompt, is recorded first in a history of at most 20 entries, keeps it free of duplicates, and is written to storage |
| `App.AppState.CompleteSuccess` | App.tsx:57-63 | the returned images are shown and loading ends; nothing else changes |
| `App.AppState.CompleteFailure` | App.tsx:59-63 | the Error's message, or the fallback text for a non-Error, is shown and loading ends; images stay as they were |
| `App.AppState.Generate` | App.tsx:38-64 | one whole submission: blank prompts send no request and change only the error; otherwise exactly the built request is sent, history and storage are updated, and the end state holds the service's images with no error, or no images and the failure message, with loading off |
| `App.AppState.Remix` | App.tsx:66-69 | closes the full-screen view and submits the prompt held in state |
| `App.AppState.HistorySelect` | App.tsx:116-119 | closes the history view and submits the chosen entry |
| `App.AppState.ClearHistory` | App.tsx:121-124 | history becomes empty, the stored value is removed, and what a restart loads equals what is shown |
| `App.AppState.EditPrompt` | App.tsx:167-172 | typing replaces the prompt state and nothing else |
| `App.AppState.SelectImage` | App.tsx:71-73 | the chosen image is shown full screen |
| `App.AppState.CloseModal` | App.tsx:75-77 | the full-screen view is closed |
| `App.AppState.SetShowHistory` | App.tsx:137-143 | the history view is opened or closed |
| `App.AppState.Download` | App.tsx:79-86 | the link is named `vibewall-{sanitized prompt}-{id}.jpeg` and carries the image data unchanged after the JPEG data-URL prefix |
| `App.AppState.DownloadAll` | App.tsx:88-114 | no images gives no archive; otherwise the archive `{folder}.zip` holds exactly one entry per image, in order, named `{folder}-{i+1}.jpg` with that image's data, and the names are pairwise distinct |
| `App.ClearThenRestart` | App.tsx:121-124 | clearing the history and starting again shows an empty history |

## Left out

- Rendering, styling and the display components are left out. They only show
  state and call the handlers above. The Generate button and the prompt
  input are disabled while a generation is loading, and the button also
  while the prompt is blank (components/PromptInput.tsx, lines 30 and 34).
  The first is a UI guard against overlapping typed submissions. It is not
  modelled: `Generate` and `EditPrompt` may be called while `isLoading`
  holds (see the overlapping-submissions line below). The second repeats
  the check in `BeginGenerate`.
- The provider client, the model name's effect and the module-level
  `API_KEY` check are left out. They are a foreign network client and
  environment access. The call is the parameter `respond`.
- JSON parsing is not modelled. A stored value that parses to something
  other than a list of strings is not represented. `Unparsable` stands for
  text that `JSON.parse` rejects.
- ZIP compression, base64 decoding, Blob and object-URL handling, and link
  clicks are not modelled. They are library and browser effects. The model
  stops at the entries passed to `folder.file` and at the link attributes.
  The `if (folder)` test is always taken, because `zip.folder(name)` returns
  a folder. The archive error path (logging only) is left out.
- Overlapping submissions, where the last one to settle wins, are not
  modelled. The source guards only typed submissions against them, by
  disabling the input and button while loading. A history selection or a
  remix during loading is not blocked. `Generate` runs one begin/complete pair with nothing in between.
  `BeginGenerate` and the Complete methods can be called in other orders,
  but no guarantee is stated for interleavings.
- `console.error` logging is left out.
- `Date.now()` is left out as a clock. It is the parameter `clock`.
- JavaScript strings are UTF-16 and Dafny strings are sequences of code
  points. All the whitespace characters are in the Basic Multilingual Plane,
  so trimming and sanitizing agree.
- `GeminiService.ProviderImage`: a provider image without `image` would make
  the mapping throw a TypeError inside the `try`, re-wrapped with an
  engine-specific message. That case is not represented: every provider image
  carries its bytes.
- `Text.DecimalDigits`: renders every natural number in plain decimal.
  JavaScript switches to exponent notation from 10^21. Clock readings and
  indices stay far below that.
