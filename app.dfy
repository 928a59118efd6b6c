/**
 * The App component (App.tsx): its state fields, the handlers that update
 * them, the persisted copy of the prompt history, and the names given to
 * downloaded files.
 *
 * `handleGenerate` is asynchronous: it updates the state up to the awaited
 * service call, and again when the call settles. BeginGenerate and the two
 * Complete methods are those two halves; Generate runs one submission from
 * start to end, with no other submission in between.
 */
module App {
  import opened Wrappers
  import Text
  import History
  import opened GeminiService

  const EMPTY_PROMPT_MESSAGE := "Please enter a vibe for your wallpaper."
  const UNKNOWN_ERROR_MESSAGE := "An unknown error occurred."
  const DATA_URL_PREFIX := "data:image/jpeg;base64,"

  /** The value stored under the localStorage key `vibewall_history`. JSON
      encoding is taken as the identity on a list of strings; Unparsable stands for any text that
      `JSON.parse` rejects. */
  datatype StoredHistory = Absent | Unparsable | Saved(entries: seq<string>)

  /** One `folder.file(name, data, { base64: true })` call. */
  datatype ZipEntry = ZipEntry(name: string, base64Data: string)

  /** The archive offered for download: its file name, the folder inside it
      and the entries added to that folder, in order. */
  datatype Archive = Archive(fileName: string, folderName: string, entries: seq<ZipEntry>)

  /** The `href` and `download` attributes of a download link. */
  datatype DownloadLink = DownloadLink(href: string, fileName: string)

  /** The history a fresh start of the application shows for a stored value:
      the load on mount keeps the initial [] unless a list was saved. */
  function Restored(s: StoredHistory): seq<string> {
    if s.Saved? then s.entries else []
  }

  /** `err instanceof Error ? err.message : 'An unknown error occurred.'` */
  function CaughtMessage(err: Thrown): string {
    if err.ErrorThrown? then err.message else UNKNOWN_ERROR_MESSAGE
  }

  /** `vibewall-${prompt.replace(/\s+/g, '_')}` */
  function FolderName(prompt: string): (name: string)
    ensures |name| >= 9 && name[..9] == "vibewall-"
    ensures Text.NoWhitespace(name)
  {
    "vibewall-" + Text.Sanitize(prompt)
  }

  /** `${folderName}-${index + 1}.jpg`: the folder name, a dash, then the
      1-based position and the extension. */
  function EntryName(folderName: string, index: nat): (name: string)
    ensures |name| > |folderName| + 5
    ensures name[..|folderName| + 1] == folderName + "-"
    ensures name[|name| - 4..] == ".jpg"
  {
    folderName + "-" + Text.DecimalDigits(index + 1) + ".jpg"
  }

  /** `vibewall-${prompt.replace(/\s+/g, '_')}-${image.id}.jpeg` */
  function ImageFileName(prompt: string, id: string): (name: string)
    ensures |name| >= |FolderName(prompt)| + 6
    ensures name[..|FolderName(prompt)| + 1] == FolderName(prompt) + "-"
    ensures name[|name| - 5..] == ".jpeg"
  {
    FolderName(prompt) + "-" + id + ".jpeg"
  }

  /** The entries of one archive have pairwise distinct names. */
  lemma EntryNamesDistinct(folderName: string, i: nat, j: nat)
    requires i != j
    ensures EntryName(folderName, i) != EntryName(folderName, j)
  {
    var head := folderName + "-";
    var di, dj := Text.DecimalDigits(i + 1), Text.DecimalDigits(j + 1);
    assert EntryName(folderName, i) == head + di + ".jpg";
    assert EntryName(folderName, j) == head + dj + ".jpg";
    if head + di + ".jpg" == head + dj + ".jpg" {
      assert |di| == |dj|;
      assert di == (head + di + ".jpg")[|head|..|head| + |di|];
      assert dj == (head + dj + ".jpg")[|head|..|head| + |dj|];
      Text.DecimalDigitsInjective(i + 1, j + 1);
    }
  }

  /** For one prompt, images with different ids get different file names. */
  lemma ImageFileNamesDistinct(prompt: string, id1: string, id2: string)
    requires id1 != id2
    ensures ImageFileName(prompt, id1) != ImageFileName(prompt, id2)
  {
    var head := FolderName(prompt) + "-";
    assert ImageFileName(prompt, id1) == head + id1 + ".jpeg";
    assert ImageFileName(prompt, id2) == head + id2 + ".jpeg";
    assert (head + id1 + ".jpeg")[|head|..|head| + |id1|] == id1;
    assert (head + id2 + ".jpeg")[|head|..|head| + |id2|] == id2;
  }

  /** Download names contain no whitespace, whatever the prompt: the folder,
      every archive entry, and every image from the service. */
  lemma DownloadNamesHaveNoWhitespace(prompt: string, index: nat, now: nat)
    ensures Text.NoWhitespace(FolderName(prompt))
    ensures Text.NoWhitespace(EntryName(FolderName(prompt), index))
    ensures Text.NoWhitespace(ImageFileName(prompt, ImageId(now, index)))
  {
  }

  /** The service only ever fails with an Error, so the component's fallback
      message for non-Error values is never shown for a generation failure. */
  lemma UnknownErrorUnreachable(p: string, respond: Request -> ProviderOutcome, clock: nat -> nat)
    ensures GenerateWallpapers(p, respond, clock).Failure? ==>
      CaughtMessage(GenerateWallpapers(p, respond, clock).error) != UNKNOWN_ERROR_MESSAGE
  {
  }

  class AppState {
    var prompt: string
    var images: seq<GeneratedImage>
    var isLoading: bool
    var error: Option<string>
    var selectedImage: Option<GeneratedImage>
    var history: seq<string>
    var showHistory: bool
    /** `localStorage["vibewall_history"]` */
    var storage: StoredHistory

    /** The history shown equals what a restart would load. */
    ghost predicate Synced()
      reads this
    {
      history == Restored(storage)
    }

    /** The initial state of the component, with whatever an earlier session
        left in storage. */
    constructor (persisted: StoredHistory)
      ensures prompt == "" && images == [] && !isLoading && error == None
      ensures selectedImage == None && history == [] && !showHistory
      ensures storage == persisted
    {
      prompt := "";
      images := [];
      isLoading := false;
      error := None;
      selectedImage := None;
      history := [];
      showHistory := false;
      storage := persisted;
    }

    /** The load on mount: a saved list replaces the history; an absent or
        unparsable value leaves it as it is. Run on the initial state, it
        brings history and storage in sync. */
    method LoadHistory()
      modifies this
      ensures storage.Saved? ==> history == storage.entries
      ensures !storage.Saved? ==> history == old(history)
      ensures old(history) == [] ==> Synced()
      ensures prompt == old(prompt) && images == old(images) && isLoading == old(isLoading)
      ensures error == old(error) && selectedImage == old(selectedImage)
      ensures showHistory == old(showHistory) && storage == old(storage)
    {
      if storage.Saved? {
        history := storage.entries;
      }
    }

    /** The synchronous part of `handleGenerate`. A blank prompt only sets
        the validation error. Any other prompt starts loading, clears the
        error and the images, becomes the current prompt, and is recorded
        in the history, which is written to storage. */
    method BeginGenerate(p: string) returns (started: bool)
      modifies this
      ensures started <==> !Text.AllWhitespace(p)
      ensures !started ==>
        && error == Some(EMPTY_PROMPT_MESSAGE)
        && prompt == old(prompt) && images == old(images) && isLoading == old(isLoading)
        && history == old(history) && storage == old(storage)
      ensures started ==>
        && isLoading && error == None && images == [] && prompt == p
        && history == History.Record(old(history), p) && storage == Saved(history)
      ensures started ==> history[0] == p && |history| <= History.MAX_ENTRIES
      ensures started ==> (History.NoDuplicates(old(history)) ==> History.NoDuplicates(history))
      ensures started ==> Synced()
      ensures selectedImage == old(selectedImage) && showHistory == old(showHistory)
    {
      Text.TrimEmptyIffBlank(p);
      if Text.Trim(p) == "" {
        error := Some(EMPTY_PROMPT_MESSAGE);
        return false;
      }
      isLoading := true;
      error := None;
      images := [];
      prompt := p;
      if History.NoDuplicates(history) {
        History.RecordPreservesNoDuplicates(history, p);
      }
      history := History.Record(history, p);
      storage := Saved(history);
      started := true;
    }

    /** The awaited call returned images: they are shown and loading ends. */
    method CompleteSuccess(imgs: seq<GeneratedImage>)
      modifies this
      ensures images == imgs && !isLoading
      ensures prompt == old(prompt) && error == old(error) && selectedImage == old(selectedImage)
      ensures history == old(history) && showHistory == old(showHistory) && storage == old(storage)
    {
      images := imgs;
      isLoading := false;
    }

    /** The awaited call threw: the message is shown and loading ends. */
    method CompleteFailure(err: Thrown)
      modifies this
      ensures error == Some(CaughtMessage(err)) && !isLoading
      ensures prompt == old(prompt) && images == old(images) && selectedImage == old(selectedImage)
      ensures history == old(history) && showHistory == old(showHistory) && storage == old(storage)
    {
      error := Some(CaughtMessage(err));
      isLoading := false;
    }

    /** The state after one whole submission of `p` against the provider,
        compared with the state before it. */
    twostate predicate Submitted(p: string, respond: Request -> ProviderOutcome, clock: nat -> nat,
                                 new sent: Option<Request>)
      reads this`prompt, this`images, this`isLoading, this`error, this`history, this`storage
    {
      if Text.AllWhitespace(p) then
        && sent == None
        && error == Some(EMPTY_PROMPT_MESSAGE)
        && prompt == old(prompt) && images == old(images) && isLoading == old(isLoading)
        && history == old(history) && storage == old(storage)
      else
        && sent == Some(BuildRequest(p))
        && prompt == p && !isLoading
        && history == History.Record(old(history), p) && storage == Saved(history)
        && match GenerateWallpapers(p, respond, clock)
           case Success(imgs) => images == imgs && error == None
           case Failure(e) => images == [] && error == Some(CaughtMessage(e))
    }

    /** `handleGenerate(p)`, run to completion. `sent` reports the request
        this model builds; the guarantee that a blank prompt reaches no
        provider is that the blank branch of Submitted does not depend on
        `respond` at all, while any other prompt's end state is determined
        by `respond` applied to exactly BuildRequest(p). */
    method Generate(p: string, respond: Request -> ProviderOutcome, clock: nat -> nat)
      returns (sent: Option<Request>)
      modifies this
      ensures Submitted(p, respond, clock, sent)
      ensures selectedImage == old(selectedImage) && showHistory == old(showHistory)
      ensures !Text.AllWhitespace(p) || old(Synced()) ==> Synced()
    {
      var started := BeginGenerate(p);
      if !started {
        return None;
      }
      sent := Some(BuildRequest(p));
      match GenerateWallpapers(p, respond, clock)
      case Success(imgs) =>
        CompleteSuccess(imgs);
      case Failure(e) =>
        CompleteFailure(e);
    }

    /** `handleRemix`: closes the full-screen view and submits the current
        prompt again. */
    method Remix(respond: Request -> ProviderOutcome, clock: nat -> nat) returns (sent: Option<Request>)
      modifies this
      ensures selectedImage == None && showHistory == old(showHistory)
      ensures Submitted(old(prompt), respond, clock, sent)
    {
      selectedImage := None;
      sent := Generate(prompt, respond, clock);
    }

    /** `handleHistorySelect`: closes the history view and submits the
        chosen entry. */
    method HistorySelect(entry: string, respond: Request -> ProviderOutcome, clock: nat -> nat)
      returns (sent: Option<Request>)
      modifies this
      ensures !showHistory && selectedImage == old(selectedImage)
      ensures Submitted(entry, respond, clock, sent)
    {
      showHistory := false;
      sent := Generate(entry, respond, clock);
    }

    /** `handleClearHistory`: empties the history and removes the stored
        value, so a restart shows an empty history too. */
    method ClearHistory()
      modifies this
      ensures history == [] && storage == Absent && Synced()
      ensures prompt == old(prompt) && images == old(images) && isLoading == old(isLoading)
      ensures error == old(error) && selectedImage == old(selectedImage)
      ensures showHistory == old(showHistory)
    {
      history := [];
      storage := Absent;
    }

    /** The prompt input's `setPrompt`: typing replaces the current prompt,
        which is the one a remix submits. */
    method EditPrompt(text: string)
      modifies this
      ensures prompt == text
      ensures images == old(images) && isLoading == old(isLoading) && error == old(error)
      ensures selectedImage == old(selectedImage) && history == old(history)
      ensures showHistory == old(showHistory) && storage == old(storage)
    {
      prompt := text;
    }

    /** `handleSelectImage` */
    method SelectImage(image: GeneratedImage)
      modifies this`selectedImage
      ensures selectedImage == Some(image)
    {
      selectedImage := Some(image);
    }

    /** `handleCloseModal` */
    method CloseModal()
      modifies this`selectedImage
      ensures selectedImage == None
    {
      selectedImage := None;
    }

    /** The header button and the history view's close action. */
    method SetShowHistory(show: bool)
      modifies this`showHistory
      ensures showHistory == show
    {
      showHistory := show;
    }

    /** `handleDownload`: the link for one image, named after the current
        prompt and the image id, carrying the image data unchanged. */
    method Download(image: GeneratedImage) returns (link: DownloadLink)
      ensures link.href == DATA_URL_PREFIX + image.base64
      ensures link.href[|DATA_URL_PREFIX|..] == image.base64
      ensures link.fileName == ImageFileName(prompt, image.id)
    {
      link := DownloadLink(DATA_URL_PREFIX + image.base64, ImageFileName(prompt, image.id));
    }

    /** `handleDownloadAll`: nothing without images; otherwise one archive
        named after the sanitized prompt, with one entry per image in order,
        named by its 1-based position and holding that image's data. */
    method DownloadAll() returns (archive: Option<Archive>)
      ensures archive.None? <==> images == []
      ensures archive.Some? ==>
        && archive.value.folderName == FolderName(prompt)
        && archive.value.fileName == FolderName(prompt) + ".zip"
        && |archive.value.entries| == |images|
        && (forall i :: 0 <= i < |images| ==>
              archive.value.entries[i] == ZipEntry(EntryName(FolderName(prompt), i), images[i].base64))
        && (forall i, j :: 0 <= i < j < |images| ==>
              archive.value.entries[i].name != archive.value.entries[j].name)
    {
      if |images| == 0 {
        return None;
      }
      var folderName := FolderName(prompt);
      var entries: seq<ZipEntry> := [];
      var index := 0;
      while index < |images|
        invariant 0 <= index <= |images|
        invariant |entries| == index
        invariant forall i :: 0 <= i < index ==>
          entries[i] == ZipEntry(EntryName(folderName, i), images[i].base64)
      {
        entries := entries + [ZipEntry(EntryName(folderName, index), images[index].base64)];
        index := index + 1;
      }
      forall i, j | 0 <= i < j < |images|
        ensures entries[i].name != entries[j].name
      {
        EntryNamesDistinct(folderName, i, j);
      }
      archive := Some(Archive(folderName + ".zip", folderName, entries));
    }
  }

  /** Clearing the history and starting the application again shows an
      empty history. */
  method ClearThenRestart(app: AppState) returns (restarted: AppState)
    modifies app
    ensures restarted.history == [] && restarted.storage == Absent
  {
    app.ClearHistory();
    restarted := new AppState(app.storage);
    restarted.LoadHistory();
  }
}
