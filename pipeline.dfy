/**
  The upload pipeline that both upload commands run once when they open
  (src/index.tsx and src/upload-selected-image-in-finder.tsx): take the first
  selected file, hash it, answer from the local store when the hash is known,
  and otherwise upload the bytes once under a content-derived name and persist
  the record under the hash.

  `Run` is the pipeline as a function of the store and the run's inputs;
  `UploadCommand.Load` is the same pipeline written as the step-by-step
  method the commands execute, proved to have exactly `Run`'s effect.
 */
module Pipeline {
  import opened ImageTypes
  import opened LocalStore
  import opened Gateway

  /** Which of the two commands runs the pipeline; they differ only in the record they build. */
  datatype Variant = IndexVariant | FinderVariant

  /**
    The foreign functions the pipeline relies on: SHA-256 of the bytes in
    base64url (`hashOf`), `imageMeta` (`sniff`), `path.extname` and
    `path.basename`. They are left uninterpreted.
   */
  datatype Collaborators = Collaborators(
    hashOf: Bytes -> string,
    sniff: Bytes -> Meta,
    extname: string -> string,
    basename: string -> string)

  /**
    What one run depends on besides the store: the Finder selection
    (`None` when `getFinderSelectedImages` gives nothing), the file system as
    seen by `fs.readFile`, `Date.now()`, and the gateway's answer to an upload.
   */
  datatype RunInput = RunInput(
    variant: Variant,
    selection: Option<seq<string>>,
    readFile: string -> Bytes,
    now: int,
    response: UploadResponse)

  /** The command state, the store and the upload calls after one or more runs. */
  datatype Outcome = Outcome(status: Status, items: Items, uploads: seq<UploadCall>)

  /** The path the pipeline works on: the first one selected, if any. */
  function Selected(selection: Option<seq<string>>): (r: Option<string>)
    ensures r.None? <==> selection.None? || selection.value == []
    ensures r.Some? ==> r.value == selection.value[0]
  {
    if selection.None? || |selection.value| == 0 then None else Some(selection.value[0])
  }

  /**
    `meta.type ?? path.extname(image).slice(1)`: the sniffed type, or else the
    extension with its first character (the dot) removed.
   */
  function ResolveFormat(meta: Meta, ext: string): (t: string)
    ensures meta.kind.Some? ==> t == meta.kind.value
    ensures meta.kind.None? && ext != [] ==> [ext[0]] + t == ext
    ensures meta.kind.None? && ext == [] ==> t == []
  {
    match meta.kind
    case Some(k) => k
    case None => if ext == [] then [] else ext[1..]
  }

  /** The remote file name `${hash}.${type}`. */
  function UploadName(hash: string, format: string): (name: string)
    ensures |name| == |hash| + 1 + |format|
    ensures name[..|hash|] == hash && name[|hash|] == '.' && name[|hash| + 1..] == format
  {
    hash + "." + format
  }

  /**
    The record persisted after a successful upload. Fields the gateway omits
    fall back to local values: `size` to the byte length, `height` to the
    sniffed height and, as the source has it, `width` also to the sniffed
    HEIGHT. The finder command also records `fileId`, `hash` and `from`.
   */
  function NewRecord(variant: Variant, path: string, hash: string, format: string, data: Bytes,
                     meta: Meta, res: UploadResponse, now: int): (r: ImageRecord)
    requires res.Uploaded?
    ensures r.source == path && r.format == format && r.createdAt == now
    ensures r.url == res.url && r.thumbnailUrl == res.thumbnailUrl
    ensures r.size == (if res.size.Some? then res.size.value else |data|)
    ensures r.height == (if res.height.Some? then res.height else meta.height)
    ensures r.width == (if res.width.Some? then res.width else meta.height)
    ensures variant == FinderVariant ==>
              r.fileId == Some(res.fileId) && r.hash == Some(hash) && r.from == Some("finder")
    ensures variant == IndexVariant ==> r.fileId == None && r.hash == None && r.from == None
  {
    var finder := variant == FinderVariant;
    ImageRecord(
      fileId := if finder then Some(res.fileId) else None,
      hash := if finder then Some(hash) else None,
      source := path,
      from := if finder then Some("finder") else None,
      format := format,
      url := res.url,
      thumbnailUrl := res.thumbnailUrl,
      size := res.size.GetOr(|data|),
      height := if res.height.Some? then res.height else meta.height,
      width := if res.width.Some? then res.width else meta.height,
      createdAt := now)
  }

  /** The content hash of the selected file, when there is a selection. */
  function SelectedHash(c: Collaborators, input: RunInput): Option<string> {
    match Selected(input.selection)
    case None => None
    case Some(path) => Some(c.hashOf(input.readFile(path)))
  }

  /**
    One run of `load`, started in state `status` over store `items`. An
    upload that fails rejects the promise `load` returns: the run stops there,
    with neither the store nor the state changed.
   */
  function Run(c: Collaborators, items: Items, status: Status, input: RunInput): (r: Outcome)
    // at most one upload call, and only with unique naming switched off
    ensures |r.uploads| <= 1
    ensures r.uploads != [] ==> !r.uploads[0].request.useUniqueFileName
    // an upload happens only for content whose hash the store does not know
    ensures r.uploads != [] ==>
              SelectedHash(c, input) == Some(c.hashOf(r.uploads[0].request.file)) &&
              c.hashOf(r.uploads[0].request.file) !in items
    // existing records are never changed or removed
    ensures forall k :: k in items ==> k in r.items && r.items[k] == items[k]
    // a new key appears only after a successful upload, and is the hash of the uploaded bytes
    ensures forall k :: k in r.items && k !in items ==>
              r.uploads != [] && r.uploads[0].response.Uploaded? &&
              k == c.hashOf(r.uploads[0].request.file)
    ensures r.uploads != [] && r.uploads[0].response.Uploaded? ==>
              c.hashOf(r.uploads[0].request.file) in r.items
    // a failed upload leaves store and state as they were
    ensures r.uploads != [] && r.uploads[0].response.UploadFailed? ==>
              r.items == items && r.status == status
    // a success shows the record that the store now holds under the hash
    ensures r.status.Succeed? && r.status != status ==>
              SelectedHash(c, input).Some? && SelectedHash(c, input).value in r.items &&
              r.items[SelectedHash(c, input).value] == r.status.image
  {
    match Selected(input.selection)
    case None => Outcome(NoSelectedImage, items, [])
    case Some(path) =>
      var data := input.readFile(path);
      var meta := c.sniff(data);
      var format := ResolveFormat(meta, c.extname(path));
      var hash := c.hashOf(data);
      if hash in items then
        Outcome(Succeed(true, items[hash]), items, [])
      else
        var call := UploadCall(UploadRequest(data, UploadName(hash, format), false), input.response);
        match input.response
        case UploadFailed => Outcome(status, items, [call])
        case Uploaded(_, _, _, _, _, _) =>
          var record := NewRecord(input.variant, path, hash, format, data, meta, input.response, input.now);
          Outcome(Succeed(false, record), items[hash := record], [call])
  }

  // ---------------------------------------------------------------------------
  // One run, case by case

  /** An empty or absent selection ends in `no-selected-image`: nothing read, uploaded or stored. */
  lemma NoSelectionStops(c: Collaborators, items: Items, status: Status, input: RunInput)
    requires input.selection.None? || input.selection.value == []
    ensures Run(c, items, status, input) == Outcome(NoSelectedImage, items, [])
  {
  }

  /**
    Only the first selected path matters: two runs that agree on it, on the
    bytes read from it and on everything else give the same outcome, whatever
    the other selected paths are and whatever the other files contain.
   */
  lemma OnlyFirstPathMatters(c: Collaborators, items: Items, status: Status, a: RunInput, b: RunInput)
    requires a.variant == b.variant && a.now == b.now && a.response == b.response
    requires Selected(a.selection) == Selected(b.selection)
    requires Selected(a.selection).Some? ==>
               a.readFile(Selected(a.selection).value) == b.readFile(Selected(a.selection).value)
    ensures Run(c, items, status, a) == Run(c, items, status, b)
  {
  }

  /** A known hash is answered from the store: `cache = true`, no upload, no write. */
  lemma CacheHitAnswersFromStore(c: Collaborators, items: Items, status: Status, input: RunInput)
    requires SelectedHash(c, input).Some? && SelectedHash(c, input).value in items
    ensures Run(c, items, status, input) ==
            Outcome(Succeed(true, items[SelectedHash(c, input).value]), items, [])
  {
  }

  /**
    An unknown hash causes exactly one upload of the file's bytes, named
    `hash + "." + format` with unique naming off.
   */
  lemma CacheMissUploadsOnce(c: Collaborators, items: Items, status: Status, input: RunInput)
    requires SelectedHash(c, input).Some? && SelectedHash(c, input).value !in items
    ensures var path := Selected(input.selection).value;
            var data := input.readFile(path);
            var format := ResolveFormat(c.sniff(data), c.extname(path));
            Run(c, items, status, input).uploads ==
              [UploadCall(UploadRequest(data, UploadName(c.hashOf(data), format), false), input.response)]
  {
  }

  /**
    After a successful upload the store holds the new record under the hash,
    every other key is untouched, and the state shows that same record with
    `cache = false`. The finder command's record names its own key.
   */
  lemma CacheMissPersists(c: Collaborators, items: Items, status: Status, input: RunInput)
    requires SelectedHash(c, input).Some? && SelectedHash(c, input).value !in items
    requires input.response.Uploaded?
    ensures var path := Selected(input.selection).value;
            var data := input.readFile(path);
            var meta := c.sniff(data);
            var hash := c.hashOf(data);
            var record := NewRecord(input.variant, path, hash, ResolveFormat(meta, c.extname(path)),
                                    data, meta, input.response, input.now);
            var r := Run(c, items, status, input);
            && r.items == items[hash := record]
            && r.status == Succeed(false, record)
            && (input.variant == FinderVariant ==>
                  record.hash == Some(hash) && record.fileId == Some(input.response.fileId) &&
                  record.from == Some("finder") && record.source == path)
  {
  }

  /** A failed upload writes nothing and leaves the state (`initial`) as it was. */
  lemma UploadFailureChangesNothing(c: Collaborators, items: Items, status: Status, input: RunInput)
    requires SelectedHash(c, input).Some? && SelectedHash(c, input).value !in items
    requires input.response.UploadFailed?
    ensures Run(c, items, status, input).items == items
    ensures Run(c, items, status, input).status == status
  {
  }

  // ---------------------------------------------------------------------------
  // Sequential runs

  /**
    Reopening a command on the same bytes, after a run from the initial state
    that succeeded, is a cache hit with the same record (so the same URL), and
    the two runs together upload at most once.
   */
  lemma SecondRunIsCacheHit(c: Collaborators, items: Items, first: RunInput, second: RunInput)
    requires SelectedHash(c, first).Some? && SelectedHash(c, first) == SelectedHash(c, second)
    requires Run(c, items, Initial, first).status.Succeed?
    ensures var r1 := Run(c, items, Initial, first);
            var r2 := Run(c, r1.items, Initial, second);
            && r2.status == Succeed(true, r1.status.image)
            && r2.items == r1.items
            && r2.uploads == []
            && |r1.uploads + r2.uploads| <= 1
  {
    var r1 := Run(c, items, Initial, first);
    var h := SelectedHash(c, first).value;
    if h in items {
      CacheHitAnswersFromStore(c, items, Initial, first);
    } else {
      CacheMissUploadsOnce(c, items, Initial, first);
      if first.response.UploadFailed? {
        UploadFailureChangesNothing(c, items, Initial, first);
        assert false;
      }
      CacheMissPersists(c, items, Initial, first);
    }
    CacheHitAnswersFromStore(c, r1.items, Initial, second);
  }

  /**
    Commands opened one after another: each run starts in `initial` on the
    store the previous one left; the status is that of the last run.
   */
  function RunAll(c: Collaborators, items: Items, inputs: seq<RunInput>): (r: Outcome)
    ensures |r.uploads| <= |inputs|
    ensures forall k :: k in items ==> k in r.items && r.items[k] == items[k]
    decreases |inputs|
  {
    if inputs == [] then Outcome(Initial, items, [])
    else
      var earlier := RunAll(c, items, inputs[..|inputs| - 1]);
      var last := Run(c, earlier.items, Initial, inputs[|inputs| - 1]);
      Outcome(last.status, last.items, earlier.uploads + last.uploads)
  }

  /**
    The deduplication invariant between a store and a log of upload calls:
    content uploaded successfully is in the store, and once a hash has been
    uploaded successfully no later upload of that hash is attempted.
   */
  ghost predicate OncePerHash(c: Collaborators, items: Items, log: seq<UploadCall>) {
    && (forall i :: 0 <= i < |log| && log[i].response.Uploaded? ==>
          c.hashOf(log[i].request.file) in items)
    && (forall i, j :: 0 <= i < j < |log| && log[i].response.Uploaded? ==>
          c.hashOf(log[i].request.file) != c.hashOf(log[j].request.file))
  }

  /** One run keeps the invariant. */
  lemma RunKeepsOncePerHash(c: Collaborators, items: Items, status: Status, log: seq<UploadCall>, input: RunInput)
    requires OncePerHash(c, items, log)
    ensures var r := Run(c, items, status, input); OncePerHash(c, r.items, log + r.uploads)
  {
    var r := Run(c, items, status, input);
    var log' := log + r.uploads;
    forall i | 0 <= i < |log'| && log'[i].response.Uploaded?
      ensures c.hashOf(log'[i].request.file) in r.items
    {
      if i < |log| { assert log'[i] == log[i]; } else { assert log'[i] == r.uploads[0]; }
    }
    forall i, j | 0 <= i < j < |log'| && log'[i].response.Uploaded?
      ensures c.hashOf(log'[i].request.file) != c.hashOf(log'[j].request.file)
    {
      assert log'[i] == log[i];
      if j >= |log| { assert log'[j] == r.uploads[0]; }
    }
  }

  /** Any sequence of runs keeps the invariant. */
  lemma {:induction false} RunAllKeepsOncePerHash(c: Collaborators, items: Items,
                                                  log: seq<UploadCall>, inputs: seq<RunInput>)
    requires OncePerHash(c, items, log)
    ensures var r := RunAll(c, items, inputs); OncePerHash(c, r.items, log + r.uploads)
    decreases |inputs|
  {
    var r := RunAll(c, items, inputs);
    if inputs == [] {
      assert log + r.uploads == log;
    } else {
      var earlier := RunAll(c, items, inputs[..|inputs| - 1]);
      RunAllKeepsOncePerHash(c, items, log, inputs[..|inputs| - 1]);
      var log1 := log + earlier.uploads;
      RunKeepsOncePerHash(c, earlier.items, Initial, log1, inputs[|inputs| - 1]);
      var last := Run(c, earlier.items, Initial, inputs[|inputs| - 1]);
      assert r.items == last.items && r.uploads == earlier.uploads + last.uploads;
      assert log1 + last.uploads == log + r.uploads;
      OncePerHashTransfer(c, last.items, log1 + last.uploads, r.items, log + r.uploads);
    }
  }

  /** The invariant depends only on the store and the log. */
  lemma OncePerHashTransfer(c: Collaborators, items: Items, log: seq<UploadCall>,
                            items': Items, log': seq<UploadCall>)
    requires items == items' && log == log'
    requires OncePerHash(c, items, log)
    ensures OncePerHash(c, items', log')
  {
  }

  /** One run keeps every stored record's `hash` equal to its key. */
  lemma RunKeepsKeysNamed(c: Collaborators, items: Items, status: Status, input: RunInput)
    requires KeysNamed(items)
    ensures KeysNamed(Run(c, items, status, input).items)
  {
  }

  /** Any sequence of runs keeps every stored record's `hash` equal to its key. */
  lemma {:induction false} RunAllKeepsKeysNamed(c: Collaborators, items: Items, inputs: seq<RunInput>)
    requires KeysNamed(items)
    ensures KeysNamed(RunAll(c, items, inputs).items)
    decreases |inputs|
  {
    if inputs != [] {
      var earlier := RunAll(c, items, inputs[..|inputs| - 1]);
      RunAllKeepsKeysNamed(c, items, inputs[..|inputs| - 1]);
      RunKeepsKeysNamed(c, earlier.items, Initial, inputs[|inputs| - 1]);
    }
  }

  /**
    At most one successful upload per content hash across any sequence of
    runs, from any store: after a successful upload of some content, no run
    uploads that content again, and the content stays in the store.
   */
  lemma SequentialRunsUploadOncePerHash(c: Collaborators, items: Items, inputs: seq<RunInput>)
    ensures var r := RunAll(c, items, inputs);
            && (forall i :: 0 <= i < |r.uploads| && r.uploads[i].response.Uploaded? ==>
                  c.hashOf(r.uploads[i].request.file) in r.items)
            && (forall i, j :: 0 <= i < j < |r.uploads| && r.uploads[i].response.Uploaded? ==>
                  c.hashOf(r.uploads[i].request.file) != c.hashOf(r.uploads[j].request.file))
  {
    RunAllKeepsOncePerHash(c, items, [], inputs);
    var r := RunAll(c, items, inputs);
    assert [] + r.uploads == r.uploads;
  }

  // ---------------------------------------------------------------------------
  // Display helpers

  /** The format label of src/index.tsx: one leading `.` is dropped, if there is one. */
  function StripLeadingDot(format: string): (r: string)
    ensures format != [] && format[0] == '.' ==> "." + r == format
    ensures !(format != [] && format[0] == '.') ==> r == format
  {
    if |format| > 0 && format[0] == '.' then format[1..] else format
  }

  /** Stripping undoes one added dot. */
  lemma StripLeadingDotInverse(text: string)
    ensures StripLeadingDot("." + text) == text
  {
  }

  /** The "Copy Markdown Content" text: `![basename(source)](url)`. */
  function MarkdownCopy(c: Collaborators, image: ImageRecord): (s: string)
    ensures var name := c.basename(image.source);
            && |s| == |name| + |image.url| + 5
            && s[..2 + |name|] == "![" + name
            && s[2 + |name|..] == "](" + image.url + ")"
  {
    "![" + c.basename(image.source) + "](" + image.url + ")"
  }

  /** The first index at or after `from` where `ch` occurs in `s`. */
  function IndexOf(s: string, ch: char, from: nat): (r: Option<nat>)
    requires from <= |s|
    ensures r.Some? ==> from <= r.value < |s| && s[r.value] == ch && ch !in s[from..r.value]
    ensures r.None? ==> ch !in s[from..]
    decreases |s| - from
  {
    if from == |s| then None
    else if s[from] == ch then Some(from)
    else IndexOf(s, ch, from + 1)
  }

  /**
    Reads a markdown image `![alt](target)` back into its alt text and target;
    the alt text ends at the first `]`.
   */
  function ParseImageLink(s: string): Option<(string, string)> {
    if |s| < 5 || s[..2] != "![" || s[|s| - 1] != ')' then None
    else match IndexOf(s, ']', 2)
      case None => None
      case Some(i) =>
        if i + 1 < |s| - 1 && s[i + 1] == '(' then Some((s[2..i], s[i + 2..|s| - 1])) else None
  }

  /**
    The copied markdown is an image link whose alt text is the file's base name
    and whose target is the record's URL, whenever the base name has no `]`.
   */
  lemma MarkdownCopyRoundTrip(c: Collaborators, image: ImageRecord)
    requires ']' !in c.basename(image.source)
    ensures ParseImageLink(MarkdownCopy(c, image)) == Some((c.basename(image.source), image.url))
  {
    var name, url := c.basename(image.source), image.url;
    var s := MarkdownCopy(c, image);
    var n := |name|;
    assert s == "![" + name + "](" + url + ")";
    assert s[..2] == "![" && s[2..2 + n] == name && s[2 + n] == ']' && s[3 + n] == '(';
    assert s[|s| - 1] == ')' && s[4 + n..|s| - 1] == url;
    forall j | 2 <= j < 2 + n ensures s[j] != ']' {
      assert s[j] == name[j - 2];
    }
    IndexOfFinds(s, ']', 2, 2 + n);
  }

  /** `IndexOf` finds the first occurrence. */
  lemma {:induction false} IndexOfFinds(s: string, ch: char, from: nat, k: nat)
    requires from <= k < |s| && s[k] == ch
    requires forall j :: from <= j < k ==> s[j] != ch
    ensures IndexOf(s, ch, from) == Some(k)
    decreases k - from
  {
    if from < k {
      IndexOfFinds(s, ch, from + 1, k);
    }
  }

  // ---------------------------------------------------------------------------
  // The command

  /**
    An upload command: the shared store and gateway client, the foreign
    functions, and the `state` that `setState` assigns.
   */
  class UploadCommand {
    const variant: Variant
    const tools: Collaborators
    const store: Store
    const imagekit: ImageKit
    var state: Status

    constructor (variant: Variant, tools: Collaborators, store: Store, imagekit: ImageKit)
      ensures this.variant == variant && this.tools == tools
      ensures this.store == store && this.imagekit == imagekit
      ensures state == Initial
    {
      this.variant := variant;
      this.tools := tools;
      this.store := store;
      this.imagekit := imagekit;
      state := Initial;
    }

    /** `load`, step by step; its effect on state, store and gateway log is exactly `Run`'s. */
    method Load(selection: Option<seq<string>>, readFile: string -> Bytes, now: int, response: UploadResponse)
      modifies this, store, imagekit
      ensures var r := Run(tools, old(store.items), old(state), RunInput(variant, selection, readFile, now, response));
              && state == r.status
              && store.items == r.items
              && imagekit.uploads == old(imagekit.uploads) + r.uploads
              && imagekit.deletions == old(imagekit.deletions)
    {
      if selection.None? || |selection.value| == 0 {
        state := NoSelectedImage;
        return;
      }
      var image := selection.value[0];
      var data := readFile(image);
      var meta := tools.sniff(data);
      var format := ResolveFormat(meta, tools.extname(image));
      var hash := tools.hashOf(data);

      var record := store.GetItem(hash);
      if record.Some? {
        state := Succeed(true, record.value);
        return;
      }

      var res := imagekit.Upload(UploadRequest(data, UploadName(hash, format), false), response);
      if res.UploadFailed? {
        // the awaited upload rejects: nothing after it runs
        return;
      }

      var newRecord := NewRecord(variant, image, hash, format, data, meta, res, now);
      store.SetItem(hash, newRecord);
      state := Succeed(false, newRecord);
    }
  }
}
