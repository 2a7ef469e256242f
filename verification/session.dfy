/**
 The page's state for one image and the handlers that change it: file
 selection (`handleFiles`), compression (`compressImage`), the slider's
 input handler, download (`downloadCompressedImage`) and `reset`. Each
 handler is a pure function from the state before to the state after,
 together with what it asks of the outside world (an alert, a call of the
 compression library, a download).
 */
module Session {
  import opened Optional
  import opened Text
  import opened FileSize

  /** A selected file: display name, media type (`file.type`) and size in bytes. */
  datatype File = File(name: string, mediaType: string, size: nat)

  /** The library's output; the page only looks at its size. */
  datatype Blob = Blob(size: nat)

  /** What one call of the compression library gave back. */
  datatype Outcome = Compressed(blob: Blob) | Failed

  /** A slider position. */
  type Percent = v: nat | v <= 100

  /** The slider position the page resets to. */
  const DefaultQuality: Percent := 80

  /** The size label shown when there is nothing to measure. */
  const ZeroSize: string := "0 KB"

  /** Prepended to the original file name for the download. */
  const DownloadPrefix: string := "compressed_"

  /**
   The page state: the two globals `currentFile` and `compressedBlob`, the
   two size labels, the slider and its percentage label, and whether the
   controls, the previews and the action buttons are displayed.
   */
  datatype State = State(
    currentFile: Option<File>,
    compressedBlob: Option<Blob>,
    originalSize: string,
    compressedSize: string,
    quality: Percent,
    qualityText: string,
    controlsShown: bool,
    previewShown: bool,
    actionsShown: bool)

  /** The two user-facing alerts. */
  datatype AlertKind = NotAnImage | CompressionFailed

  /** The options object handed to the compression library. */
  datatype Options = Options(
    maxSizeMB: nat,
    maxWidthOrHeight: nat,
    useWebWorker: bool,
    quality: real,
    alwaysKeepResolution: bool,
    initialQuality: real,
    fileType: string)

  /** What a handler asks of the outside world. */
  datatype Effect =
    | Alert(kind: AlertKind)
    | Invoke(file: File, options: Options)
    | Save(filename: string, blob: Blob)
    | Crash

  /** A handler's result: the state after it and its effects, in order. */
  datatype Reaction = Reaction(state: State, effects: seq<Effect>)

  /** The slider's label for position `v`: its decimal text and a percent sign. */
  function PercentLabel(v: nat): (s: string)
    ensures |s| >= 2 && s[|s| - 1] == '%'
    ensures s[..|s| - 1] == NatToString(v)
  {
    NatToString(v) + "%"
  }

  /** The slider label determines the slider position. */
  lemma PercentLabelInjective(a: nat, b: nat)
    requires PercentLabel(a) == PercentLabel(b)
    ensures a == b
  {
    var s := PercentLabel(a);
    assert NatToString(a) == s[..|s| - 1] == NatToString(b);
    NatToStringInjective(a, b);
  }

  /**
   The media-type test: `type.match('image.*')` builds an unanchored,
   case-sensitive pattern, so it succeeds exactly when "image" occurs
   anywhere in the type.
   */
  function IsImageType(mediaType: string): (b: bool)
    ensures b <==> Contains(mediaType, "image")
  {
    Find(mediaType, "image").Some?
  }

  /** How a selection is judged. */
  datatype Intake = Ignored | Rejected | Accepted(file: File)

  /** Only the first selected file is looked at; an empty selection is ignored. */
  function Choose(files: seq<File>): (r: Intake)
    ensures r.Ignored? <==> |files| == 0
    ensures r.Accepted? <==> |files| > 0 && Contains(files[0].mediaType, "image")
    ensures r.Rejected? <==> |files| > 0 && !Contains(files[0].mediaType, "image")
    ensures r.Accepted? ==> r.file == files[0]
  {
    if |files| == 0 then Ignored
    else if !IsImageType(files[0].mediaType) then Rejected
    else Accepted(files[0])
  }

  /** Files after the first never influence the verdict. */
  lemma LaterFilesIgnored(files: seq<File>, more: seq<File>)
    requires |files| > 0
    ensures Choose(files + more) == Choose(files[..1])
  {
    assert (files + more)[0] == files[..1][0];
  }

  /**
   The options for a compression of `f` at slider position `q`: output
   capped at 10 MB and 1920 pixels on the longer side, the work done in a
   web worker, the resolution kept, and the slider's quality.
   */
  function CompressionOptions(f: File, q: Percent): (o: Options)
    ensures o.maxSizeMB == 10 && o.maxWidthOrHeight == 1920
    ensures o.useWebWorker && o.alwaysKeepResolution
    ensures o.quality * 100.0 == q as real
    ensures o.initialQuality == o.quality
    ensures o.fileType == f.mediaType
  {
    var quality := q as real / 100.0;
    Options(10, 1920, true, quality, true, quality, f.mediaType)
  }

  /**
   `compressImage`: without a current file nothing happens. Otherwise the
   library is called once with the file and the slider's quality; on
   success the artifact and its size label are replaced, on failure an
   alert is raised and the state is left as it was.
   */
  function CompressImage(s: State, outcome: Outcome): (r: Reaction)
    ensures s.currentFile.None? ==> r == Reaction(s, [])
    ensures s.currentFile.Some? ==>
              && |r.effects| >= 1
              && r.effects[0] == Invoke(s.currentFile.value, CompressionOptions(s.currentFile.value, s.quality))
    ensures s.currentFile.Some? && outcome.Compressed? ==>
              && r.state.compressedBlob == Some(outcome.blob)
              && r.state.compressedSize == FormatFileSize(outcome.blob.size)
              && r.state.(compressedBlob := s.compressedBlob, compressedSize := s.compressedSize) == s
              && |r.effects| == 1
    ensures s.currentFile.Some? && outcome.Failed? ==>
              r.state == s && r.effects[1..] == [Alert(CompressionFailed)]
    ensures Crash !in r.effects
  {
    match s.currentFile
    case None => Reaction(s, [])
    case Some(f) =>
      var call := Invoke(f, CompressionOptions(f, s.quality));
      match outcome
      case Compressed(blob) =>
        Reaction(s.(compressedBlob := Some(blob), compressedSize := FormatFileSize(blob.size)), [call])
      case Failed =>
        Reaction(s, [call, Alert(CompressionFailed)])
  }

  /** The accepted file becomes current, its size is shown and the three regions are displayed. */
  function ShowFile(s: State, f: File): (t: State)
    ensures t.currentFile == Some(f)
    ensures t.originalSize == FormatFileSize(f.size)
    ensures t.controlsShown && t.previewShown && t.actionsShown
    ensures t.(currentFile := s.currentFile, originalSize := s.originalSize,
               controlsShown := s.controlsShown, previewShown := s.previewShown,
               actionsShown := s.actionsShown) == s
  {
    s.(currentFile := Some(f), originalSize := FormatFileSize(f.size),
       controlsShown := true, previewShown := true, actionsShown := true)
  }

  /**
   `handleFiles`: an empty selection does nothing; a first file whose type
   is not an image raises an alert and changes nothing; otherwise the file
   is shown and compressed once.
   */
  function HandleFiles(s: State, files: seq<File>, outcome: Outcome): (r: Reaction)
    ensures !Choose(files).Accepted? ==> r.state == s
    ensures Choose(files).Ignored? ==> r.effects == []
    ensures Choose(files).Rejected? ==> r.effects == [Alert(NotAnImage)]
    ensures Choose(files).Accepted? ==>
              && r.state.currentFile == Some(files[0])
              && r.state.originalSize == FormatFileSize(files[0].size)
              && |r.effects| >= 1
              && r.effects[0] == Invoke(files[0], CompressionOptions(files[0], s.quality))
    ensures Crash !in r.effects
  {
    match Choose(files)
    case Ignored => Reaction(s, [])
    case Rejected => Reaction(s, [Alert(NotAnImage)])
    case Accepted(f) => CompressImage(ShowFile(s, f), outcome)
  }

  /** The library calls among a handler's effects, in order. */
  function Calls(effects: seq<Effect>): (r: seq<Effect>)
    ensures |r| <= |effects|
    ensures forall k :: 0 <= k < |r| ==> r[k].Invoke?
    decreases |effects|
  {
    if |effects| == 0 then []
    else (if effects[0].Invoke? then [effects[0]] else []) + Calls(effects[1..])
  }

  /** The calls of two effect sequences one after the other. */
  lemma {:induction false} CallsAppend(a: seq<Effect>, b: seq<Effect>)
    ensures Calls(a + b) == Calls(a) + Calls(b)
    decreases |a|
  {
    if |a| == 0 {
      assert a + b == b;
    } else {
      assert (a + b)[0] == a[0];
      assert (a + b)[1..] == a[1..] + b;
      CallsAppend(a[1..], b);
    }
  }

  /** A compression calls the library exactly once when a file is loaded, and never otherwise. */
  lemma CompressCalls(s: State, outcome: Outcome)
    ensures Calls(CompressImage(s, outcome).effects) ==
              (if s.currentFile.Some? then [Invoke(s.currentFile.value, CompressionOptions(s.currentFile.value, s.quality))] else [])
  {
    var r := CompressImage(s, outcome);
    if s.currentFile.Some? {
      var call := Invoke(s.currentFile.value, CompressionOptions(s.currentFile.value, s.quality));
      if outcome.Compressed? {
        assert r.effects == [call];
        assert Calls(r.effects[1..]) == [];
      } else {
        assert r.effects == [call, Alert(CompressionFailed)];
        assert Calls(r.effects[1..][1..]) == [];
        assert Calls(r.effects[1..]) == [];
      }
    }
  }

  /** A rejected or empty selection leaves the whole state unchanged; only a rejection alerts. */
  lemma RejectionChangesNothing(s: State, files: seq<File>, outcome: Outcome)
    requires |files| == 0 || !Contains(files[0].mediaType, "image")
    ensures HandleFiles(s, files, outcome).state == s
    ensures |files| == 0 ==> HandleFiles(s, files, outcome).effects == []
    ensures |files| > 0 ==> HandleFiles(s, files, outcome).effects == [Alert(NotAnImage)]
  {
  }

  /**
   An accepted selection makes the first file current, shows its size and
   the three regions, and calls the library exactly once, with the current
   slider quality. The artifact changes only if that call succeeds.
   */
  lemma AcceptedFile(s: State, files: seq<File>, outcome: Outcome)
    requires |files| > 0 && Contains(files[0].mediaType, "image")
    ensures var r := HandleFiles(s, files, outcome);
            && r.state.currentFile == Some(files[0])
            && r.state.originalSize == FormatFileSize(files[0].size)
            && r.state.controlsShown && r.state.previewShown && r.state.actionsShown
            && r.state.quality == s.quality
            && r.state.compressedBlob == (if outcome.Compressed? then Some(outcome.blob) else s.compressedBlob)
            && Calls(r.effects) == [Invoke(files[0], CompressionOptions(files[0], s.quality))]
  {
    CompressCalls(ShowFile(s, files[0]), outcome);
  }

  /** The slider's input handler: the position changes and its label follows. */
  function SliderInput(s: State, v: Percent): (t: State)
    ensures t.quality == v && t.qualityText == PercentLabel(v)
    ensures t.(quality := s.quality, qualityText := s.qualityText) == s
  {
    s.(quality := v, qualityText := PercentLabel(v))
  }

  /** The result of a download click. */
  datatype DownloadResult = Skipped | Download(filename: string, blob: Blob) | TypeError

  /**
   `downloadCompressedImage`: nothing without an artifact; otherwise the
   artifact is saved under the prefix followed by the current file's name.
   An artifact without a current file makes reading the name fail.
   */
  function DownloadCompressed(s: State): (r: DownloadResult)
    ensures r.Skipped? <==> s.compressedBlob.None?
    ensures r.TypeError? <==> s.compressedBlob.Some? && s.currentFile.None?
    ensures r.Download? ==>
              && Some(r.blob) == s.compressedBlob
              && |r.filename| == |DownloadPrefix| + |s.currentFile.value.name|
              && r.filename[..|DownloadPrefix|] == DownloadPrefix
              && r.filename[|DownloadPrefix|..] == s.currentFile.value.name
  {
    match s.compressedBlob
    case None => Skipped
    case Some(blob) =>
      match s.currentFile
      case None => TypeError
      case Some(f) => Download(DownloadPrefix + f.name, blob)
  }

  /** `reset`: no file, no artifact, both sizes "0 KB", the slider back at 80, every region hidden. */
  function Reset(s: State): (t: State)
    ensures t.currentFile.None? && t.compressedBlob.None?
    ensures t.originalSize == ZeroSize && t.compressedSize == ZeroSize
    ensures t.quality == DefaultQuality && t.qualityText == "80%"
    ensures !t.controlsShown && !t.previewShown && !t.actionsShown
  {
    State(None, None, ZeroSize, ZeroSize, DefaultQuality, "80%", false, false, false)
  }

  /** Resetting twice is the same as resetting once, whatever the state. */
  lemma ResetIdempotent(s: State)
    ensures Reset(Reset(s)) == Reset(s)
  {
  }

  /**
   The part of the invariant that a download relies on: an artifact exists
   only alongside a current file. It holds at page load, where both are
   `null`, and exactly when a download click cannot fail.
   */
  predicate ArtifactNeedsFile(s: State) {
    s.compressedBlob.Some? ==> s.currentFile.Some?
  }

  /** A download click fails exactly when an artifact is left without a current file. */
  lemma DownloadFailsIffOrphaned(s: State)
    ensures ArtifactNeedsFile(s) <==> !DownloadCompressed(s).TypeError?
  {
  }

  /**
   The state invariant kept by every handler: an artifact needs a current
   file; a current file is shown with its size and the regions displayed;
   an artifact's label is its size; the slider label matches the slider.
   Under it a download click never fails.
   */
  function Consistent(s: State): (ok: bool)
    ensures ok ==> !DownloadCompressed(s).TypeError?
  {
    && ArtifactNeedsFile(s)
    && (s.currentFile.Some? ==>
          && s.controlsShown && s.previewShown && s.actionsShown
          && s.originalSize == FormatFileSize(s.currentFile.value.size))
    && (s.compressedBlob.Some? ==> s.compressedSize == FormatFileSize(s.compressedBlob.value.size))
    && s.qualityText == PercentLabel(s.quality)
  }

  /** The reset state is consistent, and its label "80%" is that of position 80. */
  lemma ResetConsistent(s: State)
    ensures Consistent(Reset(s))
  {
    assert NatToString(8) == "8";
    assert NatToString(80) == "80";
  }

  /** Compression keeps the invariant, whatever the library does. */
  lemma CompressPreserves(s: State, outcome: Outcome)
    requires Consistent(s)
    ensures Consistent(CompressImage(s, outcome).state)
  {
  }

  /** File selection keeps the invariant. */
  lemma HandleFilesPreserves(s: State, files: seq<File>, outcome: Outcome)
    requires Consistent(s)
    ensures Consistent(HandleFiles(s, files, outcome).state)
  {
    if Choose(files).Accepted? {
      CompressPreserves(ShowFile(s, files[0]), outcome);
    }
  }

  /**
   Loading a second image whose compression fails keeps the first image's
   artifact, which is then offered for download under the new file's name.
   */
  lemma StaleArtifactAfterFailedLoad(s: State, f: File, blob: Blob)
    requires s.compressedBlob == Some(blob)
    requires Contains(f.mediaType, "image")
    ensures DownloadCompressed(HandleFiles(s, [f], Failed).state) == Download(DownloadPrefix + f.name, blob)
  {
  }
}
