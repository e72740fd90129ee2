/** The bulk upload form: a list of chosen files, each with its own
    metadata, category and type; mass settings that can be copied onto all
    of them; removal of one file; and the sequential upload of the list.
    The EXIF reader and the upload call are outside the model: what they
    return arrives as parameters. */
module BulkUpload {
  import opened Basics
  import opened Metadata
  import UploadForm

  /** One chosen file with its preview, what was read from it (`None` for
      the empty object the form stores when nothing was found) and its own
      settings. */
  datatype FileEntry = FileEntry(
    file: UploadForm.FileRef,
    previewUrl: string,
    metadata: Option<Meta>,
    hasMetadata: bool,
    categoryId: string,
    isBlackWhite: bool)

  /** `{ category_id, is_black_white, applyToAll }`. */
  datatype MassSettings = MassSettings(categoryId: string, isBlackWhite: bool, applyToAll: bool)

  const DefaultMass := MassSettings("", false, false)

  datatype BulkState = BulkState(
    files: seq<FileEntry>,
    error: string,
    unsaved: bool,
    mass: MassSettings)

  const Initial := BulkState([], "", false, DefaultMass)

  const NoFilesError := "Please select at least one image"

  /** A file from the file input, with its preview URL and what the EXIF
      reader returned for it. */
  datatype Picked = Picked(file: UploadForm.FileRef, url: string, extracted: Option<Meta>)

  /** One of the two per-file settings and its new value. */
  datatype Setting = CategorySetting(categoryId: string) | TypeSetting(isBlackWhite: bool)

  /** One of the three mass settings and its new value. */
  datatype MassChange =
    | MassCategory(categoryId: string)
    | MassType(isBlackWhite: bool)
    | MassApplyToAll(applyToAll: bool)

  // ---------------------------------------------------------------------
  // Choosing and editing files

  function EntryFor(p: Picked): (e: FileEntry)
    ensures e.file == p.file && e.previewUrl == p.url && e.metadata == p.extracted
    ensures e.hasMetadata <==> p.extracted.Some?
    ensures e.categoryId == "" && !e.isBlackWhite
  {
    FileEntry(p.file, p.url, p.extracted, p.extracted.Some?, "", false)
  }

  /** `handleFileChange`: a non-empty choice replaces the list, one entry per
      file in order, each with empty settings; an empty choice changes
      nothing. */
  function PickFiles(st: BulkState, picks: seq<Picked>): (r: BulkState)
    ensures |picks| == 0 ==> r == st
    ensures |picks| > 0 ==> |r.files| == |picks| && r.unsaved
    ensures |picks| > 0 ==> forall i :: 0 <= i < |picks| ==> r.files[i] == EntryFor(picks[i])
    ensures r.error == st.error && r.mass == st.mass
  {
    if |picks| == 0 then st
    else st.(files := seq(|picks|, i requires 0 <= i < |picks| => EntryFor(picks[i])), unsaved := true)
  }

  /** `handleMassSettingChange`: one mass setting changes; the files do not. */
  function SetMass(st: BulkState, change: MassChange): (r: BulkState)
    ensures r.files == st.files && r.unsaved
    ensures change.MassCategory? ==> r.mass == st.mass.(categoryId := change.categoryId)
    ensures change.MassType? ==> r.mass == st.mass.(isBlackWhite := change.isBlackWhite)
    ensures change.MassApplyToAll? ==> r.mass == st.mass.(applyToAll := change.applyToAll)
  {
    var mass := match change
      case MassCategory(c) => st.mass.(categoryId := c)
      case MassType(b) => st.mass.(isBlackWhite := b)
      case MassApplyToAll(a) => st.mass.(applyToAll := a);
    st.(mass := mass, unsaved := true)
  }

  function ApplySetting(e: FileEntry, s: Setting): (r: FileEntry)
    ensures s.CategorySetting? ==> r == e.(categoryId := s.categoryId)
    ensures s.TypeSetting? ==> r == e.(isBlackWhite := s.isBlackWhite)
  {
    match s
    case CategorySetting(c) => e.(categoryId := c)
    case TypeSetting(b) => e.(isBlackWhite := b)
  }

  /** `handleIndividualFileSetting`: the entry at `index`, if there is one,
      takes the setting; every other entry is untouched. */
  function SetIndividual(st: BulkState, index: int, s: Setting): (r: BulkState)
    ensures |r.files| == |st.files| && r.unsaved
    ensures forall i :: 0 <= i < |st.files| && i != index ==> r.files[i] == st.files[i]
    ensures 0 <= index < |st.files| ==> r.files[index] == ApplySetting(st.files[index], s)
    ensures r.mass == st.mass && r.error == st.error
  {
    var files := seq(|st.files|, i requires 0 <= i < |st.files| =>
                   if i == index then ApplySetting(st.files[i], s) else st.files[i]);
    st.(files := files, unsaved := true)
  }

  /** `applyMassSettingsToAll`: every entry takes the mass category and type. */
  function ApplyMassToAll(st: BulkState): (r: BulkState)
    ensures |r.files| == |st.files| && r.unsaved
    ensures forall i :: 0 <= i < |r.files| ==>
              r.files[i].categoryId == st.mass.categoryId &&
              r.files[i].isBlackWhite == st.mass.isBlackWhite &&
              r.files[i] == st.files[i].(categoryId := r.files[i].categoryId,
                                         isBlackWhite := r.files[i].isBlackWhite)
    ensures r.mass == st.mass && r.error == st.error
  {
    var files := seq(|st.files|, i requires 0 <= i < |st.files| =>
                   st.files[i].(categoryId := st.mass.categoryId, isBlackWhite := st.mass.isBlackWhite));
    st.(files := files, unsaved := true)
  }

  /** The list without the element at position `index`: the elements whose
      position differs from `index`, in order. */
  function WithoutIndex<T>(s: seq<T>, index: int): (r: seq<T>)
    ensures 0 <= index < |s| ==> r == s[..index] + s[index + 1..]
    ensures !(0 <= index < |s|) ==> r == s
    decreases |s|
  {
    if |s| == 0 then []
    else if index == 0 then s[1..]
    else
      var rest := WithoutIndex(s[1..], index - 1);
      assert 0 <= index < |s| ==> s[1..][..index - 1] == s[1..index];
      [s[0]] + rest
  }

  /** `removeFile`: the entry at `index` goes, and the form is dirty exactly
      when entries remain. */
  function RemoveFile(st: BulkState, index: int): (r: BulkState)
    ensures r.files == WithoutIndex(st.files, index)
    ensures 0 <= index < |st.files| ==> |r.files| + 1 == |st.files|
    ensures r.unsaved <==> |r.files| > 0
    ensures r.mass == st.mass && r.error == st.error
  {
    var files := WithoutIndex(st.files, index);
    st.(files := files, unsaved := |files| > 0)
  }

  /** `clearAllFiles`: no entries, no error, not dirty; mass settings stay. */
  function ClearAllFiles(st: BulkState): (r: BulkState)
    ensures r.files == [] && r.error == "" && !r.unsaved && r.mass == st.mass
  {
    st.(files := [], error := "", unsaved := false)
  }

  // ---------------------------------------------------------------------
  // Uploading

  /** The multipart fields sent for one file; the booleans travel as the
      text "true" or "false". */
  datatype UploadRequest = UploadRequest(image: UploadForm.FileRef, meta: Meta, isBlackWhite: string, categoryId: string)

  function BoolText(b: bool): (s: string)
    ensures s == "true" || s == "false"
  {
    if b then "true" else "false"
  }

  /** Reading the text back the way the type selects do (`=== 'true'`)
      gives the boolean. */
  lemma BoolTextRoundTrip(b: bool)
    ensures (BoolText(b) == "true") == b
  {
  }

  /** The request for one entry: each metadata field or the empty string
      when nothing was read, and the entry's own settings. */
  function RequestFor(e: FileEntry): (q: UploadRequest)
    ensures q.image == e.file && q.categoryId == e.categoryId
    ensures (q.isBlackWhite == "true") == e.isBlackWhite
    ensures e.metadata.None? ==> forall g :: Get(q.meta, g) == ""
    ensures e.metadata.Some? ==> q.meta == e.metadata.value
  {
    UploadRequest(e.file, e.metadata.GetOr(EmptyMeta), BoolText(e.isBlackWhite), e.categoryId)
  }

  /** The upload calls' result: all succeeded, or the one at `index` threw
      with `message` (no later upload is attempted). */
  datatype BatchResult = AllUploaded | FailedAt(index: nat, message: string)

  datatype BulkOutcome = BulkOutcome(state: BulkState, sent: seq<UploadRequest>, closed: bool)

  /** `handleSubmit`. With no entries nothing is sent and an error is shown.
      Otherwise the entries are sent one at a time, in order; after a
      failure the list and settings stay and the message is shown; after
      full success the form resets and asks to close. */
  function Submit(st: BulkState, result: BatchResult): (o: BulkOutcome)
    ensures |st.files| == 0 ==> o == BulkOutcome(st.(error := NoFilesError), [], false)
    ensures |o.sent| <= |st.files|
    ensures forall k :: 0 <= k < |o.sent| ==> o.sent[k] == RequestFor(st.files[k])
    ensures |st.files| > 0 && (result.AllUploaded? || result.index >= |st.files|) ==>
              |o.sent| == |st.files| && o.closed &&
              o.state == Initial
    ensures |st.files| > 0 && result.FailedAt? && result.index < |st.files| ==>
              |o.sent| == result.index + 1 && !o.closed &&
              o.state == st.(error := UploadForm.FailureMessage(result.message))
  {
    if |st.files| == 0 then BulkOutcome(st.(error := NoFilesError), [], false)
    else
      var attempted := if result.FailedAt? && result.index < |st.files| then result.index + 1 else |st.files|;
      var sent := seq(attempted, k requires 0 <= k < attempted => RequestFor(st.files[k]));
      if attempted < |st.files| || (result.FailedAt? && result.index < |st.files|) then
        BulkOutcome(st.(error := UploadForm.FailureMessage(result.message)), sent, false)
      else
        BulkOutcome(ClearAllFiles(st).(mass := DefaultMass), sent, true)
  }

  // ---------------------------------------------------------------------
  // Properties

  /** Applying the mass settings twice is applying them once. */
  lemma ApplyMassIdempotent(st: BulkState)
    ensures ApplyMassToAll(ApplyMassToAll(st)) == ApplyMassToAll(st)
  {
  }

  /** Removing a file and then the one that moved into its place is the same
      as removing the next one first: each removal drops exactly one entry
      and keeps the order of the rest. */
  lemma RemoveKeepsOrder(s: seq<FileEntry>, index: int)
    requires 0 <= index < |s|
    ensures forall i :: 0 <= i < index ==> WithoutIndex(s, index)[i] == s[i]
    ensures forall i :: index <= i < |s| - 1 ==> WithoutIndex(s, index)[i] == s[i + 1]
  {
  }

  datatype BulkEvent =
    | FilesPicked(picks: seq<Picked>)
    | MassChanged(change: MassChange)
    | FileSettingChanged(index: int, setting: Setting)
    | MassApplied
    | FileRemoved(index: int)
    | AllCleared
    | Submitted(result: BatchResult)

  /** One user action on the bulk form. Choosing files marks it dirty,
      clearing empties it, and a dirty form becomes clean only with no files
      left. */
  function Step(st: BulkState, e: BulkEvent): (r: BulkState)
    ensures e.FilesPicked? && |e.picks| > 0 ==> r.unsaved && |r.files| == |e.picks|
    ensures e.AllCleared? ==> r.files == [] && !r.unsaved
    ensures st.unsaved && !r.unsaved ==> r.files == []
  {
    match e
    case FilesPicked(picks) => PickFiles(st, picks)
    case MassChanged(change) => SetMass(st, change)
    case FileSettingChanged(index, setting) => SetIndividual(st, index, setting)
    case MassApplied => ApplyMassToAll(st)
    case FileRemoved(index) => RemoveFile(st, index)
    case AllCleared => ClearAllFiles(st)
    case Submitted(result) => Submit(st, result).state
  }

  function Run(st: BulkState, events: seq<BulkEvent>): BulkState
    decreases |events|
  {
    if |events| == 0 then st else Run(Step(st, events[0]), events[1..])
  }

  /** A form that reports itself clean holds no chosen files. */
  predicate CleanMeansEmpty(st: BulkState) {
    !st.unsaved ==> st.files == []
  }

  lemma StepKeepsEmpty(st: BulkState, e: BulkEvent)
    requires CleanMeansEmpty(st)
    ensures CleanMeansEmpty(Step(st, e))
  {
  }

  /** From the fresh form, whatever the user does, a clean form holds no
      files, so closing it without a confirmation loses no chosen file. */
  lemma {:induction false} RunKeepsEmpty(st: BulkState, events: seq<BulkEvent>)
    requires CleanMeansEmpty(st)
    ensures CleanMeansEmpty(Run(st, events))
    decreases |events|
  {
    if |events| > 0 {
      StepKeepsEmpty(st, events[0]);
      RunKeepsEmpty(Step(st, events[0]), events[1..]);
    }
  }
}
