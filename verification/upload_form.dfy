/** The single-photo upload form: choosing a file (with the metadata read
    from it), editing the fields, the two clear buttons and the submit with
    its three outcomes. The upload call and the EXIF reader are outside the
    model: their results arrive as parameters of the events. */
module UploadForm {
  import opened Basics
  import opened Metadata

  /** A file chosen in the file input, by name. */
  datatype FileRef = FileRef(name: string)

  /** The form's values: the six metadata fields, the photo type, the
      category id as the select's text, and the chosen file. */
  datatype Form = Form(meta: Meta, isBlackWhite: bool, categoryId: string, image: Option<FileRef>)

  const EmptyForm := Form(EmptyMeta, false, "", None)

  /** The component's state between events. */
  datatype FormState = FormState(
    form: Form,
    metadataExtracted: bool,
    error: string,
    previewUrl: Option<string>,
    unsaved: bool)

  const Initial := FormState(EmptyForm, false, "", None, false)

  const NoImageError := "Please select an image"
  const FallbackError := "Upload failed"

  /** The inputs whose change handler writes the typed text into the form. */
  datatype InputName = MetaInput(field: MetaField) | CategoryInput

  /** The upload call's result: success, or a failure with its message. */
  datatype UploadResult = Uploaded | Rejected(message: string)

  /** The state after a submit, the values handed to the upload call (if it
      was made), and whether the form asked its modal to close. */
  datatype SubmitOutcome = SubmitOutcome(state: FormState, sent: Option<Form>, closed: bool)

  // ---------------------------------------------------------------------
  // Handlers

  /** `handleFileChange`: nothing happens when no file was chosen; otherwise
      the file and its preview are taken, extracted metadata is merged into
      the fields and the form becomes dirty. */
  function PickFile(st: FormState, file: Option<FileRef>, url: string, extracted: Option<Meta>): (r: FormState)
    ensures file.None? ==> r == st
    ensures file.Some? ==> r.form.image == file && r.previewUrl == Some(url) && r.unsaved
    ensures file.Some? ==> r.metadataExtracted == extracted.Some?
    ensures file.Some? && extracted.None? ==> r.form.meta == st.form.meta
    ensures file.Some? && extracted.Some? ==> r.form.meta == Merge(st.form.meta, extracted.value)
    ensures r.form.isBlackWhite == st.form.isBlackWhite && r.form.categoryId == st.form.categoryId
    ensures r.error == st.error
  {
    if file.None? then st
    else
      var meta := if extracted.Some? then Merge(st.form.meta, extracted.value) else st.form.meta;
      st.(form := st.form.(image := file, meta := meta),
          previewUrl := Some(url),
          metadataExtracted := extracted.Some?,
          unsaved := true)
  }

  /** `handleInputChange`: the named field takes the typed text. */
  function Input(st: FormState, name: InputName, value: string): (r: FormState)
    ensures r.unsaved
    ensures name.CategoryInput? ==> r.form.categoryId == value && r.form.meta == st.form.meta
    ensures name.MetaInput? ==>
              r.form.meta == Set(st.form.meta, name.field, value) && r.form.categoryId == st.form.categoryId
    ensures r.form.image == st.form.image && r.form.isBlackWhite == st.form.isBlackWhite
    ensures r.previewUrl == st.previewUrl && r.metadataExtracted == st.metadataExtracted
  {
    var form := match name
      case MetaInput(field) => st.form.(meta := Set(st.form.meta, field, value))
      case CategoryInput => st.form.(categoryId := value);
    st.(form := form, unsaved := true)
  }

  /** The photo-type select as the component wires it: the type becomes
      black and white exactly when the option's text is "true", and the
      dirty flag is left as it was. */
  function ChooseTypeAsWritten(st: FormState, value: string): (r: FormState)
    ensures r.form.isBlackWhite <==> value == "true"
    ensures r.unsaved == st.unsaved
    ensures r == st.(form := st.form.(isBlackWhite := r.form.isBlackWhite))
  {
    st.(form := st.form.(isBlackWhite := value == "true"))
  }

  /** The photo-type select as every other input behaves: it also marks the
      form dirty. */
  function ChooseType(st: FormState, value: string): (r: FormState)
    ensures r.form.isBlackWhite <==> value == "true"
    ensures r.unsaved
    ensures r == st.(form := st.form.(isBlackWhite := r.form.isBlackWhite), unsaved := true)
  {
    ChooseTypeAsWritten(st, value).(unsaved := true)
  }

  /** `clearMetadata`: the six fields are emptied, the file, type, category
      and the "extracted" flag stay, and the form is dirty. */
  function ClearMetadata(st: FormState): (r: FormState)
    ensures r.form == st.form.(meta := EmptyMeta)
    ensures forall g :: Get(r.form.meta, g) == ""
    ensures r.unsaved && r.metadataExtracted == st.metadataExtracted
    ensures r.previewUrl == st.previewUrl && r.error == st.error
  {
    st.(form := st.form.(meta := EmptyMeta), unsaved := true)
  }

  /** `clearImageAndForm`: back to the state of a fresh form. */
  function ClearAll(st: FormState): (r: FormState)
    ensures r.form == EmptyForm && !r.unsaved && r.previewUrl == None
    ensures !r.metadataExtracted && r.error == ""
  {
    Initial
  }

  /** The message shown after a failed upload: the error's own message, or
      the fallback when it has none. Never empty. */
  function FailureMessage(message: string): (e: string)
    ensures e != ""
    ensures message != "" ==> e == message
    ensures message == "" ==> e == FallbackError
  {
    if message != "" then message else FallbackError
  }

  /** `handleSubmit`. Without a file nothing is sent and an error is shown.
      Otherwise the form's values are sent; on success the form resets and
      asks to close, on failure it keeps every value and shows the message. */
  function Submit(st: FormState, result: UploadResult): (o: SubmitOutcome)
    ensures st.form.image.None? ==>
              o.sent == None && !o.closed && o.state == st.(error := NoImageError)
    ensures st.form.image.Some? ==> o.sent == Some(st.form)
    ensures st.form.image.Some? && result.Uploaded? ==> o.state == Initial && o.closed
    ensures st.form.image.Some? && result.Rejected? ==>
              !o.closed && o.state == st.(error := FailureMessage(result.message))
  {
    if st.form.image.None? then SubmitOutcome(st.(error := NoImageError), None, false)
    else match result
      case Uploaded => SubmitOutcome(Initial, Some(st.form), true)
      case Rejected(message) => SubmitOutcome(st.(error := FailureMessage(message)), Some(st.form), false)
  }

  // ---------------------------------------------------------------------
  // The dirty flag

  datatype FormEvent =
    | FilePicked(file: Option<FileRef>, url: string, extracted: Option<Meta>)
    | Typed(name: InputName, value: string)
    | TypeChosen(value: string)
    | MetadataCleared
    | AllCleared
    | Submitted(result: UploadResult)

  /** One user action on the form, with the type select corrected. Every
      input marks the form dirty, a pick without a file changes nothing, and
      a dirty form becomes clean only by returning to the fresh form. */
  function Step(st: FormState, e: FormEvent): (r: FormState)
    ensures e.Typed? || e.TypeChosen? || e.MetadataCleared? ==> r.unsaved
    ensures e.FilePicked? ==> if e.file.Some? then r.unsaved else r == st
    ensures e.AllCleared? ==> r == Initial
    ensures st.unsaved && !r.unsaved ==> r == Initial
  {
    match e
    case FilePicked(file, url, extracted) => PickFile(st, file, url, extracted)
    case Typed(name, value) => Input(st, name, value)
    case TypeChosen(value) => ChooseType(st, value)
    case MetadataCleared => ClearMetadata(st)
    case AllCleared => ClearAll(st)
    case Submitted(result) => Submit(st, result).state
  }

  function Run(st: FormState, events: seq<FormEvent>): FormState
    decreases |events|
  {
    if |events| == 0 then st else Run(Step(st, events[0]), events[1..])
  }

  /** A form that is not dirty holds nothing the user would lose. */
  predicate CleanMeansPristine(st: FormState) {
    !st.unsaved ==> st.form == EmptyForm && st.previewUrl == None && !st.metadataExtracted
  }

  lemma StepKeepsPristine(st: FormState, e: FormEvent)
    requires CleanMeansPristine(st)
    ensures CleanMeansPristine(Step(st, e))
  {
  }

  /** From the fresh form, whatever the user does, the form reports itself
      clean only when it holds nothing: closing a clean form loses no input. */
  lemma {:induction false} RunKeepsPristine(st: FormState, events: seq<FormEvent>)
    requires CleanMeansPristine(st)
    ensures CleanMeansPristine(Run(st, events))
    decreases |events|
  {
    if |events| > 0 {
      StepKeepsPristine(st, events[0]);
      RunKeepsPristine(Step(st, events[0]), events[1..]);
    }
  }

  /** With the select as written, choosing black and white on a fresh form
      changes the form but leaves it reported clean. */
  lemma TypeChoiceNotTracked()
    ensures var st := ChooseTypeAsWritten(Initial, "true");
            !st.unsaved && st.form != EmptyForm && !CleanMeansPristine(st)
  {
  }

  /** A successful submit and the clear button leave the same state. */
  lemma SuccessEqualsClear(st: FormState)
    requires st.form.image.Some?
    ensures Submit(st, Uploaded).state == ClearAll(st)
  {
  }

  /** A failed upload loses none of the user's input. */
  lemma FailureKeepsInput(st: FormState, message: string)
    ensures Submit(st, Rejected(message)).state.form == st.form
    ensures Submit(st, Rejected(message)).state.unsaved == st.unsaved
    ensures Submit(st, Rejected(message)).state.error != ""
  {
  }
}
