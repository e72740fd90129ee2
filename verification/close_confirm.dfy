/** The close confirmation of the two upload modals (single and bulk; their
    logic is the same). The modal tracks the dirty flag its form reports and
    asks for confirmation before a close would throw that input away. The
    parent's `isOpen` prop is part of the state: closing sets it to false,
    and the reset effect then clears both flags. */
module CloseConfirm {
  import UploadForm

  datatype ModalState = ModalState(isOpen: bool, unsaved: bool, confirming: bool)

  const Closed := ModalState(false, false, false)

  datatype ModalEvent =
    | Open                          // the parent shows the modal
    | CloseButton                   // the header's close button
    | Backdrop(onOverlay: bool)     // a click whose target is (or is not) the overlay itself
    | ConfirmButton                 // "Close Anyway"
    | CancelButton                  // "Cancel" in the confirmation
    | UnsavedReport(dirty: bool)    // the form reports its dirty flag
    | FormDone                      // the form calls `onCancel` after a successful upload

  /** Which events can happen: nothing inside a closed modal, and the two
      confirmation buttons only while the confirmation is shown. */
  predicate Enabled(s: ModalState, e: ModalEvent) {
    match e
    case Open => true
    case ConfirmButton => s.isOpen && s.confirming
    case CancelButton => s.isOpen && s.confirming
    case _ => s.isOpen
  }

  /** `onClose` followed by the reset effect for the closed modal. */
  function Close(s: ModalState): (r: ModalState)
    ensures !r.isOpen && !r.unsaved && !r.confirming
  {
    Closed
  }

  /** `handleClose`: with unsaved changes show the confirmation, otherwise
      close at once. */
  function HandleClose(s: ModalState): (r: ModalState)
    ensures s.unsaved ==> r == s.(confirming := true)
    ensures !s.unsaved ==> r == Closed
  {
    if s.unsaved then s.(confirming := true) else Close(s)
  }

  function Step(s: ModalState, e: ModalEvent): (r: ModalState)
    ensures !Enabled(s, e) ==> r == s
    ensures s.isOpen && !r.isOpen ==>
              e.ConfirmButton? || e.FormDone? || ((e.CloseButton? || e.Backdrop?) && !s.unsaved)
    ensures !r.isOpen ==> r == Closed || r == s
  {
    if !Enabled(s, e) then s
    else match e
      case Open => s.(isOpen := true)
      case CloseButton => HandleClose(s)
      case Backdrop(onOverlay) => if onOverlay then HandleClose(s) else s
      case ConfirmButton => Close(s.(confirming := false))
      case CancelButton => s.(confirming := false)
      case UnsavedReport(dirty) => s.(unsaved := dirty)
      case FormDone => Close(s)
  }

  function Run(s: ModalState, events: seq<ModalEvent>): ModalState
    decreases |events|
  {
    if |events| == 0 then s else Run(Step(s, events[0]), events[1..])
  }

  // ---------------------------------------------------------------------
  // Properties

  /** A modal holding unsaved input is closed only by the confirmation
      button or by the form itself after a successful upload: the close
      button and the backdrop only bring up the confirmation. */
  lemma NoSilentDiscard(s: ModalState, e: ModalEvent)
    requires s.isOpen && s.unsaved && !Step(s, e).isOpen
    ensures e.ConfirmButton? || e.FormDone?
  {
  }

  /** Asking to close and then cancelling leaves the modal as it was. */
  lemma CancelUndoesRequest(s: ModalState)
    requires s.isOpen && s.unsaved && !s.confirming
    ensures Step(Step(s, CloseButton), CancelButton) == s
  {
  }

  /** A closed modal carries no stale flags. */
  predicate ClosedIsReset(s: ModalState) {
    !s.isOpen ==> s == Closed
  }

  /** From the closed modal, whatever happens, a closed modal is reset, so
      reopening it never shows an old confirmation or an old dirty flag. */
  lemma {:induction false} RunKeepsClosedReset(s: ModalState, events: seq<ModalEvent>)
    requires ClosedIsReset(s)
    ensures ClosedIsReset(Run(s, events))
    ensures Run(s, events).confirming ==> Run(s, events).isOpen
    decreases |events|
  {
    if |events| > 0 {
      RunKeepsClosedReset(Step(s, events[0]), events[1..]);
    } else if s.confirming {
      assert s != Closed;
    }
  }

  /** Modal and single-photo form together: the modal mirrors the form's
      dirty flag, so a close that needs no confirmation happens only while
      the form holds nothing the user entered. */
  lemma DirectCloseLosesNothing(m: ModalState, f: UploadForm.FormState, e: ModalEvent)
    requires m.isOpen && m.unsaved == f.unsaved
    requires UploadForm.CleanMeansPristine(f)
    requires e.CloseButton? || e.Backdrop?
    requires !Step(m, e).isOpen
    ensures f.form == UploadForm.EmptyForm && f.previewUrl.None?
  {
  }
}
