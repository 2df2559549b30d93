/**
 The testimonials modal: a container and a dimming overlay, each reduced to
 its "active" flag. Opening a testimonial, clicking the close button and
 clicking the overlay all run the same `toggleModal`, which toggles both
 flags; there is no separate open or close.
 */
module Modal {
  import opened Toggles

  datatype ModalState = ModalState(container: bool, overlay: bool)

  /** The three controls that reach `toggleModal`. */
  datatype ModalEvent = TestimonialClick | CloseBtnClick | OverlayClick

  /** The container and the overlay show the same state. */
  predicate InLockStep(m: ModalState) {
    m.container == m.overlay
  }

  /** `toggleModal`: both class lists are toggled, one after the other. */
  function ToggleModal(m: ModalState): (r: ModalState)
    ensures r.container != m.container && r.overlay != m.overlay
    ensures InLockStep(r) <==> InLockStep(m)
  {
    ModalState(Toggle(m.container), Toggle(m.overlay))
  }

  /**
   Every control toggles. A testimonial click also copies the item's avatar,
   title and text into the modal first; that copy is not part of this model.
   */
  function Handle(m: ModalState, e: ModalEvent): (r: ModalState)
    ensures r.container != m.container && r.overlay != m.overlay
  {
    match e
    case TestimonialClick => ToggleModal(m)
    case CloseBtnClick => ToggleModal(m)
    case OverlayClick => ToggleModal(m)
  }

  /** The modal after a sequence of events, the first event handled first. */
  function HandleAll(m: ModalState, es: seq<ModalEvent>): (r: ModalState)
    ensures r.container == ToggleTimes(m.container, |es|)
    ensures r.overlay == ToggleTimes(m.overlay, |es|)
    decreases |es|
  {
    if es == [] then m else HandleAll(Handle(m, es[0]), es[1..])
  }

  /** Starting in lock-step, the container and the overlay stay in lock-step under any events. */
  lemma {:induction false} LockStepPreserved(m: ModalState, es: seq<ModalEvent>)
    requires InLockStep(m)
    ensures InLockStep(HandleAll(m, es))
    decreases |es|
  {
    if es != [] {
      LockStepPreserved(Handle(m, es[0]), es[1..]);
    }
  }

  /** Only the number of events matters, not which control fired them. */
  lemma EventKindIrrelevant(m: ModalState, es: seq<ModalEvent>, fs: seq<ModalEvent>)
    requires |es| == |fs|
    ensures HandleAll(m, es) == HandleAll(m, fs)
  {
  }

  /** The toggle quirk: an overlay click on a closed modal opens it. */
  lemma OverlayClickReopensClosed(m: ModalState)
    requires !m.container && !m.overlay
    ensures Handle(m, OverlayClick).container && Handle(m, OverlayClick).overlay
  {
  }
}
