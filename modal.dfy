/** The "Today's Special" modal (`initModal`, full variant only): the overlay's
    `active` class and the page body's inline `overflow`, which every open and
    close sets together. */
module ModalController {

  class Modal {
    /** `#specialModal` exists; without it no handler is registered. */
    const hasOverlay: bool
    /** At least one `[data-modal-open]` button exists. */
    const hasOpenButton: bool
    /** `#modalClose` exists. */
    const hasCloseButton: bool
    /** The overlay's `active` class. */
    var active: bool
    /** `document.body.style.overflow`. */
    var bodyOverflow: string
    /** The one-shot auto-open timeout is scheduled and has not fired yet. */
    var autoOpenPending: bool

    /** Page scrolling is suppressed exactly while the modal is shown. */
    predicate Synced()
      reads this
    {
      active <==> bodyOverflow == "hidden"
    }

    /** `initModal` on a page whose body has `data-page` value `page`; the overlay's
        class and the body's overflow start as the markup has them. */
    constructor (overlay: bool, openButton: bool, closeButton: bool, page: string,
                 active0: bool, overflow0: string)
      ensures hasOverlay == overlay && hasOpenButton == openButton && hasCloseButton == closeButton
      ensures active == active0 && bodyOverflow == overflow0
      ensures autoOpenPending <==> overlay && page == "home"
    {
      hasOverlay, hasOpenButton, hasCloseButton := overlay, openButton, closeButton;
      active, bodyOverflow := active0, overflow0;
      autoOpenPending := overlay && page == "home";
    }

    /** `openModal()`. */
    method Open()
      modifies this`active, this`bodyOverflow
      ensures active && bodyOverflow == "hidden" && Synced()
    {
      active := true;
      bodyOverflow := "hidden";
    }

    /** `closeModal()`: idempotent, and from any state ends hidden with scrolling restored. */
    method Close()
      modifies this`active, this`bodyOverflow
      ensures !active && bodyOverflow == "" && Synced()
    {
      active := false;
      bodyOverflow := "";
    }

    /** A click on a `[data-modal-open]` button. */
    method OpenButtonClick()
      modifies this`active, this`bodyOverflow
      ensures hasOverlay && hasOpenButton ==> active && bodyOverflow == "hidden"
      ensures !(hasOverlay && hasOpenButton) ==> active == old(active) && bodyOverflow == old(bodyOverflow)
      ensures old(Synced()) ==> Synced()
    {
      if hasOverlay && hasOpenButton { Open(); }
    }

    /** A click on `#modalClose`. */
    method CloseButtonClick()
      modifies this`active, this`bodyOverflow
      ensures hasOverlay && hasCloseButton ==> !active && bodyOverflow == ""
      ensures !(hasOverlay && hasCloseButton) ==> active == old(active) && bodyOverflow == old(bodyOverflow)
      ensures old(Synced()) ==> Synced()
    {
      if hasOverlay && hasCloseButton { Close(); }
    }

    /** A click that reaches the overlay: it closes only when the overlay itself is
        the target (the dimmed backdrop), not when it bubbles up from the dialog. */
    method OverlayClick(targetIsOverlay: bool)
      modifies this`active, this`bodyOverflow
      ensures hasOverlay && targetIsOverlay ==> !active && bodyOverflow == ""
      ensures !(hasOverlay && targetIsOverlay) ==> active == old(active) && bodyOverflow == old(bodyOverflow)
      ensures old(Synced()) ==> Synced()
    {
      if hasOverlay && targetIsOverlay { Close(); }
    }

    /** A key press anywhere on the document: Escape closes, whatever the state. */
    method KeyDown(key: string)
      modifies this`active, this`bodyOverflow
      ensures hasOverlay && key == "Escape" ==> !active && bodyOverflow == ""
      ensures !(hasOverlay && key == "Escape") ==> active == old(active) && bodyOverflow == old(bodyOverflow)
      ensures old(Synced()) ==> Synced()
    {
      if hasOverlay && key == "Escape" { Close(); }
    }

    /** The auto-open timeout firing: it opens the modal once, on the home page only. */
    method AutoOpenFires()
      modifies this
      ensures !autoOpenPending
      ensures old(autoOpenPending) ==> active && bodyOverflow == "hidden"
      ensures !old(autoOpenPending) ==> active == old(active) && bodyOverflow == old(bodyOverflow)
      ensures old(Synced()) ==> Synced()
    {
      if autoOpenPending {
        autoOpenPending := false;
        Open();
      }
    }
  }
}
