/** The scanner widget: a USB barcode reader types its code as a fast burst of
    keypresses followed by Enter; the widget collects the burst in a buffer, forgets
    it after 100 ms without a key, and hands the cleaned code to its owner. A typed
    entry and the camera reader are the two other ways in. Timers are explicit:
    each one is a deadline in milliseconds, and `Tick(now)` fires those that are due. */
module UsbScanner {
  import opened Common
  import opened Normalizer

  /** Where a keypress event was aimed. */
  datatype KeyTarget = Page | OwnHiddenInput | OtherInput | TextArea

  /** The milliseconds of silence after which the buffer is dropped. */
  const IdleClearMs := 100
  /** How long the "scanned" indicator stays on. */
  const IndicatorMs := 2000

  class BarcodeScanner {
    var disabled: bool
    var manualInput: string
    var buffer: string
    /** The pending 100 ms clear of the buffer, if any. */
    var clearAt: Option<int>
    var scanning: bool
    /** The pending 2 s resets of `scanning`; each one switches it off when it fires. */
    var scanningResets: seq<int>

    constructor (disabled: bool)
      ensures this.disabled == disabled && manualInput == "" && buffer == "" && clearAt == None
      ensures !scanning && scanningResets == []
    {
      this.disabled := disabled;
      manualInput := "";
      buffer := "";
      clearAt := None;
      scanning := false;
      scanningResets := [];
    }

    /** The owner enables or disables the widget. */
    method SetDisabled(d: bool)
      modifies this
      ensures disabled == d
      ensures manualInput == old(manualInput) && buffer == old(buffer) && clearAt == old(clearAt)
      ensures scanning == old(scanning) && scanningResets == old(scanningResets)
    {
      disabled := d;
    }

    /** The window keypress handler. `key` is the event's key name (a single
        character, or a name such as `"Enter"` or `"Shift"`); `emitted` is what is
        passed to the owner's `onScan`. */
    method KeyPress(key: string, target: KeyTarget, now: int) returns (emitted: Option<string>)
      modifies this
      ensures disabled == old(disabled) && manualInput == old(manualInput)
      // a disabled widget, or a key typed into another field, changes nothing
      ensures (old(disabled) || target == OtherInput || target == TextArea) ==>
                emitted == None && buffer == old(buffer) && clearAt == old(clearAt) &&
                scanning == old(scanning) && scanningResets == old(scanningResets)
      // Enter after a burst emits the cleaned burst once and empties the buffer
      ensures !old(disabled) && target != OtherInput && target != TextArea &&
              key == "Enter" && old(buffer) != [] ==>
                emitted == Some(CleanUsb(old(buffer))) && buffer == "" && clearAt == old(clearAt) &&
                scanning && scanningResets == old(scanningResets) + [now + IndicatorMs]
      // other key names longer than one character are ignored
      ensures !old(disabled) && target != OtherInput && target != TextArea &&
              |key| > 1 && key != "Enter" ==>
                emitted == None && buffer == old(buffer) && clearAt == old(clearAt) &&
                scanning == old(scanning) && scanningResets == old(scanningResets)
      // anything else, Enter on an empty buffer included, is appended by name
      ensures !old(disabled) && target != OtherInput && target != TextArea &&
              (|key| <= 1 || (key == "Enter" && old(buffer) == [])) ==>
                emitted == None && buffer == old(buffer) + key && clearAt == Some(now + IdleClearMs) &&
                scanning == old(scanning) && scanningResets == old(scanningResets)
    {
      emitted := None;
      if disabled {
        return;
      }
      if target == OtherInput || target == TextArea {
        return;
      }
      if key == "Enter" && |buffer| > 0 {
        emitted := UsbScan(buffer, now);
        buffer := "";
        return;
      }
      if |key| > 1 && key != "Enter" {
        return;
      }
      buffer := buffer + key;
      clearAt := Some(now + IdleClearMs);
    }

    /** `handleUsbScan`: clean the burst, switch the indicator on and emit. */
    method UsbScan(barcode: string, now: int) returns (emitted: Option<string>)
      modifies this
      ensures emitted == Some(CleanUsb(barcode))
      ensures scanning && scanningResets == old(scanningResets) + [now + IndicatorMs]
      ensures disabled == old(disabled) && manualInput == old(manualInput)
      ensures buffer == old(buffer) && clearAt == old(clearAt)
    {
      scanning := true;
      emitted := Some(CleanUsb(barcode));
      scanningResets := scanningResets + [now + IndicatorMs];
    }

    /** Time passes: the idle clear of the buffer and the indicator resets that are due fire. */
    method Tick(now: int)
      modifies this
      ensures old(clearAt).Some? && old(clearAt).value <= now ==> buffer == "" && clearAt == None
      ensures !(old(clearAt).Some? && old(clearAt).value <= now) ==>
                buffer == old(buffer) && clearAt == old(clearAt)
      ensures scanningResets == Pending(old(scanningResets), now)
      ensures scanning == (old(scanning) && forall d :: d in old(scanningResets) ==> d > now)
      ensures disabled == old(disabled) && manualInput == old(manualInput)
    {
      if clearAt.Some? && clearAt.value <= now {
        buffer := "";
        clearAt := None;
      }
      if exists d :: d in scanningResets && d <= now {
        scanning := false;
      }
      scanningResets := Pending(scanningResets, now);
    }

    /** Typing into the manual entry field. */
    method SetManualInput(value: string)
      modifies this
      ensures manualInput == value
      ensures disabled == old(disabled) && buffer == old(buffer) && clearAt == old(clearAt)
      ensures scanning == old(scanning) && scanningResets == old(scanningResets)
    {
      manualInput := value;
    }

    /** `handleManualSubmit`: the typed text is emitted exactly as typed, with no
        cleaning, and the field is emptied; an empty field or a disabled widget does
        nothing. */
    method ManualSubmit(now: int) returns (emitted: Option<string>)
      modifies this
      ensures old(manualInput) == "" || old(disabled) ==>
                emitted == None && manualInput == old(manualInput) &&
                scanning == old(scanning) && scanningResets == old(scanningResets)
      ensures old(manualInput) != "" && !old(disabled) ==>
                emitted == Some(old(manualInput)) && manualInput == "" &&
                scanning && scanningResets == old(scanningResets) + [now + IndicatorMs]
      ensures disabled == old(disabled) && buffer == old(buffer) && clearAt == old(clearAt)
    {
      if manualInput == "" || disabled {
        return None;
      }
      scanning := true;
      emitted := Some(manualInput);
      manualInput := "";
      scanningResets := scanningResets + [now + IndicatorMs];
    }

    /** `handleCameraScan`: the camera reader's code, already cleaned by the reader,
        is passed on as it is. */
    method CameraScan(code: string, now: int) returns (emitted: Option<string>)
      modifies this
      ensures emitted == Some(code)
      ensures scanning && scanningResets == old(scanningResets) + [now + IndicatorMs]
      ensures disabled == old(disabled) && manualInput == old(manualInput)
      ensures buffer == old(buffer) && clearAt == old(clearAt)
    {
      scanning := true;
      emitted := Some(code);
      scanningResets := scanningResets + [now + IndicatorMs];
    }
  }

  // ---------------------------------------------------------------------------
  // The buffer's idle clear as the component is written

  /** The buffer and its pending clear, as the component holds them. */
  datatype BufferState = BufferState(buffer: string, clearAt: Option<int>)

  /** A character appended as written: the handler schedules the 100 ms clear, but the
      buffer change re-runs the effect that installed the handler, and that effect's
      clean-up cancels the timer it just scheduled; no new timer replaces it. */
  function AppendAsWritten(st: BufferState, key: string, now: int): (r: BufferState)
    ensures r.buffer == st.buffer + key
    ensures r.clearAt == None
  {
    var scheduled := BufferState(st.buffer + key, Some(now + IdleClearMs));
    var cancelledOnRerender := scheduled.(clearAt := None);
    cancelledOnRerender
  }

  /** The idle clear fires only if it is still pending and due. */
  function TickBuffer(st: BufferState, now: int): (r: BufferState)
    ensures st.clearAt.Some? && st.clearAt.value <= now ==> r == BufferState("", None)
    ensures !(st.clearAt.Some? && st.clearAt.value <= now) ==> r == st
  {
    if st.clearAt.Some? && st.clearAt.value <= now then BufferState("", None) else st
  }

  /** As written, a keystroke typed by hand stays in the buffer however long the page
      stays quiet afterwards, so the next scan's code is appended to it. */
  lemma IdleClearNeverFiresAsWritten(st: BufferState, key: string, now: int, later: int)
    requires later >= now + IdleClearMs
    ensures TickBuffer(AppendAsWritten(st, key, now), later).buffer == st.buffer + key
  {
  }

  /** The intended behaviour, which `BarcodeScanner.KeyPress` and `BarcodeScanner.Tick`
      implement: after an append, a tick 100 ms later or more empties the buffer. */
  lemma IdleClearFires(st: BufferState, key: string, now: int, later: int)
    requires later >= now + IdleClearMs
    ensures TickBuffer(BufferState(st.buffer + key, Some(now + IdleClearMs)), later).buffer == ""
  {
  }
}
