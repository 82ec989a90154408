/** The camera reader: it picks a camera, accepts the first decoded code that differs
    from the last accepted one, stops, emits the cleaned code, and re-arms the
    duplicate check 3 s later. The decoding library and the devices are outside the
    model: the device list, a start failure and each decoded text are inputs. */
module CameraScanner {
  import opened Common
  import opened Normalizer

  datatype Device = Device(deviceId: string, labelText: string)

  /** After this many milliseconds the remembered code is forgotten. */
  const ReArmMs := 3000

  /** A camera whose label, lower-cased, mentions "back" or "rear". */
  predicate IsBackCamera(d: Device) {
    Includes(ToLower(d.labelText), "back") || Includes(ToLower(d.labelText), "rear")
  }

  /** The index of the first back camera at or after `from`, if any. */
  function FirstBackCamera(devices: seq<Device>, from: nat): (r: Option<nat>)
    requires from <= |devices|
    ensures r.Some? ==> from <= r.value < |devices| && IsBackCamera(devices[r.value])
    ensures r.Some? ==> forall j :: from <= j < r.value ==> !IsBackCamera(devices[j])
    ensures r.None? ==> forall j :: from <= j < |devices| ==> !IsBackCamera(devices[j])
    decreases |devices| - from
  {
    if from == |devices| then None
    else if IsBackCamera(devices[from]) then Some(from)
    else FirstBackCamera(devices, from + 1)
  }

  /** The camera `startScanning` opens: the first back camera, else the first camera. */
  function SelectDevice(devices: seq<Device>): (r: Device)
    requires devices != []
    ensures r in devices
    ensures (exists i :: 0 <= i < |devices| && IsBackCamera(devices[i])) ==> IsBackCamera(r)
    ensures (forall i :: 0 <= i < |devices| ==> !IsBackCamera(devices[i])) ==> r == devices[0]
  {
    match FirstBackCamera(devices, 0)
    case Some(i) => devices[i]
    case None => devices[0]
  }

  class CameraReader {
    /** The decoder object exists (it is created once the widget is mounted). */
    var readerReady: bool
    var disabled: bool
    var isScanning: bool
    var lastScan: string
    var error: Option<string>
    /** The camera being decoded from while scanning. */
    var device: Option<Device>
    /** The pending 3 s resets of `lastScan`; each one empties it when it fires. */
    var lastScanResets: seq<int>

    constructor (disabled: bool)
      ensures this.disabled == disabled && !readerReady && !isScanning && lastScan == ""
      ensures error == None && device == None && lastScanResets == []
    {
      this.disabled := disabled;
      readerReady := false;
      isScanning := false;
      lastScan := "";
      error := None;
      device := None;
      lastScanResets := [];
    }

    /** The mount effect creates the decoder. */
    method Mount()
      modifies this
      ensures readerReady
      ensures disabled == old(disabled) && isScanning == old(isScanning) && lastScan == old(lastScan)
      ensures error == old(error) && device == old(device) && lastScanResets == old(lastScanResets)
    {
      readerReady := true;
    }

    /** `startScanning`, given the cameras found and the failure, if any, of opening the
        chosen one. Without a decoder, or while disabled, nothing happens. */
    method Start(devices: seq<Device>, openFailure: Option<string>)
      modifies this
      ensures readerReady == old(readerReady) && disabled == old(disabled)
      ensures lastScan == old(lastScan) && lastScanResets == old(lastScanResets)
      ensures !old(readerReady) || old(disabled) ==>
                isScanning == old(isScanning) && error == old(error) && device == old(device)
      ensures old(readerReady) && !old(disabled) && devices == [] ==>
                !isScanning && error == Some("No camera found on device") && device == old(device)
      ensures old(readerReady) && !old(disabled) && devices != [] && openFailure.Some? ==>
                !isScanning && device == old(device) &&
                error == Some(if openFailure.value == "" then "Failed to access camera" else openFailure.value)
      ensures old(readerReady) && !old(disabled) && devices != [] && openFailure.None? ==>
                isScanning && error == None && device == Some(SelectDevice(devices))
    {
      if !readerReady || disabled {
        return;
      }
      error := None;
      isScanning := true;
      if devices == [] {
        error := Some("No camera found on device");
        isScanning := false;
        return;
      }
      var chosen := SelectDevice(devices);
      if openFailure.Some? {
        error := Some(if openFailure.value == "" then "Failed to access camera" else openFailure.value);
        isScanning := false;
        return;
      }
      device := Some(chosen);
    }

    /** `stopScanning`: release the camera; scanning is off afterwards. */
    method Stop()
      modifies this
      ensures !isScanning && device == None
      ensures readerReady == old(readerReady) && disabled == old(disabled)
      ensures lastScan == old(lastScan) && error == old(error) && lastScanResets == old(lastScanResets)
    {
      device := None;
      isScanning := false;
    }

    /** The decode callback with a result `text`. While scanning, a text other than the
        remembered code is accepted: its cleaned form is remembered and emitted once,
        scanning stops, and the remembered code is forgotten 3 s later. The comparison
        is between the raw text and the cleaned code. */
    method Decode(text: string, now: int) returns (emitted: Option<string>)
      modifies this
      ensures readerReady == old(readerReady) && disabled == old(disabled) && error == old(error)
      ensures !(old(isScanning) && text != old(lastScan)) ==>
                emitted == None && isScanning == old(isScanning) && lastScan == old(lastScan) &&
                device == old(device) && lastScanResets == old(lastScanResets)
      ensures old(isScanning) && text != old(lastScan) ==>
                emitted == Some(CleanCamera(text)) && lastScan == CleanCamera(text) &&
                !isScanning && device == None && lastScanResets == old(lastScanResets) + [now + ReArmMs]
      // at most one code per session: after an acceptance nothing more is accepted until Start
      ensures emitted.Some? ==> !isScanning
    {
      if isScanning && text != lastScan {
        var code := CleanCamera(text);
        lastScan := code;
        Stop();
        emitted := Some(code);
        lastScanResets := lastScanResets + [now + ReArmMs];
      } else {
        emitted := None;
      }
    }

    /** Time passes: any due reset empties the remembered code. */
    method Tick(now: int)
      modifies this
      ensures (exists d :: d in old(lastScanResets) && d <= now) ==> lastScan == ""
      ensures !(exists d :: d in old(lastScanResets) && d <= now) ==> lastScan == old(lastScan)
      ensures lastScanResets == Pending(old(lastScanResets), now)
      ensures readerReady == old(readerReady) && disabled == old(disabled) && isScanning == old(isScanning)
      ensures error == old(error) && device == old(device)
    {
      if exists d :: d in lastScanResets && d <= now {
        lastScan := "";
      }
      lastScanResets := Pending(lastScanResets, now);
    }
  }

  /** A code printed with leading zeros is remembered without them, so the very same
      padded text read again differs from the remembered code and is accepted again,
      while the unpadded text is suppressed. */
  lemma PaddedRescanNotSuppressed(k: nat, code: string)
    requires k > 0
    requires code != [] && code[0] != '0' && !IsJsWhitespace(code[|code| - 1])
    ensures CleanCamera(Zeros(k) + code) == code
    ensures Zeros(k) + code != CleanCamera(Zeros(k) + code)
    ensures code == CleanCamera(code) || IsJsWhitespace(code[0])
  {
    var raw := Zeros(k) + code;
    PaddedIsTrimmed(k, code);
    StripPadding(k, code);
    assert |raw| == k + |code|;
    if !IsJsWhitespace(code[0]) {
      assert Trim(code) == code;
      assert StripLeadingZeros(code) == code;
    }
  }
}
