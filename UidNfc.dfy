/** The UID-only NFC readers of `hid_device_nfc.c` and `hid_reader_nfc.c`: the same
    scanner, poller and tick as the NFC/NDEF reader, but only ISO 14443-3A
    and 14443-4A are polled, for the UID alone, and there is no Error state:
    a poll that fails stops without an outcome and the reader stays in
    Polling until it is stopped. The two readers differ only in whether the
    scanner falls back to the parents of the detected protocols. */
module UidNfc {
  import opened Bytes
  import opened NfcTypes
  import opened Selector
  import RC = ReaderControl

  /** The protocols these readers poll. */
  const UID_SUPPORTED: set<Protocol> := {Iso14443_3a, Iso14443_4a}

  /** Size of the text buffer of the `hid_reader` reader's record. */
  const READER_TEXT_LEN: nat := 256

  class UidReader {
    /** Whether the scanner tries the parents of unsupported protocols. */
    const parentFallback: bool
    var state: State
    var scannerLive: bool
    var pollerLive: bool
    var detected: Protocol
    var parseNdef: bool
    /** The record of the last read; its text is never filled in. */
    var uid: seq<byte>
    var hasNdef: bool
    const ndefText: array<byte>

    function Control(): RC.Control
      reads this
    {
      RC.Control(state, scannerLive, pollerLive, detected)
    }

    /** The control invariant without Error, a UID that fits its buffer, and
        a text buffer that always holds a NUL. */
    predicate Valid()
      reads this, ndefText
    {
      && RC.Valid(Control(), UID_SUPPORTED)
      && state != Error
      && |uid| <= UID_MAX_LEN
      && 0 in ndefText[..]
    }

    predicate IsScanning()
      reads this
    {
      RC.UidIsScanning(Control())
    }

    /** `alloc`: Idle, no handles, no protocol, an all-zero record with a
        text buffer of `textLen` bytes. */
    constructor(parentFallback: bool, textLen: nat)
      requires textLen > 0
      ensures Valid() && Control() == RC.Initial && !parseNdef
      ensures this.parentFallback == parentFallback && uid == [] && !hasNdef
      ensures fresh(ndefText) && ndefText.Length == textLen
      ensures forall k :: 0 <= k < ndefText.Length ==> ndefText[k] == 0
    {
      this.parentFallback := parentFallback;
      state, scannerLive, pollerLive, detected := Idle, false, false, Invalid;
      parseNdef := false;
      uid, hasNdef := [], false;
      ndefText := new byte[textLen](_ => 0);
      new;
      assert ndefText[..][0] == 0;
    }

    /** `start`: from Idle only. Records the NDEF flag (which these readers
        never act on), clears the record, then starts the scanner
        (allocation may fail). */
    method Start(parse: bool, scannerAllocated: bool)
      requires Valid()
      modifies this, ndefText
      ensures Valid()
      ensures Control() == RC.Start(old(Control()), scannerAllocated)
      ensures old(state) != Idle ==> unchanged(this`parseNdef, this`uid, this`hasNdef, ndefText)
      ensures old(state) == Idle ==>
                && parseNdef == parse && uid == [] && !hasNdef
                && forall k :: 0 <= k < ndefText.Length ==> ndefText[k] == 0
    {
      if state != Idle {
        return;
      }
      scannerLive, pollerLive := false, false;
      parseNdef := parse;
      detected := Invalid;
      uid, hasNdef := [], false;
      var i := 0;
      while i < ndefText.Length
        modifies ndefText
        invariant 0 <= i <= ndefText.Length
        invariant forall k :: 0 <= k < i ==> ndefText[k] == 0
      {
        ndefText[i] := 0;
        i := i + 1;
      }
      assert ndefText[..][0] == 0;
      if scannerAllocated {
        scannerLive := true;
        state := Scanning;
      }
    }

    /** `stop`: frees both handles and returns to Idle; the record stays. */
    method Stop()
      requires Valid()
      modifies this
      ensures Valid() && Control() == RC.Stop(old(Control()))
      ensures unchanged(this`parseNdef, this`uid, this`hasNdef)
    {
      pollerLive, scannerLive := false, false;
      state, detected := Idle, Invalid;
    }

    /** The scanner callback: ISO 14443-3A wins, else the first 14443-4A,
        else (with fallback) the same rule over the parents. */
    method OnScannerEvent(ps: seq<Protocol>, parent: Protocol -> Protocol)
      requires Valid() && scannerLive
      modifies this
      ensures Valid()
      ensures Control() == RC.Detect(old(Control()), Selected(ps, UID_TOP, UID_OTHERS, parent, parentFallback))
      ensures unchanged(this`parseNdef, this`uid, this`hasNdef)
    {
      var chosen := SelectProtocol(ps, UID_TOP, UID_OTHERS, parent, parentFallback);
      SelectedSupported(ps, UID_TOP, UID_OTHERS, parent, parentFallback);
      if chosen != Invalid {
        detected := chosen;
        state := TagDetected;
      }
    }

    /** `tick`: TagDetected starts the poller; Success frees it, returns to
        Idle and reports the record; nothing else happens. */
    method Tick(pollerAllocated: bool) returns (read: bool)
      requires Valid()
      modifies this
      ensures Valid()
      ensures (Control(), read) == RC.Tick(old(Control()), pollerAllocated)
      ensures unchanged(this`parseNdef, this`uid, this`hasNdef)
    {
      read := false;
      if state == TagDetected {
        scannerLive := false;
        if pollerAllocated {
          pollerLive, state := true, Polling;
        } else {
          pollerLive, state := false, Idle;
        }
      } else if state == Success {
        pollerLive := false;
        state, detected := Idle, Invalid;
        read := true;
      }
    }

    /** A read that found a UID: the clamped UID, no text, Success. */
    method RecordUid(tagUid: seq<byte>)
      requires Valid() && state == Polling
      modifies this`uid, this`hasNdef, this`state, ndefText
      ensures Valid() && state == Success
      ensures uid == ClampUid(tagUid) && !hasNdef && ndefText[0] == 0
      ensures forall k :: 0 < k < ndefText.Length ==> ndefText[k] == old(ndefText[k])
    {
      uid := ClampUid(tagUid);
      hasNdef := false;
      ndefText[0] := 0;
      assert ndefText[..][0] == 0;
      state := Success;
    }

    /** The ISO 14443-3A poller callback. A ready tag with a UID is a
        success; a ready tag without one, or a failed poll, stops the poll
        and leaves the reader in Polling. */
    method OnIso3aEvent(ev: PollerEvent, data: Option<PollerData>) returns (cmd: PollerCommand)
      requires Valid() && state == Polling
      requires data.Some? ==> data.value.Iso3aData? && WellFormedData(data.value)
      modifies this, ndefText
      ensures Valid() && unchanged(this`scannerLive, this`pollerLive, this`detected, this`parseNdef)
      ensures cmd == if Ends(ev, Iso14443_3a) then PollerCommand.Stop else Continue
      ensures state == if ev == PollerEvent(Iso14443_3a, Ready) && data.Some? && |data.value.uid| > 0 then Success else Polling
      ensures state == Success ==>
                && uid == ClampUid(data.value.uid) && !hasNdef && ndefText[0] == 0
                && forall k :: 0 < k < ndefText.Length ==> ndefText[k] == old(ndefText[k])
      ensures state != Success ==> unchanged(this`uid, this`hasNdef, ndefText)
    {
      cmd := Continue;
      if ev.protocol == Iso14443_3a && ev.kind == Ready {
        if data.Some? && |data.value.uid| > 0 {
          RecordUid(data.value.uid);
        }
        cmd := PollerCommand.Stop;
      } else if ev.protocol == Iso14443_3a && ev.kind == Failed {
        cmd := PollerCommand.Stop;
      }
    }

    /** The ISO 14443-4A poller callback: the UID of the underlying 3A layer
        once the 4A handshake is done; 3A events of the same poller are
        passed over. Failures stop the poll and leave the reader in Polling. */
    method OnIso4aEvent(ev: PollerEvent, data: Option<PollerData>) returns (cmd: PollerCommand)
      requires Valid() && state == Polling
      requires data.Some? ==> data.value.Iso4aData? && WellFormedData(data.value)
      modifies this, ndefText
      ensures Valid() && unchanged(this`scannerLive, this`pollerLive, this`detected, this`parseNdef)
      ensures cmd == if Ends(ev, Iso14443_4a) then PollerCommand.Stop else Continue
      ensures state ==
        if ev == PollerEvent(Iso14443_4a, Ready) && data.Some? && data.value.base.Some? && |data.value.base.value| > 0
        then Success else Polling
      ensures state == Success ==>
                && uid == ClampUid(data.value.base.value) && !hasNdef && ndefText[0] == 0
                && forall k :: 0 < k < ndefText.Length ==> ndefText[k] == old(ndefText[k])
      ensures state != Success ==> unchanged(this`uid, this`hasNdef, ndefText)
    {
      cmd := Continue;
      if ev.protocol == Iso14443_4a && ev.kind == Ready {
        if data.Some? && data.value.base.Some? && |data.value.base.value| > 0 {
          RecordUid(data.value.base.value);
        }
        cmd := PollerCommand.Stop;
      } else if ev.protocol == Iso14443_4a && ev.kind == Failed {
        cmd := PollerCommand.Stop;
      }
    }
  }

  /** The `hid_reader` reader has no parent fallback: a tag that only
      reports protocols built on ISO 14443-3A or 4A (a MIFARE Ultralight,
      say) is never selected. The `hid_device` reader selects its parent. */
  lemma FallbackMatters(parent: Protocol -> Protocol)
    requires parent(MfUltralight) == Iso14443_3a
    ensures Selected([MfUltralight], UID_TOP, UID_OTHERS, parent, false) == Invalid
    ensures Selected([MfUltralight], UID_TOP, UID_OTHERS, parent, true) == Iso14443_3a
  {
    assert Parents([MfUltralight], parent) == [Iso14443_3a];
  }
}
