/** The NFC/NDEF reader: a scanner picks the tag's protocol, a poller of that
    protocol reads the UID and, for NFC Forum tags, the first NDEF text
    record, and the main thread's tick hands the result to the application.

    The reader's record of a read (UID, whether text was found, the error
    code and the NUL-terminated text buffer) is filled in by the poller
    callbacks; the handles and the state follow `ReaderControl`. */
module WedgeNfc {
  import opened Bytes
  import opened NfcTypes
  import opened Selector
  import Ndef
  import Type4
  import RC = ReaderControl

  /** The protocols this reader polls. */
  const SUPPORTED: set<Protocol> := {MfUltralight, Iso14443_4a, Iso15693_3, Iso14443_3a}

  /** Byte offset of page 4, where a Type 2 tag's user memory begins. */
  const TYPE2_USER_START: nat := 16
  /** Size of a Type 5 tag's capability container, before its NDEF area. */
  const TYPE5_CC_LEN: nat := 4
  /** First byte of a Type 5 capability container. */
  const TYPE5_CC_MAGIC: byte := 0xE1

  // ---------------------------------------------------------------------------
  // Where the NDEF text of a Type 2 or Type 5 tag comes from

  /** The part of a MIFARE Ultralight (Type 2) tag handed to the TLV parser:
      the pages read after the first four, at most `NDEF_DATA_MAX` bytes. */
  function UltralightArea(pagesRead: nat, pages: seq<byte>): (area: seq<byte>)
    requires pagesRead > 4 && 4 * pagesRead <= |pages|
    ensures TYPE2_USER_START + |area| <= 4 * pagesRead && |area| <= NDEF_DATA_MAX
    ensures area <= pages[TYPE2_USER_START..] && |area| > 0
    ensures 4 * pagesRead <= TYPE2_USER_START + NDEF_DATA_MAX ==> TYPE2_USER_START + |area| == 4 * pagesRead
  {
    pages[TYPE2_USER_START..TYPE2_USER_START + Min(4 * (pagesRead - 4), NDEF_DATA_MAX)]
  }

  /** The text an Ultralight read yields: none unless NDEF was requested and
      more than the four header pages were read. */
  function UltralightText(parseNdef: bool, pagesRead: nat, pages: seq<byte>): (text: seq<byte>)
    requires 4 * pagesRead <= |pages|
    ensures |text| < NDEF_MAX_LEN
    ensures !parseNdef || pagesRead <= 4 ==> text == []
  {
    if parseNdef && pagesRead > 4 then Ndef.TlvNdefText(UltralightArea(pagesRead, pages), NDEF_MAX_LEN) else []
  }

  /** The part of an ISO 15693 (Type 5) tag's blocks handed to the TLV
      parser: what follows a capability container starting with 0xE1, at
      most `NDEF_DATA_MAX` bytes; none without such a container. */
  function Type5Area(blocks: seq<byte>): (area: Option<seq<byte>>)
    ensures area.Some? <==> |blocks| >= TYPE5_CC_LEN && blocks[0] == TYPE5_CC_MAGIC
    ensures area.Some? ==> area.value <= blocks[TYPE5_CC_LEN..] && |area.value| == Min(|blocks| - TYPE5_CC_LEN, NDEF_DATA_MAX)
  {
    if |blocks| >= TYPE5_CC_LEN && blocks[0] == TYPE5_CC_MAGIC then
      Some(blocks[TYPE5_CC_LEN..TYPE5_CC_LEN + Min(|blocks| - TYPE5_CC_LEN, NDEF_DATA_MAX)])
    else None
  }

  /** The text an ISO 15693 read yields: none unless NDEF was requested and
      the poller read the tag's blocks. */
  function Type5Text(parseNdef: bool, blocks: Option<seq<byte>>): (text: seq<byte>)
    ensures |text| < NDEF_MAX_LEN
    ensures !parseNdef || blocks.None? ==> text == []
  {
    if !parseNdef || blocks.None? then []
    else match Type5Area(blocks.value)
      case None => []
      case Some(area) => Ndef.TlvNdefText(area, NDEF_MAX_LEN)
  }

  /** The error a successful poll reports: `NoTextRecord` when NDEF was
      requested, looked for, and no text came of it. */
  function ReadError(parseNdef: bool, lookedFor: bool, text: seq<byte>): (e: NfcError)
    ensures e == NoError || e == NoTextRecord
    ensures e == NoError <==> !parseNdef || !lookedFor || text != []
  {
    if parseNdef && lookedFor && text == [] then NoTextRecord else NoError
  }

  // ---------------------------------------------------------------------------
  // The reader

  class TagReader {
    var state: State
    var scannerLive: bool
    var pollerLive: bool
    var detected: Protocol
    var parseNdef: bool
    /** The record of the last read. */
    var uid: seq<byte>
    var hasNdef: bool
    var error: NfcError
    const ndefText: array<byte>

    function Control(): RC.Control
      reads this
    {
      RC.Control(state, scannerLive, pollerLive, detected)
    }

    /** The control invariant, a UID that fits its buffer, and a text buffer
        that always holds a NUL, so it is a string. */
    predicate Valid()
      reads this, ndefText
    {
      && ndefText.Length == NDEF_MAX_LEN
      && RC.Valid(Control(), SUPPORTED)
      && |uid| <= UID_MAX_LEN
      && 0 in ndefText[..]
    }

    predicate IsScanning()
      reads this
    {
      RC.WedgeIsScanning(Control())
    }

    /** `alloc`: Idle, no handles, no protocol, an all-zero record. */
    constructor()
      ensures Valid() && Control() == RC.Initial && !parseNdef
      ensures uid == [] && !hasNdef && error == NoError
      ensures fresh(ndefText) && forall k :: 0 <= k < ndefText.Length ==> ndefText[k] == 0
    {
      state, scannerLive, pollerLive, detected := Idle, false, false, Invalid;
      parseNdef := false;
      uid, hasNdef, error := [], false, NoError;
      ndefText := new byte[NDEF_MAX_LEN](_ => 0);
      new;
      assert ndefText[..][0] == 0;
    }

    /** `start`: from Idle only. Records whether NDEF text is wanted, clears
        the record, then starts the scanner (allocation may fail). */
    method Start(parse: bool, scannerAllocated: bool)
      requires Valid()
      modifies this, ndefText
      ensures Valid()
      ensures Control() == RC.Start(old(Control()), scannerAllocated)
      ensures old(state) != Idle ==> unchanged(this`parseNdef, this`uid, this`hasNdef, this`error, ndefText)
      ensures old(state) == Idle ==>
                && parseNdef == parse && uid == [] && !hasNdef && error == NoError
                && forall k :: 0 <= k < ndefText.Length ==> ndefText[k] == 0
    {
      if state != Idle {
        return;
      }
      scannerLive, pollerLive := false, false;
      parseNdef := parse;
      detected := Invalid;
      uid, hasNdef, error := [], false, NoError;
      var i := 0;
      while i < ndefText.Length
        modifies ndefText
        invariant 0 <= i <= ndefText.Length
        invariant forall k :: 0 <= k < i ==> ndefText[k] == 0
      {
        ndefText[i] := 0;
        i := i + 1;
      }
      assert ndefText[..][0] == 0;
      if scannerAllocated {
        scannerLive := true;
        state := Scanning;
      }
    }

    /** `stop`: frees both handles and returns to Idle; the record stays. */
    method Stop()
      requires Valid()
      modifies this
      ensures Valid() && Control() == RC.Stop(old(Control()))
      ensures unchanged(this`parseNdef, this`uid, this`hasNdef, this`error)
    {
      pollerLive, scannerLive := false, false;
      state, detected := Idle, Invalid;
    }

    /** The scanner callback: the protocols the tag offers, in the order the
        scanner reports them, and the firmware's parent relation. */
    method OnScannerEvent(ps: seq<Protocol>, parent: Protocol -> Protocol)
      requires Valid() && scannerLive
      modifies this
      ensures Valid()
      ensures Control() == RC.Detect(old(Control()), Selected(ps, WEDGE_TOP, WEDGE_OTHERS, parent, true))
      ensures unchanged(this`parseNdef, this`uid, this`hasNdef, this`error)
    {
      var chosen := SelectProtocol(ps, WEDGE_TOP, WEDGE_OTHERS, parent, true);
      SelectedSupported(ps, WEDGE_TOP, WEDGE_OTHERS, parent, true);
      if chosen != Invalid {
        detected := chosen;
        state := TagDetected;
      }
    }

    /** `tick`, called from the main thread; `read` tells the caller a
        record is ready (the application callback is made then). */
    method Tick(pollerAllocated: bool) returns (read: bool)
      requires Valid()
      modifies this
      ensures Valid()
      ensures (Control(), read) == RC.Tick(old(Control()), pollerAllocated)
      ensures unchanged(this`parseNdef, this`uid, this`hasNdef, this`error)
    {
      match state
      case TagDetected =>
        scannerLive := false;
        if pollerAllocated {
          pollerLive, state := true, Polling;
        } else {
          pollerLive, state := false, Idle;
        }
        read := false;
      case Error =>
        pollerLive := false;
        scannerLive := true;
        state, detected := Scanning, Invalid;
        read := false;
      case Success =>
        pollerLive := false;
        state, detected := Idle, Invalid;
        read := true;
      case _ =>
        read := false;
    }

    /** Starts a record: the clamped UID, no text yet, an empty string. */
    method BeginRecord(tagUid: seq<byte>, e: NfcError)
      requires Valid()
      modifies this`uid, this`hasNdef, this`error, ndefText
      ensures Valid()
      ensures uid == ClampUid(tagUid) && !hasNdef && error == e && ndefText[0] == 0
      ensures forall k :: 0 < k < ndefText.Length ==> ndefText[k] == old(ndefText[k])
    {
      uid := ClampUid(tagUid);
      hasNdef, error := false, e;
      ndefText[0] := 0;
      assert ndefText[..][0] == 0;
    }

    /** The record of a Type 4 tag: its UID, then the NDEF read over `tag`;
        a failed read is an error only when NDEF text was requested. */
    method Type4Record(tagUid: seq<byte>, tag: Type4.Poller)
      requires Valid() && state == Polling
      modifies this`uid, this`hasNdef, this`error, this`state, ndefText, tag
      ensures Valid() && state == Success
      ensures var text := Type4.SessionText(old(tag.replies));
                && uid == ClampUid(tagUid)
                && (hasNdef <==> text != [])
                && error == ReadError(parseNdef, true, text)
                && |text| < ndefText.Length && ndefText[..|text|] == text && ndefText[|text|] == 0
                && (forall k :: |text| < k < ndefText.Length ==> ndefText[k] == old(ndefText[k]))
                && tag.sent == old(tag.sent) + Type4.ReadSession(old(tag.replies)).sent
                && tag.replies == Type4.ReadSession(old(tag.replies)).rest
    {
      BeginRecord(tagUid, NoError);
      var success, e := ReadNdefText(tag);
      hasNdef, error := success, if parseNdef then e else NoError;
      state := Success;
    }

    /** The Type 4 read into the record's text buffer, which starts out as
        an empty string and still holds a NUL afterwards. */
    method ReadNdefText(tag: Type4.Poller) returns (success: bool, e: NfcError)
      requires ndefText.Length == NDEF_MAX_LEN && ndefText[0] == 0
      modifies ndefText, tag
      ensures 0 in ndefText[..]
      ensures var text := Type4.SessionText(old(tag.replies));
                && (success <==> text != [])
                && e == (if success then NoError else NoTextRecord)
                && |text| < ndefText.Length && ndefText[..|text|] == text && ndefText[|text|] == 0
                && (forall k :: |text| < k < ndefText.Length ==> ndefText[k] == old(ndefText[k]))
                && tag.sent == old(tag.sent) + Type4.ReadSession(old(tag.replies)).sent
                && tag.replies == Type4.ReadSession(old(tag.replies)).rest
    {
      ghost var text := Type4.SessionText(tag.replies);
      success, e := Type4.ReadType4Ndef(tag, ndefText);
      if success {
        assert ndefText[..][|text|] == 0;
      } else {
        assert ndefText[..][0] == 0;
      }
    }

    /** The ISO 14443-3A poller callback: a UID only, and with NDEF
        requested the tag is reported as not NFC Forum compliant. */
    method OnIso3aEvent(ev: PollerEvent, data: Option<PollerData>) returns (cmd: PollerCommand)
      requires Valid() && state == Polling
      requires data.Some? ==> data.value.Iso3aData? && WellFormedData(data.value)
      modifies this, ndefText
      ensures Valid() && unchanged(this`scannerLive, this`pollerLive, this`detected, this`parseNdef)
      ensures cmd == if Ends(ev, Iso14443_3a) then PollerCommand.Stop else Continue
      ensures state ==
        if !Ends(ev, Iso14443_3a) then Polling
        else if ev.kind == Ready && data.Some? && |data.value.uid| > 0 then Success
        else Error
      ensures state == Success ==>
                && uid == ClampUid(data.value.uid) && !hasNdef && ndefText[0] == 0
                && error == (if parseNdef then NotForumCompliant else NoError)
                && forall k :: 0 < k < ndefText.Length ==> ndefText[k] == old(ndefText[k])
      ensures state != Success ==> unchanged(this`uid, this`hasNdef, this`error, ndefText)
    {
      cmd := Continue;
      if ev.protocol != Iso14443_3a {
        return;
      }
      if ev.kind == Ready {
        if data.Some? && |data.value.uid| > 0 {
          BeginRecord(data.value.uid, if parseNdef then NotForumCompliant else NoError);
          state := Success;
        } else {
          state := Error;
        }
        cmd := PollerCommand.Stop;
      } else if ev.kind == Failed {
        state := Error;
        cmd := PollerCommand.Stop;
      }
    }

    /** The ISO 14443-4A poller callback: the UID, then always a Type 4 NDEF
        read over `tag`, the ISO-DEP link to the card. Without NDEF requested
        a failed read is no error. A ready tag whose UID is empty stops the
        poll without an outcome, so the reader stays in Polling. */
    method OnIso4aEvent(ev: PollerEvent, data: Option<PollerData>, tag: Type4.Poller) returns (cmd: PollerCommand)
      requires Valid() && state == Polling
      requires data.Some? ==> data.value.Iso4aData? && WellFormedData(data.value)
      modifies this, ndefText, tag
      ensures Valid() && unchanged(this`scannerLive, this`pollerLive, this`detected, this`parseNdef)
      ensures cmd == if Ends(ev, Iso14443_4a) then PollerCommand.Stop else Continue
      ensures state ==
        if !Ends(ev, Iso14443_4a) then Polling
        else if ev.kind == Failed || data.None? || data.value.base.None? then Error
        else if |data.value.base.value| == 0 then Polling
        else Success
      ensures state == Success ==>
                var text := Type4.SessionText(old(tag.replies));
                && uid == ClampUid(data.value.base.value)
                && (hasNdef <==> text != [])
                && error == ReadError(parseNdef, true, text)
                && |text| < ndefText.Length && ndefText[..|text|] == text && ndefText[|text|] == 0
                && (forall k :: |text| < k < ndefText.Length ==> ndefText[k] == old(ndefText[k]))
                && tag.sent == old(tag.sent) + Type4.ReadSession(old(tag.replies)).sent
                && tag.replies == Type4.ReadSession(old(tag.replies)).rest
      ensures state != Success ==> unchanged(this`uid, this`hasNdef, this`error, ndefText, tag)
    {
      cmd := Continue;
      if ev.protocol != Iso14443_4a {
        return;
      }
      if ev.kind == Ready {
        if data.None? || data.value.base.None? {
          state := Error;
        } else if |data.value.base.value| > 0 {
          Type4Record(data.value.base.value, tag);
        }
        cmd := PollerCommand.Stop;
      } else if ev.kind == Failed {
        state := Error;
        cmd := PollerCommand.Stop;
      }
    }

    /** The MIFARE Ultralight poller callback: on a successful read the UID,
        and with NDEF requested the text of the TLV area after page 3. The
        poller's request for a mode is answered with read mode. */
    method OnUltralightEvent(ev: PollerEvent, data: Option<PollerData>) returns (cmd: PollerCommand, readMode: bool)
      requires Valid() && state == Polling
      requires data.Some? ==> data.value.UltralightData? && WellFormedData(data.value)
      modifies this, ndefText
      ensures Valid() && unchanged(this`scannerLive, this`pollerLive, this`detected, this`parseNdef)
      ensures cmd == if Ends(ev, MfUltralight) then PollerCommand.Stop else Continue
      ensures readMode <==> ev == PollerEvent(MfUltralight, RequestMode)
      ensures state ==
        if !Ends(ev, MfUltralight) then Polling
        else if ev.kind == Ready && data.Some? && data.value.ultralightBase.Some? && |data.value.ultralightBase.value| > 0 then Success
        else Error
      ensures state == Success ==>
                var text := UltralightText(parseNdef, data.value.pagesRead, data.value.pages);
                && uid == ClampUid(data.value.ultralightBase.value)
                && (hasNdef <==> text != [])
                && error == ReadError(parseNdef, true, text)
                && ndefText[..|text|] == text && ndefText[|text|] == 0
                && forall k :: |text| < k < ndefText.Length ==> ndefText[k] == old(ndefText[k])
      ensures state != Success ==> unchanged(this`uid, this`hasNdef, this`error, ndefText)
    {
      cmd, readMode := Continue, false;
      if ev.protocol != MfUltralight {
        return;
      }
      if ev.kind == Ready {
        if data.Some? && data.value.ultralightBase.Some? && |data.value.ultralightBase.value| > 0 {
          var d := data.value;
          BeginRecord(d.ultralightBase.value, NoError);
          if parseNdef && d.pagesRead > 4 {
            var n := Ndef.ParseTlvNdefText(UltralightArea(d.pagesRead, d.pages), ndefText);
            hasNdef := n > 0;
            error := if n > 0 then NoError else NoTextRecord;
          } else if parseNdef {
            error := NoTextRecord;
          }
          assert ndefText[..][|UltralightText(parseNdef, d.pagesRead, d.pages)|] == 0;
          state := Success;
        } else {
          state := Error;
        }
        cmd := PollerCommand.Stop;
      } else if ev.kind == Failed {
        state := Error;
        cmd := PollerCommand.Stop;
      } else if ev.kind == RequestMode {
        readMode := true;
      }
    }

    /** The ISO 15693 poller callback: the eight-byte UID, and with NDEF
        requested and the tag's blocks read, the text of the Type 5 NDEF
        area. Blocks that were not read are no error. */
    method OnIso15693Event(ev: PollerEvent, data: Option<PollerData>) returns (cmd: PollerCommand)
      requires Valid() && state == Polling
      requires data.Some? ==> data.value.Iso15693Data? && WellFormedData(data.value)
      modifies this, ndefText
      ensures Valid() && unchanged(this`scannerLive, this`pollerLive, this`detected, this`parseNdef)
      ensures cmd == if Ends(ev, Iso15693_3) then PollerCommand.Stop else Continue
      ensures state ==
        if !Ends(ev, Iso15693_3) then Polling
        else if ev.kind == Ready && data.Some? then Success
        else Error
      ensures state == Success ==>
                var text := Type5Text(parseNdef, data.value.blocks);
                && uid == data.value.uid15
                && (hasNdef <==> text != [])
                && error == ReadError(parseNdef, data.value.blocks.Some?, text)
                && ndefText[..|text|] == text && ndefText[|text|] == 0
                && forall k :: |text| < k < ndefText.Length ==> ndefText[k] == old(ndefText[k])
      ensures state != Success ==> unchanged(this`uid, this`hasNdef, this`error, ndefText)
    {
      cmd := Continue;
      if ev.protocol != Iso15693_3 {
        return;
      }
      if ev.kind == Ready {
        if data.Some? {
          var d := data.value;
          BeginRecord(d.uid15, NoError);
          if parseNdef && d.blocks.Some? {
            var area := Type5Area(d.blocks.value);
            if area.Some? {
              var n := Ndef.ParseTlvNdefText(area.value, ndefText);
              hasNdef := n > 0;
              error := if n > 0 then NoError else NoTextRecord;
            } else {
              error := NoTextRecord;
            }
          }
          assert ndefText[..][|Type5Text(parseNdef, d.blocks)|] == 0;
          state := Success;
        } else {
          state := Error;
        }
        cmd := PollerCommand.Stop;
      } else if ev.kind == Failed {
        state := Error;
        cmd := PollerCommand.Stop;
      }
    }
  }

  // ---------------------------------------------------------------------------
  // Round trips: a tag holding an NDEF message yields the message's text

  /** A Type 2 tag whose user memory, as the reader gathers it from page 4
      on (the pages read, at most the parser's 1024 bytes), holds skippable
      TLV blocks (NULL bytes, Lock or Memory Control TLVs) and then an NDEF
      TLV block wrapping a message, yields the texts of the message's
      records. */
  lemma UltralightRoundTrip(pagesRead: nat, pages: seq<byte>, pad: seq<Ndef.TlvBlock>, rs: seq<Ndef.Record>)
    requires pagesRead > 4 && 4 * pagesRead <= |pages|
    requires Ndef.AllSkippable(pad) && Ndef.AllWellFormed(rs) && rs != [] && |Ndef.EncodeMessage(rs)| < 0x1_0000
    requires Ndef.TlvLayout(UltralightArea(pagesRead, pages), pad, Ndef.EncodeMessage(rs))
    ensures UltralightText(true, pagesRead, pages) == Ndef.Truncate(Ndef.Texts(rs), NDEF_MAX_LEN - 1)
  {
    Ndef.TlvRoundTrip(UltralightArea(pagesRead, pages), pad, rs, NDEF_MAX_LEN);
  }

  /** A Type 5 tag whose blocks hold a capability container starting with
      0xE1 and then, within the parser's 1024 bytes, skippable TLV blocks and
      an NDEF TLV block wrapping a message, yields the texts of the message's
      records. */
  lemma Type5RoundTrip(blocks: seq<byte>, pad: seq<Ndef.TlvBlock>, rs: seq<Ndef.Record>)
    requires Ndef.AllSkippable(pad) && Ndef.AllWellFormed(rs) && rs != [] && |Ndef.EncodeMessage(rs)| < 0x1_0000
    requires |blocks| >= TYPE5_CC_LEN && blocks[0] == TYPE5_CC_MAGIC
    requires Ndef.TlvLayout(Type5Area(blocks).value, pad, Ndef.EncodeMessage(rs))
    ensures Type5Text(true, Some(blocks)) == Ndef.Truncate(Ndef.Texts(rs), NDEF_MAX_LEN - 1)
  {
    Ndef.TlvRoundTrip(Type5Area(blocks).value, pad, rs, NDEF_MAX_LEN);
  }
}
