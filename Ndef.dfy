/** NDEF text extraction. A tag's NDEF message is a run of records; the Text
    records among them (TNF 1, type "T") carry a status byte whose low six bits
    give the length of a language code, followed by the text itself. Two entry
    points share one record loop: the raw parser (Type 4 tags, whose NDEF file
    holds the message directly, honouring the Message End flag) and the TLV
    parser (Type 2 and Type 5 tags, whose memory wraps the message in a TLV
    block of type 0x03, walked without regard to Message End). */
module Ndef {
  import opened Bytes

  const FLAG_MESSAGE_END: byte := 0x40
  const FLAG_SHORT_RECORD: byte := 0x10
  const FLAG_ID_LENGTH: byte := 0x08
  const TNF_WELL_KNOWN: byte := 0x01
  const TYPE_TEXT: byte := 0x54

  const TLV_NULL: byte := 0x00
  const TLV_NDEF: byte := 0x03
  const TLV_TERMINATOR: byte := 0xFE
  const TLV_LONG_LENGTH: byte := 0xFF

  predicate MessageEnd(header: byte) { (header / 0x40) % 2 == 1 }
  predicate ShortRecord(header: byte) { (header / 0x10) % 2 == 1 }
  predicate IdLengthPresent(header: byte) { (header / 0x08) % 2 == 1 }
  function Tnf(header: byte): byte { header % 8 }

  /** One NDEF record as found in the buffer. */
  datatype Record = Record(header: byte, recordType: seq<byte>, id: seq<byte>, payload: seq<byte>)

  /** The header fields of a record: its flags and TNF, the type, ID and
      payload lengths, and where the type starts. */
  datatype Lengths = Lengths(header: byte, typeLen: byte, idLen: byte, payloadLen: nat, typeStart: nat)

  /** Reads the header fields of the record starting at `pos`, performing the
      bounds checks of the record loop in order; `None` where the loop breaks
      off. */
  function ReadLengths(data: seq<byte>, pos: nat): (r: Option<Lengths>)
    ensures r.Some? ==> pos + 3 <= r.value.typeStart <= |data| && r.value.payloadLen < SIZE_T_MODULUS
  {
    if pos >= |data| || pos + 1 >= |data| || pos + 2 >= |data| then None
    else
      var header := data[pos];
      var short := ShortRecord(header);
      if !short && pos + 2 + 4 > |data| then None
      else
        var payloadLen: nat := if short then data[pos + 2] else BeValue(data[pos + 2..pos + 6]);
        var afterLen := if short then pos + 3 else pos + 6;
        if IdLengthPresent(header) && afterLen >= |data| then None
        else
          var idLen: byte := if IdLengthPresent(header) then data[afterLen] else 0;
          var typeStart := if IdLengthPresent(header) then afterLen + 1 else afterLen;
          Pow256Of4();
          Some(Lengths(header, data[pos + 1], idLen, payloadLen, typeStart))
  }

  /** Decodes the record starting at `pos`, performing the bounds checks of the
      record loop in order; `None` where the loop breaks off. On success also
      returns the position just past the payload. */
  function ReadRecord(data: seq<byte>, pos: nat): (r: Option<(Record, nat)>)
    ensures r.Some? ==> pos + 3 <= r.value.1 <= |data|
  {
    match ReadLengths(data, pos)
    case None => None
    case Some(l) =>
      var idStart := l.typeStart + l.typeLen;
      var payloadStart := idStart + l.idLen;
      var next := payloadStart + l.payloadLen;
      if idStart > |data| || payloadStart > |data| || next > |data| then None
      else
        Some((Record(l.header, data[l.typeStart..idStart], data[idStart..payloadStart],
                     data[payloadStart..next]), next))
  }

  /** The text of a record: for a Text record whose payload holds more than the
      status byte and at least the announced language code, the bytes after
      the language code; otherwise nothing. */
  function TextOf(r: Record): (text: seq<byte>)
    ensures text == [] || (|text| < |r.payload| && text == r.payload[|r.payload| - |text|..])
  {
    if Tnf(r.header) == TNF_WELL_KNOWN && r.recordType == [TYPE_TEXT] && |r.payload| > 1 then
      var langLen := r.payload[0] % 64;
      if langLen + 1 <= |r.payload| then r.payload[1 + langLen..] else []
    else []
  }

  /** The text of every record from `pos` on, while `pos` stays below `end`
      and the buffer, stopping at the first record that does not decode and,
      when `honourEnd` holds, after the record flagged Message End. */
  function Walk(data: seq<byte>, pos: nat, end: nat, honourEnd: bool): seq<byte>
    decreases |data| - pos, 1
  {
    if pos >= end || pos >= |data| then [] else WalkRecord(data, pos, end, honourEnd)
  }

  /** `Walk` at a position where the loop reads a record. */
  function WalkRecord(data: seq<byte>, pos: nat, end: nat, honourEnd: bool): seq<byte>
    requires pos < |data|
    decreases |data| - pos, 0
  {
    match ReadRecord(data, pos)
    case None => []
    case Some((r, next)) =>
      TextOf(r) + (if honourEnd && MessageEnd(r.header) then [] else Walk(data, next, end, honourEnd))
  }

  /** The first `n` bytes of `s`, or all of it. */
  function Truncate(s: seq<byte>, n: nat): (t: seq<byte>)
    ensures |t| == Min(|s|, n) && t <= s
  {
    s[..Min(|s|, n)]
  }

  /** What the raw parser leaves in a buffer of `max` bytes: nothing for an
      input under four bytes, else the text of the message truncated to leave
      room for the terminator. */
  function RawNdefText(data: seq<byte>, max: nat): seq<byte>
  {
    if |data| < 4 || max == 0 then [] else Truncate(Walk(data, 0, |data|, true), max - 1)
  }

  /** Scans the TLV blocks from `pos` for the NDEF message TLV: skips NULL
      bytes, stops at the terminator, reads one- or three-byte lengths and
      skips every other block (including an NDEF block that is empty or runs
      past the buffer). Returns the bounds of the message. */
  function FindNdefTlv(data: seq<byte>, pos: nat): (r: Option<(nat, nat)>)
    ensures r.Some? ==> pos < r.value.0 < r.value.1 <= |data|
    decreases |data| - pos
  {
    if pos + 1 >= |data| then None
    else
      var tlvType := data[pos];
      if tlvType == TLV_NULL then FindNdefTlv(data, pos + 1)
      else if tlvType == TLV_TERMINATOR then None
      else
        var shortLen := data[pos + 1];
        if shortLen == TLV_LONG_LENGTH && pos + 4 > |data| then None
        else
          var len: int := if shortLen == TLV_LONG_LENGTH then Be16(data[pos + 2], data[pos + 3]) else shortLen;
          var start := if shortLen == TLV_LONG_LENGTH then pos + 4 else pos + 2;
          if tlvType == TLV_NDEF && len > 0 && start + len <= |data| then Some((start, start + len))
          else FindNdefTlv(data, start + len)
  }

  /** What the TLV parser leaves in a buffer of `max` bytes. */
  function TlvNdefText(data: seq<byte>, max: nat): seq<byte>
  {
    if |data| < 4 || max == 0 then []
    else match FindNdefTlv(data, 0)
      case None => []
      case Some((start, end)) => Truncate(Walk(data, start, end, false), max - 1)
  }

  // ---------------------------------------------------------------------------
  // The parsers

  /** The record loop both parsers run: walks the records from `start`,
      appending each record's text to `output` while it fits, keeping the last
      byte free for the terminator. Returns the number of bytes written. */
  method WalkRecords(data: seq<byte>, start: nat, end: nat, honourEnd: bool, output: array<byte>)
    returns (outPos: nat)
    requires output.Length > 0
    modifies output
    ensures outPos < output.Length
    ensures output[..outPos] == Truncate(Walk(data, start, end, honourEnd), output.Length - 1)
    ensures forall k :: outPos <= k < output.Length ==> output[k] == old(output[k])
  {
    var max := output.Length;
    outPos := 0;
    var pos := start;
    var stop := false;
    // The text of every record, and the text of the records walked so far.
    ghost var total := Walk(data, start, end, honourEnd);
    ghost var done: seq<byte> := [];
    while !stop && pos < end && pos < |data|
      invariant total == done + Remaining(data, pos, end, honourEnd, stop)
      invariant outPos == Min(|done|, max - 1)
      invariant output[..outPos] == done[..outPos]
      invariant forall k :: outPos <= k < max ==> output[k] == old(output[k])
      decreases |data| - pos, if stop then 0 else 1
    {
      ghost var text;
      pos, outPos, stop, text := RecordStep(data, pos, end, honourEnd, output, outPos, done);
      ConcatAssoc(done, text, Remaining(data, pos, end, honourEnd, stop));
      done := done + text;
    }
    if !stop {
      WalkStops(data, pos, end, honourEnd);
    }
    assert Truncate(done, max - 1) == done[..outPos];
  }

  /** The text the record loop has still to produce from `pos`. */
  function Remaining(data: seq<byte>, pos: nat, end: nat, honourEnd: bool, stop: bool): seq<byte>
  {
    if stop then [] else Walk(data, pos, end, honourEnd)
  }

  /** One pass of the record loop at `pos`: decodes the record, copies its
      text (returned in `text`) after `done`, and says whether the loop stops
      (a record that does not decode, or Message End when it is honoured). */
  method RecordStep(data: seq<byte>, pos: nat, end: nat, honourEnd: bool,
                    output: array<byte>, outPos: nat, ghost done: seq<byte>)
    returns (pos': nat, outPos': nat, stop: bool, ghost text: seq<byte>)
    requires pos < end && pos < |data|
    requires outPos == Min(|done|, output.Length - 1) && output[..outPos] == done[..outPos]
    modifies output
    ensures pos <= pos' <= |data| && (!stop ==> pos < pos')
    ensures Walk(data, pos, end, honourEnd) == text + Remaining(data, pos', end, honourEnd, stop)
    ensures outPos <= outPos' == Min(|done + text|, output.Length - 1)
    ensures output[..outPos'] == (done + text)[..outPos']
    ensures forall k :: outPos' <= k < output.Length ==> output[k] == old(output[k])
  {
    var decoded := ReadRecord(data, pos);
    if decoded.None? {
      return pos, outPos, true, [];
    }
    var (r, next) := decoded.value;
    WalkStep(data, pos, end, honourEnd, r, next);
    var recordText := TextOf(r);
    outPos' := CopyClamped(output, outPos, recordText, done);
    text := recordText;
    pos' := next;
    stop := honourEnd && MessageEnd(r.header);
  }

  lemma ConcatAssoc(a: seq<byte>, b: seq<byte>, c: seq<byte>)
    ensures (a + b) + c == a + (b + c)
  {
  }

  lemma WalkStep(data: seq<byte>, pos: nat, end: nat, honourEnd: bool, r: Record, next: nat)
    requires pos < end && pos < |data| && ReadRecord(data, pos) == Some((r, next))
    ensures Walk(data, pos, end, honourEnd)
         == TextOf(r) + (if honourEnd && MessageEnd(r.header) then [] else Walk(data, next, end, honourEnd))
  {
  }

  lemma WalkStops(data: seq<byte>, pos: nat, end: nat, honourEnd: bool)
    requires pos >= end || pos >= |data|
    ensures Walk(data, pos, end, honourEnd) == []
  {
  }

  /** Appends as much of `text` at `outPos` as fits before the last byte of
      `output`. `done` is everything the caller has offered so far. */
  method CopyClamped(output: array<byte>, outPos: nat, text: seq<byte>, ghost done: seq<byte>)
    returns (outPos': nat)
    requires outPos == Min(|done|, output.Length - 1)
    requires output[..outPos] == done[..outPos]
    modifies output
    ensures outPos <= outPos' == Min(|done + text|, output.Length - 1)
    ensures output[..outPos'] == (done + text)[..outPos']
    ensures forall k :: outPos' <= k < output.Length ==> output[k] == old(output[k])
  {
    var copyLen := |text|;
    if outPos + copyLen >= output.Length {
      copyLen := output.Length - outPos - 1;
    }
    outPos' := outPos;
    if copyLen > 0 {
      forall k | 0 <= k < copyLen {
        output[outPos + k] := text[k];
      }
      assert output[..outPos + copyLen] == output[..outPos] + text[..copyLen];
      assert (done + text)[..outPos + copyLen] == done[..outPos] + text[..copyLen];
      outPos' := outPos + copyLen;
    }
  }

  /** Parses a raw NDEF message (a Type 4 NDEF file) into `output`, returning
      the number of text bytes written. An input under four bytes, or an empty
      buffer, leaves `output` untouched. */
  method ParseRawNdefText(data: seq<byte>, output: array<byte>) returns (n: nat)
    modifies output
    ensures n == |RawNdefText(data, output.Length)|
    ensures |data| >= 4 && output.Length > 0 ==>
      n < output.Length && output[..n] == RawNdefText(data, output.Length) && output[n] == 0
    ensures forall k :: n < k < output.Length ==> output[k] == old(output[k])
    ensures |data| < 4 ==> output[..] == old(output[..])
  {
    if |data| < 4 || output.Length == 0 {
      return 0;
    }
    n := WalkRecords(data, 0, |data|, true, output);
    output[n] := 0;
  }

  /** Finds the NDEF message TLV and parses its records into `output`,
      returning the number of text bytes written. */
  method ParseTlvNdefText(data: seq<byte>, output: array<byte>) returns (n: nat)
    modifies output
    ensures n == |TlvNdefText(data, output.Length)|
    ensures |data| >= 4 && output.Length > 0 ==>
      n < output.Length && output[..n] == TlvNdefText(data, output.Length) && output[n] == 0
    ensures forall k :: n < k < output.Length ==> output[k] == old(output[k])
    ensures |data| < 4 ==> output[..] == old(output[..])
  {
    if |data| < 4 || output.Length == 0 {
      return 0;
    }
    n := 0;
    var pos := 0;
    var stop := false;
    var found: Option<(nat, nat)> := None;
    while !stop && pos < |data| - 1
      invariant FindNdefTlv(data, 0) == (if stop then found else FindNdefTlv(data, pos))
      invariant !stop ==> found.None?
      invariant output[..] == old(output[..])
      decreases |data| - pos, if stop then 0 else 1
    {
      pos, stop, found := TlvStep(data, pos);
    }
    if !stop {
      FindStops(data, pos);
    }
    assert found == FindNdefTlv(data, 0);
    if found.Some? {
      // The record loop runs over the NDEF message, after which the scan ends.
      n := WalkRecords(data, found.value.0, found.value.1, false, output);
    }
    output[n] := 0;
  }

  lemma FindStops(data: seq<byte>, pos: nat)
    requires pos + 1 >= |data|
    ensures FindNdefTlv(data, pos) == None
  {
  }

  /** One pass of the TLV scan at `pos`: reads a block's type and length and
      either stops (terminator, truncated long length, or the NDEF block,
      reported in `found`) or moves to the next block. The read of the length
      byte is always in bounds here, as the loop runs only while a byte
      follows `pos`. */
  method TlvStep(data: seq<byte>, pos: nat) returns (pos': nat, stop: bool, found: Option<(nat, nat)>)
    requires pos + 1 < |data|
    ensures pos < pos' && (!stop ==> found.None?)
    ensures FindNdefTlv(data, pos) == (if stop then found else FindNdefTlv(data, pos'))
  {
    var tlvType := data[pos];
    pos' := pos + 1;
    stop, found := false, None;
    if tlvType == TLV_NULL {
      return;
    }
    if tlvType == TLV_TERMINATOR {
      stop := true;
      return;
    }
    var tlvLen: int := data[pos'];
    pos' := pos' + 1;
    if tlvLen == TLV_LONG_LENGTH as int {
      if pos' + 2 > |data| {
        stop := true;
        return;
      }
      tlvLen := Be16(data[pos'], data[pos' + 1]);
      pos' := pos' + 2;
    }
    if tlvType == TLV_NDEF && tlvLen > 0 && pos' + tlvLen <= |data| {
      stop, found := true, Some((pos', pos' + tlvLen));
      return;
    }
    pos' := pos' + tlvLen;
  }

  // ---------------------------------------------------------------------------
  // Encoding: the records and TLV blocks a tag holds, and the round trips

  /** A record that the encoder below can lay out: lengths fit their fields,
      a short record has a payload under 256 bytes, and a record without the
      IL flag has no ID. */
  predicate WellFormed(r: Record)
  {
    |r.recordType| < 0x100 && |r.id| < 0x100 && |r.payload| < SIZE_T_MODULUS
    && (ShortRecord(r.header) ==> |r.payload| < 0x100)
    && (!IdLengthPresent(r.header) ==> r.id == [])
  }

  /** Header byte, type length, payload length (one byte or four big-endian
      bytes) and the optional ID length. */
  function EncodeHeader(r: Record): (h: seq<byte>)
    requires WellFormed(r)
    ensures |h| == 2 + (if ShortRecord(r.header) then 1 else 4) + (if IdLengthPresent(r.header) then 1 else 0)
  {
    [r.header, |r.recordType|]
    + (if ShortRecord(r.header) then [|r.payload|] else BeBytes(|r.payload|, 4))
    + (if IdLengthPresent(r.header) then [|r.id|] else [])
  }

  function EncodeRecord(r: Record): (e: seq<byte>)
    requires WellFormed(r)
    ensures |e| >= 3
  {
    EncodeHeader(r) + r.recordType + r.id + r.payload
  }

  /** Decoding the bytes of a well-formed record, wherever they sit in the
      buffer, gives back the record and the position just past it. */
  lemma ReadEncodedRecord(data: seq<byte>, pos: nat, r: Record)
    requires WellFormed(r)
    requires pos + |EncodeRecord(r)| <= |data| && data[pos..pos + |EncodeRecord(r)|] == EncodeRecord(r)
    ensures ReadRecord(data, pos) == Some((r, pos + |EncodeRecord(r)|))
  {
    var typeStart := pos + |EncodeHeader(r)|;
    var idStart := typeStart + |r.recordType|;
    var payloadStart := idStart + |r.id|;
    EncodedFields(data, pos, r, typeStart, idStart, payloadStart);
    ReadFields(data, pos, typeStart, idStart, payloadStart, pos + |EncodeRecord(r)|, r);
  }

  /** The fields a buffer holding the encoding of `r` at `pos` presents. */
  lemma EncodedFields(data: seq<byte>, pos: nat, r: Record, typeStart: nat, idStart: nat, payloadStart: nat)
    requires WellFormed(r)
    requires pos + |EncodeRecord(r)| <= |data| && data[pos..pos + |EncodeRecord(r)|] == EncodeRecord(r)
    requires typeStart == pos + |EncodeHeader(r)|
    requires idStart == typeStart + |r.recordType| && payloadStart == idStart + |r.id|
    ensures data[pos] == r.header && data[pos + 1] == |r.recordType|
    ensures ShortRecord(r.header) ==> data[pos + 2] == |r.payload|
    ensures !ShortRecord(r.header) ==> BeValue(data[pos + 2..pos + 6]) == |r.payload|
    ensures IdLengthPresent(r.header) ==> data[typeStart - 1] == |r.id|
    ensures data[typeStart..idStart] == r.recordType
    ensures data[idStart..payloadStart] == r.id
    ensures data[payloadStart..pos + |EncodeRecord(r)|] == r.payload
  {
    EncodedBody(data, pos, r, typeStart, idStart, payloadStart);
    EncodedHeader(data, pos, r, typeStart);
  }

  lemma EncodedBody(data: seq<byte>, pos: nat, r: Record, typeStart: nat, idStart: nat, payloadStart: nat)
    requires WellFormed(r)
    requires pos + |EncodeRecord(r)| <= |data| && data[pos..pos + |EncodeRecord(r)|] == EncodeRecord(r)
    requires typeStart == pos + |EncodeHeader(r)|
    requires idStart == typeStart + |r.recordType| && payloadStart == idStart + |r.id|
    ensures data[typeStart..idStart] == r.recordType
    ensures data[idStart..payloadStart] == r.id
    ensures data[payloadStart..pos + |EncodeRecord(r)|] == r.payload
  {
    var e := EncodeRecord(r);
    var next := pos + |e|;
    assert e[typeStart - pos..idStart - pos] == r.recordType;
    SubSlice(data, pos, e, typeStart, idStart);
    assert e[idStart - pos..payloadStart - pos] == r.id;
    SubSlice(data, pos, e, idStart, payloadStart);
    assert e[payloadStart - pos..next - pos] == r.payload;
    SubSlice(data, pos, e, payloadStart, next);
  }

  lemma EncodedHeader(data: seq<byte>, pos: nat, r: Record, typeStart: nat)
    requires WellFormed(r)
    requires pos + |EncodeRecord(r)| <= |data| && data[pos..pos + |EncodeRecord(r)|] == EncodeRecord(r)
    requires typeStart == pos + |EncodeHeader(r)|
    ensures data[pos] == r.header && data[pos + 1] == |r.recordType|
    ensures ShortRecord(r.header) ==> data[pos + 2] == |r.payload|
    ensures !ShortRecord(r.header) ==> BeValue(data[pos + 2..pos + 6]) == |r.payload|
    ensures IdLengthPresent(r.header) ==> data[typeStart - 1] == |r.id|
  {
    var e := EncodeRecord(r);
    var h := EncodeHeader(r);
    assert e[..|h|] == h;
    SubSlice(data, pos, e, pos, typeStart);
    var hd := data[pos..typeStart];
    HeaderFields(hd, r);
    if !ShortRecord(r.header) {
      SubSlice(data, pos, hd, pos + 2, pos + 6);
    }
  }

  /** `ReadRecord` on a buffer whose bytes at `pos` hold the fields of `r`:
      the header up to `typeStart`, then the type, ID and payload. */
  lemma ReadFields(data: seq<byte>, pos: nat, typeStart: nat, idStart: nat, payloadStart: nat, next: nat,
                   r: Record)
    requires typeStart == pos + 2 + (if ShortRecord(r.header) then 1 else 4)
                          + (if IdLengthPresent(r.header) then 1 else 0)
    requires idStart == typeStart + |r.recordType| && payloadStart == idStart + |r.id|
    requires next == payloadStart + |r.payload| <= |data|
    requires data[pos] == r.header && data[pos + 1] == |r.recordType|
    requires ShortRecord(r.header) ==> data[pos + 2] == |r.payload|
    requires !ShortRecord(r.header) ==> BeValue(data[pos + 2..pos + 6]) == |r.payload|
    requires IdLengthPresent(r.header) ==> data[typeStart - 1] == |r.id|
    requires !IdLengthPresent(r.header) ==> r.id == []
    requires data[typeStart..idStart] == r.recordType
    requires data[idStart..payloadStart] == r.id
    requires data[payloadStart..next] == r.payload
    ensures ReadRecord(data, pos) == Some((r, next))
  {
  }

  /** The fields of an encoded header read back as the record's lengths. */
  lemma HeaderFields(hd: seq<byte>, r: Record)
    requires WellFormed(r) && hd == EncodeHeader(r)
    ensures hd[0] == r.header && hd[1] == |r.recordType|
    ensures ShortRecord(r.header) ==> hd[2] == |r.payload|
    ensures !ShortRecord(r.header) ==> BeValue(hd[2..6]) == |r.payload|
    ensures IdLengthPresent(r.header) ==> hd[|hd| - 1] == |r.id|
  {
    if !ShortRecord(r.header) {
      assert hd[2..6] == BeBytes(|r.payload|, 4);
      Pow256Of4();
      BeRoundTrip(|r.payload|, 4);
    }
  }

  /** A slice of a buffer holding `e` at `pos` is the matching slice of `e`. */
  lemma SubSlice(data: seq<byte>, pos: nat, e: seq<byte>, lo: nat, hi: nat)
    requires pos + |e| <= |data| && data[pos..pos + |e|] == e && pos <= lo <= hi <= pos + |e|
    ensures data[lo..hi] == e[lo - pos..hi - pos]
  {
    forall k | 0 <= k < hi - lo
      ensures data[lo..hi][k] == e[lo - pos..hi - pos][k]
    {
      assert e[lo - pos + k] == data[pos..pos + |e|][lo - pos + k];
    }
  }


  predicate AllWellFormed(rs: seq<Record>)
  {
    forall i :: 0 <= i < |rs| ==> WellFormed(rs[i])
  }

  lemma AllWellFormedTail(rs: seq<Record>)
    requires AllWellFormed(rs) && rs != []
    ensures WellFormed(rs[0]) && AllWellFormed(rs[1..])
  {
    forall i | 0 <= i < |rs| - 1
      ensures WellFormed(rs[1..][i])
    {
      assert rs[1..][i] == rs[i + 1];
    }
  }

  /** A message: its records laid out one after the other. */
  function EncodeMessage(rs: seq<Record>): (m: seq<byte>)
    requires AllWellFormed(rs)
  {
    if rs == [] then [] else EncodeRecord(rs[0]) + EncodeMessage(rs[1..])
  }

  /** The texts of the records, in order. */
  function Texts(rs: seq<Record>): seq<byte>
  {
    if rs == [] then [] else TextOf(rs[0]) + Texts(rs[1..])
  }

  /** Message End is set on the last record and on no other. */
  predicate EndsAtLast(rs: seq<Record>)
  {
    rs != [] && forall i :: 0 <= i < |rs| ==> (MessageEnd(rs[i].header) <==> i == |rs| - 1)
  }

  /** A buffer holding an encoded message from `pos` to `end` reads back as its records. */
  lemma {:induction false} EncodedMessageParsed(data: seq<byte>, pos: nat, rs: seq<Record>, end: nat)
    requires AllWellFormed(rs) && end == pos + |EncodeMessage(rs)| <= |data|
    requires data[pos..end] == EncodeMessage(rs)
    ensures ParsedAt(data, pos, rs, end)
    decreases |rs|, 1
  {
    if rs != [] {
      ParsedStep(data, pos, rs, end, pos + |EncodeRecord(rs[0])|);
    }
  }

  lemma {:induction false} ParsedStep(data: seq<byte>, pos: nat, rs: seq<Record>, end: nat, next: nat)
    requires AllWellFormed(rs) && rs != [] && end == pos + |EncodeMessage(rs)| <= |data|
    requires data[pos..end] == EncodeMessage(rs) && next == pos + |EncodeRecord(rs[0])|
    ensures ParsedAt(data, pos, rs, end)
    decreases |rs|, 0
  {
    ReadFirst(data, pos, rs, end, next);
    EncodedMessageParsed(data, next, rs[1..], end);
    ParsedCons(data, pos, rs, end, next);
  }

  /** A buffer holding a message holds its first record, then the rest. */
  lemma SplitMessage(data: seq<byte>, pos: nat, rs: seq<Record>, end: nat)
    requires AllWellFormed(rs) && rs != [] && end == pos + |EncodeMessage(rs)| <= |data|
    requires data[pos..end] == EncodeMessage(rs)
    ensures WellFormed(rs[0]) && data[pos..pos + |EncodeRecord(rs[0])|] == EncodeRecord(rs[0])
    ensures AllWellFormed(rs[1..]) && end == pos + |EncodeRecord(rs[0])| + |EncodeMessage(rs[1..])|
    ensures data[pos + |EncodeRecord(rs[0])|..end] == EncodeMessage(rs[1..])
  {
    AllWellFormedTail(rs);
    SliceConcat(data, pos, EncodeRecord(rs[0]), EncodeMessage(rs[1..]), end);
  }

  /** A buffer holding a message reads back its first record, and the rest
      of the message follows it. */
  lemma ReadFirst(data: seq<byte>, pos: nat, rs: seq<Record>, end: nat, next: nat)
    requires AllWellFormed(rs) && rs != [] && end == pos + |EncodeMessage(rs)| <= |data|
    requires data[pos..end] == EncodeMessage(rs) && next == pos + |EncodeRecord(rs[0])|
    ensures ReadRecord(data, pos) == Some((rs[0], next))
    ensures AllWellFormed(rs[1..]) && end == next + |EncodeMessage(rs[1..])|
    ensures data[next..end] == EncodeMessage(rs[1..])
  {
    ReadHead(data, pos, rs, end, next);
    SplitMessage(data, pos, rs, end);
  }

  lemma ReadHead(data: seq<byte>, pos: nat, rs: seq<Record>, end: nat, next: nat)
    requires AllWellFormed(rs) && rs != [] && end == pos + |EncodeMessage(rs)| <= |data|
    requires data[pos..end] == EncodeMessage(rs) && next == pos + |EncodeRecord(rs[0])|
    ensures ReadRecord(data, pos) == Some((rs[0], next))
  {
    SplitMessage(data, pos, rs, end);
    ReadEncodedRecord(data, pos, rs[0]);
  }

  /** A buffer holding `a + b` at `pos` holds `a` there and `b` right after. */
  lemma SliceConcat(data: seq<byte>, pos: nat, a: seq<byte>, b: seq<byte>, end: nat)
    requires end == pos + |a| + |b| <= |data| && data[pos..end] == a + b
    ensures data[pos..pos + |a|] == a && data[pos + |a|..end] == b
  {
    SubSlice(data, pos, a + b, pos, pos + |a|);
    assert (a + b)[0..|a|] == a;
    SubSlice(data, pos, a + b, pos + |a|, end);
    assert (a + b)[|a|..|a| + |b|] == b;
  }

  /** The records `rs` are what `ReadRecord` reads in turn from `pos`, the
      last one ending at `end`. */
  predicate ParsedAt(data: seq<byte>, pos: nat, rs: seq<Record>, end: nat)
    decreases |rs|
  {
    if rs == [] then end == pos
    else
      var read := ReadRecord(data, pos);
      read.Some? && read.value.0 == rs[0] && ParsedAt(data, read.value.1, rs[1..], end)
  }

  lemma ParsedCons(data: seq<byte>, pos: nat, rs: seq<Record>, end: nat, next: nat)
    requires rs != [] && ReadRecord(data, pos) == Some((rs[0], next))
    requires ParsedAt(data, next, rs[1..], end)
    ensures ParsedAt(data, pos, rs, end)
  {
  }

  lemma {:induction false} ParsedEnd(data: seq<byte>, pos: nat, rs: seq<Record>, end: nat)
    requires ParsedAt(data, pos, rs, end)
    ensures pos <= end && (rs != [] ==> pos < end)
    decreases |rs|
  {
    if rs != [] {
      var read := ReadRecord(data, pos);
      ParsedEnd(data, read.value.1, rs[1..], end);
    }
  }

  lemma {:induction false} WalkParsed(data: seq<byte>, pos: nat, msgEnd: nat, end: nat, honourEnd: bool,
                                      rs: seq<Record>)
    requires ParsedAt(data, pos, rs, msgEnd)
    requires if honourEnd then EndsAtLast(rs) && msgEnd <= end else end == msgEnd
    ensures Walk(data, pos, end, honourEnd) == Texts(rs)
    decreases |rs|
  {
    if rs == [] {
      WalkStops(data, pos, end, honourEnd);
    } else {
      var next := ReadRecord(data, pos).value.1;
      ParsedEnd(data, pos, rs, msgEnd);
      WalkStep(data, pos, end, honourEnd, rs[0], next);
      assert Texts(rs) == TextOf(rs[0]) + Texts(rs[1..]);
      if honourEnd && MessageEnd(rs[0].header) {
        assert |rs| == 1;
        assert Texts(rs[1..]) == [];
      } else {
        if honourEnd {
          EndsAtLastTail(rs);
        }
        WalkParsed(data, next, msgEnd, end, honourEnd, rs[1..]);
      }
    }
  }

  lemma EndsAtLastTail(rs: seq<Record>)
    requires EndsAtLast(rs) && !MessageEnd(rs[0].header)
    ensures EndsAtLast(rs[1..])
  {
    var rest := rs[1..];
    forall i | 0 <= i < |rest|
      ensures MessageEnd(rest[i].header) <==> i == |rest| - 1
    {
      assert rest[i] == rs[i + 1];
    }
  }

  /** Walking a buffer that holds an encoded message gives the texts of its
      records: either the walk ends exactly where the message does (the TLV
      parser), or Message End is honoured and flagged on the last record,
      whatever follows it (the raw parser). */
  lemma WalkMessage(data: seq<byte>, pos: nat, msgEnd: nat, end: nat, honourEnd: bool, rs: seq<Record>)
    requires AllWellFormed(rs) && msgEnd == pos + |EncodeMessage(rs)| <= |data|
    requires data[pos..msgEnd] == EncodeMessage(rs)
    requires if honourEnd then EndsAtLast(rs) && msgEnd <= end else end == msgEnd
    ensures Walk(data, pos, end, honourEnd) == Texts(rs)
  {
    EncodedMessageParsed(data, pos, rs, msgEnd);
    WalkParsed(data, pos, msgEnd, end, honourEnd, rs);
  }

  /** Round trip of the raw parser: a Type 4 NDEF file holding a message whose
      last record (and only that one) is flagged Message End yields the texts
      of its records, whatever bytes follow the message, truncated to the
      buffer. */
  lemma RawRoundTrip(rs: seq<Record>, trailer: seq<byte>, max: nat)
    requires AllWellFormed(rs) && EndsAtLast(rs)
    requires |EncodeMessage(rs) + trailer| >= 4 && max > 0
    ensures RawNdefText(EncodeMessage(rs) + trailer, max) == Truncate(Texts(rs), max - 1)
  {
    var m := EncodeMessage(rs);
    var data := m + trailer;
    assert data[0..|m|] == m;
    WalkMessage(data, 0, |m|, |data|, true, rs);
  }

  // ---------------------------------------------------------------------------
  // TLV blocks

  /** The type and length of a TLV block whose value has `len` bytes: the
      type, then a one-byte length below 0xFF, or 0xFF followed by a
      big-endian 16-bit length. */
  function BlockHeader(t: byte, len: nat): (h: seq<byte>)
    requires len < 0x1_0000
    ensures |h| == (if len < 0xFF then 2 else 4) && h[0] == t
  {
    if len < 0xFF then [t, len] else [t, TLV_LONG_LENGTH, len / 0x100, len % 0x100]
  }

  /** The type and length of an NDEF message TLV block. */
  function TlvHeader(msg: seq<byte>): (h: seq<byte>)
    requires |msg| < 0x1_0000
    ensures |h| == (if |msg| < 0xFF then 2 else 4) && h[0] == TLV_NDEF
  {
    BlockHeader(TLV_NDEF, |msg|)
  }

  /** A TLV block ahead of the NDEF message: a NULL byte, or a block of any
      other type (Lock Control, Memory Control, proprietary) whose value has
      `length` bytes, whatever they are. */
  datatype TlvBlock = NullTlv | OtherTlv(tlvType: byte, length: nat)

  /** A block the scan passes over: a NULL byte, or a block that is neither
      NULL nor the terminator and is not a non-empty NDEF block. */
  predicate Skippable(b: TlvBlock)
  {
    b.OtherTlv? ==>
      b.tlvType != TLV_NULL && b.tlvType != TLV_TERMINATOR && b.length < 0x1_0000
      && (b.tlvType == TLV_NDEF ==> b.length == 0)
  }

  predicate AllSkippable(pad: seq<TlvBlock>)
  {
    forall i :: 0 <= i < |pad| ==> Skippable(pad[i])
  }

  /** The number of bytes a block takes: header and value. */
  function BlockSize(b: TlvBlock): nat
  {
    match b
    case NullTlv => 1
    case OtherTlv(_, n) => (if n < 0xFF then 2 else 4) + n
  }

  /** The number of bytes the blocks of a run take from the `i`th on. */
  function RunSize(pad: seq<TlvBlock>, i: nat): nat
    requires i <= |pad|
    decreases |pad| - i
  {
    if i == |pad| then 0 else BlockSize(pad[i]) + RunSize(pad, i + 1)
  }

  /** A block sits at `pos`: its type and length bytes are there and its
      value lies within `data`. */
  predicate BlockAt(data: seq<byte>, pos: nat, b: TlvBlock)
  {
    pos + BlockSize(b) <= |data|
    && match b
       case NullTlv => data[pos] == TLV_NULL
       case OtherTlv(t, n) =>
         data[pos] == t
         && if n < 0xFF then data[pos + 1] == n
            else data[pos + 1] == TLV_LONG_LENGTH && data[pos + 2] == n / 0x100 && data[pos + 3] == n % 0x100
  }

  /** The blocks of a run from the `i`th on sit one after the other from `pos`. */
  predicate RunAt(data: seq<byte>, pos: nat, pad: seq<TlvBlock>, i: nat)
    requires i <= |pad|
    decreases |pad| - i
  {
    i == |pad| || (BlockAt(data, pos, pad[i]) && RunAt(data, pos + BlockSize(pad[i]), pad, i + 1))
  }

  /** The bytes of `data` from `pos` on are `e`. */
  predicate HoldsAt(data: seq<byte>, pos: nat, e: seq<byte>)
  {
    pos + |e| <= |data| && data[pos..pos + |e|] == e
  }

  lemma HoldsSplit(data: seq<byte>, pos: nat, e: seq<byte>, t: seq<byte>)
    requires HoldsAt(data, pos, e + t)
    ensures HoldsAt(data, pos, e) && HoldsAt(data, pos + |e|, t)
  {
    assert data[pos..pos + |e|] == (e + t)[..|e|];
    assert data[pos + |e|..pos + |e| + |t|] == (e + t)[|e|..];
  }

  /** A block other than a NULL byte sits at `pos` exactly when the header
      `BlockHeader` writes for it is there and its value fits. */
  lemma {:induction false} BlockAtHeader(data: seq<byte>, pos: nat, t: byte, n: nat)
    requires n < 0x1_0000
    ensures BlockAt(data, pos, OtherTlv(t, n))
            <==> HoldsAt(data, pos, BlockHeader(t, n)) && pos + |BlockHeader(t, n)| + n <= |data|
  {
    var h := BlockHeader(t, n);
    if pos + |h| + n <= |data| {
      if HoldsAt(data, pos, h) {
        assert data[pos..pos + |h|][0] == h[0] && data[pos..pos + |h|][1] == h[1];
        if n >= 0xFF {
          assert data[pos..pos + |h|][2] == h[2] && data[pos..pos + |h|][3] == h[3];
        }
      }
      if BlockAt(data, pos, OtherTlv(t, n)) {
        if n < 0xFF {
          assert data[pos..pos + |h|] == [data[pos], data[pos + 1]];
        } else {
          assert data[pos..pos + |h|] == [data[pos], data[pos + 1], data[pos + 2], data[pos + 3]];
        }
      }
    }
  }

  /** The position just past the block at `pos`, whose length can be read. */
  function BlockEnd(d: seq<byte>, pos: nat): nat
    requires pos + 1 < |d| && !(d[pos + 1] == TLV_LONG_LENGTH && pos + 4 > |d|)
  {
    if d[pos + 1] == TLV_LONG_LENGTH then pos + 4 + Be16(d[pos + 2], d[pos + 3]) else pos + 2 + d[pos + 1]
  }

  /** The block at `pos` is a non-empty NDEF block that lies within `d`. */
  predicate NdefBlockFits(d: seq<byte>, pos: nat)
    requires pos + 1 < |d| && !(d[pos + 1] == TLV_LONG_LENGTH && pos + 4 > |d|)
  {
    d[pos] == TLV_NDEF && BlockEnd(d, pos) > pos + (if d[pos + 1] == TLV_LONG_LENGTH then 4 else 2)
    && BlockEnd(d, pos) <= |d|
  }

  /** The scan passes over a block by its length: it goes on just past the
      block, and finds nothing when the block reaches the end of the data.
      This covers an empty or overlong NDEF block too. */
  lemma ScanPassesOver(data: seq<byte>, pos: nat)
    requires pos + 1 < |data| && data[pos] != TLV_NULL && data[pos] != TLV_TERMINATOR
    requires !(data[pos + 1] == TLV_LONG_LENGTH && pos + 4 > |data|) && !NdefBlockFits(data, pos)
    ensures FindNdefTlv(data, pos) == FindNdefTlv(data, BlockEnd(data, pos))
    ensures BlockEnd(data, pos) + 1 >= |data| ==> FindNdefTlv(data, pos) == None
  {
  }

  /** A skippable block at `pos` is passed over: the scan goes on just past
      it, whatever follows. */
  lemma SkipBlock(data: seq<byte>, pos: nat, b: TlvBlock)
    requires Skippable(b) && BlockAt(data, pos, b)
    ensures FindNdefTlv(data, pos) == FindNdefTlv(data, pos + BlockSize(b))
  {
    if b.OtherTlv? && b.length >= 0xFF {
      assert Be16(data[pos + 2], data[pos + 3]) == b.length;
    }
  }

  /** Any run of skippable blocks at `pos` is passed over. */
  lemma {:induction false} SkipRun(data: seq<byte>, pos: nat, pad: seq<TlvBlock>, i: nat)
    requires AllSkippable(pad) && i <= |pad| && RunAt(data, pos, pad, i)
    ensures FindNdefTlv(data, pos) == FindNdefTlv(data, pos + RunSize(pad, i))
    decreases |pad| - i
  {
    if i < |pad| {
      SkipBlock(data, pos, pad[i]);
      SkipRun(data, pos + BlockSize(pad[i]), pad, i + 1);
    }
  }

  /** Tag memory laid out as a run of skippable blocks from its start, then
      an NDEF TLV block wrapping `msg`; what follows is left open. */
  predicate TlvLayout(data: seq<byte>, pad: seq<TlvBlock>, msg: seq<byte>)
    requires |msg| < 0x1_0000
  {
    RunAt(data, 0, pad, 0) && HoldsAt(data, RunSize(pad, 0), TlvHeader(msg) + msg)
  }

  /** The scan finds a non-empty NDEF TLV block placed after any run of
      skippable blocks, and the message bounds it reports are those of the
      block's value. */
  lemma FindEncodedTlv(data: seq<byte>, pad: seq<TlvBlock>, msg: seq<byte>)
    requires AllSkippable(pad) && 0 < |msg| < 0x1_0000 && TlvLayout(data, pad, msg)
    ensures var start := RunSize(pad, 0) + |TlvHeader(msg)|;
            FindNdefTlv(data, 0) == Some((start, start + |msg|))
  {
    var k := RunSize(pad, 0);
    NdefBlockAt(data, k, msg);
    SkipRun(data, 0, pad, 0);
    FindBlockAt(data, k, |msg|);
  }

  lemma NdefBlockAt(data: seq<byte>, pos: nat, msg: seq<byte>)
    requires |msg| < 0x1_0000 && HoldsAt(data, pos, TlvHeader(msg) + msg)
    ensures BlockAt(data, pos, OtherTlv(TLV_NDEF, |msg|))
  {
    HoldsSplit(data, pos, TlvHeader(msg), msg);
    BlockAtHeader(data, pos, TLV_NDEF, |msg|);
  }

  /** A non-empty NDEF block at `pos` whose value lies within the data is the
      block found. */
  lemma FindBlockAt(data: seq<byte>, pos: nat, n: nat)
    requires 0 < n < 0x1_0000 && BlockAt(data, pos, OtherTlv(TLV_NDEF, n))
    ensures var start := pos + BlockSize(OtherTlv(TLV_NDEF, n)) - n;
            FindNdefTlv(data, pos) == Some((start, start + n))
  {
    if n >= 0xFF {
      assert Be16(data[pos + 2], data[pos + 3]) == n;
    }
  }

  /** Round trip of the TLV parser: tag memory holding skippable blocks (NULL
      bytes, Lock or Memory Control TLVs, empty NDEF TLVs), then an NDEF TLV
      block wrapping a message, then anything, yields the texts of all of the
      message's records (Message End plays no part here), truncated to the
      buffer. */
  lemma TlvRoundTrip(data: seq<byte>, pad: seq<TlvBlock>, rs: seq<Record>, max: nat)
    requires AllSkippable(pad)
    requires AllWellFormed(rs) && rs != [] && |EncodeMessage(rs)| < 0x1_0000 && max > 0
    requires TlvLayout(data, pad, EncodeMessage(rs))
    ensures TlvNdefText(data, max) == Truncate(Texts(rs), max - 1)
  {
    var m := EncodeMessage(rs);
    var start := RunSize(pad, 0) + |TlvHeader(m)|;
    assert |m| >= 3;
    TlvBlockAt(data, pad, m);
    TlvParsesMessage(data, start, start + |m|, rs, max);
  }

  /** Where the scan finds the block, and what the block holds. */
  lemma TlvBlockAt(data: seq<byte>, pad: seq<TlvBlock>, m: seq<byte>)
    requires AllSkippable(pad) && 2 <= |m| < 0x1_0000 && TlvLayout(data, pad, m)
    ensures var start := RunSize(pad, 0) + |TlvHeader(m)|;
            |data| >= 4 && start + |m| <= |data|
            && FindNdefTlv(data, 0) == Some((start, start + |m|))
            && data[start..start + |m|] == m
  {
    var k := RunSize(pad, 0);
    FindEncodedTlv(data, pad, m);
    HoldsSplit(data, k, TlvHeader(m), m);
  }

  /** The TLV parser yields the text of the records in the block its scan finds. */
  lemma TlvParsesMessage(data: seq<byte>, start: nat, end: nat, rs: seq<Record>, max: nat)
    requires AllWellFormed(rs) && end == start + |EncodeMessage(rs)| <= |data| && max > 0 && |data| >= 4
    requires data[start..end] == EncodeMessage(rs)
    requires FindNdefTlv(data, 0) == Some((start, end))
    ensures TlvNdefText(data, max) == Truncate(Texts(rs), max - 1)
  {
    WalkMessage(data, start, end, end, false, rs);
    TlvTextFound(data, max, start, end, Texts(rs));
  }

  lemma TlvTextFound(data: seq<byte>, max: nat, start: nat, end: nat, text: seq<byte>)
    requires |data| >= 4 && max > 0 && FindNdefTlv(data, 0) == Some((start, end))
    requires Walk(data, start, end, false) == text
    ensures TlvNdefText(data, max) == Truncate(text, max - 1)
  {
  }

  // ---------------------------------------------------------------------------
  // Text records

  /** A well-known Text record in UTF-8: a status byte holding the length of
      the language code, the code, then the text; the short form whenever the
      payload fits in one byte. */
  function TextRecord(lang: seq<byte>, text: seq<byte>, last: bool): (r: Record)
    requires |lang| < 64 && 1 + |lang| + |text| < SIZE_T_MODULUS
    ensures WellFormed(r) && Tnf(r.header) == TNF_WELL_KNOWN && r.recordType == [TYPE_TEXT]
    ensures MessageEnd(r.header) == last
  {
    var payload := [|lang| as byte] + lang + text;
    var header := TNF_WELL_KNOWN + (if |payload| < 0x100 then FLAG_SHORT_RECORD else 0)
                  + (if last then FLAG_MESSAGE_END else 0);
    Record(header, [TYPE_TEXT], [], payload)
  }

  /** The text of a Text record is the text it was built from. */
  lemma TextOfTextRecord(lang: seq<byte>, text: seq<byte>, last: bool)
    requires |lang| < 64 && 1 + |lang| + |text| < SIZE_T_MODULUS
    ensures TextOf(TextRecord(lang, text, last)) == text
  {
    var p := TextRecord(lang, text, last).payload;
    assert p[1 + |lang|..] == text;
  }

  /** A Type 4 NDEF file holding one Text record yields its text, whatever
      follows the record. */
  lemma RawTextRecord(lang: seq<byte>, text: seq<byte>, trailer: seq<byte>, max: nat)
    requires |lang| < 64 && 1 + |lang| + |text| < SIZE_T_MODULUS && max > 0
    ensures RawNdefText(EncodeMessage([TextRecord(lang, text, true)]) + trailer, max) == Truncate(text, max - 1)
  {
    var rs := [TextRecord(lang, text, true)];
    assert Texts(rs) == TextOf(rs[0]) + Texts([]);
    TextOfTextRecord(lang, text, true);
    assert EncodeMessage(rs) == EncodeRecord(rs[0]) + EncodeMessage([]);
    RawRoundTrip(rs, trailer, max);
  }

  /** A TLV-wrapped message of two Text records yields both texts, one after
      the other, even when neither is flagged Message End. */
  lemma TlvTwoTextRecords(data: seq<byte>, pad: seq<TlvBlock>, rs: seq<Record>, lang: seq<byte>, t1: seq<byte>,
                          t2: seq<byte>, max: nat)
    requires |lang| < 64 && 1 + |lang| + |t1| < SIZE_T_MODULUS && 1 + |lang| + |t2| < SIZE_T_MODULUS
    requires rs == [TextRecord(lang, t1, false), TextRecord(lang, t2, false)]
    requires AllSkippable(pad) && |EncodeMessage(rs)| < 0x1_0000 && max > 0
    requires TlvLayout(data, pad, EncodeMessage(rs))
    ensures TlvNdefText(data, max) == Truncate(t1 + t2, max - 1)
  {
    TextsOfPair(rs);
    TextOfTextRecord(lang, t1, false);
    TextOfTextRecord(lang, t2, false);
    EncodePair(rs);
    TlvRoundTrip(data, pad, rs, max);
  }

  lemma TextsOfPair(rs: seq<Record>)
    requires |rs| == 2
    ensures Texts(rs) == TextOf(rs[0]) + TextOf(rs[1])
  {
    assert rs[1..][1..] == [];
    assert Texts(rs[1..]) == TextOf(rs[1]) + Texts([]);
  }

  lemma EncodePair(rs: seq<Record>)
    requires |rs| == 2 && AllWellFormed(rs)
    ensures |EncodeMessage(rs)| == |EncodeRecord(rs[0])| + |EncodeRecord(rs[1])|
  {
    assert rs[1..][1..] == [];
    AllWellFormedTail(rs);
    assert EncodeMessage(rs[1..]) == EncodeRecord(rs[1]) + EncodeMessage([]);
  }

  // ---------------------------------------------------------------------------
  // The record loop's bound checks with 32-bit arithmetic

  /** What one pass of the record loop does to its position when the sums in
      its bound checks (`pos + type_len`, `pos + id_len`, `pos + payload_len`)
      and the advances that follow are computed, as in the source, in 32-bit
      `size_t`, which wraps. Returns the header and the new position, or
      `None` where the loop breaks off. */
  function NextAsWritten(data: seq<byte>, pos: nat): (r: Option<(byte, nat)>)
    requires |data| < SIZE_T_MODULUS
    ensures r.Some? ==> r.value.1 <= |data|
  {
    match ReadLengths(data, pos)
    case None => None
    case Some(l) =>
      var idStart := (l.typeStart + l.typeLen) % SIZE_T_MODULUS;
      var payloadStart := (idStart + l.idLen) % SIZE_T_MODULUS;
      var next := (payloadStart + l.payloadLen) % SIZE_T_MODULUS;
      if idStart > |data| || payloadStart > |data| || next > |data| then None
      else Some((l.header, next))
  }

  /** Wherever the unbounded reading decodes a record, the 32-bit loop moves
      to the same place. */
  lemma NextAsWrittenAgrees(data: seq<byte>, pos: nat)
    requires |data| < SIZE_T_MODULUS && ReadRecord(data, pos).Some?
    ensures NextAsWritten(data, pos) == Some((ReadRecord(data, pos).value.0.header, ReadRecord(data, pos).value.1))
  {
    var l := ReadLengths(data, pos).value;
    var idStart := l.typeStart + l.typeLen;
    var payloadStart := idStart + l.idLen;
    var next := payloadStart + l.payloadLen;
    assert next <= |data|;
    NoWrap(idStart);
    NoWrap(payloadStart);
    NoWrap(next);
  }

  lemma NoWrap(x: nat)
    requires x < SIZE_T_MODULUS
    ensures x % SIZE_T_MODULUS == x
  {
  }

  /** A record announcing a payload of 0xFFFFFFFA bytes right after a six-byte
      header: the unbounded reading breaks off (the payload does not fit), but
      in 32 bits the payload bound check sees `6 + 0xFFFFFFFA == 0`, passes, and
      the loop returns to position 0 on a record without Message End, so the
      source's loop never ends. The raw parser of the model yields nothing. */
  lemma PayloadLengthWraps()
    ensures var data: seq<byte> := [0x01, 0x00, 0xFF, 0xFF, 0xFF, 0xFA];
            NextAsWritten(data, 0) == Some((0x01, 0)) && !MessageEnd(0x01)
            && ReadRecord(data, 0).None? && RawNdefText(data, 0x100) == []
  {
    var data: seq<byte> := [0x01, 0x00, 0xFF, 0xFF, 0xFF, 0xFA];
    BeValue4(data[2..6]);
    assert ReadRecord(data, 0).None?;
    assert Walk(data, 0, |data|, true) == [];
  }

  /** The same wrap on a Text record: after the type `T` the payload starts
      at the end of the seven-byte buffer, `7 + 0xFFFFFFF9` wraps to 0 and the
      check passes, so the source goes on to read the status byte and copy
      text from past the end of the buffer, then loops back to position 0. */
  lemma TextPayloadWraps()
    ensures var data: seq<byte> := [0x01, 0x01, 0xFF, 0xFF, 0xFF, 0xF9, TYPE_TEXT];
            var l := ReadLengths(data, 0);
            l.Some? && Tnf(l.value.header) == TNF_WELL_KNOWN && l.value.typeLen == 1
            && data[l.value.typeStart] == TYPE_TEXT && l.value.payloadLen > 1
            && l.value.typeStart + l.value.typeLen + l.value.idLen == |data|
            && NextAsWritten(data, 0) == Some((0x01, 0)) && ReadRecord(data, 0).None?
  {
    var data: seq<byte> := [0x01, 0x01, 0xFF, 0xFF, 0xFF, 0xF9, TYPE_TEXT];
    BeValue4(data[2..6]);
    assert ReadRecord(data, 0).None?;
  }
}
