/** The Type 4 NDEF read over ISO 14443-4 (ISO-DEP): select the NDEF
    application (retried after transport errors only), select and read the
    capability container, select the NDEF file, read its two-byte length,
    read the message in chunks, and parse it as a raw NDEF message.

    The tag is a queue of replies, one per command sent; once the queue is
    empty every further exchange is a transport error. */
module Type4 {
  import opened Bytes
  import opened NfcTypes
  import opened Apdu
  import Ndef

  const MAX_RETRIES: nat := 3
  /** Most bytes asked for by one READ BINARY of the NDEF file. */
  const CHUNK_MAX: nat := 128
  /** Bytes of the capability container the session reads and needs. */
  const CC_READ_LEN: byte := 15
  /** The NDEF message starts after the file's two-byte length. */
  const NLEN_SIZE: nat := 2

  // The fixed commands of the session, as sent.
  const SELECT_APP_APDU: seq<byte> := [0x00, 0xA4, 0x04, 0x00, 0x07, 0xD2, 0x76, 0x00, 0x00, 0x85, 0x01, 0x01]
  const SELECT_CC_APDU: seq<byte> := [0x00, 0xA4, 0x00, 0x0C, 0x02, 0xE1, 0x03]
  const READ_CC_APDU: seq<byte> := [0x00, 0xB0, 0x00, 0x00, 0x0F]
  const SELECT_NDEF_APDU: seq<byte> := [0x00, 0xA4, 0x00, 0x0C, 0x02, 0xE1, 0x04]
  const READ_NLEN_APDU: seq<byte> := [0x00, 0xB0, 0x00, 0x00, 0x02]

  /** The fixed commands are the encodings of their builders' commands. */
  lemma FixedCommands()
    ensures SELECT_APP_APDU == Encode(SelectApp())
    ensures SELECT_CC_APDU == Encode(SelectFile(FILE_ID_CC))
    ensures READ_CC_APDU == Encode(ReadBinary(0, CC_READ_LEN))
    ensures SELECT_NDEF_APDU == Encode(SelectFile(FILE_ID_NDEF))
    ensures READ_NLEN_APDU == Encode(ReadBinary(0, NLEN_SIZE as byte))
  {
  }

  /** The outcome of one exchange: a transport error, or a response. */
  datatype Reply = TransportError | Data(bytes: seq<byte>)

  function Head(q: seq<Reply>): Reply
  {
    if q == [] then TransportError else q[0]
  }

  function Tail(q: seq<Reply>): seq<Reply>
  {
    if q == [] then [] else q[1..]
  }

  /** The reply to the `j`-th exchange from now. */
  function Nth(q: seq<Reply>, j: nat): Reply
  {
    if j < |q| then q[j] else TransportError
  }

  /** The replies left after `n` exchanges. */
  function Skip(q: seq<Reply>, n: nat): seq<Reply>
  {
    q[Min(n, |q|)..]
  }

  /** An exchange went through and its response ends with 90 00. */
  predicate Accepted(r: Reply)
  {
    r.Data? && IsSuccess(r.bytes)
  }

  function Repeat(apdu: seq<byte>, n: nat): (s: seq<seq<byte>>)
    ensures |s| == n && forall j :: 0 <= j < n ==> s[j] == apdu
  {
    seq(n, _ => apdu)
  }

  // ---------------------------------------------------------------------------
  // The session, as a function of the tag's replies

  datatype AidResult = AidResult(selected: bool, attempts: nat, rest: seq<Reply>)

  /** SELECT of the NDEF application from attempt `retry` on: a transport
      error is retried while attempts remain, any response ends the attempts,
      and the application is selected when that response succeeded. */
  function SelectAid(q: seq<Reply>, retry: nat): AidResult
    requires retry <= MAX_RETRIES
    decreases MAX_RETRIES - retry
  {
    if retry == MAX_RETRIES then AidResult(false, 0, q)
    else match Head(q)
      case TransportError =>
        var r := SelectAid(Tail(q), retry + 1);
        AidResult(r.selected, r.attempts + 1, r.rest)
      case Data(b) => AidResult(IsSuccess(b), 1, Tail(q))
  }

  /** The attempts are bounded by the retries left, and they used up
      exactly their replies. */
  lemma {:induction false} SelectAidAttempts(q: seq<Reply>, retry: nat)
    requires retry <= MAX_RETRIES
    ensures var r := SelectAid(q, retry);
      && r.attempts <= MAX_RETRIES - retry && (retry < MAX_RETRIES ==> 1 <= r.attempts)
      && r.rest == Skip(q, r.attempts)
    decreases MAX_RETRIES - retry
  {
    if retry < MAX_RETRIES && Head(q).TransportError? {
      SelectAidAttempts(Tail(q), retry + 1);
      SkipTail(q, SelectAid(Tail(q), retry + 1).attempts);
    }
  }

  /** Every attempt but the last met a transport error: only those are
      retried. */
  lemma {:induction false} SelectAidRetries(q: seq<Reply>, retry: nat, j: nat)
    requires retry <= MAX_RETRIES && j + 1 < SelectAid(q, retry).attempts
    ensures Nth(q, j).TransportError?
    decreases MAX_RETRIES - retry
  {
    if j > 0 {
      SelectAidRetries(Tail(q), retry + 1, j - 1);
      NthTail(q, j - 1);
    }
  }

  /** The application is selected exactly when the last attempt's response
      succeeded, and fewer attempts than allowed means the last one had a
      response. */
  lemma {:induction false} SelectAidOutcome(q: seq<Reply>, retry: nat)
    requires retry <= MAX_RETRIES
    ensures var r := SelectAid(q, retry);
      && (r.selected <==> 1 <= r.attempts && Accepted(Nth(q, r.attempts - 1)))
      && (1 <= r.attempts < MAX_RETRIES - retry ==> Nth(q, r.attempts - 1).Data?)
    decreases MAX_RETRIES - retry
  {
    if retry < MAX_RETRIES && Head(q).TransportError? {
      var r := SelectAid(Tail(q), retry + 1);
      SelectAidOutcome(Tail(q), retry + 1);
      if r.attempts >= 1 {
        NthTail(q, r.attempts - 1);
      }
    }
  }

  lemma NthTail(q: seq<Reply>, j: nat)
    ensures Nth(Tail(q), j) == Nth(q, j + 1)
  {
  }

  lemma SkipTail(q: seq<Reply>, n: nat)
    ensures Skip(Tail(q), n) == Skip(q, n + 1)
  {
  }

  /** The capability container response: accepted, at least 15 bytes of
      data, and a mapping version from 1.0 to 3.0. */
  predicate CcAccepted(r: Reply)
  {
    Accepted(r) && |r.bytes| - 2 >= CC_READ_LEN as int && 0x10 <= r.bytes[2] <= 0x30
  }

  /** The NDEF length response: accepted and carrying the two length bytes. */
  predicate LengthAccepted(r: Reply)
  {
    Accepted(r) && |r.bytes| >= 4
  }

  /** The length of the NDEF message the file declares. */
  function DeclaredLength(r: Reply): uint16
    requires LengthAccepted(r)
  {
    Be16(r.bytes[0], r.bytes[1])
  }

  /** What a session sent, the NDEF message bytes it read (none when a step
      failed or nothing was read) and the replies left. */
  datatype Session = Session(sent: seq<seq<byte>>, file: Option<seq<byte>>, rest: seq<Reply>)

  /** What a step of the session sent, whether it succeeded, and the
      replies left. */
  datatype Step = Step(ok: bool, sent: seq<seq<byte>>, rest: seq<Reply>)

  /** What opening the NDEF file sent, the message length it found (0 when
      a step failed) and the replies left. */
  datatype Opened = Opened(ndefLen: nat, sent: seq<seq<byte>>, rest: seq<Reply>)

  datatype Chunks = Chunks(data: seq<byte>, sent: seq<seq<byte>>, rest: seq<Reply>)

  /** The chunk loop from `data` read so far: asks for min(128, remaining)
      bytes at file offset 2 + |data|, and stops on a failed exchange, a
      response with no data, or when `ndefLen` bytes are in. A response may
      carry more than was asked for; only what is still missing is kept. */
  function ReadChunks(q: seq<Reply>, ndefLen: nat, data: seq<byte>): (r: Chunks)
    requires |data| <= ndefLen <= NDEF_DATA_MAX
    ensures data <= r.data && |r.data| <= ndefLen
    ensures r.sent == [] <==> |data| == ndefLen
    decreases ndefLen - |data|
  {
    if |data| == ndefLen then Chunks(data, [], q)
    else
      var cmd := ChunkCommand(|data|, ndefLen);
      match ChunkData(Head(q), ndefLen - |data|)
      case None => Chunks(data, [cmd], Tail(q))
      case Some(more) =>
        var r := ReadChunks(Tail(q), ndefLen, data + more);
        Chunks(r.data, [cmd] + r.sent, r.rest)
  }

  /** READ BINARY of the next chunk: min(128, remaining) bytes after the
      `done` bytes already read. */
  function ChunkCommand(done: nat, ndefLen: nat): seq<byte>
    requires done < ndefLen <= NDEF_DATA_MAX
  {
    Encode(ReadBinary((NLEN_SIZE + done) as uint16, Min(CHUNK_MAX, ndefLen - done) as byte))
  }

  /** The bytes a chunk response adds when `missing` bytes are still to
      read, or nothing when the loop stops on it. */
  function ChunkData(r: Reply, missing: nat): (more: Option<seq<byte>>)
    requires missing > 0
    ensures more.Some? ==> 1 <= |more.value| <= missing
  {
    match r
    case TransportError => None
    case Data(b) => if !IsSuccess(b) || |b| - 2 == 0 then None else Some(b[..Min(|b| - 2, missing)])
  }

  /** The whole session: select the application, open the NDEF file, read
      the message; reading nothing is a failure. */
  function ReadSession(q: seq<Reply>): Session
  {
    var aid := SelectAid(q, 0);
    var sent := Repeat(SELECT_APP_APDU, aid.attempts);
    if !aid.selected then Session(sent, None, aid.rest)
    else
      var f := OpenFile(aid.rest);
      if f.ndefLen == 0 then Session(sent + f.sent, None, f.rest)
      else
        var chunks := ReadChunks(f.rest, f.ndefLen, []);
        Session(sent + f.sent + chunks.sent, if chunks.data == [] then None else Some(chunks.data), chunks.rest)
  }

  /** From the selected application to the message length: check the
      capability container, then read the NDEF file's length. */
  function OpenFile(q: seq<Reply>): (f: Opened)
    ensures f.ndefLen <= NDEF_DATA_MAX
  {
    var cc := CheckCc(q);
    if !cc.ok then Opened(0, cc.sent, cc.rest)
    else
      var len := FindLength(cc.rest);
      Opened(len.ndefLen, cc.sent + len.sent, len.rest)
  }

  /** SELECT of the capability container, then READ of its first 15 bytes,
      which must carry a mapping version from 1.0 to 3.0. */
  function CheckCc(q: seq<Reply>): Step
  {
    if !Accepted(Head(q)) then Step(false, [SELECT_CC_APDU], Tail(q))
    else Step(CcAccepted(Head(Tail(q))), [SELECT_CC_APDU, READ_CC_APDU], Tail(Tail(q)))
  }

  /** SELECT of the NDEF file, then READ of its two-byte length, clamped to
      the buffer; 0 when a step failed. */
  function FindLength(q: seq<Reply>): (f: Opened)
    ensures f.ndefLen <= NDEF_DATA_MAX
  {
    if !Accepted(Head(q)) then Opened(0, [SELECT_NDEF_APDU], Tail(q))
    else
      var r := Head(Tail(q));
      var ndefLen := if LengthAccepted(r) then Min(DeclaredLength(r), NDEF_DATA_MAX) else 0;
      Opened(ndefLen, [SELECT_NDEF_APDU, READ_NLEN_APDU], Tail(Tail(q)))
  }

  /** The text a session leaves in the NDEF buffer: that of the raw message
      read, or nothing. */
  function SessionText(q: seq<Reply>): seq<byte>
  {
    match ReadSession(q).file
    case None => []
    case Some(data) => Ndef.RawNdefText(data, NDEF_MAX_LEN)
  }

  // ---------------------------------------------------------------------------
  // The session, as the firmware runs it

  /** The ISO 14443-4 poller: sends one block and receives the tag's reply. */
  class Poller {
    var replies: seq<Reply>
    var sent: seq<seq<byte>>

    constructor(replies: seq<Reply>)
      ensures this.replies == replies && sent == []
    {
      this.replies := replies;
      sent := [];
    }

    /** Sends `tx`; on success `rx` holds the response. */
    method SendBlock(tx: Buffer, rx: Buffer) returns (ok: bool)
      requires tx != rx
      modifies this, rx
      ensures sent == old(sent) + [tx.bytes] && replies == Tail(old(replies))
      ensures ok <==> Head(old(replies)).Data?
      ensures rx.bytes == if ok then Head(old(replies)).bytes else old(rx.bytes)
    {
      var r := Head(replies);
      sent := sent + [tx.bytes];
      replies := Tail(replies);
      ok := r.Data?;
      if ok {
        rx.bytes := r.bytes;
      }
    }
  }

  /** Reads a Type 4 NDEF message into `output` (the NDEF text buffer).
      Every failure reports `NoTextRecord`; success, with no error, is a
      non-empty text. */
  method ReadType4Ndef(poller: Poller, output: array<byte>) returns (success: bool, error: NfcError)
    requires output.Length == NDEF_MAX_LEN
    modifies poller, output
    ensures poller.sent == old(poller.sent) + ReadSession(old(poller.replies)).sent
    ensures poller.replies == ReadSession(old(poller.replies)).rest
    ensures success <==> SessionText(old(poller.replies)) != []
    ensures error == if success then NoError else NoTextRecord
    ensures var text := SessionText(old(poller.replies));
      success ==> |text| < output.Length && output[..|text|] == text && output[|text|] == 0
    ensures forall k :: |SessionText(old(poller.replies))| < k < output.Length ==> output[k] == old(output[k])
    ensures ReadSession(old(poller.replies)).file.None? ==> output[..] == old(output[..])
    ensures !success ==> output[0] == 0 || output[0] == old(output[0])
  {
    ghost var q0 := poller.replies;
    ghost var sent0 := poller.sent;
    var tx := new Buffer();
    var rx := new Buffer();

    var selected, sentAid := SelectApplication(poller, tx, rx);
    if !selected {
      return false, NoTextRecord;
    }
    var ccOk, sentCc := CheckCapabilityContainer(poller, tx, rx);
    Concat3(sent0, sentAid, sentCc);
    if !ccOk {
      return false, NoTextRecord;
    }
    var ndefLen, sentLen := ReadNdefLength(poller, tx, rx);
    ghost var sentFile := sentCc + sentLen;
    assert poller.sent == sent0 + (sentAid + sentFile) by {
      Concat3(sent0 + sentAid, sentCc, sentLen);
      Concat3(sent0, sentAid, sentFile);
    }
    assert OpenFile(SelectAid(q0, 0).rest) == Opened(ndefLen, sentFile, poller.replies);
    if ndefLen == 0 {
      return false, NoTextRecord;
    }

    // READ the message in chunks.
    var ndefData := new byte[NDEF_DATA_MAX];
    var bytesRead, sentChunks := ReadNdefChunks(poller, tx, rx, ndefData, ndefLen);
    Concat3(sent0, sentAid + sentFile, sentChunks);
    assert ReadSession(q0) == Session(sentAid + sentFile + sentChunks,
                                      if bytesRead == 0 then None else Some(ndefData[..bytesRead]), poller.replies);
    if bytesRead == 0 {
      return false, NoTextRecord;
    }

    // Parse the message as raw NDEF records.
    success := ParseFile(ndefData[..bytesRead], output);
    error := if success then NoError else NoTextRecord;
  }

  /** The last step of a read: the file parsed as raw NDEF records into the
      text buffer; a read succeeds when it yields text. */
  method ParseFile(file: seq<byte>, output: array<byte>) returns (success: bool)
    requires output.Length == NDEF_MAX_LEN
    modifies output
    ensures var text := Ndef.RawNdefText(file, NDEF_MAX_LEN);
      && (success <==> text != [])
      && (success ==> |text| < output.Length && output[..|text|] == text && output[|text|] == 0)
      && (forall k :: |text| < k < output.Length ==> output[k] == old(output[k]))
    ensures !success ==> output[0] == 0 || output[0] == old(output[0])
  {
    var textLen := Ndef.ParseRawNdefText(file, output);
    success := textLen > 0;
  }

  lemma Concat3<T>(a: seq<T>, b: seq<T>, c: seq<T>)
    ensures a + b + c == a + (b + c)
  {
  }

  /** SELECT of the NDEF application, retried after transport errors only;
      `sent` is what went out. */
  method SelectApplication(poller: Poller, tx: Buffer, rx: Buffer) returns (selected: bool, ghost sent: seq<seq<byte>>)
    requires tx != rx
    modifies poller, tx, rx
    ensures poller.sent == old(poller.sent) + sent
    ensures var aid := SelectAid(old(poller.replies), 0);
      selected == aid.selected && sent == Repeat(SELECT_APP_APDU, aid.attempts) && poller.replies == aid.rest
  {
    ghost var q0 := poller.replies;
    ghost var sent0 := poller.sent;
    selected := false;
    var retry := 0;
    ghost var attempts := 0;
    while retry < MAX_RETRIES
      invariant retry <= MAX_RETRIES && attempts == retry && !selected
      invariant poller.sent == sent0 + Repeat(SELECT_APP_APDU, retry)
      invariant var a := SelectAid(poller.replies, retry);
        SelectAid(q0, 0) == AidResult(a.selected, a.attempts + retry, a.rest)
    {
      ghost var q := poller.replies;
      BuildSelectApp(tx);
      assert tx.bytes == SELECT_APP_APDU by { FixedCommands(); }
      var ok := poller.SendBlock(tx, rx);
      if ok {
        selected := IsSuccess(rx.bytes);
        attempts := retry + 1;
        break;
      }
      retry := retry + 1;
      attempts := retry;
    }
    sent := Repeat(SELECT_APP_APDU, attempts);
    assert SelectAid(q0, 0) == AidResult(selected, attempts, poller.replies);
  }

  /** Selects the capability container and reads its first 15 bytes;
      fails unless both succeed and the mapping version is 1.0 to 3.0. */
  method CheckCapabilityContainer(poller: Poller, tx: Buffer, rx: Buffer) returns (ok: bool, ghost sent: seq<seq<byte>>)
    requires tx != rx
    modifies poller, tx, rx
    ensures poller.sent == old(poller.sent) + sent
    ensures CheckCc(old(poller.replies)) == Step(ok, sent, poller.replies)
  {
    ghost var sent0 := poller.sent;
    ghost var q0 := poller.replies;
    BuildSelectFile(tx, FILE_ID_CC);
    assert tx.bytes == SELECT_CC_APDU by { FixedCommands(); }
    ok := poller.SendBlock(tx, rx);
    sent := [SELECT_CC_APDU];
    if !ok || !IsSuccess(rx.bytes) {
      return false, sent;
    }

    ghost var q := poller.replies;
    BuildReadBinary(tx, 0, CC_READ_LEN);
    assert tx.bytes == READ_CC_APDU by { FixedCommands(); }
    ok := poller.SendBlock(tx, rx);
    Concat3(sent0, sent, [READ_CC_APDU]);
    sent := sent + [READ_CC_APDU];
    if !ok || !IsSuccess(rx.bytes) {
      return false, sent;
    }
    var ccLen := |rx.bytes| - 2;
    if ccLen < CC_READ_LEN as int {
      return false, sent;
    }
    var mappingVersion := rx.bytes[2];
    if mappingVersion < 0x10 || mappingVersion > 0x30 {
      return false, sent;
    }
    assert CcAccepted(Head(q));
  }

  /** Selects the NDEF file and reads its two-byte length, clamped to the
      buffer; 0 when a step failed or the file declares no message. */
  method ReadNdefLength(poller: Poller, tx: Buffer, rx: Buffer) returns (ndefLen: nat, ghost sent: seq<seq<byte>>)
    requires tx != rx
    modifies poller, tx, rx
    ensures poller.sent == old(poller.sent) + sent
    ensures FindLength(old(poller.replies)) == Opened(ndefLen, sent, poller.replies)
  {
    ghost var sent0 := poller.sent;
    BuildSelectFile(tx, FILE_ID_NDEF);
    assert tx.bytes == SELECT_NDEF_APDU by { FixedCommands(); }
    var ok := poller.SendBlock(tx, rx);
    sent := [SELECT_NDEF_APDU];
    if !ok || !IsSuccess(rx.bytes) {
      return 0, sent;
    }

    ghost var q := poller.replies;
    BuildReadBinary(tx, 0, NLEN_SIZE as byte);
    assert tx.bytes == READ_NLEN_APDU by { FixedCommands(); }
    ok := poller.SendBlock(tx, rx);
    Concat3(sent0, sent, [READ_NLEN_APDU]);
    sent := sent + [READ_NLEN_APDU];
    if !ok || !IsSuccess(rx.bytes) || |rx.bytes| < 4 {
      return 0, sent;
    }
    assert LengthAccepted(Head(q));
    var declared := Be16(rx.bytes[0], rx.bytes[1]);
    ndefLen := declared;
    if ndefLen > NDEF_DATA_MAX {
      ndefLen := NDEF_DATA_MAX;
    }
  }

  /** The chunk loop of the session: fills `ndefData` with the message. */
  method ReadNdefChunks(poller: Poller, tx: Buffer, rx: Buffer, ndefData: array<byte>, ndefLen: nat)
    returns (bytesRead: nat, ghost sent: seq<seq<byte>>)
    requires tx != rx && 0 < ndefLen <= ndefData.Length == NDEF_DATA_MAX
    modifies poller, tx, rx, ndefData
    ensures bytesRead <= ndefLen && poller.sent == old(poller.sent) + sent
    ensures ReadChunks(old(poller.replies), ndefLen, []) == Chunks(ndefData[..bytesRead], sent, poller.replies)
  {
    bytesRead := 0;
    ghost var q0 := poller.replies;
    ghost var sent0 := poller.sent;
    // The commands sent and the bytes read so far by this loop.
    sent := [];
    ghost var data: seq<byte> := [];
    while bytesRead < ndefLen
      invariant bytesRead == |data| <= ndefLen && ndefData[..bytesRead] == data
      invariant poller.sent == sent0 + sent
      invariant ReadChunks(q0, ndefLen, []) == After(sent, ReadChunks(poller.replies, ndefLen, data))
      decreases ndefLen - bytesRead
    {
      ghost var q := poller.replies;
      ghost var cmd := ChunkCommand(|data|, ndefLen);
      var stop;
      ghost var data';
      bytesRead, stop, data' := ChunkPass(poller, tx, rx, ndefData, bytesRead, ndefLen, data);
      ChunkAdvance(q0, ndefLen, sent, q, data, stop, data');
      sent := sent + [cmd];
      if stop {
        break;
      }
      data := data';
    }
    if bytesRead == ndefLen {
      ChunksDone(poller.replies, ndefLen, data);
    }
  }

  /** What one pass of the chunk loop does to the loop's invariant. */
  lemma ChunkAdvance(q0: seq<Reply>, ndefLen: nat, sent: seq<seq<byte>>, q: seq<Reply>, data: seq<byte>,
                     stop: bool, data': seq<byte>)
    requires |data| < ndefLen <= NDEF_DATA_MAX
    requires ReadChunks(q0, ndefLen, []) == After(sent, ReadChunks(q, ndefLen, data))
    requires var more := ChunkData(Head(q), ndefLen - |data|);
      stop == more.None? && data' == (if stop then data else data + more.value)
    ensures |data'| <= ndefLen
    ensures stop ==> ReadChunks(q0, ndefLen, []) == Chunks(data, sent + [ChunkCommand(|data|, ndefLen)], Tail(q))
    ensures !stop ==>
      ReadChunks(q0, ndefLen, []) == After(sent + [ChunkCommand(|data|, ndefLen)], ReadChunks(Tail(q), ndefLen, data'))
  {
    var cmd := ChunkCommand(|data|, ndefLen);
    ChunkStep(q, ndefLen, data, cmd);
    AfterAppend(sent, cmd, ReadChunks(q, ndefLen, data));
  }

  /** One pass of the chunk loop: asks for the next chunk and copies what
      the response brings, or says that the loop stops. */
  method ChunkPass(poller: Poller, tx: Buffer, rx: Buffer, ndefData: array<byte>, bytesRead: nat, ndefLen: nat,
                   ghost data: seq<byte>)
    returns (bytesRead': nat, stop: bool, ghost data': seq<byte>)
    requires tx != rx && bytesRead == |data| < ndefLen <= ndefData.Length == NDEF_DATA_MAX
    requires ndefData[..bytesRead] == data
    modifies poller, tx, rx, ndefData
    ensures poller.sent == old(poller.sent) + [ChunkCommand(|data|, ndefLen)]
    ensures poller.replies == Tail(old(poller.replies))
    ensures var more := ChunkData(Head(old(poller.replies)), ndefLen - |data|);
      stop == more.None? && data' == (if stop then data else data + more.value)
    ensures bytesRead' == |data'| <= ndefLen && ndefData[..bytesRead'] == data'
  {
    var chunkSize := Min(CHUNK_MAX, ndefLen - bytesRead);
    BuildReadBinary(tx, (NLEN_SIZE + bytesRead) as uint16, chunkSize as byte);
    var ok := poller.SendBlock(tx, rx);
    if !ok || !IsSuccess(rx.bytes) {
      return bytesRead, true, data;
    }
    var received := |rx.bytes| - 2;
    if received == 0 {
      return bytesRead, true, data;
    }
    bytesRead' := CopyChunk(ndefData, bytesRead, rx.bytes, received, ndefLen);
    stop := false;
    data' := data + rx.bytes[..Min(received, ndefLen - bytesRead)];
  }

  lemma ChunksDone(q: seq<Reply>, ndefLen: nat, data: seq<byte>)
    requires |data| == ndefLen <= NDEF_DATA_MAX
    ensures ReadChunks(q, ndefLen, data) == Chunks(data, [], q)
  {
  }

  /** Copies the `received` data bytes of a response after the `bytesRead`
      bytes already read, stopping when `ndefLen` bytes are in. */
  method CopyChunk(ndefData: array<byte>, bytesRead: nat, response: seq<byte>, received: nat, ndefLen: nat)
    returns (bytesRead': nat)
    requires bytesRead <= ndefLen <= ndefData.Length && received <= |response|
    modifies ndefData
    ensures bytesRead' == bytesRead + Min(received, ndefLen - bytesRead)
    ensures ndefData[..bytesRead'] == old(ndefData[..bytesRead]) + response[..Min(received, ndefLen - bytesRead)]
  {
    ghost var done := ndefData[..bytesRead];
    bytesRead' := bytesRead;
    var i := 0;
    while i < received && bytesRead' < ndefLen
      invariant i <= received && bytesRead' == bytesRead + i <= ndefLen
      invariant ndefData[..bytesRead'] == done + response[..i]
    {
      ndefData[bytesRead'] := response[i];
      bytesRead' := bytesRead' + 1;
      i := i + 1;
    }
  }

  /** The chunk loop's result once `sent` has gone out before it. */
  function After(sent: seq<seq<byte>>, r: Chunks): Chunks
  {
    Chunks(r.data, sent + r.sent, r.rest)
  }

  lemma AfterAppend(sent: seq<seq<byte>>, cmd: seq<byte>, r: Chunks)
    requires r.sent != [] && r.sent[0] == cmd
    ensures After(sent, r) == After(sent + [cmd], Chunks(r.data, r.sent[1..], r.rest))
  {
    assert sent + r.sent == (sent + [cmd]) + r.sent[1..];
  }

  /** One pass of the chunk loop, with the READ BINARY `cmd` it sends. */
  lemma ChunkStep(q: seq<Reply>, ndefLen: nat, data: seq<byte>, cmd: seq<byte>)
    requires |data| < ndefLen <= NDEF_DATA_MAX && cmd == ChunkCommand(|data|, ndefLen)
    ensures var r := ReadChunks(q, ndefLen, data);
      r.sent != [] && r.sent[0] == cmd &&
      Chunks(r.data, r.sent[1..], r.rest) ==
        match ChunkData(Head(q), ndefLen - |data|)
        case None => Chunks(data, [], Tail(q))
        case Some(more) => ReadChunks(Tail(q), ndefLen, data + more)
  {
  }

  // ---------------------------------------------------------------------------
  // Properties of the session

  /** Every chunk command is a READ BINARY that stays inside the message:
      it starts after the bytes already read, asks for at most 128 bytes, and
      ends at or before the end of the `ndefLen`-byte message that follows
      the two length bytes. */
  lemma {:induction false} ChunkReadsStayInFile(q: seq<Reply>, ndefLen: nat, data: seq<byte>, k: nat)
    requires |data| <= ndefLen <= NDEF_DATA_MAX
    requires k < |ReadChunks(q, ndefLen, data).sent|
    ensures var c := Decode(ReadChunks(q, ndefLen, data).sent[k]);
      && c.Some? && c.value.ins == INS_READ_BINARY && c.value.data == [] && c.value.le.Some?
      && 1 <= c.value.le.value <= CHUNK_MAX
      && NLEN_SIZE + |data| <= Be16(c.value.p1, c.value.p2)
      && Be16(c.value.p1, c.value.p2) + c.value.le.value <= NLEN_SIZE + ndefLen
    decreases ndefLen - |data|
  {
    var cmd := ChunkCommand(|data|, ndefLen);
    ChunkStep(q, ndefLen, data, cmd);
    if k == 0 {
      DecodeEncode(ReadBinary((NLEN_SIZE + |data|) as uint16, Min(CHUNK_MAX, ndefLen - |data|) as byte));
    } else {
      var more := ChunkData(Head(q), ndefLen - |data|).value;
      ChunkReadsStayInFile(Tail(q), ndefLen, data + more, k - 1);
    }
  }

  /** A message read is never empty and never longer than the buffer, and
      it is what the chunks brought in order. */
  lemma SessionFileFits(q: seq<Reply>)
    ensures var f := ReadSession(q).file;
      f.Some? ==> 1 <= |f.value| <= NDEF_DATA_MAX
  {
  }

  /** A response to SELECT of the application with an error status is not
      retried: the session ends after that one command, with nothing read. */
  lemma NoRetryOnStatus(q: seq<Reply>)
    requires q != [] && q[0].Data? && !IsSuccess(q[0].bytes)
    ensures ReadSession(q) == Session([SELECT_APP_APDU], None, q[1..])
  {
  }

  /** Three transport errors in a row use up the retries: the session sends
      the SELECT of the application three times and nothing else. */
  lemma RetriesExhausted(q: seq<Reply>)
    requires Nth(q, 0).TransportError? && Nth(q, 1).TransportError? && Nth(q, 2).TransportError?
    ensures var s := ReadSession(q);
      && s.file == None && s.rest == Skip(q, MAX_RETRIES)
      && |s.sent| == MAX_RETRIES && forall i :: 0 <= i < |s.sent| ==> s.sent[i] == SELECT_APP_APDU
  {
    var q1 := Tail(q);
    var q2 := Tail(q1);
    NthTail(q, 0);
    NthTail(q, 1);
    NthTail(q1, 0);
    assert SelectAid(q2, 2) == AidResult(false, 1, Tail(q2));
    SelectAidAttempts(q, 0);
  }

  // A tag that follows the NFC Forum Type 4 mapping and holds `file`.

  const STATUS_OK: seq<byte> := [SW1_SUCCESS, SW2_SUCCESS]

  /** A capability container of mapping version 2.0 whose NDEF file
      control TLV names file E104. */
  const CC_FILE: seq<byte> := [0x00, 0x0F, 0x20, 0x00, 0x3B, 0x00, 0x34, 0x04, 0x06, 0xE1, 0x04, 0x04, 0x00, 0x00, 0x00]

  /** The tag's answers to READ BINARY of the message from offset
      2 + `done`, in chunks of min(128, remaining) bytes. */
  function FileReplies(file: seq<byte>, done: nat): seq<Reply>
    requires done <= |file|
    decreases |file| - done
  {
    if done == |file| then []
    else
      var n := Min(CHUNK_MAX, |file| - done);
      [Data(file[done..done + n] + STATUS_OK)] + FileReplies(file, done + n)
  }

  /** The replies of a compliant tag holding the message `file`: the two
      SELECTs and the READ of the capability container, the SELECT of the
      NDEF file, the READ of its length, then the chunks. */
  function CompliantTag(file: seq<byte>): seq<Reply>
    requires |file| <= NDEF_DATA_MAX
  {
    [Data(STATUS_OK), Data(STATUS_OK), Data(CC_FILE + STATUS_OK), Data(STATUS_OK),
     Data([(|file| / 0x100) as byte, (|file| % 0x100) as byte] + STATUS_OK)]
    + FileReplies(file, 0)
  }

  /** Reading a compliant tag's chunks from offset `done` brings in the rest
      of the message and uses up exactly its replies. */
  lemma {:induction false} ReadsWholeFile(file: seq<byte>, done: nat)
    requires done <= |file| <= NDEF_DATA_MAX
    ensures var r := ReadChunks(FileReplies(file, done), |file|, file[..done]);
      r.data == file && r.rest == []
    decreases |file| - done
  {
    if done == |file| {
      assert file[..done] == file;
    } else {
      var n := Min(CHUNK_MAX, |file| - done);
      var q := FileReplies(file, done);
      var b := file[done..done + n] + STATUS_OK;
      assert Head(q) == Data(b) && Tail(q) == FileReplies(file, done + n);
      assert b[..Min(|b| - 2, |file| - done)] == file[done..done + n];
      assert file[..done] + file[done..done + n] == file[..done + n];
      ReadsWholeFile(file, done + n);
    }
  }

  /** A compliant tag's whole message is read. */
  lemma CompliantTagRead(file: seq<byte>)
    requires 1 <= |file| <= NDEF_DATA_MAX
    ensures ReadSession(CompliantTag(file)).file == Some(file)
    ensures ReadSession(CompliantTag(file)).rest == []
  {
    var q := CompliantTag(file);
    var tail := FileReplies(file, 0);
    assert SelectAid(q, 0) == AidResult(true, 1, q[1..]);
    var r := q[4];
    assert LengthAccepted(r) && DeclaredLength(r) == |file|;
    assert Tail(Tail(q[1..])) == q[3..];
    assert Tail(Tail(q[3..])) == tail;
    assert OpenFile(q[1..]).ndefLen == |file| && OpenFile(q[1..]).rest == tail;
    ReadsWholeFile(file, 0);
    assert file[..0] == [];
  }

  /** End to end: the text read from a compliant tag holding an encoded
      NDEF message is the text of its records, cut to fit the buffer. */
  lemma Type4RoundTrip(rs: seq<Ndef.Record>)
    requires Ndef.AllWellFormed(rs) && Ndef.EndsAtLast(rs)
    requires 4 <= |Ndef.EncodeMessage(rs)| <= NDEF_DATA_MAX
    ensures SessionText(CompliantTag(Ndef.EncodeMessage(rs))) == Ndef.Truncate(Ndef.Texts(rs), NDEF_MAX_LEN - 1)
  {
    var m := Ndef.EncodeMessage(rs);
    CompliantTagRead(m);
    Ndef.RawRoundTrip(rs, [], NDEF_MAX_LEN);
    assert m + [] == m;
  }
}
