/** Command and response APDUs of the Type 4 NDEF session (short form of
    ISO/IEC 7816-4): the three command builders, which fill a transmit buffer,
    the status-word check on a response, and a decoder that reads a command
    back into its header, data field and expected response length. */
module Apdu {
  import opened Bytes

  /** The NFC Forum Type 4 NDEF application identifier. */
  const NDEF_AID: seq<byte> := [0xD2, 0x76, 0x00, 0x00, 0x85, 0x01, 0x01]
  const FILE_ID_CC: uint16 := 0xE103
  const FILE_ID_NDEF: uint16 := 0xE104

  const CLA_DEFAULT: byte := 0x00
  const INS_SELECT: byte := 0xA4
  const INS_READ_BINARY: byte := 0xB0
  /** P1 of SELECT: by application name, or by file identifier. */
  const P1_BY_NAME: byte := 0x04
  const P1_BY_FILE_ID: byte := 0x00
  /** P2 of SELECT by file identifier: first or only occurrence, no response data. */
  const P2_FIRST_NO_DATA: byte := 0x0C

  const SW1_SUCCESS: byte := 0x90
  const SW2_SUCCESS: byte := 0x00

  /** A decoded command: header, data field (`Lc` is its length) and the
      expected response length `Le` (1..256; the byte 0 stands for 256). */
  datatype Command = Command(cla: byte, ins: byte, p1: byte, p2: byte, data: seq<byte>, le: Option<nat>)

  /** A command a short APDU can carry. */
  predicate ShortCommand(c: Command)
  {
    |c.data| < 0x100 && (c.le.Some? ==> 1 <= c.le.value <= 0x100)
  }

  /** The wire form of a short command: header, then `Lc` and the data when
      there is data, then `Le` when a response is expected. */
  function Encode(c: Command): (apdu: seq<byte>)
    requires ShortCommand(c)
    ensures 4 <= |apdu| <= 6 + |c.data|
  {
    [c.cla, c.ins, c.p1, c.p2]
    + (if c.data == [] then [] else [|c.data| as byte] + c.data)
    + (match c.le case None => [] case Some(n) => [(n % 0x100) as byte])
  }

  /** Reads a short command back: four header bytes alone (no data, no
      response), five (only `Le`), `5 + Lc` (only data) or `6 + Lc` (data and
      `Le`). A zero `Lc` and any other length are not short commands. */
  function Decode(apdu: seq<byte>): (c: Option<Command>)
    ensures c.Some? ==> ShortCommand(c.value)
  {
    if |apdu| < 4 then None
    else if |apdu| == 4 then Some(Command(apdu[0], apdu[1], apdu[2], apdu[3], [], None))
    else if |apdu| == 5 then Some(Command(apdu[0], apdu[1], apdu[2], apdu[3], [], Some(LeValue(apdu[4]))))
    else
      var lc := apdu[4] as nat;
      if lc == 0 then None
      else if |apdu| == 5 + lc then Some(Command(apdu[0], apdu[1], apdu[2], apdu[3], apdu[5..], None))
      else if |apdu| == 6 + lc then
        Some(Command(apdu[0], apdu[1], apdu[2], apdu[3], apdu[5..5 + lc], Some(LeValue(apdu[5 + lc]))))
      else None
  }

  function LeValue(b: byte): (n: nat)
    ensures 1 <= n <= 0x100 && n % 0x100 == b
  {
    if b == 0 then 0x100 else b
  }

  /** Every short command reads back from its wire form. */
  lemma DecodeEncode(c: Command)
    requires ShortCommand(c)
    ensures Decode(Encode(c)) == Some(c)
  {
    var apdu := Encode(c);
    if c.data != [] {
      assert apdu[5..5 + |c.data|] == c.data;
      if c.le.None? {
        assert apdu[5..] == c.data;
      }
    }
  }

  /** And every wire form that decodes is the encoding of what it decodes to:
      the two are inverse on short commands. */
  lemma EncodeDecode(apdu: seq<byte>)
    requires Decode(apdu).Some?
    ensures Encode(Decode(apdu).value) == apdu
  {
    var c := Decode(apdu).value;
    if |apdu| > 5 {
      var lc := apdu[4] as nat;
      if |apdu| == 5 + lc {
        assert apdu == apdu[..4] + [apdu[4]] + apdu[5..];
      } else {
        assert apdu == apdu[..4] + [apdu[4]] + apdu[5..5 + lc] + [apdu[5 + lc]];
      }
    } else if |apdu| == 4 {
      assert apdu == [apdu[0], apdu[1], apdu[2], apdu[3]];
    } else {
      assert LeValue(apdu[4]) % 0x100 == apdu[4] as int;
      assert apdu == [apdu[0], apdu[1], apdu[2], apdu[3]] + [apdu[4]];
    }
  }

  /** SELECT of the NDEF application by name, with no `Le`. */
  function SelectApp(): (c: Command)
    ensures ShortCommand(c) && c.ins == INS_SELECT && c.data == NDEF_AID
  {
    Command(CLA_DEFAULT, INS_SELECT, P1_BY_NAME, 0x00, NDEF_AID, None)
  }

  /** SELECT of an elementary file by its identifier, carried big-endian in
      the data field, with no `Le`. */
  function SelectFile(fileId: uint16): (c: Command)
    ensures ShortCommand(c) && c.ins == INS_SELECT && c.p1 == P1_BY_FILE_ID
    ensures |c.data| == 2 && Be16(c.data[0], c.data[1]) == fileId
  {
    Command(CLA_DEFAULT, INS_SELECT, P1_BY_FILE_ID, P2_FIRST_NO_DATA, [fileId / 0x100, fileId % 0x100], None)
  }

  /** READ BINARY of `length` bytes at `offset`, the offset carried
      big-endian in P1-P2. */
  function ReadBinary(offset: uint16, length: byte): (c: Command)
    requires length > 0
    ensures ShortCommand(c) && c.ins == INS_READ_BINARY && c.data == []
    ensures Be16(c.p1, c.p2) == offset && c.le == Some(length as nat)
  {
    Command(CLA_DEFAULT, INS_READ_BINARY, offset / 0x100, offset % 0x100, [], Some(length as nat))
  }

  /** The firmware's byte buffer, used here only for whole bytes. */
  class Buffer {
    var bytes: seq<byte>

    constructor()
      ensures bytes == []
    {
      bytes := [];
    }

    method Reset()
      modifies this
      ensures bytes == []
    {
      bytes := [];
    }

    method Append(b: byte)
      modifies this
      ensures bytes == old(bytes) + [b]
    {
      bytes := bytes + [b];
    }

    method AppendBytes(s: seq<byte>)
      modifies this
      ensures bytes == old(bytes) + s
    {
      bytes := bytes + s;
    }
  }

  /** Fills `tx` with SELECT of the NDEF application. */
  method BuildSelectApp(tx: Buffer)
    modifies tx
    ensures tx.bytes == Encode(SelectApp())
  {
    tx.Reset();
    tx.Append(CLA_DEFAULT);
    tx.Append(INS_SELECT);
    tx.Append(P1_BY_NAME);
    tx.Append(0x00);
    tx.Append(|NDEF_AID| as byte);
    tx.AppendBytes(NDEF_AID);
    DecodeEncode(SelectApp());
  }

  /** Fills `tx` with SELECT of the file `fileId`. */
  method BuildSelectFile(tx: Buffer, fileId: uint16)
    modifies tx
    ensures tx.bytes == Encode(SelectFile(fileId))
  {
    tx.Reset();
    tx.Append(CLA_DEFAULT);
    tx.Append(INS_SELECT);
    tx.Append(P1_BY_FILE_ID);
    tx.Append(P2_FIRST_NO_DATA);
    tx.Append(0x02);
    tx.Append(fileId / 0x100);
    tx.Append(fileId % 0x100);
    DecodeEncode(SelectFile(fileId));
  }

  /** Fills `tx` with READ BINARY of `length` bytes at `offset`. */
  method BuildReadBinary(tx: Buffer, offset: uint16, length: byte)
    requires length > 0
    modifies tx
    ensures tx.bytes == Encode(ReadBinary(offset, length))
  {
    tx.Reset();
    tx.Append(CLA_DEFAULT);
    tx.Append(INS_READ_BINARY);
    tx.Append(offset / 0x100);
    tx.Append(offset % 0x100);
    tx.Append(length);
    DecodeEncode(ReadBinary(offset, length));
  }

  /** A response succeeded when it ends with the status word 90 00. */
  function IsSuccess(rx: seq<byte>): (ok: bool)
    ensures ok ==> |rx| >= 2
  {
    |rx| >= 2 && rx[|rx| - 2] == SW1_SUCCESS && rx[|rx| - 1] == SW2_SUCCESS
  }

  /** Every response of at least two bytes is a body and a status word; it
      succeeds exactly when that word is 90 00, whatever the body. */
  lemma SuccessOfStatus(body: seq<byte>, sw1: byte, sw2: byte)
    ensures IsSuccess(body + [sw1, sw2]) <==> sw1 == SW1_SUCCESS && sw2 == SW2_SUCCESS
  {
  }
}
