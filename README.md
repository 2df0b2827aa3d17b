# Flipper Wedge: tag reading, NDEF text and output formatting

This project models the tag-reading core of Flipper Wedge, a Flipper Zero
application. The application reads a contactless tag and types its UID, and
optionally the tag's NDEF text, as a USB or Bluetooth keyboard. It is written
in Dafny and proved with its verifier.

Modules and what they model:

- `Ndef`: the two NDEF text extractors of `helpers/flipper_wedge_nfc.c`.
  - The raw-message parser, used for Type 4 files.
  - The TLV front end, used for Type 2 and Type 5 tag memory.
  - One record loop, shared by both. It decodes the MB/ME/SR/IL/TNF header, a
    one- or four-byte payload length and an optional ID length, and collects
    the text of every NFC Forum Text record.
  - An encoder for records, messages and TLV blocks, with round-trip lemmas
    against it.
- `Apdu`: the three command builders of the Type 4 session, each filling a
  transmit buffer:
  - SELECT of the NDEF application;
  - SELECT of a file by identifier;
  - READ BINARY.

  The module also holds the `90 00` status check and a short-APDU decoder
  that is the builders' inverse.
- `Type4`: the Type 4 NDEF session.
  - The steps: select the application (retried), select and read the
    capability container, select the NDEF file, read its length, read it in
    chunks, parse it.
  - The tag is a queue of replies; an empty queue answers every further
    exchange with a transport error.
  - The session is a pure function of that queue. The firmware's imperative
    version is proved equal to it.
- `Selector`: the scanner callback's choice of protocol, and its parent
  fallback.
- `ReaderControl`: the control state shared by the three readers:
  - the state (Idle, Scanning, TagDetected, Polling, Success, Error);
  - which firmware handle is live (scanner or poller);
  - the detected protocol.

  Every operation of the readers is one of its transitions.
- `WedgeNfc`: the NFC/NDEF reader. A class with the four poller callbacks
  (ISO 14443-3A, ISO 14443-4A, MIFARE Ultralight, ISO 15693), the scanner
  callback, `start`, `stop`, `tick` and `is_scanning`.
- `UidNfc`: the UID-only readers of `helpers/hid_device_nfc.c` and
  `helpers/hid_reader_nfc.c`. They are one class; a constant says whether the
  scanner falls back to parent protocols (the `hid_device` reader) or not
  (the `hid_reader` reader).
- `Format`: `format_uid`, `format_output` and `sanitize_text`.
  `helpers/hid_reader_format.c` is the same code as the first 120 lines of
  `helpers/flipper_wedge_format.c`.
- `KeyboardLayout`: the 128-entry character-to-keycode table.
  - `set_default`, `set_numpad`, `get_keycode` and `type_name`.
  - `load`, over an abstract view of the file it reads.
  - The keycode-value rule, including C's `strtoul` on a 32-bit target.
- `MenuEvent`: the custom menu events' pack and unpack. The two
  `*_custom_event.h` headers are identical apart from their names.
- `NfcTypes`, `Bytes`: shared values and fixed-width integers. The target is
  32-bit, so `size_t` wraps modulo 2^32.

Where comments and code disagree, the model follows the code:

- The Type 4 session reports `NoTextRecord` for every failure. The comment
  at `helpers/flipper_wedge_nfc.c:674-677` promises `UnsupportedType` when
  the NDEF application is missing.
- The selector's stated priority holds only for MIFARE Ultralight, which
  wins wherever it appears. Among ISO 14443-4A, ISO 15693 and ISO 14443-3A,
  the first in the scanner's list wins (`Selector.FirstInListWins`).
- The TLV parser walks the records up to the end of the TLV block and ignores
  Message End. The raw parser stops after the record that carries it.

Other behaviour the model keeps:

- The 4A callback always runs the Type 4 read. Without NDEF requested, a
  failed read is not an error.
- A ready 4A tag whose UID is empty stops the poll without an outcome, so the
  reader stays in Polling until `stop`. The UID-only readers do the same for
  every failure, since they have no Error state (`ReaderControl.PollingStalls`).
- An ISO 15693 tag whose blocks were not read gives a UID, no text and no
  error.

## Model

| member | source | states |
|---|---|---|
| MenuEvent.Pack | helpers/hid_device_custom_event.h:29-42 | the packed word holds the type in its low 16 bits and the value's two's complement in its high 16 bits |
| MenuEvent.Unpack | helpers/hid_device_custom_event.h:43-48 | a NULL out-parameter suppresses only its own write; the other half is still written |
| MenuEvent.GetType | helpers/hid_device_custom_event.h:50-54 | the type is the low half of the packed word |
| MenuEvent.GetValue | helpers/hid_device_custom_event.h:56-60 | the value is the signed reading of the high half |
| MenuEvent.TypeRoundTrip | helpers/hid_device_custom_event.h:39-54 | get_type(pack(t, v)) == t for every uint16 t |
| MenuEvent.ValueRoundTrip | helpers/hid_device_custom_event.h:39-60 | get_value(pack(t, v)) == v for every int16 v, negative ones included |
| MenuEvent.UnpackRoundTrip | helpers/hid_device_custom_event.h:39-48 | unpack(pack(t, v)) writes exactly t and v, and skips a NULL out-parameter; helpers/hid_reader_custom_event.h has the same lines |
| MenuEvent.PackBijective | helpers/hid_device_custom_event.h:29-42 | pack is injective, and every uint32 is the packing of the pair read back from it; helpers/hid_reader_custom_event.h has the same lines |
| Bytes.BeRoundTrip | helpers/flipper_wedge_nfc.c:91-95 | a value that fits n bytes, written big-endian, reads back as itself; this is what the four-byte payload length relies on |
| Format.HexJoinLength | helpers/flipper_wedge_format.c:22-33 | rendering n bytes with delimiter d takes 2n + \|d\|(n-1) characters |
| Format.RenderBytes | helpers/flipper_wedge_format.c:19-34 | the loop leaves the UID text in the buffer: whole bytes while they fit, and a position below the buffer size |
| Format.FormatUid | helpers/flipper_wedge_format.c:5-37 | writes the NUL-terminated UID text and nothing past it; a null or empty UID gives the empty string; helpers/hid_reader_format.c:5-37 is the same code |
| Format.UidTextBound | helpers/flipper_wedge_format.c:22-36 | a non-empty rendering ends at or before size - 2, so the terminator always fits |
| Format.UidTextComplete | helpers/flipper_wedge_format.c:22-34 | when the last byte fits, the whole UID is rendered |
| Format.UidTextWholeBytes | helpers/flipper_wedge_format.c:22-34 | truncation drops whole bytes: the text is the rendering of a prefix of the UID |
| Format.HexJoinEndsWithPair | helpers/flipper_wedge_format.c:24-33 | a rendering ends with the last byte's hex pair, never with a delimiter |
| Format.HexRoundTrip | helpers/flipper_wedge_format.c:30-33 | the upper-case hex rendering reads back to the UID |
| Format.HexJoinNoNul | helpers/flipper_wedge_format.c:62-63 | the rendering holds no NUL, so the strlen that follows measures all of it |
| Format.AppendPiece | helpers/flipper_wedge_format.c:63-67 | a piece is appended whole when pos + len < size, and otherwise not at all |
| Format.AppendUid | helpers/flipper_wedge_format.c:61-67 | a UID is rendered into the 64-byte scratch buffer and appended by the whole-piece rule |
| Format.AppendNfc | helpers/flipper_wedge_format.c:61-77 | the NFC UID, then the non-empty NDEF text right after it with no delimiter, each by the whole-piece rule |
| Format.AppendRfid | helpers/flipper_wedge_format.c:80-87 | the RFID UID, by the whole-piece rule |
| Format.FormatOutput | helpers/flipper_wedge_format.c:39-120 | writes the NUL-terminated output text and nothing past it; a zero-size buffer is left alone; helpers/hid_reader_format.c:39-120 is the same code |
| Format.OutputBound | helpers/flipper_wedge_format.c:50-119 | the output is always shorter than the buffer, so the terminator fits |
| Format.OutputWholePieces | helpers/flipper_wedge_format.c:59-117 | the output is the concatenation of some of the pieces, in order; none is cut |
| Format.OutputOrder | helpers/flipper_wedge_format.c:59-117 | with room for everything: NFC, NDEF, RFID when nfc_first, else RFID, NFC, NDEF, with no separators |
| Format.NdefNeedsNfcUid | helpers/flipper_wedge_format.c:61-77 | without an NFC UID the NDEF text never appears |
| Format.AppendAllKeepsWholePieces | helpers/flipper_wedge_format.c:64-116 | the append chain keeps a subsequence of the pieces and concatenates exactly those |
| Format.EffectiveMax | helpers/flipper_wedge_format.c:137-142 | max_len, with 0 meaning the whole buffer, is capped below the buffer size |
| Format.SanitizeText | helpers/flipper_wedge_format.c:122-160 | copies, in order, the typeable characters up to the limit, NUL-terminates them and returns their number; a zero-size buffer gives 0 |
| Format.SanitizedTypeable | helpers/flipper_wedge_format.c:144-156 | every character kept is 0x20..0x7E, tab or newline, and there are at most the limit of them |
| Format.SanitizeKeepsTypeable | helpers/flipper_wedge_format.c:144-156 | typeable text within the limit passes unchanged |
| Format.SanitizeIdempotent | helpers/flipper_wedge_format.c:144-156 | sanitising twice is sanitising once |
| Ndef.ReadLengths | helpers/flipper_wedge_nfc.c:71-102 | the header fields are read only while in bounds; the type starts past the three-byte minimum header, and the payload length fits 32 bits |
| Ndef.ReadRecord | helpers/flipper_wedge_nfc.c:71-116 | a record decodes only if its type, ID and payload lie within the buffer, and the walk moves at least three bytes forward |
| Ndef.TextOf | helpers/flipper_wedge_nfc.c:119-145 | the text of a record is empty or a proper suffix of its payload |
| Ndef.FindNdefTlv | helpers/flipper_wedge_nfc.c:173-193 | a block found lies after the scan's start and within the buffer, and is non-empty; which block is found is stated by ScanPassesOver, SkipBlock, SkipRun, FindBlockAt and FindEncodedTlv |
| Ndef.ScanPassesOver | helpers/flipper_wedge_nfc.c:182-193 | a block that is not a non-empty NDEF block within the buffer (another type, an empty or an overlong NDEF block) is skipped by its length, and the scan finds nothing when the block reaches the end of the data |
| Ndef.SkipBlock | helpers/flipper_wedge_nfc.c:173-193 | a NULL byte, or a block of another type or an empty NDEF block, with a one- or three-byte length, sitting at a position is passed over: the scan from there finds what the scan from just past the block finds, whatever the value bytes and whatever follows |
| Ndef.BlockAtHeader | helpers/flipper_wedge_nfc.c:182-189 | the type and length bytes the scan reads for a block are exactly the TLV header of its type and length (one-byte length below 0xFF, else 0xFF and a big-endian 16-bit length), in both directions |
| Ndef.SkipRun | helpers/flipper_wedge_nfc.c:173-193 | the same for any run of such blocks laid one after the other: the scan goes on past the whole run |
| Ndef.FindBlockAt | helpers/flipper_wedge_nfc.c:182-190 | a non-empty NDEF block whose value fits is the block found, with the value's bounds, for one- and three-byte lengths |
| Ndef.WalkRecords | helpers/flipper_wedge_nfc.c:71-150 | the record loop leaves the text of the records walked, cut to leave the last byte free, and touches nothing past it |
| Ndef.RecordStep | helpers/flipper_wedge_nfc.c:71-146 | one pass decodes a record, appends its text as far as it fits and advances, or stops the walk |
| Ndef.CopyClamped | helpers/flipper_wedge_nfc.c:136-144 | a text is copied only as far as the byte before the buffer's end |
| Ndef.ParseRawNdefText | helpers/flipper_wedge_nfc.c:62-161 | returns the length of the NUL-terminated text of the records up to Message End; input under 4 bytes leaves the buffer untouched and returns 0 |
| Ndef.TlvStep | helpers/flipper_wedge_nfc.c:173-193 | one pass of the TLV scan either settles the result or moves forward to the next block |
| Ndef.ParseTlvNdefText | helpers/flipper_wedge_nfc.c:164-283 | returns the length of the NUL-terminated text of the first fitting NDEF TLV; input under 4 bytes returns 0 |
| Ndef.ReadEncodedRecord | helpers/flipper_wedge_nfc.c:71-116 | every well-formed record reads back from its encoding, wherever it lies in the buffer |
| Ndef.WalkMessage | helpers/flipper_wedge_nfc.c:71-150 | walking an encoded message yields its records' texts in order |
| Ndef.RawRoundTrip | helpers/flipper_wedge_nfc.c:62-161 | a message whose last record carries Message End yields its texts cut to max - 1, whatever follows it |
| Ndef.FindEncodedTlv | helpers/flipper_wedge_nfc.c:173-193 | after any run of skippable blocks, the NDEF block's value bounds are found, for one- and three-byte lengths |
| Ndef.TlvRoundTrip | helpers/flipper_wedge_nfc.c:164-283 | memory holding a run of skippable blocks (NULL bytes, other TLVs, empty NDEF TLVs), then an NDEF TLV holding a message, then anything: the parser yields the message's texts cut to max - 1 |
| Ndef.TextOfTextRecord | helpers/flipper_wedge_nfc.c:119-135 | a Text record's text is what follows the status byte and the language code |
| Ndef.RawTextRecord | helpers/flipper_wedge_nfc.c:62-161 | a file holding one Text record yields its text |
| Ndef.TlvTwoTextRecords | helpers/flipper_wedge_nfc.c:197-265 | two Text records inside a TLV after any skippable blocks, neither flagged Message End, yield both texts concatenated |
| Ndef.NextAsWritten | helpers/flipper_wedge_nfc.c:105-116 | the loop's bound checks and advances in 32-bit size_t never move past the buffer |
| Ndef.NextAsWrittenAgrees | helpers/flipper_wedge_nfc.c:105-116 | wherever the unbounded reading decodes a record, the 32-bit loop moves to the same place |
| Ndef.PayloadLengthWraps | helpers/flipper_wedge_nfc.c:114-116 | the input 01 00 FF FF FF FA sends the 32-bit loop back to position 0 on a record without Message End |
| Ndef.TextPayloadWraps | helpers/flipper_wedge_nfc.c:104-123 | the input 01 01 FF FF FF F9 'T' passes every bound check in 32 bits with the Text record's payload starting at the buffer's end, so the status byte is read past it, and the loop returns to 0 |
| Apdu.DecodeEncode | helpers/flipper_wedge_nfc.c:299-334 | every short command reads back from its wire form |
| Apdu.EncodeDecode | helpers/flipper_wedge_nfc.c:299-334 | every wire form that decodes is the encoding of what it decodes to |
| Apdu.SelectApp | helpers/flipper_wedge_nfc.c:299-308 | SELECT by name of the NDEF application D2 76 00 00 85 01 01, with no Le |
| Apdu.SelectFile | helpers/flipper_wedge_nfc.c:311-321 | SELECT by file identifier, with the identifier big-endian in the data field |
| Apdu.ReadBinary | helpers/flipper_wedge_nfc.c:324-334 | READ BINARY with the offset big-endian in P1-P2 and the length as Le |
| Apdu.BuildSelectApp | helpers/flipper_wedge_nfc.c:299-308 | the transmit buffer holds exactly the encoding of SELECT of the application |
| Apdu.BuildSelectFile | helpers/flipper_wedge_nfc.c:311-321 | the transmit buffer holds exactly the encoding of SELECT of the file |
| Apdu.BuildReadBinary | helpers/flipper_wedge_nfc.c:324-334 | the transmit buffer holds exactly the encoding of READ BINARY |
| Apdu.IsSuccess | helpers/flipper_wedge_nfc.c:288-296 | a successful response has at least the two status bytes |
| Apdu.SuccessOfStatus | helpers/flipper_wedge_nfc.c:288-296 | a response succeeds exactly when its last two bytes are 90 00, whatever the body |
| Type4.FixedCommands | helpers/flipper_wedge_nfc.c:299-334 | the session's fixed commands are byte for byte 00 A4 04 00 07 D2 76 00 00 85 01 01, 00 A4 00 0C 02 E1 03, 00 B0 00 00 0F, 00 A4 00 0C 02 E1 04 and 00 B0 00 00 02 |
| Type4.SelectAidAttempts | helpers/flipper_wedge_nfc.c:354-389 | SELECT of the application is sent at least once and at most three times, and each attempt uses up one reply |
| Type4.SelectAidRetries | helpers/flipper_wedge_nfc.c:354-389 | only a transport error leads to another attempt |
| Type4.SelectAidOutcome | helpers/flipper_wedge_nfc.c:354-395 | the application is selected exactly when the last attempt's response ends 90 00; an early stop means a response arrived |
| Type4.SelectApplication | helpers/flipper_wedge_nfc.c:354-395 | the retry loop sends and decides exactly as the attempts above |
| Type4.CheckCapabilityContainer | helpers/flipper_wedge_nfc.c:397-447 | the CC is accepted only if both exchanges succeed, at least 15 bytes come back and the mapping version is 0x10..0x30 |
| Type4.FindLength | helpers/flipper_wedge_nfc.c:451-492 | the message length found never exceeds 1024 |
| Type4.ReadNdefLength | helpers/flipper_wedge_nfc.c:451-492 | selects E104, reads two bytes and clamps the big-endian length to 1024; 0 after a failed step or a response under 4 bytes |
| Type4.ReadChunks | helpers/flipper_wedge_nfc.c:501-524 | the bytes read extend those before and never exceed the clamped length; nothing is sent once all of it is in |
| Type4.ChunkData | helpers/flipper_wedge_nfc.c:505-521 | a chunk adds between 1 and the missing number of bytes, or stops the loop |
| Type4.ChunkPass | helpers/flipper_wedge_nfc.c:501-524 | one pass sends the next READ BINARY, consumes one reply and copies what it adds, or stops |
| Type4.CopyChunk | helpers/flipper_wedge_nfc.c:519-521 | the copy keeps only the bytes still missing, appended after those already read |
| Type4.ReadNdefChunks | helpers/flipper_wedge_nfc.c:496-524 | the chunk loop reads exactly what the chunk specification reads, and sends its commands |
| Type4.ParseFile | helpers/flipper_wedge_nfc.c:540-556 | the read succeeds exactly when the raw parse of the file yields text, which is left NUL-terminated in the buffer |
| Type4.ReadType4Ndef | helpers/flipper_wedge_nfc.c:337-564 | sends what the session specification sends; success with NoError exactly when text is found, NoTextRecord for every failure |
| Type4.ChunkReadsStayInFile | helpers/flipper_wedge_nfc.c:501-524 | every chunk command is a READ BINARY of 1 to 128 bytes, starting at 2 + bytes read and ending inside the message |
| Type4.SessionFileFits | helpers/flipper_wedge_nfc.c:489-530 | a file read is non-empty and at most 1024 bytes |
| Type4.NoRetryOnStatus | helpers/flipper_wedge_nfc.c:354-395 | an error status to SELECT of the application ends the session after that one command |
| Type4.RetriesExhausted | helpers/flipper_wedge_nfc.c:354-395 | three transport errors in a row send SELECT of the application three times and nothing else |
| Type4.ReadsWholeFile | helpers/flipper_wedge_nfc.c:501-524 | a compliant tag's chunks bring in the rest of the message and use up exactly their replies |
| Type4.CompliantTagRead | helpers/flipper_wedge_nfc.c:337-534 | a compliant tag's whole NDEF message is read |
| Type4.Type4RoundTrip | helpers/flipper_wedge_nfc.c:337-564 | the text read from a compliant tag is its message's texts, cut to 1023 bytes |
| NfcTypes.ClampUid | helpers/flipper_wedge_nfc.c:584-593 | the UID kept is the first min(uid_len, 10) bytes |
| Selector.FirstOf | helpers/flipper_wedge_nfc.c:948-967 | the result is a listed protocol of the set, or Invalid exactly when none is listed |
| Selector.Scan | helpers/flipper_wedge_nfc.c:948-967 | the selection loop stops at MIFARE Ultralight, else keeps the first supported protocol it meets |
| Selector.SelectProtocol | helpers/flipper_wedge_nfc.c:945-990 | a direct pass, then the pass over the parents only when nothing matched and the list is non-empty; the UID readers make the same choice with ISO 14443-3A first, then 4A, with fallback in helpers/hid_device_nfc.c:141-185 and without it in helpers/hid_reader_nfc.c:139-166 |
| Selector.FirstOfEarliest | helpers/flipper_wedge_nfc.c:948-967 | the protocol chosen is the earliest listed one of the set |
| Selector.SelectedSupported | helpers/flipper_wedge_nfc.c:945-1011 | the protocol chosen is Invalid or one the reader polls |
| Selector.TopWins | helpers/flipper_wedge_nfc.c:948-967 | MIFARE Ultralight (ISO 14443-3A for the UID readers) wins wherever it is listed |
| Selector.FirstInListWins | helpers/flipper_wedge_nfc.c:948-967 | otherwise the first listed supported protocol wins, whatever the comment's order |
| Selector.SelectedSource | helpers/flipper_wedge_nfc.c:945-990 | the choice comes from the list, or from the parents only when fallback is on and nothing listed is supported |
| Selector.NothingSelected | helpers/flipper_wedge_nfc.c:945-1011 | nothing is chosen exactly when neither the list nor, with fallback, its parents hold a supported protocol |
| UidNfc.FallbackMatters | helpers/hid_reader_nfc.c:131-167 | a tag listing only MIFARE Ultralight is chosen as 3A by the `hid_device` reader, which falls back to parents, and ignored by the `hid_reader` reader, which does not |
| ReaderControl.Start | helpers/flipper_wedge_nfc.c:1089-1129 | acts only from Idle: no poller, no protocol, and Scanning exactly when the scanner was allocated |
| ReaderControl.Stop | helpers/flipper_wedge_nfc.c:1131-1155 | Idle with both handles freed and no protocol |
| ReaderControl.Detect | helpers/flipper_wedge_nfc.c:990-1011 | a choice records the protocol and enters TagDetected; no choice changes nothing |
| ReaderControl.StartPoller | helpers/flipper_wedge_nfc.c:1016-1044 | the scanner is freed; Polling with a poller exactly when one was allocated, else Idle |
| ReaderControl.Finish | helpers/flipper_wedge_nfc.c:605-618 | a poll's outcome changes the state and no handle |
| ReaderControl.Tick | helpers/flipper_wedge_nfc.c:1167-1229 | reports a read exactly from Success, which returns to Idle; Error restarts the scanner; only TagDetected, Error and Success change anything; the UID readers' ticks (helpers/hid_device_nfc.c:337-375, helpers/hid_reader_nfc.c:316-354) use the same transitions except Error |
| ReaderControl.InitialValid | helpers/flipper_wedge_nfc.c:1046-1064 | a freshly allocated reader satisfies the handle invariant |
| ReaderControl.TransitionsKeepValid | helpers/flipper_wedge_nfc.c:1016-1229 | every transition keeps the invariant: scanner live exactly in Scanning and TagDetected, poller exactly in Polling, Success and Error |
| ReaderControl.NeverBothLive | helpers/flipper_wedge_nfc.c:1016-1229 | scanner and poller are never live together |
| ReaderControl.IsScanningStates | helpers/flipper_wedge_nfc.c:1157-1163 | is_scanning is false exactly in Idle and Success; the UID readers' version differs only in Error |
| ReaderControl.PollingStalls | helpers/hid_device_nfc.c:337-375 | tick leaves Polling alone, so a poll without an outcome lasts until stop |
| ReaderControl.ErrorRecovers | helpers/flipper_wedge_nfc.c:1185-1196 | after an error the next tick is back to Scanning with a fresh scanner and no protocol |
| ReaderControl.ReadReportedOnce | helpers/flipper_wedge_nfc.c:1198-1228 | the tick that reports a read returns to Idle, and the next one reports nothing |
| ReaderControl.StopThenStart | helpers/hid_device_nfc.c:260-326 | stop is idempotent, and start after stop always acts |
| ReaderControl.ReadCycle | helpers/flipper_wedge_nfc.c:1089-1229 | start, a detection, a tick, a successful poll and a tick report one read and end where a fresh reader begins |
| WedgeNfc.UltralightArea | helpers/flipper_wedge_nfc.c:753-770 | the parsed area is (pages_read - 4) * 4 bytes from page 4, capped at 1024, all among the pages read |
| WedgeNfc.UltralightText | helpers/flipper_wedge_nfc.c:753-786 | no text unless NDEF was requested and more than four pages were read |
| WedgeNfc.Type5Area | helpers/flipper_wedge_nfc.c:864-884 | an area exists exactly when at least 4 bytes are present and byte 0 is 0xE1; it follows the CC, capped at 1024 |
| WedgeNfc.Type5Text | helpers/flipper_wedge_nfc.c:851-905 | no text unless NDEF was requested and the blocks were read |
| WedgeNfc.TagReader.constructor | helpers/flipper_wedge_nfc.c:1046-1064 | Idle, no handles, no protocol, an all-zero record |
| WedgeNfc.TagReader.Start | helpers/flipper_wedge_nfc.c:1089-1129 | from Idle: stores parse_ndef, zeroes the record and starts the scanner; from any other state nothing changes |
| WedgeNfc.TagReader.Stop | helpers/flipper_wedge_nfc.c:1131-1155 | Idle with both handles freed; the record stays |
| WedgeNfc.TagReader.OnScannerEvent | helpers/flipper_wedge_nfc.c:923-1013 | the selector's choice is recorded and the state becomes TagDetected; no choice changes nothing |
| WedgeNfc.TagReader.Tick | helpers/flipper_wedge_nfc.c:1167-1229 | the reader follows the tick transition and the record is untouched |
| WedgeNfc.TagReader.OnIso3aEvent | helpers/flipper_wedge_nfc.c:566-627 | a ready tag with a UID: Success with the clamped UID, no text, and NotForumCompliant when NDEF was requested; otherwise an ending event gives Error |
| WedgeNfc.TagReader.OnIso4aEvent | helpers/flipper_wedge_nfc.c:629-710 | a ready tag with a UID: Success with the Type 4 session's text; a failed read is an error only when NDEF was requested; an empty UID leaves Polling |
| WedgeNfc.TagReader.Type4Record | helpers/flipper_wedge_nfc.c:654-689 | the record holds the clamped UID and exactly the session's text, NUL-terminated, and has_ndef says whether there is any |
| WedgeNfc.TagReader.OnUltralightEvent | helpers/flipper_wedge_nfc.c:712-822 | a successful read: the clamped UID and, with NDEF requested, the TLV text of the pages read; the mode request is answered with read mode |
| WedgeNfc.TagReader.OnIso15693Event | helpers/flipper_wedge_nfc.c:824-921 | a ready tag: the eight-byte UID and, with NDEF requested and blocks read, the Type 5 text; NoTextRecord when that gives nothing |
| WedgeNfc.UltralightRoundTrip | helpers/flipper_wedge_nfc.c:753-786 | a Type 2 tag whose user memory from page 4 (as far as read, at most 1024 bytes) holds skippable blocks (Lock or Memory Control TLVs, NULL bytes) and then an NDEF TLV yields its message's texts |
| WedgeNfc.Type5RoundTrip | helpers/flipper_wedge_nfc.c:864-895 | a Type 5 tag with an E1 CC followed, within 1024 bytes, by skippable blocks and an NDEF TLV yields its message's texts |
| UidNfc.UidReader.constructor | helpers/hid_device_nfc.c:217-235 | Idle, no handles, no protocol, an all-zero record |
| UidNfc.UidReader.Start | helpers/hid_device_nfc.c:260-300 | from Idle: stores parse_ndef, zeroes the record and starts the scanner; otherwise nothing changes; helpers/hid_reader_nfc.c:239-279 is the same |
| UidNfc.UidReader.Stop | helpers/hid_device_nfc.c:302-326 | Idle with both handles freed; the record stays |
| UidNfc.UidReader.OnScannerEvent | helpers/hid_device_nfc.c:131-188 | the 3A-first choice, with the parents when the reader has fallback, enters TagDetected; no choice changes nothing |
| UidNfc.UidReader.Tick | helpers/hid_device_nfc.c:337-375 | TagDetected starts the poller; Success returns to Idle and reports the read; the record is untouched; helpers/hid_reader_nfc.c:316-354 is the same |
| UidNfc.UidReader.OnIso3aEvent | helpers/hid_device_nfc.c:35-73 | a ready tag with a UID gives Success with the clamped UID and no text; every other case stays Polling; helpers/hid_reader_nfc.c:35-73 is the same |
| UidNfc.UidReader.OnIso4aEvent | helpers/hid_device_nfc.c:75-129 | the same for the 4A layer's UID |
| KeyboardLayout.TypeName | helpers/flipper_wedge_keyboard_layout.c:258-263 | the name is "Unknown" exactly for a type past the enum, since no layout type carries that name; a known type gets its table entry |
| KeyboardLayout.TypeNamesDistinct | helpers/flipper_wedge_keyboard_layout.c:29-33 | every layout type has its own name, none of them "Unknown" |
| KeyboardLayout.NumpadDefinesHexDigits | helpers/flipper_wedge_keyboard_layout.c:55-111 | NumPad defines exactly the 22 hex digit characters, each with a keypad key and no modifier |
| KeyboardLayout.NumpadKeysByValue | helpers/flipper_wedge_keyboard_layout.c:62-110 | two hex digits type the same key exactly when they have the same value |
| KeyboardLayout.Layout.constructor | helpers/flipper_wedge_keyboard_layout.c:35-39 | a new layout is the default layout |
| KeyboardLayout.Layout.SetDefault | helpers/flipper_wedge_keyboard_layout.c:46-53 | every entry undefined, type Default, the default name |
| KeyboardLayout.Layout.SetNumpad | helpers/flipper_wedge_keyboard_layout.c:55-111 | the NumPad table and nothing else, type NumPad |
| KeyboardLayout.Layout.ClearMap | helpers/flipper_wedge_keyboard_layout.c:154 | every entry undefined |
| KeyboardLayout.Layout.MapDigits | helpers/flipper_wedge_keyboard_layout.c:62-82 | each digit maps to its keypad key; every other entry is unchanged |
| KeyboardLayout.Layout.MapLetters | helpers/flipper_wedge_keyboard_layout.c:84-110 | A-F, or a-f, map to the keypad letter keys; every other entry is unchanged |
| KeyboardLayout.StrToUl | helpers/flipper_wedge_keyboard_layout.c:198-202 | strtoul's result never exceeds ULONG_MAX |
| KeyboardLayout.ParseValue | helpers/flipper_wedge_keyboard_layout.c:189-209 | a value is accepted only as a keycode of 1..255, alone or with left shift; when the shift is there is stated by ShiftExactlyWhenMentioned |
| KeyboardLayout.ShiftExactlyWhenMentioned | helpers/flipper_wedge_keyboard_layout.c:193-207 | an accepted value carries left shift exactly when it mentions SHIFT or shift, whether its keycode is decimal or hex |
| KeyboardLayout.DecimalRoundTrip | helpers/flipper_wedge_keyboard_layout.c:197-209 | every keycode 1..255 written in decimal is accepted as itself |
| KeyboardLayout.HexRoundTrip | helpers/flipper_wedge_keyboard_layout.c:197-209 | every keycode 1..255 written as 0x and two hex digits is accepted as itself |
| KeyboardLayout.ShiftedRoundTrip | helpers/flipper_wedge_keyboard_layout.c:192-209 | a decimal keycode followed by " SHIFT" is accepted with the left-shift bit |
| KeyboardLayout.ShiftedHexRoundTrip | helpers/flipper_wedge_keyboard_layout.c:193-207 | a keycode of 1..255 written as 0x and two hex digits followed by a lowercase " shift" reads back with the left-shift bit |
| KeyboardLayout.OutOfRangeRejected | helpers/flipper_wedge_keyboard_layout.c:204 | keycode 0 and keycodes past 255 are rejected |
| KeyboardLayout.NegativeWraps | helpers/flipper_wedge_keyboard_layout.c:201-204 | "-n" is read modulo 2^32 and is accepted when that falls in 1..255 |
| KeyboardLayout.LoadedEntry | helpers/flipper_wedge_keyboard_layout.c:183-211 | only printable characters 32..126 can be defined, and every defined entry holds a valid keycode |
| KeyboardLayout.Bounded | helpers/flipper_wedge_keyboard_layout.c:156-166 | strncpy into a buffer keeps a prefix of at most size - 1 characters |
| KeyboardLayout.Layout.Load | helpers/flipper_wedge_keyboard_layout.c:113-239 | succeeds exactly when the file opens with the right type and a version of at most 1; only then is the map cleared and refilled from the file's values |
| KeyboardLayout.Layout.Keycode | helpers/flipper_wedge_keyboard_layout.c:241-256 | codes of 128 and up give no key, a defined entry its keycode, and an undefined one the firmware's mapping |
| KeyboardLayout.NumpadLookup | helpers/flipper_wedge_keyboard_layout.c:98-110 | in NumPad a lowercase hex letter types its uppercase letter's key, and other characters fall back to the firmware |
| KeyboardLayout.LoadedLookup | helpers/flipper_wedge_keyboard_layout.c:183-256 | in a loaded layout control characters and DEL fall back to the firmware, and an accepted value is what is typed |

## Left out

- The firmware's NFC scanner and pollers are not modelled. In their place the model takes:
  - the scanner's protocol list and the parent relation;
  - the poller's event and data;
  - the ISO-DEP link, as a queue of replies.

  `bit_buffer_*` and `simple_array_*` are sequences.
- Cross-thread callback delivery is not modelled: callbacks are sequential method calls.
- Logging (`FURI_LOG_*`) is not modelled: it has no effect on state.
- The retry delay of `furi_delay_ms` is not modelled: retries are counted, not timed.
- Allocation failure is a parameter of `start` and of the tick's poller start. The scanner restart after an error is assumed to succeed, because the source does not check it.
- `free`, `set_callback` and the application callback itself are not modelled. The tick returns whether a read is reported, and the callback is made then.
- The Ultralight mode request is not modelled as a write into the event. It is returned as `readMode`.
- The size of the UID readers' text buffer is a constructor parameter. `helpers/hid_device_nfc.h` is not part of this model, so its constant is not known here; the reader never writes past byte 0.
- The file I/O of `load` is not modelled. The file is an abstract value: whether it opened, its header, its optional Name, and the values it holds for each character. `path_extract_filename_no_ext` is the parameter `fileStem`.
- The keyboard layout's `list` is not modelled: it is a directory scan over storage.
- The RFID readers, HID typing, the UI, settings storage and logs are not modelled; they are outside the core.
- KeyboardLayout.KEY_MOD_LEFT_SHIFT is taken as the firmware's `1 << 9` (0x200). The firmware header is not part of this model.
- KeyboardLayout.StrToUl reads base 10 and 16 only, as `load` uses it. It does not model `errno`, or a leading "+" combined with "0x".

## Findings

| source | as written | input that shows it | evidently intended | confidence | as-written member | corrected member |
|---|---|---|---|---|---|---|
| helpers/flipper_wedge_nfc.c:114-116 | `pos + payload_len > data_len` and `pos += payload_len` are computed in 32-bit `size_t`, so a huge four-byte payload length wraps. The check passes, a Text record's payload is then read out of bounds (Ndef.TextPayloadWraps), and `pos` moves backwards; the same code is at 239-241. | the six-byte raw message 01 00 FF FF FF FA: 6 + 0xFFFFFFFA wraps to 0, the record has no Message End, and the loop restarts at 0 forever; with a type, 01 01 FF FF FF F9 'T' wraps 7 + 0xFFFFFFF9 to 0 too, and the Text-record branch then reads the status byte and copies text from past the end of the 7-byte buffer | a payload that runs past the buffer ends the walk, as every other field's check does | not executed | Ndef.PayloadLengthWraps | Ndef.NextAsWrittenAgrees |
