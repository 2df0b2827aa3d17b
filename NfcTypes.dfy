/** Values shared by the three NFC readers: the protocols the firmware's
    scanner reports, the error codes of a read, the reader states, and the
    data a poller hands to its callback. */
module NfcTypes {
  import opened Bytes

  /** Longest UID kept from a tag. */
  const UID_MAX_LEN: nat := 10
  /** Size of the NDEF text buffer of a read. */
  const NDEF_MAX_LEN: nat := 1024
  /** Largest NDEF area handed to a parser (Type 2 and Type 5 tags, and the
      clamp on a Type 4 file). */
  const NDEF_DATA_MAX: nat := 1024

  datatype Protocol = Invalid | Iso14443_3a | Iso14443_4a | MfUltralight | Iso15693_3 | OtherProtocol(id: nat)

  datatype NfcError = NoError | NotForumCompliant | UnsupportedType | NoTextRecord

  /** The reader states; the UID-only readers never use `Error`. */
  datatype State = Idle | Scanning | TagDetected | Polling | Success | Error

  /** What a poller callback tells the poller: keep going, or stop polling. */
  datatype PollerCommand = Continue | Stop

  /** The kind of a poller event: the tag is ready (for MIFARE Ultralight:
      the read succeeded), the poll failed, the Ultralight poller asks for
      its mode, or anything else. */
  datatype EventKind = Ready | Failed | RequestMode | OtherKind

  /** A poller event: the protocol layer that raised it and its kind. */
  datatype PollerEvent = PollerEvent(protocol: Protocol, kind: EventKind)

  /** Whether a poller event ends the poll: a ready or a failed event of the
      poller's own protocol. */
  predicate Ends(ev: PollerEvent, p: Protocol)
  {
    ev.protocol == p && (ev.kind == Ready || ev.kind == Failed)
  }

  /** What the poller's data accessor returns for each protocol. `base` is
      the ISO 14443-3A layer (absent when the firmware returns NULL) and a UID is
      its bytes up to the tag's own `uid_len`. */
  datatype PollerData =
    | Iso3aData(uid: seq<byte>)
    | Iso4aData(base: Option<seq<byte>>)
    | UltralightData(ultralightBase: Option<seq<byte>>, pagesRead: nat, pages: seq<byte>)
    | Iso15693Data(uid15: seq<byte>, blocks: Option<seq<byte>>)

  /** The firmware's guarantees on poller data: a UID length fits its
      `uint8_t` field, an ISO 15693 UID is eight bytes, and every page the
      Ultralight poller counts as read is in its page array. */
  predicate WellFormedData(d: PollerData)
  {
    match d
    case Iso3aData(uid) => |uid| < 0x100
    case Iso4aData(base) => base.Some? ==> |base.value| < 0x100
    case UltralightData(base, pagesRead, pages) =>
      (base.Some? ==> |base.value| < 0x100) && pagesRead < 0x1_0000 && 4 * pagesRead <= |pages|
    case Iso15693Data(uid, _) => |uid| == 8
  }

  /** The UID kept from a tag: at most `UID_MAX_LEN` leading bytes. */
  function ClampUid(uid: seq<byte>): (kept: seq<byte>)
    ensures kept <= uid && |kept| == Min(|uid|, UID_MAX_LEN)
  {
    if |uid| > UID_MAX_LEN then uid[..UID_MAX_LEN] else uid
  }
}
