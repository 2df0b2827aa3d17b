/** Output formatting: a UID rendered as delimited upper-case hex, the typed
    output assembled from the NFC UID, the NDEF text and the RFID UID, and the
    printable-ASCII sanitiser. Every operation writes into a caller-supplied
    buffer (`output`, of `output.Length` bytes) through a position counter. */
module Format {
  import opened Bytes

  /** Size of the scratch buffer `format_output` renders each UID into. */
  const UID_BUF_SIZE: nat := 64

  /** The upper-case hex digit of a nibble. */
  function HexDigit(d: nat): (c: char)
    requires d < 16
    ensures '0' <= c <= '9' || 'A' <= c <= 'F'
  {
    if d < 10 then ('0' as int + d) as char else ('A' as int + d - 10) as char
  }

  /** `%02X` of one byte. */
  function HexPair(b: byte): (s: seq<char>)
    ensures |s| == 2
  {
    [HexDigit(b / 16), HexDigit(b % 16)]
  }

  /** Every byte as two hex digits, the delimiter strictly between bytes. */
  function HexJoin(uid: seq<byte>, delim: seq<char>): (s: seq<char>)
    ensures |uid| == 0 <==> s == []
  {
    if |uid| == 0 then []
    else if |uid| == 1 then HexPair(uid[0])
    else HexPair(uid[0]) + delim + HexJoin(uid[1..], delim)
  }

  lemma {:induction false} HexJoinSnoc(uid: seq<byte>, delim: seq<char>, i: nat)
    requires 0 < i < |uid|
    ensures HexJoin(uid[..i + 1], delim) == HexJoin(uid[..i], delim) + delim + HexPair(uid[i])
    decreases i
  {
    if i > 1 {
      HexJoinSnoc(uid[1..], delim, i - 1);
      assert uid[1..][..i] == uid[..i + 1][1..];
      assert uid[1..][..i - 1] == uid[..i][1..];
    } else {
      assert uid[..2][1..] == [uid[1]];
    }
  }

  /** Length of the rendering of the first `i` bytes, in the form the
      buffer checks of `format_uid` use. */
  lemma {:induction false} HexJoinLength(uid: seq<byte>, delim: seq<char>)
    requires |uid| > 0
    ensures |HexJoin(uid, delim)| + |delim| == (2 + |delim|) * |uid|
  {
    if |uid| > 1 {
      HexJoinLength(uid[1..], delim);
      assert HexJoin(uid, delim) == HexPair(uid[0]) + delim + HexJoin(uid[1..], delim);
      assert (2 + |delim|) * |uid| == (2 + |delim|) * (|uid| - 1) + 2 + |delim|;
    }
  }

  /** `memcpy(output + pos, piece, |piece|)`. */
  method Write(output: array<char>, pos: nat, piece: seq<char>)
    requires pos + |piece| <= output.Length
    modifies output
    ensures output[..pos + |piece|] == old(output[..pos]) + piece
    ensures forall k :: pos + |piece| <= k < output.Length ==> output[k] == old(output[k])
  {
    forall k | 0 <= k < |piece| {
      output[pos + k] := piece[k];
    }
    assert output[..pos + |piece|] == old(output[..pos]) + piece;
  }

  // ---------------------------------------------------------------------------
  // format_uid

  /** Byte `i` of the UID is rendered iff its pair, together with the
      delimiter before it and the three bytes of slack the source keeps
      (next pair + terminator), fits in a buffer of `size` bytes. */
  predicate Fits(i: nat, delimLen: nat, size: nat)
  {
    (2 + delimLen) * i + 3 < size
  }

  /** The number of leading UID bytes, from byte `i` on, that are rendered. */
  function FitCount(i: nat, n: nat, delimLen: nat, size: nat): (k: nat)
    requires i <= n
    ensures i <= k <= n
    ensures k > i ==> Fits(k - 1, delimLen, size)
    ensures k < n ==> !Fits(k, delimLen, size)
    decreases n - i
  {
    if i < n && Fits(i, delimLen, size) then FitCount(i + 1, n, delimLen, size) else i
  }

  /** The text `format_uid` leaves in a buffer of `size` bytes. */
  function UidText(uid: seq<byte>, delim: seq<char>, size: nat): seq<char>
  {
    HexJoin(uid[..FitCount(0, |uid|, |delim|, size)], delim)
  }

  /** One pass of the loop of `format_uid` for byte `i`: the delimiter (after
      the first byte) and the pair, or `stop` when they do not fit, in which
      case nothing is written. */
  method RenderOne(uid: seq<byte>, delimiter: seq<char>, output: array<char>,
                   i: nat, pos: nat, limit: int) returns (pos': nat, stop: bool)
    requires 4 <= output.Length ==> limit == output.Length - 3
    requires i < |uid| && pos < limit && pos < output.Length
    requires i == 0 ==> pos == 0 && limit == (output.Length - 3) % SIZE_T_MODULUS
    requires i > 0 ==> 4 <= output.Length && pos + |delimiter| == (2 + |delimiter|) * i
    requires output[..pos] == HexJoin(uid[..i], delimiter)
    modifies output
    ensures stop <==> !Fits(i, |delimiter|, output.Length)
    ensures stop ==> pos' == pos && output[..] == old(output[..])
    ensures !stop ==> pos' + |delimiter| == (2 + |delimiter|) * (i + 1) && pos' < output.Length
    ensures !stop ==> output[..pos'] == HexJoin(uid[..i + 1], delimiter)
    ensures forall k :: pos' < k < output.Length ==> output[k] == old(output[k])
  {
    var size := output.Length;
    var delimLen := |delimiter|;
    pos' := pos;
    stop := false;
    // The text before the next pair: the bytes so far and, after the first
    // byte, one delimiter.
    ghost var lead := if i > 0 then HexJoin(uid[..i], delimiter) + delimiter else [];
    if i > 0 && delimLen > 0 {
      if pos + delimLen >= limit {
        return pos, true;
      }
      Write(output, pos, delimiter);
      pos' := pos + delimLen;
    }
    assert output[..pos'] == lead;
    if pos' + 2 >= size {
      return pos, true;
    }
    var pair := HexPair(uid[i]);
    Write(output, pos', pair + ['\0']);
    assert output[..pos' + 2] == output[..pos' + 3][..pos' + 2] == lead + pair;
    if i > 0 {
      HexJoinSnoc(uid, delimiter, i);
    } else {
      assert uid[..1] == [uid[0]];
    }
    assert (2 + delimLen) * (i + 1) == (2 + delimLen) * i + 2 + delimLen;
    pos' := pos' + 2;
  }

  /** The loop of `format_uid`: the pairs and delimiters, without the
      terminator. Returns the end position. */
  method RenderBytes(uid: seq<byte>, delimiter: seq<char>, output: array<char>) returns (pos: nat)
    requires 0 < |uid| < 0x100 && 0 < output.Length < SIZE_T_MODULUS
    modifies output
    ensures pos < output.Length
    ensures output[..pos] == UidText(uid, delimiter, output.Length)
    ensures forall k :: pos < k < output.Length ==> output[k] == old(output[k])
  {
    var size := output.Length;
    var delimLen := |delimiter|;
    // `output_size - 3` is unsigned: it wraps for buffers under 3 bytes.
    var limit := (size - 3) % SIZE_T_MODULUS;
    pos := 0;
    var i := 0;
    while i < |uid| && pos < limit
      invariant 0 <= i <= |uid|
      invariant FitCount(i, |uid|, delimLen, size) == FitCount(0, |uid|, delimLen, size)
      invariant 4 <= size ==> limit == size - 3
      invariant pos < size && (i == 0 ==> pos == 0)
      invariant i > 0 ==> 4 <= size && pos + delimLen == (2 + delimLen) * i
      invariant output[..pos] == HexJoin(uid[..i], delimiter)
      invariant forall k :: pos < k < size ==> output[k] == old(output[k])
      decreases |uid| - i
    {
      var stop;
      pos, stop := RenderOne(uid, delimiter, output, i, pos, limit);
      if stop {
        break;
      }
      i := i + 1;
    }
  }

  /** Writes the hex rendering of `uid` into `output`, truncating at whole
      bytes, and NUL-terminates it. A null UID is the same as an empty one. */
  method FormatUid(uid: seq<byte>, delimiter: seq<char>, output: array<char>)
    requires |uid| < 0x100 && output.Length < SIZE_T_MODULUS
    modifies output
    ensures output.Length > 0 ==>
      var t := UidText(uid, delimiter, output.Length);
      |t| < output.Length && output[..|t|] == t && output[|t|] == '\0' &&
      forall k :: |t| < k < output.Length ==> output[k] == old(output[k])
  {
    if |uid| == 0 || output.Length == 0 {
      if output.Length > 0 {
        output[0] := '\0';
      }
      return;
    }
    var pos := RenderBytes(uid, delimiter, output);
    assert forall k :: pos < k < output.Length ==> output[k] == old(output[k]);
    output[pos] := '\0';
  }

  /** A non-empty rendering leaves room for at least the terminator and one
      spare byte. */
  lemma UidTextBound(uid: seq<byte>, delim: seq<char>, size: nat)
    ensures UidText(uid, delim, size) != [] ==> |UidText(uid, delim, size)| + 2 <= size
  {
    var k := FitCount(0, |uid|, |delim|, size);
    if k > 0 {
      HexJoinLength(uid[..k], delim);
      assert Fits(k - 1, |delim|, size);
      assert (2 + |delim|) * k == (2 + |delim|) * (k - 1) + 2 + |delim|;
    }
  }

  /** A buffer in which the last byte fits receives the whole UID. */
  lemma UidTextComplete(uid: seq<byte>, delim: seq<char>, size: nat)
    requires |uid| > 0 && Fits(|uid| - 1, |delim|, size)
    ensures UidText(uid, delim, size) == HexJoin(uid, delim)
  {
    var k := FitCount(0, |uid|, |delim|, size);
    if k < |uid| {
      assert (2 + |delim|) * k <= (2 + |delim|) * (|uid| - 1) by {
        MulMonotone(2 + |delim|, k, |uid| - 1);
      }
      assert Fits(k, |delim|, size);
    }
    assert uid[..k] == uid;
  }

  lemma MulMonotone(a: nat, x: nat, y: nat)
    requires x <= y
    ensures a * x <= a * y
  {
  }

  /** The rendering of the first `k` bytes is a prefix of the rendering of all
      of them. */
  lemma {:induction false} HexJoinPrefix(uid: seq<byte>, delim: seq<char>, k: nat)
    requires k <= |uid|
    ensures HexJoin(uid[..k], delim) <= HexJoin(uid, delim)
    decreases |uid| - k
  {
    if k < |uid| {
      HexJoinPrefix(uid, delim, k + 1);
      if k > 0 {
        HexJoinSnoc(uid, delim, k);
      }
    } else {
      assert uid[..k] == uid;
    }
  }

  /** Truncation drops whole bytes: the text is a prefix of the full rendering,
      made of the first `k` bytes, with no delimiter after the last of them. */
  lemma UidTextWholeBytes(uid: seq<byte>, delim: seq<char>, size: nat)
    ensures UidText(uid, delim, size) <= HexJoin(uid, delim)
    ensures exists k :: 0 <= k <= |uid| && UidText(uid, delim, size) == HexJoin(uid[..k], delim)
  {
    var k := FitCount(0, |uid|, |delim|, size);
    HexJoinPrefix(uid, delim, k);
  }

  /** A rendering ends with the last byte's pair, never with a delimiter. */
  lemma HexJoinEndsWithPair(uid: seq<byte>, delim: seq<char>)
    requires |uid| > 0
    ensures var s := HexJoin(uid, delim); s[|s| - 2..] == HexPair(uid[|uid| - 1])
  {
    if |uid| > 1 {
      HexJoinSnoc(uid, delim, |uid| - 1);
      assert uid[..|uid| - 1 + 1] == uid;
    }
  }

  /** The numeric value of an upper-case hex digit. */
  function HexValue(c: char): (v: nat)
    ensures v < 16
  {
    if '0' <= c <= '9' then c as int - '0' as int
    else if 'A' <= c <= 'F' then c as int - 'A' as int + 10
    else 0
  }

  lemma HexPairValue(b: byte)
    ensures HexValue(HexPair(b)[0]) * 16 + HexValue(HexPair(b)[1]) == b
  {
    assert HexValue(HexDigit(b / 16)) == b / 16;
    assert HexValue(HexDigit(b % 16)) == b % 16;
  }

  /** Reads back a rendering whose delimiter has `delimLen` characters. */
  function ParseHex(s: seq<char>, delimLen: nat): seq<byte>
    decreases |s|
  {
    if |s| < 2 then []
    else
      var rest := if |s| <= 2 + delimLen then [] else ParseHex(s[2 + delimLen..], delimLen);
      [HexValue(s[0]) * 16 + HexValue(s[1])] + rest
  }

  lemma ParseHexCons(pair: seq<char>, delim: seq<char>, rest: seq<char>, b: byte)
    requires |pair| == 2 && |rest| >= 2 && b == HexValue(pair[0]) * 16 + HexValue(pair[1])
    ensures ParseHex(pair + delim + rest, |delim|) == [b] + ParseHex(rest, |delim|)
  {
    var s := pair + delim + rest;
    assert s[2 + |delim|..] == rest;
  }

  /** The rendering loses nothing: it reads back to the UID. */
  lemma {:induction false} HexRoundTrip(uid: seq<byte>, delim: seq<char>)
    ensures ParseHex(HexJoin(uid, delim), |delim|) == uid
  {
    if |uid| > 0 {
      var pair := HexPair(uid[0]);
      HexPairValue(uid[0]);
      assert HexValue(pair[0]) * 16 + HexValue(pair[1]) == uid[0];
      if |uid| > 1 {
        var rest := HexJoin(uid[1..], delim);
        HexRoundTrip(uid[1..], delim);
        HexJoinLength(uid[1..], delim);
        ParseHexCons(pair, delim, rest, uid[0]);
        assert HexJoin(uid, delim) == pair + delim + rest;
        assert [uid[0]] + uid[1..] == uid;
      } else {
        assert HexJoin(uid, delim) == pair;
        assert ParseHex(pair, |delim|) == [uid[0]];
      }
    } else {
      assert HexJoin(uid, delim) == [];
    }
  }

  lemma {:induction false} HexJoinNoNul(uid: seq<byte>, delim: seq<char>)
    requires '\0' !in delim
    ensures '\0' !in HexJoin(uid, delim)
  {
    if |uid| > 1 {
      HexJoinNoNul(uid[1..], delim);
    }
  }

  // ---------------------------------------------------------------------------
  // format_output

  /** `pos + len < output_size`: a piece is appended whole or not at all,
      always leaving room for the terminator. */
  function AppendIfFits(acc: seq<char>, piece: seq<char>, size: nat): seq<char>
  {
    if |acc| + |piece| < size then acc + piece else acc
  }

  function AppendAll(acc: seq<char>, pieces: seq<seq<char>>, size: nat): seq<char>
    decreases |pieces|
  {
    if |pieces| == 0 then acc else AppendAll(AppendIfFits(acc, pieces[0], size), pieces[1..], size)
  }

  function Flatten(pieces: seq<seq<char>>): seq<char>
  {
    if |pieces| == 0 then [] else pieces[0] + Flatten(pieces[1..])
  }

  /** The NFC UID, followed without delimiter by a non-empty NDEF text; both
      are absent without an NFC UID. */
  function NfcPieces(nfcUid: seq<byte>, ndefText: seq<char>, delim: seq<char>): seq<seq<char>>
  {
    if |nfcUid| == 0 then []
    else [UidText(nfcUid, delim, UID_BUF_SIZE)] + (if |ndefText| > 0 then [ndefText] else [])
  }

  function RfidPieces(rfidUid: seq<byte>, delim: seq<char>): seq<seq<char>>
  {
    if |rfidUid| == 0 then [] else [UidText(rfidUid, delim, UID_BUF_SIZE)]
  }

  function OutputPieces(nfcUid: seq<byte>, rfidUid: seq<byte>, ndefText: seq<char>,
                        delim: seq<char>, nfcFirst: bool): seq<seq<char>>
  {
    if nfcFirst then NfcPieces(nfcUid, ndefText, delim) + RfidPieces(rfidUid, delim)
    else RfidPieces(rfidUid, delim) + NfcPieces(nfcUid, ndefText, delim)
  }

  /** The text `format_output` leaves in a buffer of `size` bytes. */
  function OutputText(nfcUid: seq<byte>, rfidUid: seq<byte>, ndefText: seq<char>,
                      delim: seq<char>, nfcFirst: bool, size: nat): seq<char>
  {
    AppendAll([], OutputPieces(nfcUid, rfidUid, ndefText, delim, nfcFirst), size)
  }

  /** `strlen`: the index of the first NUL. */
  method StrLen(buf: array<char>) returns (n: nat)
    requires '\0' in buf[..]
    ensures n < buf.Length && buf[n] == '\0'
    ensures forall j :: 0 <= j < n ==> buf[j] != '\0'
  {
    n := 0;
    while buf[n] != '\0'
      invariant n < buf.Length && '\0' in buf[n..]
      invariant forall j :: 0 <= j < n ==> buf[j] != '\0'
      decreases buf.Length - n
    {
      n := n + 1;
    }
  }

  /** The first NUL of a buffer holding a NUL-terminated text free of NULs
      ends that text. */
  lemma FirstNul(buf: seq<char>, t: seq<char>, n: nat)
    requires |t| < |buf| && buf[..|t| + 1] == t + ['\0'] && '\0' !in t
    requires n < |buf| && buf[n] == '\0' && forall j :: 0 <= j < n ==> buf[j] != '\0'
    ensures n == |t|
  {
    assert buf[|t|] == (t + ['\0'])[|t|];
    assert forall j :: 0 <= j < |t| ==> buf[j] == t[j] != '\0';
  }

  /** Appends `piece` at `pos` when it fits; bytes past the new end are left
      as they were. */
  method AppendPiece(output: array<char>, pos: nat, piece: seq<char>) returns (pos': nat)
    requires pos < output.Length
    modifies output
    ensures pos <= pos' < output.Length
    ensures output[..pos'] == AppendIfFits(old(output[..pos]), piece, output.Length)
    ensures forall k :: pos' <= k < output.Length ==> output[k] == old(output[k])
  {
    pos' := pos;
    if pos + |piece| < output.Length {
      Write(output, pos, piece);
      pos' := pos + |piece|;
    }
  }

  /** Renders `uid` into the scratch buffer and appends it when it fits. */
  method AppendUid(uid: seq<byte>, delimiter: seq<char>, uidBuf: array<char>,
                   output: array<char>, pos: nat) returns (pos': nat)
    requires 0 < |uid| < 0x100 && '\0' !in delimiter
    requires uidBuf.Length == UID_BUF_SIZE && uidBuf != output && pos < output.Length
    modifies output, uidBuf
    ensures pos <= pos' < output.Length
    ensures output[..pos'] == AppendIfFits(old(output[..pos]), UidText(uid, delimiter, UID_BUF_SIZE), output.Length)
    ensures forall k :: pos' <= k < output.Length ==> output[k] == old(output[k])
  {
    FormatUid(uid, delimiter, uidBuf);
    ghost var t := UidText(uid, delimiter, UID_BUF_SIZE);
    HexJoinNoNul(uid[..FitCount(0, |uid|, |delimiter|, UID_BUF_SIZE)], delimiter);
    assert uidBuf[..][..|t| + 1] == t + ['\0'];
    var len := StrLen(uidBuf);
    FirstNul(uidBuf[..], t, len);
    pos' := AppendPiece(output, pos, uidBuf[..len]);
  }

  /** Appends the NFC UID and then the NDEF text, as `format_output` does. */
  method AppendNfc(nfcUid: seq<byte>, ndefText: seq<char>, delimiter: seq<char>,
                   uidBuf: array<char>, output: array<char>, pos: nat) returns (pos': nat)
    requires |nfcUid| < 0x100 && '\0' !in delimiter
    requires uidBuf.Length == UID_BUF_SIZE && uidBuf != output && pos < output.Length
    modifies output, uidBuf
    ensures pos <= pos' < output.Length
    ensures output[..pos'] == AppendAll(old(output[..pos]), NfcPieces(nfcUid, ndefText, delimiter), output.Length)
    ensures forall k :: pos' <= k < output.Length ==> output[k] == old(output[k])
  {
    pos' := pos;
    if |nfcUid| > 0 {
      ghost var acc := output[..pos];
      ghost var t := UidText(nfcUid, delimiter, UID_BUF_SIZE);
      pos' := AppendUid(nfcUid, delimiter, uidBuf, output, pos);
      ghost var acc1 := output[..pos'];
      assert acc1 == AppendIfFits(acc, t, output.Length);
      if |ndefText| > 0 {
        pos' := AppendPiece(output, pos', ndefText);
        assert [t, ndefText][1..] == [ndefText] && [ndefText][1..] == [];
        assert NfcPieces(nfcUid, ndefText, delimiter) == [t, ndefText];
        ghost var acc2 := AppendIfFits(acc1, ndefText, output.Length);
        assert AppendAll(acc1, [ndefText], output.Length) == AppendAll(acc2, [], output.Length) == acc2;
        assert AppendAll(acc, [t, ndefText], output.Length) == AppendAll(acc1, [ndefText], output.Length);
      } else {
        assert NfcPieces(nfcUid, ndefText, delimiter) == [t];
        assert AppendAll(acc, [t], output.Length) == acc1;
      }
    }
  }

  /** Appends the RFID UID, as `format_output` does. */
  method AppendRfid(rfidUid: seq<byte>, delimiter: seq<char>,
                    uidBuf: array<char>, output: array<char>, pos: nat) returns (pos': nat)
    requires |rfidUid| < 0x100 && '\0' !in delimiter
    requires uidBuf.Length == UID_BUF_SIZE && uidBuf != output && pos < output.Length
    modifies output, uidBuf
    ensures pos <= pos' < output.Length
    ensures output[..pos'] == AppendAll(old(output[..pos]), RfidPieces(rfidUid, delimiter), output.Length)
    ensures forall k :: pos' <= k < output.Length ==> output[k] == old(output[k])
  {
    pos' := pos;
    if |rfidUid| > 0 {
      ghost var t := UidText(rfidUid, delimiter, UID_BUF_SIZE);
      pos' := AppendUid(rfidUid, delimiter, uidBuf, output, pos);
      assert RfidPieces(rfidUid, delimiter) == [t];
    }
  }

  lemma {:induction false} AppendAllConcat(acc: seq<char>, p: seq<seq<char>>, q: seq<seq<char>>, size: nat)
    ensures AppendAll(acc, p + q, size) == AppendAll(AppendAll(acc, p, size), q, size)
    decreases |p|
  {
    if |p| > 0 {
      assert (p + q)[1..] == p[1..] + q;
      AppendAllConcat(AppendIfFits(acc, p[0], size), p[1..], q, size);
    } else {
      assert p + q == q;
    }
  }

  /** Writes the UIDs (and the NDEF text) in the configured order, each piece
      whole or not at all, and NUL-terminates the result. */
  method FormatOutput(nfcUid: seq<byte>, rfidUid: seq<byte>, ndefText: seq<char>,
                      delimiter: seq<char>, nfcFirst: bool, output: array<char>)
    requires |nfcUid| < 0x100 && |rfidUid| < 0x100
    requires '\0' !in delimiter && '\0' !in ndefText
    modifies output
    ensures output.Length > 0 ==>
      var t := OutputText(nfcUid, rfidUid, ndefText, delimiter, nfcFirst, output.Length);
      |t| < output.Length && output[..|t|] == t && output[|t|] == '\0' &&
      forall k :: |t| < k < output.Length ==> output[k] == old(output[k])
  {
    if output.Length == 0 {
      return;
    }
    output[0] := '\0';
    var pos := AppendOutputPieces(nfcUid, rfidUid, ndefText, delimiter, nfcFirst, output);
    output[pos] := '\0';
  }

  /** The body of `format_output` after the buffer is emptied: every piece in
      order, each appended when it fits. */
  method AppendOutputPieces(nfcUid: seq<byte>, rfidUid: seq<byte>, ndefText: seq<char>,
                            delimiter: seq<char>, nfcFirst: bool, output: array<char>)
    returns (pos: nat)
    requires |nfcUid| < 0x100 && |rfidUid| < 0x100
    requires '\0' !in delimiter && '\0' !in ndefText && output.Length > 0
    modifies output
    ensures pos < output.Length
    ensures output[..pos] == OutputText(nfcUid, rfidUid, ndefText, delimiter, nfcFirst, output.Length)
    ensures forall k :: pos < k < output.Length ==> output[k] == old(output[k])
  {
    pos := 0;
    var uidBuf := new char[UID_BUF_SIZE];
    ghost var nfc := NfcPieces(nfcUid, ndefText, delimiter);
    ghost var rfid := RfidPieces(rfidUid, delimiter);
    ghost var first := if nfcFirst then nfc else rfid;
    ghost var second := if nfcFirst then rfid else nfc;
    ghost var mid: seq<char>;
    if nfcFirst {
      pos := AppendNfc(nfcUid, ndefText, delimiter, uidBuf, output, pos);
      mid := output[..pos];
      pos := AppendRfid(rfidUid, delimiter, uidBuf, output, pos);
    } else {
      pos := AppendRfid(rfidUid, delimiter, uidBuf, output, pos);
      mid := output[..pos];
      pos := AppendNfc(nfcUid, ndefText, delimiter, uidBuf, output, pos);
    }
    ghost var t := OutputText(nfcUid, rfidUid, ndefText, delimiter, nfcFirst, output.Length);
    assert OutputPieces(nfcUid, rfidUid, ndefText, delimiter, nfcFirst) == first + second;
    AppendAllConcat([], first, second, output.Length);
    assert output[..pos] == t;
  }

  lemma {:induction false} AppendAllBound(acc: seq<char>, pieces: seq<seq<char>>, size: nat)
    requires |acc| < size
    ensures |acc| <= |AppendAll(acc, pieces, size)| < size
    decreases |pieces|
  {
    if |pieces| > 0 {
      AppendAllBound(AppendIfFits(acc, pieces[0], size), pieces[1..], size);
    }
  }

  lemma {:induction false} AppendAllFits(acc: seq<char>, pieces: seq<seq<char>>, size: nat)
    requires |acc + Flatten(pieces)| < size
    ensures AppendAll(acc, pieces, size) == acc + Flatten(pieces)
    decreases |pieces|
  {
    if |pieces| > 0 {
      assert acc + Flatten(pieces) == (acc + pieces[0]) + Flatten(pieces[1..]);
      AppendAllFits(acc + pieces[0], pieces[1..], size);
    }
  }

  /** `sub` is `pieces` with some elements left out, the rest in order. */
  predicate IsSubsequence(sub: seq<seq<char>>, pieces: seq<seq<char>>)
    decreases |pieces|
  {
    if |sub| == 0 then true
    else if |pieces| == 0 then false
    else if sub[0] == pieces[0] then IsSubsequence(sub[1..], pieces[1..])
    else IsSubsequence(sub, pieces[1..])
  }

  /** The pieces that `AppendAll` keeps. */
  function Kept(acc: seq<char>, pieces: seq<seq<char>>, size: nat): seq<seq<char>>
    decreases |pieces|
  {
    if |pieces| == 0 then []
    else if |acc| + |pieces[0]| < size then [pieces[0]] + Kept(acc + pieces[0], pieces[1..], size)
    else Kept(acc, pieces[1..], size)
  }

  lemma {:induction false} AppendAllKeepsWholePieces(acc: seq<char>, pieces: seq<seq<char>>, size: nat)
    ensures IsSubsequence(Kept(acc, pieces, size), pieces)
    ensures AppendAll(acc, pieces, size) == acc + Flatten(Kept(acc, pieces, size))
    decreases |pieces|
  {
    if |pieces| > 0 {
      var p := pieces[0];
      if |acc| + |p| < size {
        AppendAllKeepsWholePieces(acc + p, pieces[1..], size);
        var k := Kept(acc + p, pieces[1..], size);
        assert ([p] + k)[1..] == k;
        assert acc + Flatten([p] + k) == (acc + p) + Flatten(k);
      } else {
        AppendAllKeepsWholePieces(acc, pieces[1..], size);
        var k := Kept(acc, pieces[1..], size);
        if |k| > 0 && k[0] == p {
          SubsequenceTail(k, pieces[1..]);
        }
      }
    }
  }

  lemma {:induction false} SubsequenceTail(sub: seq<seq<char>>, pieces: seq<seq<char>>)
    requires |sub| > 0 && IsSubsequence(sub, pieces)
    ensures IsSubsequence(sub[1..], pieces)
    decreases |pieces|, 1
  {
    if sub[0] == pieces[0] {
      SubsequenceCons(sub[1..], pieces);
    } else {
      SubsequenceTail(sub, pieces[1..]);
      SubsequenceCons(sub[1..], pieces);
    }
  }

  lemma {:induction false} SubsequenceCons(sub: seq<seq<char>>, pieces: seq<seq<char>>)
    requires |pieces| > 0 && IsSubsequence(sub, pieces[1..])
    ensures IsSubsequence(sub, pieces)
    decreases |pieces|, 0
  {
    if |sub| > 0 && sub[0] == pieces[0] {
      SubsequenceTail(sub, pieces[1..]);
    }
  }

  /** The output never reaches the end of the buffer: there is always room for
      the terminator. */
  lemma OutputBound(nfcUid: seq<byte>, rfidUid: seq<byte>, ndefText: seq<char>,
                    delim: seq<char>, nfcFirst: bool, size: nat)
    requires size > 0
    ensures |OutputText(nfcUid, rfidUid, ndefText, delim, nfcFirst, size)| < size
  {
    AppendAllBound([], OutputPieces(nfcUid, rfidUid, ndefText, delim, nfcFirst), size);
  }

  /** Each piece (a UID rendering or the NDEF text) appears whole or not at
      all, in the configured order. */
  lemma OutputWholePieces(nfcUid: seq<byte>, rfidUid: seq<byte>, ndefText: seq<char>,
                          delim: seq<char>, nfcFirst: bool, size: nat)
    ensures var pieces := OutputPieces(nfcUid, rfidUid, ndefText, delim, nfcFirst);
      IsSubsequence(Kept([], pieces, size), pieces) &&
      OutputText(nfcUid, rfidUid, ndefText, delim, nfcFirst, size) == Flatten(Kept([], pieces, size))
  {
    var pieces := OutputPieces(nfcUid, rfidUid, ndefText, delim, nfcFirst);
    AppendAllKeepsWholePieces([], pieces, size);
  }

  /** With room for everything, the output is the NFC UID immediately followed
      by the NDEF text, and the RFID UID before or after them. */
  lemma OutputOrder(nfcUid: seq<byte>, rfidUid: seq<byte>, ndefText: seq<char>,
                    delim: seq<char>, nfcFirst: bool, size: nat)
    requires |nfcUid| > 0 && |rfidUid| > 0
    requires var n := UidText(nfcUid, delim, UID_BUF_SIZE);
      var r := UidText(rfidUid, delim, UID_BUF_SIZE);
      |n| + |ndefText| + |r| < size
    ensures var n := UidText(nfcUid, delim, UID_BUF_SIZE);
      var r := UidText(rfidUid, delim, UID_BUF_SIZE);
      OutputText(nfcUid, rfidUid, ndefText, delim, nfcFirst, size)
        == if nfcFirst then n + ndefText + r else r + n + ndefText
  {
    var n := UidText(nfcUid, delim, UID_BUF_SIZE);
    var r := UidText(rfidUid, delim, UID_BUF_SIZE);
    var nfc := if |ndefText| > 0 then [n, ndefText] else [n];
    assert NfcPieces(nfcUid, ndefText, delim) == nfc;
    assert RfidPieces(rfidUid, delim) == [r];
    AllPiecesInOrder(n, ndefText, r, nfcFirst, size);
  }

  lemma AllPiecesInOrder(n: seq<char>, ndefText: seq<char>, r: seq<char>, nfcFirst: bool, size: nat)
    requires |n| + |ndefText| + |r| < size
    ensures var nfc := if |ndefText| > 0 then [n, ndefText] else [n];
      AppendAll([], if nfcFirst then nfc + [r] else [r] + nfc, size)
        == if nfcFirst then n + ndefText + r else r + n + ndefText
  {
    var nfc := if |ndefText| > 0 then [n, ndefText] else [n];
    assert Flatten(nfc) == n + ndefText by {
      if |ndefText| > 0 {
        assert nfc[1..] == [ndefText] && [ndefText][1..] == [];
        assert Flatten([ndefText]) == ndefText;
      } else {
        assert nfc[1..] == [];
      }
    }
    assert Flatten([r]) == r by {
      assert [r][1..] == [];
    }
    var first := if nfcFirst then nfc else [r];
    var second := if nfcFirst then [r] else nfc;
    FlattenConcat(first, second);
    assert [] + Flatten(first + second) == Flatten(first + second);
    AppendAllFits([], first + second, size);
    if !nfcFirst {
      assert r + (n + ndefText) == r + n + ndefText;
    }
  }

  lemma {:induction false} FlattenConcat(p: seq<seq<char>>, q: seq<seq<char>>)
    ensures Flatten(p + q) == Flatten(p) + Flatten(q)
    decreases |p|
  {
    if |p| > 0 {
      assert (p + q)[1..] == p[1..] + q;
      FlattenConcat(p[1..], q);
    } else {
      assert p + q == q;
    }
  }

  /** The NDEF text is only ever typed after an NFC UID: without one the
      output is at most the RFID UID. */
  lemma NdefNeedsNfcUid(rfidUid: seq<byte>, ndefText: seq<char>,
                        delim: seq<char>, nfcFirst: bool, size: nat)
    ensures OutputText([], rfidUid, ndefText, delim, nfcFirst, size)
         == AppendAll([], RfidPieces(rfidUid, delim), size)
  {
    assert NfcPieces([], ndefText, delim) == [];
    assert OutputPieces([], rfidUid, ndefText, delim, nfcFirst) == RfidPieces(rfidUid, delim);
  }

  // ---------------------------------------------------------------------------
  // sanitize_text

  /** The characters a HID keyboard can type: printable ASCII, tab and
      newline. */
  predicate Typeable(c: char)
  {
    (' ' <= c <= '~') || c == '\t' || c == '\n'
  }

  function KeepTypeable(s: seq<char>): (r: seq<char>)
    ensures |r| <= |s|
  {
    if |s| == 0 then []
    else (if Typeable(s[0]) then [s[0]] else []) + KeepTypeable(s[1..])
  }

  lemma {:induction false} KeepTypeableConcat(a: seq<char>, b: seq<char>)
    ensures KeepTypeable(a + b) == KeepTypeable(a) + KeepTypeable(b)
    decreases |a|
  {
    if |a| > 0 {
      assert (a + b)[1..] == a[1..] + b;
      KeepTypeableConcat(a[1..], b);
    } else {
      assert a + b == b;
    }
  }

  /** `max_len`, with 0 meaning the whole buffer, and never more than the
      buffer holds besides the terminator. */
  function EffectiveMax(size: nat, maxLen: nat): (m: nat)
    requires size > 0
    ensures m < size && (0 < maxLen < size ==> m == maxLen)
  {
    if maxLen == 0 || maxLen >= size then size - 1 else maxLen
  }

  /** The text `sanitize_text` leaves in a buffer of `size` bytes. */
  function SanitizedText(input: seq<char>, size: nat, maxLen: nat): seq<char>
    requires size > 0
  {
    var kept := KeepTypeable(input);
    kept[..Min(|kept|, EffectiveMax(size, maxLen))]
  }

  /** Copies the typeable characters of `input`, at most `max_len` of them,
      NUL-terminates them and returns how many were copied. */
  method SanitizeText(input: seq<char>, output: array<char>, maxLen: nat) returns (n: nat)
    requires '\0' !in input
    modifies output
    ensures output.Length == 0 ==> n == 0
    ensures output.Length > 0 ==>
      var t := SanitizedText(input, output.Length, maxLen);
      n == |t| < output.Length && output[..n] == t && output[n] == '\0' &&
      forall k :: n < k < output.Length ==> output[k] == old(output[k])
  {
    if output.Length == 0 {
      return 0;
    }
    var size := output.Length;
    var effectiveMax := if maxLen == 0 then size - 1 else maxLen;
    if effectiveMax >= size {
      effectiveMax := size - 1;
    }
    var outPos := 0;
    var inPos := 0;
    while inPos < |input| && outPos < effectiveMax
      invariant 0 <= inPos <= |input| && outPos <= effectiveMax
      invariant output[..outPos] == KeepTypeable(input[..inPos])
      invariant forall k :: outPos <= k < size ==> output[k] == old(output[k])
      decreases |input| - inPos
    {
      var c := input[inPos];
      KeepTypeableConcat(input[..inPos], [c]);
      assert input[..inPos + 1] == input[..inPos] + [c];
      if Typeable(c) {
        output[outPos] := c;
        outPos := outPos + 1;
      }
      inPos := inPos + 1;
    }
    ghost var kept := KeepTypeable(input);
    KeepTypeableConcat(input[..inPos], input[inPos..]);
    assert input[..inPos] + input[inPos..] == input;
    assert kept[..outPos] == output[..outPos];
    assert inPos == |input| ==> |kept| == outPos;
    assert Min(|kept|, EffectiveMax(size, maxLen)) == outPos;
    output[outPos] := '\0';
    n := outPos;
  }

  /** Everything the sanitiser keeps is typeable and within the limit. */
  lemma SanitizedTypeable(input: seq<char>, size: nat, maxLen: nat)
    requires size > 0
    ensures |SanitizedText(input, size, maxLen)| <= EffectiveMax(size, maxLen)
    ensures forall c :: c in SanitizedText(input, size, maxLen) ==> Typeable(c)
  {
    KeptTypeable(input);
  }

  lemma {:induction false} KeptTypeable(s: seq<char>)
    ensures forall c :: c in KeepTypeable(s) ==> Typeable(c)
  {
    if |s| > 0 {
      KeptTypeable(s[1..]);
    }
  }

  lemma {:induction false} KeepTypeableAll(s: seq<char>)
    requires forall c :: c in s ==> Typeable(c)
    ensures KeepTypeable(s) == s
  {
    if |s| > 0 {
      KeepTypeableAll(s[1..]);
    }
  }

  /** Text that is already typeable and within the limit passes unchanged. */
  lemma SanitizeKeepsTypeable(input: seq<char>, size: nat, maxLen: nat)
    requires size > 0 && |input| <= EffectiveMax(size, maxLen)
    requires forall c :: c in input ==> Typeable(c)
    ensures SanitizedText(input, size, maxLen) == input
  {
    KeepTypeableAll(input);
  }

  /** Sanitising twice is sanitising once. */
  lemma SanitizeIdempotent(input: seq<char>, size: nat, maxLen: nat)
    requires size > 0
    ensures SanitizedText(SanitizedText(input, size, maxLen), size, maxLen)
         == SanitizedText(input, size, maxLen)
  {
    SanitizedTypeable(input, size, maxLen);
    SanitizeKeepsTypeable(SanitizedText(input, size, maxLen), size, maxLen);
  }
}
