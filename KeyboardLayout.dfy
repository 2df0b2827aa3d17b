/** The keyboard layout: for each ASCII character, the HID keycode (low byte)
    and modifiers (high byte) to type it with, or nothing, in which case the
    firmware's default US mapping is used. Layouts are the default (no
    entries), the NumPad layout (hex digits on the keypad) and custom
    layouts read from a file, whose values are parsed as C's `strtoul`
    parses them. */
module KeyboardLayout {
  import opened Bytes

  /** Entries in a layout: one per ASCII code. */
  const LAYOUT_SIZE: nat := 128
  const NAME_MAX: nat := 32
  const PATH_MAX: nat := 128

  /** The firmware's "no key" keycode and left-shift modifier bit
      (`1 << 9`), from its USB HID header. */
  const HID_KEYBOARD_NONE: uint16 := 0
  const KEY_MOD_LEFT_SHIFT: uint16 := 0x200

  const LAYOUT_FILE_TYPE: string := "Flipper Wedge Keyboard Layout"
  const LAYOUT_FILE_VERSION: nat := 1

  /** Keypad keycodes of the digits 0 to 9 and of the letters A to F. */
  const KEYPAD_DIGITS: seq<uint16> := [0x62, 0x59, 0x5A, 0x5B, 0x5C, 0x5D, 0x5E, 0x5F, 0x60, 0x61]
  const KEYPAD_LETTERS: seq<uint16> := [0xBC, 0xBD, 0xBE, 0xBF, 0xC0, 0xC1]

  datatype LayoutType = Default | NumPad | Custom

  /** The display names of the layout types, by enum value. */
  const TYPE_NAMES: seq<string> := ["Default (QWERTY)", "NumPad", "Custom"]

  datatype KeyMapping = KeyMapping(keycode: uint16, defined: bool)

  const UNDEFINED: KeyMapping := KeyMapping(0, false)

  /** A keycode a layout may define: a key of 1 to 255, with or without
      left shift. */
  predicate ValidKeycode(k: uint16)
  {
    0 < k < 0x100 || KEY_MOD_LEFT_SHIFT < k < KEY_MOD_LEFT_SHIFT + 0x100
  }

  /** An entry as every layout operation leaves it: a valid keycode when
      defined, all zero otherwise. */
  predicate Sound(m: KeyMapping)
  {
    if m.defined then ValidKeycode(m.keycode) else m == UNDEFINED
  }

  // ---------------------------------------------------------------------------
  // Type names

  /** `type_name`: the name of a layout type, "Unknown" past the enum. No
      layout type is named "Unknown", so the name tells a known type from an
      out-of-range value. */
  function TypeName(t: nat): (name: string)
    ensures name == "Unknown" <==> t >= |TYPE_NAMES|
    ensures t < |TYPE_NAMES| ==> name == TYPE_NAMES[t]
  {
    if t >= |TYPE_NAMES| then "Unknown"
    else
      assert TYPE_NAMES[t][0] != 'U' by {
        assert TYPE_NAMES[0][0] == 'D' && TYPE_NAMES[1][0] == 'N' && TYPE_NAMES[2][0] == 'C';
      }
      TYPE_NAMES[t]
  }

  /** Every layout type has its own name, and none is "Unknown". */
  lemma TypeNamesDistinct(s: nat, t: nat)
    requires s < |TYPE_NAMES| && t < |TYPE_NAMES| && s != t
    ensures TypeName(s) != TypeName(t) && TypeName(s) != "Unknown"
  {
    assert TYPE_NAMES[0][0] == 'D' && TYPE_NAMES[1][0] == 'N' && TYPE_NAMES[2][0] == 'C';
  }

  // ---------------------------------------------------------------------------
  // The NumPad table

  /** The value of a hex digit character, by its code. */
  function HexValue(i: nat): Option<nat>
  {
    if '0' as nat <= i <= '9' as nat then Some(i - '0' as nat)
    else if 'A' as nat <= i <= 'F' as nat then Some(i - 'A' as nat + 10)
    else if 'a' as nat <= i <= 'f' as nat then Some(i - 'a' as nat + 10)
    else None
  }

  /** The NumPad layout's entry for code `i`. */
  function NumpadEntry(i: nat): KeyMapping
  {
    if '0' as nat <= i <= '9' as nat then KeyMapping(KEYPAD_DIGITS[i - '0' as nat], true)
    else if 'A' as nat <= i <= 'F' as nat then KeyMapping(KEYPAD_LETTERS[i - 'A' as nat], true)
    else if 'a' as nat <= i <= 'f' as nat then KeyMapping(KEYPAD_LETTERS[i - 'a' as nat], true)
    else UNDEFINED
  }

  /** NumPad defines exactly the 22 hex digit characters, each with a valid
      unshifted keycode. */
  lemma NumpadDefinesHexDigits(i: nat)
    ensures NumpadEntry(i).defined <==> HexValue(i).Some?
    ensures Sound(NumpadEntry(i)) && NumpadEntry(i).keycode < 0x100
  {
  }

  /** Two hex digit characters type the same keypad key exactly when they
      stand for the same value; so a lowercase letter types like its
      uppercase letter, without shift. */
  lemma NumpadKeysByValue(i: nat, j: nat)
    requires HexValue(i).Some? && HexValue(j).Some?
    ensures NumpadEntry(i).keycode == NumpadEntry(j).keycode <==> HexValue(i) == HexValue(j)
  {
  }

  // ---------------------------------------------------------------------------
  // Value parsing: C's strtoul on a 32-bit target, then the keycode rule

  const ULONG_MAX: nat := 0xFFFF_FFFF

  predicate IsSpace(c: char)
  {
    c == ' ' || c == '\t' || c == '\n' || c == '\r' || c == '\U{0B}' || c == '\U{0C}'
  }

  function SkipSpace(s: string): (t: string)
    ensures |t| <= |s| && t == s[|s| - |t|..] && (t == [] || !IsSpace(t[0]))
    ensures forall i :: 0 <= i < |s| - |t| ==> IsSpace(s[i])
  {
    if s != [] && IsSpace(s[0]) then SkipSpace(s[1..]) else s
  }

  function DigitValue(c: char, base: nat): Option<nat>
  {
    var d :=
      if '0' <= c <= '9' then c as nat - '0' as nat
      else if 'a' <= c <= 'z' then c as nat - 'a' as nat + 10
      else if 'A' <= c <= 'Z' then c as nat - 'A' as nat + 10
      else base;
    if d < base then Some(d) else None
  }

  /** The value of the longest run of digits at the start of `s`, read onto
      `acc`, unbounded. */
  function Scan(s: string, base: nat, acc: nat): nat
  {
    if s == [] || DigitValue(s[0], base).None? then acc
    else Scan(s[1..], base, acc * base + DigitValue(s[0], base).value)
  }

  /** `strtoul(s, NULL, base)` for base 10 or 16 with a 32-bit `unsigned
      long`: leading white space, an optional sign, for base 16 an optional
      "0x"/"0X", then digits; an out-of-range value gives `ULONG_MAX`, and a
      minus sign negates modulo 2^32. */
  function StrToUl(s: string, base: nat): (r: nat)
    requires base == 10 || base == 16
    ensures r <= ULONG_MAX
  {
    var t := SkipSpace(s);
    var neg := t != [] && t[0] == '-';
    var u := if t != [] && (t[0] == '-' || t[0] == '+') then t[1..] else t;
    var w := if base == 16 && |u| >= 2 && u[0] == '0' && (u[1] == 'x' || u[1] == 'X') then u[2..] else u;
    var v := Scan(w, base, 0);
    if v > ULONG_MAX then ULONG_MAX
    else if neg && v > 0 then ULONG_MAX + 1 - v
    else v
  }

  /** Whether `p` occurs in `s`, as `strstr` finds it. */
  predicate Contains(s: string, p: string)
  {
    exists i :: 0 <= i <= |s| && p <= s[i..]
  }

  /** A layout file's value for one character: "keycode" or "keycode
      SHIFT", hex after "0x"/"0X" and decimal otherwise. A keycode outside 1
      to 255 is rejected; "SHIFT" or "shift" anywhere adds left shift. */
  function ParseValue(v: string): (k: Option<uint16>)
    ensures k.Some? ==> ValidKeycode(k.value)
  {
    var shift := Contains(v, "SHIFT") || Contains(v, "shift");
    var base := if |v| >= 2 && v[0] == '0' && (v[1] == 'x' || v[1] == 'X') then 16 else 10;
    var code := StrToUl(v, base);
    if 0 < code < 0x100 then Some(if shift then code + KEY_MOD_LEFT_SHIFT else code) else None
  }

  /** The decimal digits of `n`, most significant first. */
  function Decimal(n: nat): (s: string)
    ensures s != [] && '0' <= s[0] <= '9' && (n > 0 ==> s[0] != '0')
    ensures forall i :: 0 <= i < |s| ==> '0' <= s[i] <= '9'
    ensures n < 10 ==> |s| == 1
    ensures 10 <= n < 100 ==> |s| == 2
    ensures 100 <= n < 1000 ==> |s| == 3
  {
    if n < 10 then [('0' as nat + n) as char]
    else Decimal(n / 10) + [('0' as nat + n % 10) as char]
  }

  /** Digits scanned one after the other read as one number. */
  lemma {:induction false} ScanAppend(a: string, b: string, base: nat, acc: nat)
    requires forall i :: 0 <= i < |a| ==> DigitValue(a[i], base).Some?
    ensures Scan(a + b, base, acc) == Scan(b, base, Scan(a, base, acc))
  {
    if a == [] {
      assert a + b == b;
    } else {
      assert (a + b)[0] == a[0] && DigitValue(a[0], base).Some?;
      assert (a + b)[1..] == a[1..] + b;
      ScanAppend(a[1..], b, base, acc * base + DigitValue(a[0], base).value);
    }
  }

  /** Decimal digits followed by a non-digit scan to their number. */
  lemma {:induction false} ScanDecimal(n: nat, rest: string)
    requires rest == [] || DigitValue(rest[0], 10).None?
    ensures Scan(Decimal(n) + rest, 10, 0) == n
  {
    var d := [('0' as nat + n % 10) as char];
    if n < 10 {
      assert (Decimal(n) + rest)[1..] == rest;
    } else {
      assert Decimal(n) + rest == Decimal(n / 10) + (d + rest);
      ScanAppend(Decimal(n / 10), d + rest, 10, 0);
      ScanDecimal(n / 10, []);
      assert Decimal(n / 10) + [] == Decimal(n / 10);
      assert (d + rest)[1..] == rest;
    }
  }

  /** Decimal digits followed by a non-digit read through `strtoul` as their
      number, saturated at `ULONG_MAX`. */
  lemma StrToUlDecimal(k: nat, rest: string)
    requires rest == [] || DigitValue(rest[0], 10).None?
    ensures StrToUl(Decimal(k) + rest, 10) == Min(k, ULONG_MAX)
  {
    var v := Decimal(k) + rest;
    assert v[0] == Decimal(k)[0];
    assert !IsSpace(v[0]) && v[0] != '-' && v[0] != '+';
    assert SkipSpace(v) == v;
    ScanDecimal(k, rest);
  }

  /** A keycode of 1 to 255 written in decimal reads back as itself. */
  lemma DecimalRoundTrip(k: nat)
    requires 0 < k < 0x100
    ensures ParseValue(Decimal(k)) == Some(k as uint16)
  {
    var v := Decimal(k);
    assert StrToUl(v, 10) == k by {
      StrToUlDecimal(k, []);
      assert v + [] == v;
    }
    NoShiftInShort(v);
    ParseUnshifted(v);
  }

  /** An uppercase hex digit. */
  function HexDigit(d: nat): (c: char)
    requires d < 16
    ensures DigitValue(c, 16) == Some(d)
  {
    if d < 10 then ('0' as nat + d) as char else ('A' as nat + d - 10) as char
  }

  /** A keycode of 1 to 255 written as "0x" and two hex digits reads back
      as itself. */
  lemma HexRoundTrip(k: nat)
    requires 0 < k < 0x100
    ensures ParseValue("0x" + [HexDigit(k / 16), HexDigit(k % 16)]) == Some(k as uint16)
  {
    var v := "0x" + [HexDigit(k / 16), HexDigit(k % 16)];
    assert SkipSpace(v) == v;
    assert v[2..] == [HexDigit(k / 16), HexDigit(k % 16)];
    assert Scan(v[2..][1..], 16, k / 16) == k by {
      assert v[2..][1..][1..] == [];
    }
    NoShiftInShort(v);
  }

  /** An accepted value carries left shift exactly when it mentions "SHIFT"
      or "shift", anywhere and whether its keycode is decimal or hex. */
  lemma ShiftExactlyWhenMentioned(v: string)
    requires ParseValue(v).Some?
    ensures ParseValue(v).value > KEY_MOD_LEFT_SHIFT <==> Contains(v, "SHIFT") || Contains(v, "shift")
  {
  }

  /** A keycode of 1 to 255 written as "0x" and two hex digits and followed
      by the lowercase " shift" reads back shifted. */
  lemma ShiftedHexRoundTrip(k: nat)
    requires 0 < k < 0x100
    ensures ParseValue("0x" + [HexDigit(k / 16), HexDigit(k % 16)] + " shift")
            == Some((k + KEY_MOD_LEFT_SHIFT as nat) as uint16)
  {
    var h := "0x" + [HexDigit(k / 16), HexDigit(k % 16)];
    HexWithSuffix(k, " shift");
    ContainsSuffix(h + " ", "shift");
    assert h + " " + "shift" == h + " shift";
    ParseShiftedHex(h + " shift", k);
  }

  /** "0x" and two hex digits, followed by text that starts with a space,
      reads as the keycode in base 16. */
  lemma HexWithSuffix(k: nat, rest: string)
    requires 0 < k < 0x100
    requires rest != [] && rest[0] == ' '
    ensures StrToUl("0x" + [HexDigit(k / 16), HexDigit(k % 16)] + rest, 16) == k
  {
    var v := "0x" + [HexDigit(k / 16), HexDigit(k % 16)] + rest;
    assert SkipSpace(v) == v;
    assert v[2..] == [HexDigit(k / 16), HexDigit(k % 16)] + rest;
    assert Scan(v[2..][1..], 16, k / 16) == k by {
      assert v[2..][1..][1..] == rest;
    }
  }

  /** A keycode of 1 to 255 written in decimal and followed by " SHIFT"
      reads back shifted. */
  lemma ShiftedRoundTrip(k: nat)
    requires 0 < k < 0x100
    ensures ParseValue(Decimal(k) + " SHIFT") == Some((k + KEY_MOD_LEFT_SHIFT as nat) as uint16)
  {
    var d := Decimal(k);
    var v := d + " SHIFT";
    assert StrToUl(v, 10) == k by {
      StrToUlDecimal(k, " SHIFT");
    }
    assert v[0] != '0' && Contains(v, "SHIFT") by {
      assert v[0] == d[0];
      assert v[|d|..] == " SHIFT";
      assert v[|d| + 1..] == " SHIFT"[1..] == "SHIFT";
    }
    ParseShifted(v);
  }

  /** Keycode 0 and keycodes past 255, written in decimal and followed by
      anything but a letter or digit, are rejected, however large. */
  lemma OutOfRangeRejected(k: nat, rest: string)
    requires k == 0 || k >= 0x100
    requires rest == [] || DigitValue(rest[0], 36).None?
    ensures ParseValue(Decimal(k) + rest) == None
  {
    var v := Decimal(k) + rest;
    StrToUlDecimal(k, rest);
    if |v| >= 2 && v[0] == '0' {
      assert v[1] == rest[0];
    }
  }

  /** A minus sign is taken modulo 2^32, as `strtoul` does: "-n" for n
      within 255 of 2^32 is accepted as the keycode 2^32 - n. */
  lemma NegativeWraps(n: nat)
    requires ULONG_MAX + 1 - 0x100 < n <= ULONG_MAX
    ensures ParseValue("-" + Decimal(n)) == Some((ULONG_MAX + 1 - n) as uint16)
  {
    var v := "-" + Decimal(n);
    assert StrToUl(v, 10) == ULONG_MAX + 1 - n by {
      ScanDecimal(n, []);
      assert Decimal(n) + [] == Decimal(n);
      StrToUlNegative(Decimal(n));
    }
    assert v[0] == '-' && !Contains(v, "SHIFT") && !Contains(v, "shift") by {
      NoShiftInDigits(v);
    }
    ParseUnshifted(v);
  }

  /** A minus sign before a string that starts with a digit: `strtoul`
      negates its (saturated) value modulo 2^32. */
  lemma StrToUlNegative(d: string)
    requires d != [] && '0' <= d[0] <= '9'
    ensures var v := Scan(d, 10, 0);
      StrToUl("-" + d, 10) == if v > ULONG_MAX then ULONG_MAX else if v > 0 then ULONG_MAX + 1 - v else 0
  {
    var s := "-" + d;
    assert s[0] == '-' && s[1..] == d;
    assert SkipSpace(s) == s by {
      assert !IsSpace(s[0]);
    }
  }

  /** A value that does not start with "0" and mentions no shift is its
      decimal `strtoul` value, accepted when it is 1 to 255. */
  lemma ParseUnshifted(v: string)
    requires v != [] && v[0] != '0'
    requires !Contains(v, "SHIFT") && !Contains(v, "shift")
    ensures var code := StrToUl(v, 10);
      ParseValue(v) == if 0 < code < 0x100 then Some(code as uint16) else None
  {
  }

  /** A value that does not start with "0" and mentions "SHIFT" is its
      decimal `strtoul` value plus left shift, accepted when that value is 1
      to 255. */
  lemma ParseShifted(v: string)
    requires v != [] && v[0] != '0' && Contains(v, "SHIFT")
    ensures var code := StrToUl(v, 10);
      ParseValue(v) == if 0 < code < 0x100 then Some((code + KEY_MOD_LEFT_SHIFT) as uint16) else None
  {
  }

  /** A hex value that mentions "shift" and whose keycode is 1 to 255 is
      that keycode with left shift. */
  lemma ParseShiftedHex(v: string, k: nat)
    requires |v| >= 2 && v[0] == '0' && v[1] == 'x' && Contains(v, "shift")
    requires StrToUl(v, 16) == k && 0 < k < 0x100
    ensures ParseValue(v) == Some((k + KEY_MOD_LEFT_SHIFT as nat) as uint16)
  {
  }

  /** A string contains its own suffix. */
  lemma ContainsSuffix(a: string, p: string)
    ensures Contains(a + p, p)
  {
    assert (a + p)[|a|..] == p;
  }

  /** Strings shorter than "SHIFT" do not contain it. */
  lemma NoShiftInShort(s: string)
    requires |s| < 5
    ensures !Contains(s, "SHIFT") && !Contains(s, "shift")
  {
  }

  /** A sign and digits contain no "SHIFT". */
  lemma NoShiftInDigits(s: string)
    requires forall i :: 1 <= i < |s| ==> '0' <= s[i] <= '9'
    ensures !Contains(s, "SHIFT") && !Contains(s, "shift")
  {
    forall i | 0 <= i <= |s|
      ensures !("SHIFT" <= s[i..]) && !("shift" <= s[i..])
    {
      if i + 1 < |s| {
        assert s[i..][1] == s[i + 1];
      }
    }
  }

  // ---------------------------------------------------------------------------
  // Layout files

  /** What `load` reads from a layout file: the header's file type and
      version, the optional "Name", and the value of each single-character
      key present. */
  datatype LayoutFile = LayoutFile(fileType: string, version: nat, name: Option<string>, values: map<char, string>)

  /** Whether `load` accepts the file: it opened, its header was read, its
      type matches and its version is not newer than 1. */
  predicate Accepted(file: Option<LayoutFile>)
  {
    file.Some? && file.value.fileType == LAYOUT_FILE_TYPE && file.value.version <= LAYOUT_FILE_VERSION
  }

  /** The entry a loaded file gives code `i`: printable characters (32 to
      126) whose value parses, and nothing else. */
  function LoadedEntry(values: map<char, string>, i: nat): (m: KeyMapping)
    ensures Sound(m)
    ensures m.defined ==> 32 <= i < 127
  {
    if 32 <= i < 127 && (i as char) in values then
      match ParseValue(values[i as char])
      case Some(k) => KeyMapping(k, true)
      case None => UNDEFINED
    else UNDEFINED
  }

  /** `strncpy` into a buffer of `size` bytes whose last byte stays NUL. */
  function Bounded(s: string, size: nat): (t: string)
    requires size > 0
    ensures t <= s && |t| == Min(|s|, size - 1)
  {
    s[..Min(|s|, size - 1)]
  }

  // ---------------------------------------------------------------------------
  // The layout

  class Layout {
    var name: string
    var filePath: string
    var layoutType: LayoutType
    const keys: array<KeyMapping>

    predicate Valid()
      reads this, keys
    {
      && keys.Length == LAYOUT_SIZE
      && |name| < NAME_MAX && |filePath| < PATH_MAX
      && forall i :: 0 <= i < keys.Length ==> Sound(keys[i])
    }

    /** `alloc`: a layout set to the default. */
    constructor()
      ensures Valid() && fresh(keys)
      ensures layoutType == Default && name == TYPE_NAMES[0] && filePath == []
      ensures forall i :: 0 <= i < keys.Length ==> keys[i] == UNDEFINED
    {
      name, filePath, layoutType := TYPE_NAMES[0], [], Default;
      keys := new KeyMapping[LAYOUT_SIZE](_ => UNDEFINED);
    }

    /** Clears every entry. */
    method ClearMap()
      modifies keys
      ensures forall i :: 0 <= i < keys.Length ==> keys[i] == UNDEFINED
    {
      var i := 0;
      while i < keys.Length
        invariant 0 <= i <= keys.Length
        invariant forall k :: 0 <= k < i ==> keys[k] == UNDEFINED
      {
        keys[i] := UNDEFINED;
        i := i + 1;
      }
    }

    /** `set_default`: no entry defined, so every character falls back to
        the firmware's mapping. */
    method SetDefault()
      requires keys.Length == LAYOUT_SIZE
      modifies this, keys
      ensures Valid()
      ensures layoutType == Default && name == TYPE_NAMES[0] && filePath == []
      ensures forall i :: 0 <= i < keys.Length ==> keys[i] == UNDEFINED
    {
      ClearMap();
      name, filePath, layoutType := TYPE_NAMES[0], [], Default;
    }

    /** `set_numpad`: the NumPad table and nothing else. */
    method SetNumpad()
      requires keys.Length == LAYOUT_SIZE
      modifies this, keys
      ensures Valid()
      ensures layoutType == NumPad && name == TYPE_NAMES[1] && filePath == []
      ensures forall i :: 0 <= i < keys.Length ==> keys[i] == NumpadEntry(i)
    {
      ClearMap();
      name, filePath, layoutType := TYPE_NAMES[1], [], NumPad;
      MapDigits();
      MapLetters('A' as nat);
      MapLetters('a' as nat);
      forall i | 0 <= i < keys.Length
        ensures Sound(keys[i])
      {
        NumpadDefinesHexDigits(i);
      }
    }

    /** The keypad digits, each character to its key. */
    method MapDigits()
      requires keys.Length == LAYOUT_SIZE
      modifies keys
      ensures forall i :: 0 <= i < keys.Length ==>
                keys[i] == if '0' as nat <= i <= '9' as nat then NumpadEntry(i) else old(keys[i])
    {
      keys['0' as int] := KeyMapping(0x62, true);
      keys['1' as int] := KeyMapping(0x59, true);
      keys['2' as int] := KeyMapping(0x5A, true);
      keys['3' as int] := KeyMapping(0x5B, true);
      keys['4' as int] := KeyMapping(0x5C, true);
      keys['5' as int] := KeyMapping(0x5D, true);
      keys['6' as int] := KeyMapping(0x5E, true);
      keys['7' as int] := KeyMapping(0x5F, true);
      keys['8' as int] := KeyMapping(0x60, true);
      keys['9' as int] := KeyMapping(0x61, true);
    }

    /** The keypad letters A to F, from `first` ('A' or 'a') on. */
    method MapLetters(first: nat)
      requires keys.Length == LAYOUT_SIZE && (first == 'A' as nat || first == 'a' as nat)
      modifies keys
      ensures forall i :: 0 <= i < keys.Length ==>
                keys[i] == if first <= i < first + 6 then NumpadEntry(i) else old(keys[i])
    {
      keys[first] := KeyMapping(0xBC, true);
      keys[first + 1] := KeyMapping(0xBD, true);
      keys[first + 2] := KeyMapping(0xBE, true);
      keys[first + 3] := KeyMapping(0xBF, true);
      keys[first + 4] := KeyMapping(0xC0, true);
      keys[first + 5] := KeyMapping(0xC1, true);
    }

    /** `load`: a file that fails to open or whose header is wrong leaves
        the layout untouched. Otherwise the map is cleared, the layout
        becomes Custom with the file's path and its "Name" (or, without
        one, `fileStem`, the file name without extension), and each
        printable character whose value parses is defined. */
    method Load(file: Option<LayoutFile>, path: string, fileStem: string) returns (success: bool)
      requires Valid()
      modifies this, keys
      ensures Valid()
      ensures success <==> Accepted(file)
      ensures !success ==> unchanged(this, keys)
      ensures success ==>
                && layoutType == Custom && filePath == Bounded(path, PATH_MAX)
                && name == Bounded(if file.value.name.Some? then file.value.name.value else fileStem, NAME_MAX)
                && forall i :: 0 <= i < keys.Length ==> keys[i] == LoadedEntry(file.value.values, i)
    {
      if !Accepted(file) {
        return false;
      }
      var f := file.value;
      ClearMap();
      layoutType := Custom;
      filePath := Bounded(path, PATH_MAX);
      name := Bounded(if f.name.Some? then f.name.value else fileStem, NAME_MAX);
      var c := 32;
      while c < 127
        modifies keys
        invariant 32 <= c <= 127
        invariant forall i :: 0 <= i < keys.Length ==> keys[i] == if i < c then LoadedEntry(f.values, i) else UNDEFINED
      {
        var key := c as char;
        if key in f.values {
          var k := ParseValue(f.values[key]);
          if k.Some? {
            keys[c] := KeyMapping(k.value, true);
          }
        }
        c := c + 1;
      }
      success := true;
    }

    /** `get_keycode`: nothing for codes past 127, the layout's keycode for
        a defined entry, and the firmware's mapping `firmware` otherwise. */
    function Keycode(c: byte, firmware: byte -> uint16): (k: uint16)
      requires Valid()
      reads this, keys
      ensures c as nat >= LAYOUT_SIZE ==> k == HID_KEYBOARD_NONE
      ensures c as nat < LAYOUT_SIZE && keys[c].defined ==> k == keys[c].keycode && ValidKeycode(k)
      ensures c as nat < LAYOUT_SIZE && !keys[c].defined ==> k == firmware(c)
    {
      if c as nat >= LAYOUT_SIZE then HID_KEYBOARD_NONE
      else if keys[c].defined then keys[c].keycode
      else firmware(c)
    }
  }

  /** In the NumPad layout a lowercase hex letter types the same key as its
      uppercase letter, and any other character falls back to the firmware. */
  lemma NumpadLookup(layout: Layout, c: byte, firmware: byte -> uint16)
    requires layout.Valid() && forall i :: 0 <= i < layout.keys.Length ==> layout.keys[i] == NumpadEntry(i)
    ensures 'a' as nat <= c as nat <= 'f' as nat ==>
              layout.Keycode(c, firmware) == layout.Keycode(c - 0x20, firmware) == KEYPAD_LETTERS[c as nat - 'a' as nat]
    ensures c as nat < LAYOUT_SIZE && HexValue(c as nat).None? ==> layout.Keycode(c, firmware) == firmware(c)
  {
    NumpadDefinesHexDigits(c as nat);
  }

  /** In a loaded layout, control characters and DEL always fall back to
      the firmware, and a printable character is typed with the keycode its
      value parses to when it parses. */
  lemma LoadedLookup(layout: Layout, values: map<char, string>, c: byte, firmware: byte -> uint16)
    requires layout.Valid() && forall i :: 0 <= i < layout.keys.Length ==> layout.keys[i] == LoadedEntry(values, i)
    requires c as nat < LAYOUT_SIZE
    ensures (c < 32 || c == 127) ==> layout.Keycode(c, firmware) == firmware(c)
    ensures 32 <= c < 127 && (c as char) in values && ParseValue(values[c as char]).Some? ==>
              layout.Keycode(c, firmware) == ParseValue(values[c as char]).value
  {
    assert layout.keys[c] == LoadedEntry(values, c as nat);
  }
}
