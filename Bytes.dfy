/** Fixed-width integers and small helpers shared by every module of the model.
    The target is a 32-bit ARM core: `size_t` and `uint32_t` are 32 bits wide. */
module Bytes {

  type byte = b: int | 0 <= b < 0x100
  type uint16 = x: int | 0 <= x < 0x1_0000
  type int16 = x: int | -0x8000 <= x < 0x8000
  type uint32 = x: int | 0 <= x < 0x1_0000_0000

  /** Number of values of `size_t` on the target; unsigned arithmetic wraps modulo this. */
  const SIZE_T_MODULUS: int := 0x1_0000_0000

  datatype Option<T> = None | Some(value: T)

  function Min(a: int, b: int): (m: int)
    ensures m <= a && m <= b && (m == a || m == b)
  {
    if a <= b then a else b
  }

  /** Big-endian 16-bit value of two bytes. */
  function Be16(hi: byte, lo: byte): (v: uint16)
    ensures v / 0x100 == hi && v % 0x100 == lo
  {
    hi as int * 0x100 + lo
  }

  /** 256 to the power `n`: the number of values an `n`-byte field holds. */
  function Pow256(n: nat): (p: nat)
    ensures p >= 1
  {
    if n == 0 then 1 else 0x100 * Pow256(n - 1)
  }

  /** The unsigned big-endian value of a byte string. */
  function BeValue(s: seq<byte>): (v: nat)
    ensures v < Pow256(|s|)
  {
    if s == [] then 0 else BeValue(s[..|s| - 1]) * 0x100 + s[|s| - 1]
  }

  /** The `n` big-endian bytes of `v` (its low `8n` bits). */
  function BeBytes(v: nat, n: nat): (s: seq<byte>)
    ensures |s| == n
  {
    if n == 0 then [] else BeBytes(v / 0x100, n - 1) + [v % 0x100]
  }

  /** A value that fits in `n` bytes reads back from its encoding. */
  lemma {:induction false} BeRoundTrip(v: nat, n: nat)
    requires v < Pow256(n)
    ensures BeValue(BeBytes(v, n)) == v
  {
    if n > 0 {
      var s := BeBytes(v, n);
      var q, r := v / 0x100, v % 0x100;
      assert v == q * 0x100 + r;
      assert q < Pow256(n - 1);
      assert s == BeBytes(q, n - 1) + [r];
      assert s[..n - 1] == BeBytes(q, n - 1) && s[n - 1] == r;
      BeRoundTrip(q, n - 1);
      assert BeValue(s) == q * 0x100 + r;
    }
  }

  /** The value of four big-endian bytes. */
  lemma BeValue4(s: seq<byte>)
    requires |s| == 4
    ensures BeValue(s) == s[0] as int * 0x100_0000 + s[1] as int * 0x1_0000 + s[2] as int * 0x100 + s[3]
  {
    assert s[..3][..2][..1][..0] == [];
    assert s[..3][..2][..1] == [s[0]];
    assert s[..3][..2] == [s[0], s[1]];
    assert s[..3] == [s[0], s[1], s[2]];
  }

  lemma Pow256Of4()
    ensures Pow256(4) == SIZE_T_MODULUS
  {
    assert Pow256(2) == 0x1_0000;
  }
}
