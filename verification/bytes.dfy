/** Byte strings as the packet builders produce them: Python `bytes`, the
    big-endian integer value `int.from_bytes(b, 'big')`, and the big-endian
    field encodings that `struct.pack` with the `!` (network order) prefix
    emits for its `B`, `H` and `I`/`L` codes. */
module Bytes {

  type Byte = b: int | 0 <= b < 0x100

  const MAX8: nat := 0xFF
  const MAX16: nat := 0xFFFF
  const MAX32: nat := 0xFFFF_FFFF

  /** Why a pack call fails. `FieldOutOfRange` is the `struct.error` raised
      when a value does not fit its format code; `OptionsNotSupported` is the
      exception TCP raises for a non-zero options field. */
  datatype PackError = FieldOutOfRange | OptionsNotSupported

  datatype Result<T> = Success(value: T) | Failure(error: PackError)

  /** `int.from_bytes(d, 'big', signed=False)`. */
  function Value(d: seq<Byte>): nat
    decreases |d|
  {
    if d == [] then 0 else Value(d[..|d| - 1]) * 0x100 + d[|d| - 1]
  }

  /** A big-endian 16-bit field of `s` at offset `i`. */
  function Be16(s: seq<Byte>, i: nat): nat
    requires i + 2 <= |s|
  {
    (s[i] as nat) * 0x100 + s[i + 1]
  }

  /** A big-endian 32-bit field of `s` at offset `i`. */
  function Be32(s: seq<Byte>, i: nat): nat
    requires i + 4 <= |s|
  {
    Be16(s, i) * 0x1_0000 + Be16(s, i + 2)
  }

  /** The two bytes `struct.pack('!H', v)` emits. */
  function U16(v: nat): (r: seq<Byte>)
    requires v <= MAX16
    ensures |r| == 2
  {
    [v / 0x100, v % 0x100]
  }

  /** The four bytes `struct.pack('!I', v)` (or `'!L'`) emits. */
  function U32(v: nat): (r: seq<Byte>)
    requires v <= MAX32
    ensures |r| == 4
  {
    U16(v / 0x1_0000) + U16(v % 0x1_0000)
  }

  /** Reading the two bytes back gives `v`. */
  lemma {:induction false} U16Value(v: nat)
    requires v <= MAX16
    ensures Be16(U16(v), 0) == v
  {
  }

  /** Reading the four bytes back gives `v`. */
  lemma {:induction false} U32Value(v: nat)
    requires v <= MAX32
    ensures Be32(U32(v), 0) == v
  {
    var hi, lo := v / 0x1_0000, v % 0x1_0000;
    U16Value(hi);
    U16Value(lo);
    assert Be16(U32(v), 0) == Be16(U16(hi), 0);
    assert Be16(U32(v), 2) == Be16(U16(lo), 0);
  }

  /** Appending one byte shifts the value left by eight bits. */
  lemma {:induction false} ValueSnoc(d: seq<Byte>, x: Byte)
    ensures Value(d + [x]) == Value(d) * 0x100 + x
  {
    assert (d + [x])[..|d|] == d;
  }

  /** Appending a 16-bit word shifts the value left by sixteen bits. */
  lemma {:induction false} ValueSnoc2(d: seq<Byte>, x: Byte, y: Byte)
    ensures Value(d + [x, y]) == Value(d) * 0x1_0000 + x * 0x100 + y
  {
    ValueSnoc(d, x);
    ValueSnoc(d + [x], y);
    assert d + [x] + [y] == d + [x, y];
  }

  /** The value is zero exactly when every byte is. */
  lemma {:induction false} ValueIsZero(d: seq<Byte>)
    ensures Value(d) == 0 <==> forall i :: 0 <= i < |d| ==> d[i] == 0
    decreases |d|
  {
    if d != [] {
      var p := d[..|d| - 1];
      ValueIsZero(p);
      if Value(d) == 0 {
        forall i | 0 <= i < |d| ensures d[i] == 0 {
          if i < |d| - 1 {
            assert d[i] == p[i];
          }
        }
      }
    }
  }

  /** A leading zero byte does not change the value. */
  lemma {:induction false} ValueLeadingZero(d: seq<Byte>)
    ensures Value([0] + d) == Value(d)
    decreases |d|
  {
    if d != [] {
      var p := d[..|d| - 1];
      assert ([0] + d)[..|d|] == [0] + p;
      ValueLeadingZero(p);
    }
  }
}
