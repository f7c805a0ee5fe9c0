/** Bytes as the C++ code sees them: fixed-width little-endian integers and NUL-terminated strings. */
module Bytes {
  type byte = c: char | c as int < 256
  type bytes = seq<byte>

  const TWO_16: int := 0x1_0000
  const TWO_31: int := 0x8000_0000
  const TWO_32: int := 0x1_0000_0000

  type u16 = n: int | 0 <= n < TWO_16
  type u32 = n: int | 0 <= n < TWO_32
  type i32 = n: int | -TWO_31 <= n < TWO_31

  /** The implicit conversion int -> uint32_t. */
  function ToU32(n: i32): u32 {
    if n < 0 then n + TWO_32 else n
  }

  /** The implicit conversion uint32_t -> int (two's complement). */
  function ToI32(n: u32): i32 {
    if n < TWO_31 then n else n - TWO_32
  }

  function ByteOf(n: int): byte
    requires 0 <= n < 256
  {
    n as char
  }

  function U16Bytes(n: u16): bytes {
    [ByteOf(n % 256), ByteOf(n / 256)]
  }

  function U16Of(b: bytes): u16
    requires |b| == 2
  {
    b[0] as int + 256 * (b[1] as int)
  }

  function U32Bytes(n: u32): bytes {
    [ByteOf(n % 256), ByteOf(n / 256 % 256), ByteOf(n / 0x1_0000 % 256), ByteOf(n / 0x100_0000)]
  }

  function U32Of(b: bytes): u32
    requires |b| == 4
  {
    b[0] as int + 256 * (b[1] as int) + 0x1_0000 * (b[2] as int) + 0x100_0000 * (b[3] as int)
  }

  lemma U16RoundTrip(n: u16)
    ensures U16Of(U16Bytes(n)) == n
  {
  }

  lemma U32RoundTrip(n: u32)
    ensures U32Of(U32Bytes(n)) == n
  {
    assert n / 256 % 256 == n / 256 - 256 * (n / 0x1_0000);
    assert n / 0x1_0000 % 256 == n / 0x1_0000 - 256 * (n / 0x100_0000);
  }

  /** The C string a pointer to `b` denotes: everything before the first NUL. */
  function CStr(b: bytes): (s: bytes)
    ensures |s| <= |b|
  {
    if b == [] || b[0] == '\0' then [] else [b[0]] + CStr(b[1..])
  }

  /** A text is its own C string, whatever follows its terminator, exactly when it holds no NUL. */
  lemma {:induction false} CStrOfTerminated(s: bytes, rest: bytes)
    ensures CStr(s + "\0" + rest) == s <==> '\0' !in s
    ensures CStr(s + "\0" + rest) == CStr(s)
  {
    if s == [] {
      assert s + "\0" + rest == "\0" + rest;
    } else if s[0] == '\0' {
    } else {
      assert (s + "\0" + rest)[1..] == s[1..] + "\0" + rest;
      CStrOfTerminated(s[1..], rest);
      assert s == [s[0]] + s[1..];
    }
  }

  lemma {:induction false} CStrHasNoNul(s: bytes)
    ensures '\0' !in CStr(s)
    ensures CStr(s) == s <==> '\0' !in s
  {
    if s != [] && s[0] != '\0' {
      CStrHasNoNul(s[1..]);
      assert s == [s[0]] + s[1..];
    }
  }

  lemma {:induction false} CStrStopsAtNul(b: bytes)
    requires '\0' in b
    ensures |CStr(b)| < |b|
  {
    if b[0] != '\0' {
      CStrStopsAtNul(b[1..]);
    }
  }
}
