/** The C machine types the loader touches: bytes, size_t's largest value and the native
    64-bit `long`, read from and written to memory as little-endian two's-complement bytes. */
module CTypes {
  newtype byte = x: int | 0 <= x < 256

  /** (size_t)-1 on a 64-bit platform. */
  const SIZE_MAX: int := 0xFFFF_FFFF_FFFF_FFFF

  const LONG_MIN: int := -0x8000_0000_0000_0000
  const LONG_MAX: int := 0x7FFF_FFFF_FFFF_FFFF
  const LONG_SIZE: nat := 8
  /** 2^64, the number of distinct longs. */
  const LONG_RANGE: int := 0x1_0000_0000_0000_0000

  function Pow256(n: nat): (p: nat)
    ensures p > 0
  {
    if n == 0 then 1 else 256 * Pow256(n - 1)
  }

  /** The unsigned value of little-endian bytes. */
  function FromLE(s: seq<byte>): nat
  {
    if s == [] then 0 else s[0] as nat + 256 * FromLE(s[1..])
  }

  /** The n little-endian bytes of x (reduced modulo 256^n). */
  function ToLE(x: nat, n: nat): (s: seq<byte>)
    ensures |s| == n
  {
    if n == 0 then [] else [(x % 256) as byte] + ToLE(x / 256, n - 1)
  }

  lemma {:induction false} FromToLE(x: nat, n: nat)
    requires x < Pow256(n)
    ensures FromLE(ToLE(x, n)) == x
  {
    if n > 0 {
      assert x / 256 < Pow256(n - 1);
      FromToLE(x / 256, n - 1);
      assert ToLE(x, n)[1..] == ToLE(x / 256, n - 1);
    }
  }

  /** A `long` as it sits in memory. */
  function DecodeLong(s: seq<byte>): (x: int)
    requires |s| == LONG_SIZE
  {
    var u := FromLE(s);
    if u > LONG_MAX then u - LONG_RANGE else u
  }

  function EncodeLong(x: int): (s: seq<byte>)
    requires LONG_MIN <= x <= LONG_MAX
    ensures |s| == LONG_SIZE
  {
    ToLE(if x < 0 then x + LONG_RANGE else x, LONG_SIZE)
  }

  lemma LongRoundTrip(x: int)
    requires LONG_MIN <= x <= LONG_MAX
    ensures DecodeLong(EncodeLong(x)) == x
  {
    assert Pow256(LONG_SIZE) == 0x1_0000_0000_0000_0000;
    FromToLE(if x < 0 then x + LONG_RANGE else x, LONG_SIZE);
  }

  lemma {:induction false} FromLEBound(s: seq<byte>)
    ensures FromLE(s) < Pow256(|s|)
  {
    if s != [] {
      FromLEBound(s[1..]);
    }
  }

  lemma {:induction false} ToFromLE(s: seq<byte>)
    ensures ToLE(FromLE(s), |s|) == s
  {
    if s != [] {
      var x := FromLE(s);
      assert x % 256 == s[0] as int && x / 256 == FromLE(s[1..]);
      ToFromLE(s[1..]);
    }
  }

  /** Any 8 bytes in memory hold a long, and writing that long back gives the same bytes. */
  lemma LongBytesRoundTrip(s: seq<byte>)
    requires |s| == LONG_SIZE
    ensures LONG_MIN <= DecodeLong(s) <= LONG_MAX
    ensures EncodeLong(DecodeLong(s)) == s
  {
    FromLEBound(s);
    assert Pow256(LONG_SIZE) == LONG_RANGE;
    ToFromLE(s);
  }

  predicate NoNul(s: string)
  {
    forall i :: 0 <= i < |s| ==> s[i] != '\0'
  }

  /** The C string a char array holds: its characters before the first NUL. */
  function CStr(s: string): string
  {
    if s == [] || s[0] == '\0' then [] else [s[0]] + CStr(s[1..])
  }

  /** The C string is a prefix without NUL, and either the whole array or cut at a NUL. */
  lemma {:induction false} CStrPrefix(s: string)
    ensures CStr(s) <= s && NoNul(CStr(s))
    ensures CStr(s) == s || s[|CStr(s)|] == '\0'
  {
    if s != [] && s[0] != '\0' {
      CStrPrefix(s[1..]);
    }
  }

  lemma {:induction false} CStrWithoutNul(s: string)
    ensures NoNul(s) ==> CStr(s) == s
  {
    if s != [] && s[0] != '\0' {
      CStrWithoutNul(s[1..]);
    }
  }

  lemma {:induction false} CStrStopsAtNul(before: string, after: string)
    requires NoNul(before)
    ensures CStr(before + ['\0'] + after) == before
  {
    if before != [] {
      assert (before + ['\0'] + after)[1..] == before[1..] + ['\0'] + after;
      CStrStopsAtNul(before[1..], after);
    }
  }
}
