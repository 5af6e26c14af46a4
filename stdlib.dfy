/** The kernel's freestanding C library: `strlen`, `pow`, `strcmp`,
    `strncpy`, `memset` and `memcpy`. A `char` buffer the routine writes is
    an `array<byte>`; a string it only reads is the sequence of bytes from
    the pointer on. */
module StdLib {
  import opened Common

  /** An `int` of the i386 ABI. */
  type i32 = x: int | -0x8000_0000 <= x < 0x8000_0000

  // ---------------------------------------------------------------------
  // C strings.
  // ---------------------------------------------------------------------

  /** The bytes from the pointer on hold a NUL: they start a C string. */
  predicate IsCString(s: seq<byte>)
  {
    exists i :: 0 <= i < |s| && s[i] == 0
  }

  /** The index of the first NUL of `s`. */
  function CStringLength(s: seq<byte>): (n: nat)
    requires IsCString(s)
    ensures n < |s| && s[n] == 0
    ensures forall i :: 0 <= i < n ==> s[i] != 0
  {
    if s[0] == 0 then 0
    else
      assert IsCString(s[1..]) by {
        var i :| 0 <= i < |s| && s[i] == 0;
        assert s[1..][i - 1] == 0;
      }
      1 + CStringLength(s[1..])
  }

  /** The string of `s` with its terminating NUL. */
  function Terminated(s: seq<byte>): seq<byte>
    requires IsCString(s)
  {
    s[..CStringLength(s) + 1]
  }

  /** A NUL ends the string: a sequence whose bytes up to some NUL at `n`
      are all non-zero has its first NUL at `n`. */
  lemma CStringLengthIsFirstNul(s: seq<byte>, n: nat)
    requires n < |s| && s[n] == 0 && forall i :: 0 <= i < n ==> s[i] != 0
    ensures IsCString(s) && CStringLength(s) == n
  {
    assert s[n] == 0;
  }

  /** `strlen`: walks to the first NUL. */
  method Strlen(s: seq<byte>) returns (length: u32)
    requires IsCString(s) && |s| <= WORD_MODULUS
    ensures length == CStringLength(s)
  {
    length := 0;
    while s[length] != 0
      invariant length <= CStringLength(s)
      decreases CStringLength(s) - length
    {
      length := length + 1;
    }
  }

  /** `strcmp`: walks both strings while the bytes agree and `X` goes on,
      then compares the bytes it stopped at. Returns 1 when they are equal,
      the opposite of the C library's convention. */
  method Strcmp(x: seq<byte>, y: seq<byte>) returns (equal: u32)
    requires IsCString(x) && IsCString(y)
    ensures equal == 0 || equal == 1
    ensures equal == 1 <==> Terminated(x) == Terminated(y)
  {
    var k := 0;
    while x[k] != 0
      invariant k <= CStringLength(x)
      invariant k <= CStringLength(y)
      invariant x[..k] == y[..k]
      decreases CStringLength(x) - k
    {
      if x[k] != y[k] {
        break;
      }
      assert y[k] != 0;
      assert x[..k + 1] == y[..k + 1] by {
        assert x[..k + 1] == x[..k] + [x[k]];
        assert y[..k + 1] == y[..k] + [y[k]];
      }
      k := k + 1;
    }
    if x[k] == y[k] {
      equal := 1;
      StringsAgreeUpToNul(x, y, k);
    } else {
      equal := 0;
      assert Terminated(x)[k] != Terminated(y)[k] by {
        if x[k] != 0 {
          assert k < CStringLength(x);
        }
      }
    }
  }

  /** Two strings equal up to and including a NUL at `k` are the same string. */
  lemma StringsAgreeUpToNul(x: seq<byte>, y: seq<byte>, k: nat)
    requires k < |x| && k < |y| && x[..k] == y[..k] && x[k] == y[k] == 0
    requires k <= CStringLength(x) && k <= CStringLength(y)
    requires IsCString(x) && IsCString(y)
    ensures Terminated(x) == Terminated(y)
  {
    assert CStringLength(x) == k;
    assert CStringLength(y) == k;
    assert x[..k + 1] == x[..k] + [x[k]];
    assert y[..k + 1] == y[..k] + [y[k]];
  }

  /** How many bytes `strncpy(dest, src, maxLength)` copies: the string and
      its NUL when that fits in `maxLength`, otherwise `maxLength` bytes. */
  function StrncpyCount(src: seq<byte>, maxLength: u32): nat
    requires IsCString(src) || maxLength <= |src|
  {
    if IsCString(src) && CStringLength(src) < maxLength then CStringLength(src) + 1 else maxLength
  }

  /** The count is never past `maxLength` nor past the source, and the copy
      ends with a NUL exactly when the string fits. */
  lemma StrncpyCountBounds(src: seq<byte>, maxLength: u32)
    requires IsCString(src) || maxLength <= |src|
    ensures StrncpyCount(src, maxLength) <= maxLength
    ensures StrncpyCount(src, maxLength) <= |src|
    ensures forall i :: 0 <= i < StrncpyCount(src, maxLength) - 1 ==> src[i] != 0
    ensures StrncpyCount(src, maxLength) > 0 ==>
      (src[StrncpyCount(src, maxLength) - 1] == 0 <==> IsCString(src) && CStringLength(src) < maxLength)
  {
    if IsCString(src) && CStringLength(src) >= maxLength && maxLength > 0 {
      assert src[maxLength - 1] != 0;
    }
  }

  /** `strncpy`: copies byte by byte while `maxLength` lasts, stopping after
      the NUL; the rest of `dest` is left as it was (no padding). */
  method Strncpy(dest: array<byte>, src: seq<byte>, maxLength: u32) returns (temp: array<byte>)
    requires IsCString(src) || maxLength <= |src|
    requires StrncpyCount(src, maxLength) <= dest.Length
    modifies dest
    ensures temp == dest
    ensures dest[..StrncpyCount(src, maxLength)] == src[..StrncpyCount(src, maxLength)]
    ensures dest[StrncpyCount(src, maxLength)..] == old(dest[StrncpyCount(src, maxLength)..])
  {
    temp := dest;
    ghost var n := StrncpyCount(src, maxLength);
    StrncpyCountBounds(src, maxLength);
    var i: nat := 0;
    var remaining: nat := maxLength;
    while remaining != 0
      invariant i + remaining == maxLength && i <= n
      invariant dest[..i] == src[..i]
      invariant forall k :: i <= k < dest.Length ==> dest[k] == old(dest[k])
      invariant i < n || remaining == 0
      decreases remaining
    {
      remaining := remaining - 1;
      dest[i] := src[i];
      i := i + 1;
      if dest[i - 1] == 0 {
        break;
      }
    }
  }

  // ---------------------------------------------------------------------
  // Memory blocks.
  // ---------------------------------------------------------------------

  /** `(unsigned char)c`: the low byte of the two's-complement `c`. */
  function LowByte(c: i32): (r: byte)
    ensures 0 <= c < 256 ==> r == c
    ensures -256 <= c < 0 ==> r == c + 256
  {
    c % 256
  }

  /** `memset`: stores `(unsigned char)c` in the first `len` bytes; a `len`
      of zero or less does nothing. */
  method Memset(b: array<byte>, c: i32, len: i32)
    requires len <= b.Length
    modifies b
    ensures forall k :: 0 <= k < len ==> b[k] == LowByte(c)
    ensures forall k :: 0 <= k < b.Length && k >= len ==> b[k] == old(b[k])
  {
    var p: nat := 0;
    var remaining: int := len;
    while remaining > 0
      invariant p == if len > 0 then len - remaining else 0
      invariant p <= b.Length
      invariant remaining <= len && (len > 0 ==> remaining >= 0)
      invariant forall k :: 0 <= k < p ==> b[k] == LowByte(c)
      invariant forall k :: p <= k < b.Length ==> b[k] == old(b[k])
    {
      b[p] := LowByte(c);
      p := p + 1;
      remaining := remaining - 1;
    }
  }

  /** `memcpy`: copies `n` bytes forward, one at a time. `dest` and `src`
      may be the same buffer. */
  method Memcpy(dest: array<byte>, src: array<byte>, n: u32)
    requires n <= dest.Length && n <= src.Length
    modifies dest
    ensures dest[..n] == old(src[..n])
    ensures dest[n..] == old(dest[n..])
  {
    for i := 0 to n
      invariant dest[..i] == old(src[..i])
      invariant dest[i..] == old(dest[i..])
      invariant src[i..] == old(src[i..])
    {
      dest[i] := src[i];
    }
  }

  // ---------------------------------------------------------------------
  // Arithmetic.
  // ---------------------------------------------------------------------

  /** `number` to the `power`, over the integers. */
  function Power(number: nat, power: nat): nat
  {
    if power == 0 then 1 else Power(number, power - 1) * number
  }

  /** Multiplying then truncating to 32 bits is truncating the product. */
  lemma {:induction false} WrapMultiply(a: int, b: int)
    ensures Wrap32(Wrap32(a) * b) == Wrap32(a * b)
  {
    var q := a / WORD_MODULUS;
    assert a == q * WORD_MODULUS + Wrap32(a);
    assert a * b == Wrap32(a) * b + (q * b) * WORD_MODULUS;
  }

  /** `pow`: multiplies `number` into a `size_t` accumulator `power` times;
      the result is `number` to the `power` modulo 2^32, and 1 for power 0. */
  method Pow(number: u32, power: u32) returns (r: u32)
    ensures r == Power(number, power) % WORD_MODULUS
    ensures power == 0 ==> r == 1
  {
    if power == 0 {
      return 1;
    }
    r := 1;
    for j := 0 to power
      invariant r == Power(number, j) % WORD_MODULUS
    {
      WrapMultiply(Power(number, j), number);
      r := Wrap32(r * number);
    }
  }
}
