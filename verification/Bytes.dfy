/** Raw memory as the storage layer sees it: bytes, little-endian 32-bit words,
    `memcpy`/`memmove` as one splice of a byte string. */
module Bytes {

  type byte = b: int | 0 <= b < 256

  const TWO_31: int := 0x8000_0000
  const TWO_32: int := 0x1_0000_0000

  type uint32 = n: int | 0 <= n < 0x1_0000_0000
  type int32 = n: int | -0x8000_0000 <= n < 0x8000_0000

  datatype Option<+T> = None | Some(value: T)

  /** The four bytes of a 32-bit word, least significant first. */
  function EncodeU32(n: uint32): (s: seq<byte>)
    ensures |s| == 4
  {
    [n % 256, n / 256 % 256, n / 65536 % 256, n / 16777216]
  }

  function Word(a: int, b: int, c: int, d: int): int {
    a + 256 * b + 65536 * c + 16777216 * d
  }

  /** The number whose `n` bytes, least significant first, start at `at`. */
  function LittleEndian(p: seq<byte>, at: nat, n: nat): (r: nat)
    requires at + n <= |p|
    decreases n
  {
    if n == 0 then 0 else p[at] + 256 * LittleEndian(p, at + 1, n - 1)
  }

  lemma FourBytes(p: seq<byte>, at: nat)
    requires at + 4 <= |p|
    ensures LittleEndian(p, at, 4) == Word(p[at], p[at + 1], p[at + 2], p[at + 3])
  {
    assert LittleEndian(p, at + 2, 2) == p[at + 2] + 256 * LittleEndian(p, at + 3, 1);
  }

  function ReadU32(p: seq<byte>, at: nat): (n: uint32)
    requires at + 4 <= |p|
  {
    FourBytes(p, at);
    LittleEndian(p, at, 4)
  }

  /** Two's complement. */
  function AsU32(n: int32): uint32 {
    if n < 0 then n + TWO_32 else n
  }

  function AsI32(n: uint32): int32 {
    if n >= TWO_31 then n - TWO_32 else n
  }

  function EncodeI32(n: int32): (s: seq<byte>)
    ensures |s| == 4
  {
    EncodeU32(AsU32(n))
  }

  function ReadI32(p: seq<byte>, at: nat): int32
    requires at + 4 <= |p|
  {
    AsI32(ReadU32(p, at))
  }

  /** `p` with the bytes `b` copied over position `at`. */
  function Splice(p: seq<byte>, at: nat, b: seq<byte>): (q: seq<byte>)
    requires at + |b| <= |p|
    ensures |q| == |p|
  {
    p[..at] + b + p[at + |b|..]
  }

  lemma SpliceAt(p: seq<byte>, at: nat, b: seq<byte>)
    requires at + |b| <= |p|
    ensures forall i :: 0 <= i < |p| ==> Splice(p, at, b)[i] == if at <= i < at + |b| then b[i - at] else p[i]
  {
  }

  function Zeros(n: nat): (s: seq<byte>)
    ensures |s| == n && forall i :: 0 <= i < n ==> s[i] == 0
  {
    seq(n, _ => 0)
  }

  lemma WordOfDigits(n: int)
    ensures Word(n % 256, n / 256 % 256, n / 65536 % 256, n / 16777216) == n
  {
  }

  lemma EncodeReadU32(p: seq<byte>, at: nat, n: uint32)
    requires at + 4 <= |p|
    requires p[at..at + 4] == EncodeU32(n)
    ensures ReadU32(p, at) == n
  {
    var s := p[at..at + 4];
    WordOfDigits(n);
    assert s[0] == p[at] && s[1] == p[at + 1] && s[2] == p[at + 2] && s[3] == p[at + 3];
  }

  /** What one 32-bit store does to every 32-bit load. */
  lemma StoreU32(p: seq<byte>, at: nat, n: uint32)
    requires at + 4 <= |p|
    ensures var q := Splice(p, at, EncodeU32(n));
            && ReadU32(q, at) == n
            && forall o: nat :: o + 4 <= |p| && (o + 4 <= at || at + 4 <= o) ==> ReadU32(q, o) == ReadU32(p, o)
  {
    var q := Splice(p, at, EncodeU32(n));
    SpliceAt(p, at, EncodeU32(n));
    assert q[at..at + 4] == EncodeU32(n);
    EncodeReadU32(q, at, n);
  }

  /** `memcpy` of `b` to `a + at`; with `b` a copy of part of `a` it is `memmove`. */
  method Copy(a: array<byte>, at: nat, b: seq<byte>)
    requires at + |b| <= a.Length
    modifies a
    ensures a[..] == Splice(old(a[..]), at, b)
  {
    forall i | 0 <= i < |b| {
      a[at + i] := b[i];
    }
    SpliceAt(old(a[..]), at, b);
    assert a[..] == Splice(old(a[..]), at, b);
  }
}
