/** Octets, fixed-width integers and their network byte order. */
module Bytes {

  type byte = b: int | 0 <= b < 0x100
  type bytes = seq<byte>
  type uint16 = n: int | 0 <= n < 0x1_0000
  type uint32 = n: int | 0 <= n < 0x1_0000_0000

  datatype Option<+T> = None | Some(value: T)

  datatype Result<+T, +E> = Ok(value: T) | Err(error: E)

  /** htons: the two octets of a 16-bit number, most significant first. */
  function U16(n: uint16): (r: bytes)
    ensures |r| == 2
  {
    [n / 0x100, n % 0x100]
  }

  /** htonl: the four octets of a 32-bit number, most significant first. */
  function U32(n: uint32): (r: bytes)
    ensures |r| == 4
  {
    [n / 0x100_0000, n / 0x1_0000 % 0x100, n / 0x100 % 0x100, n % 0x100]
  }

  function GetU16(b: bytes, pos: nat): uint16
    requires pos + 2 <= |b|
  {
    b[pos] as int * 0x100 + b[pos + 1]
  }

  function GetU32(b: bytes, pos: nat): uint32
    requires pos + 4 <= |b|
  {
    b[pos] as int * 0x100_0000 + b[pos + 1] as int * 0x1_0000 + b[pos + 2] as int * 0x100 + b[pos + 3]
  }

  /** The buffer with the octets from `pos` on overwritten by `x`. */
  function Patch(b: bytes, pos: nat, x: bytes): (r: bytes)
    requires pos + |x| <= |b|
    ensures |r| == |b|
    ensures forall i :: 0 <= i < |b| ==> r[i] == if pos <= i < pos + |x| then x[i - pos] else b[i]
  {
    b[..pos] + x + b[pos + |x|..]
  }

  /** The octets of `x` stand at `pos`. */
  predicate OctetsAt(b: bytes, pos: nat, x: bytes) {
    pos + |x| <= |b| && b[pos..pos + |x|] == x
  }

  lemma U16At(b: bytes, pos: nat, n: uint16)
    requires pos + 2 <= |b| && GetU16(b, pos) == n
    ensures OctetsAt(b, pos, U16(n))
  {
    assert n / 0x100 == b[pos] && n % 0x100 == b[pos + 1];
  }

  lemma OctetsSplit(b: bytes, pos: nat, x: bytes, y: bytes)
    requires OctetsAt(b, pos, x + y)
    ensures OctetsAt(b, pos, x) && OctetsAt(b, pos + |x|, y)
  {
    var s := b[pos..pos + |x + y|];
    assert s[..|x|] == x && s[|x|..] == y;
    assert b[pos..pos + |x|] == s[..|x|];
    assert b[pos + |x|..pos + |x| + |y|] == s[|x|..];
  }

  lemma OctetsJoin(b: bytes, pos: nat, x: bytes, y: bytes)
    requires OctetsAt(b, pos, x) && OctetsAt(b, pos + |x|, y)
    ensures OctetsAt(b, pos, x + y)
  {
    assert b[pos..pos + |x| + |y|] == b[pos..pos + |x|] + b[pos + |x|..pos + |x| + |y|];
  }

  /** The ASCII folding of boost::iequals in the "C" locale. */
  function Lower(c: byte): byte {
    if 65 <= c <= 90 then c + 32 else c
  }

  predicate IEquals(a: bytes, b: bytes) {
    |a| == |b| && forall i :: 0 <= i < |a| ==> Lower(a[i]) == Lower(b[i])
  }

  /** The two cases of one letter. */
  predicate TwoCases(x: byte, y: byte) {
    ('A' <= x as char <= 'Z' && y == x + 32) || ('A' <= y as char <= 'Z' && x == y + 32)
  }

  /** Equal without regard to case: octet by octet the same, or the two cases of one letter. */
  lemma IEqualsIs(a: bytes, b: bytes)
    ensures IEquals(a, b) <==> |a| == |b| && forall i :: 0 <= i < |a| ==> a[i] == b[i] || TwoCases(a[i], b[i])
  {
    if |a| == |b| {
      forall i | 0 <= i < |a| ensures Lower(a[i]) == Lower(b[i]) <==> a[i] == b[i] || TwoCases(a[i], b[i]) {
        LowerIs(a[i], b[i]);
      }
      hide Lower, TwoCases;
    }
  }

  lemma LowerIs(x: byte, y: byte)
    ensures Lower(x) == Lower(y) <==> x == y || TwoCases(x, y)
  {
  }
}
