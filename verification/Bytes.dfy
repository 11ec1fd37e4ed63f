/** Page memory: bytes, and the 32-bit little-endian integers stored in them. */
module Bytes {

  type byte = b: int | 0 <= b < 256

  const PAGE_SIZE := 4096
  const INVALID_PAGE_ID := -1

  // the first byte of a page
  const STATUS_EXIST: byte := 1
  const STATUS_FREE: byte := 2
  const STATUS_TMP: byte := 4

  const TWO_32 := 0x1_0000_0000
  const TWO_31 := 0x8000_0000

  predicate IsInt32(x: int) {
    -TWO_31 <= x < TWO_31
  }

  // ---- One integer.

  function Encode(x: int): (r: seq<byte>)
    requires IsInt32(x)
    ensures |r| == 4
  {
    var u := if x < 0 then x + TWO_32 else x;
    var v := u / 256;
    var w := v / 256;
    [u % 256, v % 256, w % 256, w / 256]
  }

  function Decode(a: byte, b: byte, c: byte, d: byte): (r: int)
    ensures IsInt32(r)
  {
    var u := a + 256 * b + 65536 * c + 16777216 * d;
    if u >= TWO_31 then u - TWO_32 else u
  }

  /** Every 32-bit integer is read back as written. */
  lemma DecodeEncode(x: int)
    requires IsInt32(x)
    ensures var e := Encode(x); Decode(e[0], e[1], e[2], e[3]) == x
  {
    var u := if x < 0 then x + TWO_32 else x;
    var v := u / 256;
    var w := v / 256;
    assert u == u % 256 + 256 * v && v == v % 256 + 256 * w && w == w % 256 + 256 * (w / 256);
  }

  // ---- Memory.

  type Mem = seq<byte>

  function GetInt(m: Mem, p: nat): (r: int)
    requires p + 4 <= |m|
    ensures IsInt32(r)
  {
    Decode(m[p], m[p + 1], m[p + 2], m[p + 3])
  }

  function PutBytes(m: Mem, p: nat, s: Mem): (r: Mem)
    requires p + |s| <= |m|
    ensures |r| == |m|
    ensures forall k :: 0 <= k < |m| ==> r[k] == if p <= k < p + |s| then s[k - p] else m[k]
  {
    m[..p] + s + m[p + |s|..]
  }

  function PutInt(m: Mem, p: nat, x: int): (r: Mem)
    requires p + 4 <= |m| && IsInt32(x)
    ensures |r| == |m|
    ensures forall k :: 0 <= k < |m| && !(p <= k < p + 4) ==> r[k] == m[k]
    ensures GetInt(r, p) == x
  {
    DecodeEncode(x);
    PutBytes(m, p, Encode(x))
  }

  /** The same bytes hold the same integer. */
  lemma SameInt(m: Mem, m': Mem, p: nat)
    requires p + 4 <= |m| && p + 4 <= |m'|
    requires m'[p] == m[p] && m'[p + 1] == m[p + 1] && m'[p + 2] == m[p + 2] && m'[p + 3] == m[p + 3]
    ensures GetInt(m', p) == GetInt(m, p)
  {
  }

  lemma ZeroInt(m: Mem, p: nat)
    requires p + 4 <= |m| && forall k :: p <= k < p + 4 ==> m[k] == 0
    ensures GetInt(m, p) == 0
  {
  }

  // ---- The same on arrays.

  method ReadInt(a: array<byte>, p: nat) returns (x: int)
    requires p + 4 <= a.Length
    ensures x == GetInt(a[..], p) && IsInt32(x)
  {
    x := Decode(a[p], a[p + 1], a[p + 2], a[p + 3]);
  }

  method WriteInt(a: array<byte>, p: nat, x: int)
    requires p + 4 <= a.Length && IsInt32(x)
    modifies a
    ensures a[..] == PutInt(old(a[..]), p, x)
  {
    var e := Encode(x);
    a[p], a[p + 1], a[p + 2], a[p + 3] := e[0], e[1], e[2], e[3];
  }

  method WriteBytes(a: array<byte>, p: nat, s: Mem)
    requires p + |s| <= a.Length
    modifies a
    ensures a[..] == PutBytes(old(a[..]), p, s)
  {
    for i := 0 to |s|
      invariant forall k :: 0 <= k < a.Length ==> a[k] == if p <= k < p + i then s[k - p] else old(a[k])
    {
      a[p + i] := s[i];
    }
  }

  /** memmove to a higher address: the source is read as it was before the call, although the areas may overlap. */
  method MoveBytesUp(a: array<byte>, dst: nat, src: nat, n: nat)
    requires src <= dst && dst + n <= a.Length
    modifies a
    ensures a[..] == PutBytes(old(a[..]), dst, old(a[src..src + n]))
  {
    for i := n downto 0
      invariant forall k :: 0 <= k < a.Length ==> a[k] == if dst + i <= k < dst + n then old(a[k - dst + src]) else old(a[k])
    {
      a[dst + i] := a[src + i];
    }
  }
}
