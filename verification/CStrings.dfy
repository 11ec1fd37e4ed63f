/** NUL-terminated strings in page memory. */
module CStrings {
  import opened Bytes

  /** The bytes from p up to the first NUL. */
  function CString(m: Mem, p: nat): (r: Mem)
    requires p <= |m|
    decreases |m| - p
  {
    if p == |m| || m[p] == 0 then [] else [m[p]] + CString(m, p + 1)
  }

  function UpToNul(name: Mem): Mem {
    CString(name, 0)
  }

  lemma {:induction false} CStringOf(m: Mem, p: nat, name: Mem, k: nat)
    requires p + |name| < |m| && m[p..p + |name|] == name && m[p + |name|] == 0 && k <= |name|
    ensures CString(m, p + k) == CString(name, k)
    decreases |name| - k
  {
    if k < |name| {
      assert m[p + k] == m[p..p + |name|][k];
      CStringOf(m, p, name, k + 1);
    }
  }

  lemma {:induction false} CStringWhole(name: Mem, k: nat)
    requires k <= |name|
    ensures CString(name, k) == name[k..] <==> 0 !in name[k..]
    ensures |CString(name, k)| <= |name| - k
    decreases |name| - k
  {
    if k < |name| {
      CStringWhole(name, k + 1);
      assert name[k..] == [name[k]] + name[k + 1..];
    }
  }

  lemma {:induction false} CStringNoNul(m: Mem, p: nat)
    requires p <= |m|
    ensures 0 !in CString(m, p)
    decreases |m| - p
  {
    if p < |m| && m[p] != 0 {
      CStringNoNul(m, p + 1);
    }
  }

  method ReadCString(data: array<byte>, p: nat) returns (name: Mem)
    requires p <= data.Length
    ensures name == CString(data[..], p)
  {
    var i := p;
    name := [];
    while i < data.Length && data[i] != 0
      invariant p <= i <= data.Length
      invariant name + CString(data[..], i) == CString(data[..], p)
    {
      name := name + [data[i]];
      i := i + 1;
    }
  }
}
