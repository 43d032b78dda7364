// Byte ranges spliced into a larger byte sequence or array.
module Buffers {
  import opened Types

  /** s with the bytes at [offset, offset + |data|) replaced by data. */
  function Splice(s: seq<byte>, offset: nat, data: seq<byte>): (r: seq<byte>)
    requires offset + |data| <= |s|
    ensures |r| == |s|
    ensures r[offset..offset + |data|] == data
    ensures forall i :: 0 <= i < |s| && !(offset <= i < offset + |data|) ==> r[i] == s[i]
  {
    s[..offset] + data + s[offset + |data|..]
  }

  /** Splicing is the only change: every byte of the result is the new byte inside
      the range and the old one outside it. */
  lemma SpliceAt(s: seq<byte>, offset: nat, data: seq<byte>, i: nat)
    requires offset + |data| <= |s| && i < |s|
    ensures Splice(s, offset, data)[i] == if offset <= i < offset + |data| then data[i - offset] else s[i]
  {
    if offset <= i < offset + |data| {
      assert Splice(s, offset, data)[offset..offset + |data|][i - offset] == data[i - offset];
    }
  }

  /** Copies data into a at offset, one byte at a time. */
  method CopyInto(a: array<byte>, offset: nat, data: seq<byte>)
    requires offset + |data| <= a.Length
    modifies a
    ensures a[..] == Splice(old(a[..]), offset, data)
  {
    var i := 0;
    while i < |data|
      invariant 0 <= i <= |data|
      invariant a[..] == Splice(old(a[..]), offset, data[..i])
    {
      a[offset + i] := data[i];
      i := i + 1;
    }
    assert data[..i] == data;
  }
}
