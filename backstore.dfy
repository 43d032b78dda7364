// The backing file ("backstore"): its region offsets and raw, body-relative
// reads and writes of byte ranges.
module Backstore {
  import opened Types
  import opened Buffers
  import Layout

  datatype IoError = FileAlreadyExists | IoFailure

  /** The geometry persisted in the number-of-nuggets, flakes-per-nugget and
      flake-size headers. */
  datatype GeometryHeaders = GeometryHeaders(numNuggets: nat, flakesPerNugget: nat, flakeSize: nat)

  /** The last component of a path: everything after its final '/'. */
  function BaseName(path: string): (name: string)
    ensures |name| <= |path|
  {
    if |path| == 0 || path[|path| - 1] == '/' then ""
    else BaseName(path[..|path| - 1]) + [path[|path| - 1]]
  }

  /** The base name is the longest suffix of the path without a '/'. */
  lemma {:induction false} BaseNameIsLastComponent(path: string)
    ensures var name := BaseName(path);
      name == path[|path| - |name|..] && '/' !in name
      && (|name| < |path| ==> path[|path| - |name| - 1] == '/')
  {
    if |path| == 0 || path[|path| - 1] == '/' {
    } else {
      var prefix := path[..|path| - 1];
      BaseNameIsLastComponent(prefix);
      var name := BaseName(path);
      var rest := BaseName(prefix);
      assert name == rest + [path[|path| - 1]];
      assert prefix[|prefix| - |rest|..] + [path[|path| - 1]] == path[|path| - |name|..];
      if |name| < |path| {
        assert path[|path| - |name| - 1] == prefix[|prefix| - |rest| - 1];
      }
    }
  }

  /** The file after a positioned write: bytes past the old end that the write
      skips over read as zero, as with a POSIX positioned write. */
  function Overwrite(s: seq<byte>, offset: nat, buf: seq<byte>): (r: seq<byte>)
    ensures |r| == Max(|s|, offset + |buf|)
    ensures r[offset..offset + |buf|] == buf
    ensures forall i :: 0 <= i < |r| && !(offset <= i < offset + |buf|) ==> r[i] == if i < |s| then s[i] else 0
  {
    var padded := if offset + |buf| <= |s| then s else s + Zeros(offset + |buf| - |s|);
    Splice(padded, offset, buf)
  }

  /** n zero bytes. */
  function Zeros(n: nat): (z: seq<byte>)
    ensures |z| == n && forall i :: 0 <= i < n ==> z[i] == 0
  {
    if n == 0 then [] else Zeros(n - 1) + [0]
  }

  /** The bytes a positioned read returns, or the failure of a short read. */
  function ReadAt(s: seq<byte>, offset: nat, length: nat): (r: Result<seq<byte>, IoError>)
    ensures r.Success? <==> offset + length <= |s|
    ensures r.Success? ==> |r.value| == length && forall i :: 0 <= i < length ==> r.value[i] == s[offset + i]
  {
    if offset + length <= |s| then Success(s[offset..offset + length]) else Failure(IoFailure)
  }

  /** Reading back the range just written returns the written bytes. */
  lemma ReadAfterWrite(s: seq<byte>, offset: nat, buf: seq<byte>)
    ensures ReadAt(Overwrite(s, offset, buf), offset, |buf|) == Success(buf)
  {
    var r := ReadAt(Overwrite(s, offset, buf), offset, |buf|);
    assert r.value == buf;
  }

  /** Two consecutive reads return the same bytes as one read of the whole range. */
  lemma SplitRead(s: seq<byte>, offset: nat, first: nat, second: nat)
    requires offset + first + second <= |s|
    ensures ReadAt(s, offset, first).Success? && ReadAt(s, offset + first, second).Success?
    ensures ReadAt(s, offset, first).value + ReadAt(s, offset + first, second).value
            == ReadAt(s, offset, first + second).value
  {
    var a := ReadAt(s, offset, first).value;
    var b := ReadAt(s, offset + first, second).value;
    var c := ReadAt(s, offset, first + second).value;
    assert forall i :: 0 <= i < first + second ==> (a + b)[i] == c[i];
  }

  /** Offsets known right after the headers are read, before the metadata size is set. */
  function OpenedOffsets(h: GeometryHeaders): (o: Layout.Offsets)
    ensures o.body == 0 && o.writeable == 0
    ensures var full := Layout.RegionOffsets(h.numNuggets, h.flakesPerNugget, h.flakeSize, 0);
            o.kcs == full.kcs && o.tj == full.tj && o.md == full.md && o.nuggetSize == full.nuggetSize
  {
    var full := Layout.RegionOffsets(h.numNuggets, h.flakesPerNugget, h.flakeSize, 0);
    full.(body := 0, writeable := 0)
  }

  /** Offsets once the metadata bytes per nugget are known. */
  function FinishedOffsets(o: Layout.Offsets, numNuggets: nat, mdBytes: nat): (r: Layout.Offsets)
    ensures r.kcs == o.kcs && r.tj == o.tj && r.md == o.md && r.nuggetSize == o.nuggetSize
    ensures o.md <= r.body && r.writeable == numNuggets * o.nuggetSize
    ensures mdBytes == 0 ==> r.body == o.md
  {
    o.(body := o.md + numNuggets * mdBytes, writeable := numNuggets * o.nuggetSize)
  }

  /** Opening a backstore and finishing its setup reproduces the offsets chosen
      when it was created with the same geometry and metadata size. */
  lemma OpenThenFinishMatchesCreate(h: GeometryHeaders, mdBytes: nat)
    ensures FinishedOffsets(OpenedOffsets(h), h.numNuggets, mdBytes)
            == Layout.RegionOffsets(h.numNuggets, h.flakesPerNugget, h.flakeSize, mdBytes)
  {
  }

  /** The backstore opened from the 204-byte file: 105/129/132 before finishing,
      body at 132 with no metadata bytes and at 156 with 8. */
  lemma SmallBackstoreOffsets()
    ensures var o := OpenedOffsets(GeometryHeaders(3, 2, 8));
            o.kcs == 105 && o.tj == 129 && o.md == 132 && o.body == 0
    ensures FinishedOffsets(OpenedOffsets(GeometryHeaders(3, 2, 8)), 3, 0).body == 132
    ensures FinishedOffsets(OpenedOffsets(GeometryHeaders(3, 2, 8)), 3, 8).body == 156
    ensures FinishedOffsets(OpenedOffsets(GeometryHeaders(3, 2, 8)), 3, 8).writeable == 48
  {
  }

  class Backstore {
    const filePath: string
    const fileName: string
    var file: array<byte>
    var kcsOffset: nat
    var tjOffset: nat
    var mdOffset: nat
    var bodyOffset: nat
    var writeableSize: nat
    var nuggetSize: nat
    var flakeSize: nat
    var mdBytesPerNugget: nat
    var numNuggets: nat
    var flakesPerNugget: nat
    var fileSize: nat

    ghost function Contents(): seq<byte>
      reads this, file
    {
      file[..]
    }

    function Offsets(): Layout.Offsets
      reads this
    {
      Layout.Offsets(kcsOffset, tjOffset, mdOffset, bodyOffset, nuggetSize, writeableSize)
    }

    /** A fresh, zero-filled backing file of size bytes whose layout is not yet known. */
    constructor Init(path: string, size: nat)
      ensures filePath == path && fileName == BaseName(path)
      ensures fresh(file) && file.Length == size && forall i :: 0 <= i < size ==> file[i] == 0
      ensures Offsets() == Layout.Offsets(0, 0, 0, 0, 0, 0)
      ensures flakeSize == 0 && numNuggets == 0 && flakesPerNugget == 0
      ensures mdBytesPerNugget == 1 && fileSize == size
    {
      filePath := path;
      fileName := BaseName(path);
      var f := new byte[size](_ => 0 as byte);
      file := f;
      kcsOffset, tjOffset, mdOffset, bodyOffset := 0, 0, 0, 0;
      writeableSize, nuggetSize, flakeSize := 0, 0, 0;
      mdBytesPerNugget := 1;
      numNuggets, flakesPerNugget := 0, 0;
      fileSize := size;
    }

    /** A backstore over an existing file whose geometry headers have been read. */
    constructor Open(path: string, contents: seq<byte>, h: GeometryHeaders)
      ensures filePath == path && fileName == BaseName(path)
      ensures fresh(file) && file[..] == contents
      ensures Offsets() == OpenedOffsets(h)
      ensures numNuggets == h.numNuggets && flakesPerNugget == h.flakesPerNugget && flakeSize == h.flakeSize
      ensures mdBytesPerNugget == 0 && fileSize == |contents|
    {
      filePath := path;
      fileName := BaseName(path);
      var f := new byte[|contents|](i requires 0 <= i < |contents| => contents[i]);
      assert forall i :: 0 <= i < |contents| ==> f[..][i] == contents[i];
      file := f;
      var o := OpenedOffsets(h);
      kcsOffset, tjOffset, mdOffset, bodyOffset := o.kcs, o.tj, o.md, o.body;
      writeableSize, nuggetSize := o.writeable, o.nuggetSize;
      flakeSize, numNuggets, flakesPerNugget := h.flakeSize, h.numNuggets, h.flakesPerNugget;
      mdBytesPerNugget := 0;
      fileSize := |contents|;
    }

    /** Creating a backstore fails when the path already names a file. */
    static method Create(existing: set<string>, path: string, size: nat) returns (r: Result<Backstore, IoError>)
      ensures r.Failure? <==> path in existing
      ensures r.Failure? ==> r.error == FileAlreadyExists
      ensures r.Success? ==> fresh(r.value) && fresh(r.value.file)
      ensures r.Success? ==> r.value.filePath == path && r.value.fileName == BaseName(path)
      ensures r.Success? ==> r.value.file.Length == size && forall i :: 0 <= i < size ==> r.value.file[i] == 0
      ensures r.Success? ==> r.value.Offsets() == Layout.Offsets(0, 0, 0, 0, 0, 0)
      ensures r.Success? ==> r.value.mdBytesPerNugget == 1 && r.value.fileSize == size
      ensures r.Success? ==> r.value.numNuggets == 0 && r.value.flakesPerNugget == 0 && r.value.flakeSize == 0
    {
      if path in existing {
        return Failure(FileAlreadyExists);
      }
      var b := new Backstore.Init(path, size);
      return Success(b);
    }

    /** Places the body region after the metadata region and sizes the writeable area. */
    method SetupActualFinish()
      modifies this
      ensures Offsets() == FinishedOffsets(old(Offsets()), numNuggets, mdBytesPerNugget)
      ensures file == old(file) && fileSize == old(fileSize) && mdBytesPerNugget == old(mdBytesPerNugget)
      ensures numNuggets == old(numNuggets) && flakesPerNugget == old(flakesPerNugget) && flakeSize == old(flakeSize)
    {
      bodyOffset := mdOffset + numNuggets * mdBytesPerNugget;
      writeableSize := numNuggets * nuggetSize;
    }

    /** Copies length bytes out of the file starting at offset. */
    method Read(length: nat, offset: nat) returns (r: Result<seq<byte>, IoError>)
      ensures r == ReadAt(Contents(), offset, length)
    {
      if offset + length > file.Length {
        return Failure(IoFailure);
      }
      return Success(file[offset..offset + length]);
    }

    /** Overwrites the file at offset with buf, growing the file if the range ends past it. */
    method Write(buf: seq<byte>, offset: nat)
      modifies this, file
      ensures Contents() == Overwrite(old(Contents()), offset, buf)
      ensures Offsets() == old(Offsets()) && fileSize == old(fileSize)
      ensures numNuggets == old(numNuggets) && flakesPerNugget == old(flakesPerNugget) && flakeSize == old(flakeSize)
      ensures mdBytesPerNugget == old(mdBytesPerNugget)
    {
      if offset + |buf| > file.Length {
        Grow(offset + |buf|);
      }
      CopyInto(file, offset, buf);
    }

    /** Extends the file with zero bytes to size bytes. */
    method Grow(size: nat)
      requires file.Length < size
      modifies this
      ensures fresh(file) && file[..] == old(file[..]) + Zeros(size - old(file.Length))
      ensures Offsets() == old(Offsets()) && fileSize == old(fileSize)
      ensures numNuggets == old(numNuggets) && flakesPerNugget == old(flakesPerNugget) && flakeSize == old(flakeSize)
      ensures mdBytesPerNugget == old(mdBytesPerNugget)
    {
      var grown := new byte[size](_ => 0 as byte);
      CopyInto(grown, 0, file[..]);
      assert grown[..] == file[..] + Zeros(size - file.Length);
      file := grown;
    }

    /** Reads length bytes of the body region, offset bytes past its start. */
    method ReadBody(length: nat, offset: nat) returns (r: Result<seq<byte>, IoError>)
      ensures r == ReadAt(Contents(), bodyOffset + offset, length)
    {
      r := Read(length, bodyOffset + offset);
    }

    /** Overwrites body bytes offset bytes past the start of the body region. */
    method WriteBody(buf: seq<byte>, offset: nat)
      modifies this, file
      ensures Contents() == Overwrite(old(Contents()), old(bodyOffset) + offset, buf)
      ensures Offsets() == old(Offsets()) && fileSize == old(fileSize)
      ensures numNuggets == old(numNuggets) && flakesPerNugget == old(flakesPerNugget) && flakeSize == old(flakeSize)
      ensures mdBytesPerNugget == old(mdBytesPerNugget)
    {
      Write(buf, bodyOffset + offset);
    }
  }
}
