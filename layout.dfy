// Arithmetic layout of the backing file: a fixed header region followed by the
// keycount, transaction-journal, nugget-metadata and body regions, each holding
// one fixed-size record per nugget, in that order.
module Layout {
  import opened Types
  import Arith

  /** Bytes taken by the fixed header region at the start of the backing file. */
  const HeaderRegionBytes: nat := 105

  /** Bytes of the per-nugget keycount (a 64-bit counter). */
  const KeycountBytes: nat := 8

  /** Bytes of journal per nugget: one bit per flake, rounded up to whole bytes. */
  function JournalBytes(flakesPerNugget: nat): (r: nat)
    ensures 8 * r >= flakesPerNugget
    ensures r > 0 ==> 8 * (r - 1) < flakesPerNugget
  {
    (flakesPerNugget + 7) / 8
  }

  /** Metadata bytes per nugget: one byte of cipher identifier plus the larger of
      the two ciphers' own metadata requests. */
  function MdBytesPerNugget(primaryRequested: nat, swapRequested: nat): (r: nat)
    ensures r >= 1 + primaryRequested && r >= 1 + swapRequested
    ensures r == 1 + primaryRequested || r == 1 + swapRequested
  {
    1 + Max(primaryRequested, swapRequested)
  }

  /** Everything one nugget costs in the backing file: its body plus its keycount,
      journal and metadata records. */
  function PerNuggetBytes(flakesPerNugget: nat, flakeSize: nat, mdBytes: nat): nat
  {
    flakesPerNugget * flakeSize + KeycountBytes + JournalBytes(flakesPerNugget) + mdBytes
  }

  /** The largest nugget count whose regions fit after the header region. */
  function NumNuggets(fileSize: nat, flakesPerNugget: nat, flakeSize: nat, mdBytes: nat): (n: nat)
    ensures fileSize < HeaderRegionBytes ==> n == 0
    ensures fileSize >= HeaderRegionBytes ==>
      HeaderRegionBytes + n * PerNuggetBytes(flakesPerNugget, flakeSize, mdBytes) <= fileSize
    ensures fileSize >= HeaderRegionBytes ==>
      fileSize < HeaderRegionBytes + (n + 1) * PerNuggetBytes(flakesPerNugget, flakeSize, mdBytes)
  {
    var per := PerNuggetBytes(flakesPerNugget, flakeSize, mdBytes);
    assert per >= 1;
    if fileSize < HeaderRegionBytes then 0
    else
      var room := fileSize - HeaderRegionBytes;
      Arith.DivFloor(room, per);
      room / per
  }

  /** The real offsets of the regions and the derived sizes, as the backstore records them. */
  datatype Offsets = Offsets(kcs: nat, tj: nat, md: nat, body: nat, nuggetSize: nat, writeable: nat)

  /** Offsets of the regions for a device of numNuggets nuggets. */
  function RegionOffsets(numNuggets: nat, flakesPerNugget: nat, flakeSize: nat, mdBytes: nat): (o: Offsets)
    ensures HeaderRegionBytes == o.kcs <= o.tj <= o.md <= o.body
    ensures o.tj == o.kcs + KeycountBytes * numNuggets
    ensures o.md == o.tj + JournalBytes(flakesPerNugget) * numNuggets
    ensures o.body == o.md + mdBytes * numNuggets
    ensures o.nuggetSize == flakesPerNugget * flakeSize
    ensures o.body + o.writeable == HeaderRegionBytes + numNuggets * PerNuggetBytes(flakesPerNugget, flakeSize, mdBytes)
    ensures o.writeable == numNuggets * o.nuggetSize
  {
    var kcs := HeaderRegionBytes;
    var tj := kcs + KeycountBytes * numNuggets;
    var md := tj + JournalBytes(flakesPerNugget) * numNuggets;
    var body := md + mdBytes * numNuggets;
    var nuggetSize := flakesPerNugget * flakeSize;
    Offsets(kcs, tj, md, body, nuggetSize, numNuggets * nuggetSize)
  }

  /** The layout chosen when a backing file of fileSize bytes is created: the
      body region ends inside the file, and one more nugget would not fit. */
  lemma CreatedLayoutFits(fileSize: nat, flakesPerNugget: nat, flakeSize: nat, mdBytes: nat)
    requires fileSize >= HeaderRegionBytes
    ensures var n := NumNuggets(fileSize, flakesPerNugget, flakeSize, mdBytes);
            var o := RegionOffsets(n, flakesPerNugget, flakeSize, mdBytes);
            var o' := RegionOffsets(n + 1, flakesPerNugget, flakeSize, mdBytes);
            o.body + o.writeable <= fileSize < o'.body + o'.writeable
  {
  }

  /** The three-nugget file of 204 bytes with two flakes of 8 bytes and 8 metadata bytes. */
  lemma SmallBackstoreLayout()
    ensures NumNuggets(204, 2, 8, 8) == 3
    ensures RegionOffsets(3, 2, 8, 8) == Offsets(105, 129, 132, 156, 16, 48)
    ensures RegionOffsets(3, 2, 8, 0).body == 132
  {
    assert PerNuggetBytes(2, 8, 8) == 33;
  }

  /** A 4096-byte file with twelve flakes of 2 bytes and 8 metadata bytes. */
  lemma CreatedBackstoreLayout()
    ensures NumNuggets(4096, 12, 2, 8) == 95
    ensures RegionOffsets(95, 12, 2, 8) == Offsets(105, 865, 1055, 1815, 24, 2280)
  {
    assert PerNuggetBytes(12, 2, 8) == 42;
  }

  /** The default 1 GiB file with eight flakes of 16384 bytes and one metadata byte. */
  lemma DefaultBackstoreLayout()
    ensures NumNuggets(1073741824, 8, 16384, MdBytesPerNugget(0, 0)) == 8191
    ensures RegionOffsets(8191, 8, 16384, 1).nuggetSize == 131072
  {
    assert PerNuggetBytes(8, 16384, 1) == 131082;
  }
}
