// Pure views of the device body: the plaintext of each flake under its nugget's
// recorded cipher and keycount, which flakes a byte request covers, and which
// part of each covered flake it reads or writes.
module Volume {
  import opened Types
  import Arith
  import Cipher
  import KeyCache
  import Strategy
  import Buffers

  /** The body, flake by flake, with the per-nugget metadata describing it. */
  datatype Image = Image(meta: Strategy.Meta, flakes: seq<seq<byte>>)

  /** Every flake holds flakeSize bytes and belongs to a nugget of the metadata. */
  ghost predicate Shaped(im: Image, fpn: nat, flakeSize: nat)
  {
    fpn > 0 && Strategy.WellFormed(im.meta, fpn) && |im.flakes| == Arith.Mul(|im.meta.cipher|, fpn)
    && (forall g :: 0 <= g < |im.flakes| ==> |im.flakes[g]| == flakeSize)
    && (forall g :: 0 <= g < |im.flakes| ==> Arith.Quot(g, fpn) < |im.meta.cipher|)
  }

  lemma ShapedByNuggets(im: Image, fpn: nat, flakeSize: nat)
    requires fpn > 0 && Strategy.WellFormed(im.meta, fpn) && |im.flakes| == Arith.Mul(|im.meta.cipher|, fpn)
    requires forall g :: 0 <= g < |im.flakes| ==> |im.flakes[g]| == flakeSize
    ensures Shaped(im, fpn, flakeSize)
  {
    forall g | 0 <= g < |im.flakes|
      ensures Arith.Quot(g, fpn) < |im.meta.cipher|
    {
      Arith.QuotBetween(g, fpn, 0, |im.meta.cipher|);
    }
  }

  /** The key flake g is encrypted under: flake Rem(g, fpn) of nugget Quot(g, fpn) at the
      nugget's keycount. */
  function FlakeKey(secret: seq<byte>, m: Strategy.Meta, fpn: nat, g: nat): seq<byte>
    requires fpn > 0 && Arith.Quot(g, fpn) < |m.keycount|
  {
    KeyCache.Kdf(secret, KeyCache.FlakeKeyId(Arith.Quot(g, fpn), Arith.Rem(g, fpn), m.keycount[Arith.Quot(g, fpn)]))
  }

  /** The plaintext of flake g. */
  ghost function Plain(secret: seq<byte>, fpn: nat, flakeSize: nat, im: Image, g: nat): seq<byte>
    requires Shaped(im, fpn, flakeSize) && g < |im.flakes|
  {
    Cipher.Decrypt(im.meta.cipher[Arith.Quot(g, fpn)], FlakeKey(secret, im.meta, fpn, g), im.flakes[g])
  }

  /** Flake g has been written under its nugget's current cipher and keycount. */
  ghost predicate Dirty(fpn: nat, flakeSize: nat, im: Image, g: nat)
    requires Shaped(im, fpn, flakeSize) && g < |im.flakes|
  {
    im.meta.journal[Arith.Quot(g, fpn)][Arith.Rem(g, fpn)]
  }

  /** Every flake outside [lo, hi) that was written in a is still written in b and
      has the same plaintext. */
  ghost predicate Keeps(secret: seq<byte>, fpn: nat, flakeSize: nat, a: Image, b: Image, lo: nat, hi: nat)
    requires Shaped(a, fpn, flakeSize) && Shaped(b, fpn, flakeSize) && |b.flakes| == |a.flakes|
  {
    forall g :: 0 <= g < |a.flakes| && !(lo <= g < hi) && Dirty(fpn, flakeSize, a, g) ==>
      Dirty(fpn, flakeSize, b, g) && Plain(secret, fpn, flakeSize, b, g) == Plain(secret, fpn, flakeSize, a, g)
  }

  /** Two preservation steps compose: what survives both survives the pair, and the
      pair may disturb only what one of the steps may disturb. */
  lemma KeepsTransitive(secret: seq<byte>, fpn: nat, flakeSize: nat, a: Image, b: Image, c: Image,
                        lo: nat, hi: nat, lo2: nat, hi2: nat, lo3: nat, hi3: nat)
    requires Shaped(a, fpn, flakeSize) && Shaped(b, fpn, flakeSize) && Shaped(c, fpn, flakeSize)
    requires |b.flakes| == |a.flakes| && |c.flakes| == |a.flakes|
    requires Keeps(secret, fpn, flakeSize, a, b, lo, hi) && Keeps(secret, fpn, flakeSize, b, c, lo2, hi2)
    requires lo == hi || (lo3 <= lo && hi <= hi3)
    requires lo2 == hi2 || (lo3 <= lo2 && hi2 <= hi3)
    ensures Keeps(secret, fpn, flakeSize, a, c, lo3, hi3)
  {
  }

  /** b keeps every written flake of a outside two ranges [lo, hi) and [lo2, hi2). */
  ghost predicate KeepsBoth(secret: seq<byte>, fpn: nat, flakeSize: nat, a: Image, b: Image,
                            lo: nat, hi: nat, lo2: nat, hi2: nat)
    requires Shaped(a, fpn, flakeSize) && Shaped(b, fpn, flakeSize) && |b.flakes| == |a.flakes|
  {
    forall g :: 0 <= g < |a.flakes| && !(lo <= g < hi) && !(lo2 <= g < hi2) && Dirty(fpn, flakeSize, a, g) ==>
      Dirty(fpn, flakeSize, b, g) && Plain(secret, fpn, flakeSize, b, g) == Plain(secret, fpn, flakeSize, a, g)
  }

  /** Two preservation steps with one range each compose into one with both. */
  lemma KeepsCompose(secret: seq<byte>, fpn: nat, flakeSize: nat, a: Image, b: Image, c: Image,
                     lo: nat, hi: nat, lo2: nat, hi2: nat)
    requires Shaped(a, fpn, flakeSize) && Shaped(b, fpn, flakeSize) && Shaped(c, fpn, flakeSize)
    requires |b.flakes| == |a.flakes| && |c.flakes| == |a.flakes|
    requires Keeps(secret, fpn, flakeSize, a, b, lo, hi) && Keeps(secret, fpn, flakeSize, b, c, lo2, hi2)
    ensures KeepsBoth(secret, fpn, flakeSize, a, c, lo, hi, lo2, hi2)
  {
  }

  /** One flake that a preservation step keeps. */
  lemma KeptAt(secret: seq<byte>, fpn: nat, flakeSize: nat, a: Image, b: Image, lo: nat, hi: nat, g: nat)
    requires Shaped(a, fpn, flakeSize) && Shaped(b, fpn, flakeSize) && |b.flakes| == |a.flakes|
    requires Keeps(secret, fpn, flakeSize, a, b, lo, hi)
    requires g < |a.flakes| && !(lo <= g < hi) && Dirty(fpn, flakeSize, a, g)
    ensures Dirty(fpn, flakeSize, b, g) && Plain(secret, fpn, flakeSize, b, g) == Plain(secret, fpn, flakeSize, a, g)
  {
  }

  /** The image after flake g is overwritten with ciphertext x and its journal bit set. */
  function Overwrite(im: Image, fpn: nat, g: nat, x: seq<byte>): Image
    requires fpn > 0 && g < |im.flakes| && Arith.Quot(g, fpn) < |im.meta.journal| && Arith.Rem(g, fpn) < |im.meta.journal[Arith.Quot(g, fpn)]|
  {
    Image(Strategy.MarkWritten(im.meta, Arith.Quot(g, fpn), Arith.Rem(g, fpn)), im.flakes[g := x])
  }

  /** Overwriting flake g marks it written with the plaintext x decrypts to under its
      nugget's cipher and key, and keeps every other written flake. */
  lemma OverwriteEffect(secret: seq<byte>, fpn: nat, flakeSize: nat, im: Image, g: nat, x: seq<byte>)
    requires Shaped(im, fpn, flakeSize) && g < |im.flakes| && |x| == flakeSize
    ensures Shaped(Overwrite(im, fpn, g, x), fpn, flakeSize)
    ensures |Overwrite(im, fpn, g, x).flakes| == |im.flakes|
    ensures Dirty(fpn, flakeSize, Overwrite(im, fpn, g, x), g)
    ensures Plain(secret, fpn, flakeSize, Overwrite(im, fpn, g, x), g)
            == Cipher.Decrypt(im.meta.cipher[Arith.Quot(g, fpn)], FlakeKey(secret, im.meta, fpn, g), x)
    ensures Keeps(secret, fpn, flakeSize, im, Overwrite(im, fpn, g, x), g, g + 1)
  {
    OverwriteShaped(fpn, flakeSize, im, g, x);
    forall h | 0 <= h < |im.flakes| && h != g && Dirty(fpn, flakeSize, im, h)
      ensures Dirty(fpn, flakeSize, Overwrite(im, fpn, g, x), h)
      ensures Plain(secret, fpn, flakeSize, Overwrite(im, fpn, g, x), h) == Plain(secret, fpn, flakeSize, im, h)
    {
      OverwriteKeepsOther(secret, fpn, flakeSize, im, g, x, h);
    }
  }

  lemma OverwriteShaped(fpn: nat, flakeSize: nat, im: Image, g: nat, x: seq<byte>)
    requires Shaped(im, fpn, flakeSize) && g < |im.flakes| && |x| == flakeSize
    ensures Shaped(Overwrite(im, fpn, g, x), fpn, flakeSize)
  {
    var b := Overwrite(im, fpn, g, x);
    assert Strategy.WellFormed(b.meta, fpn);
    assert forall h :: 0 <= h < |b.flakes| ==> |b.flakes[h]| == flakeSize;
  }

  lemma OverwriteKeepsOther(secret: seq<byte>, fpn: nat, flakeSize: nat, im: Image, g: nat, x: seq<byte>, h: nat)
    requires Shaped(im, fpn, flakeSize) && g < |im.flakes| && |x| == flakeSize
    requires Shaped(Overwrite(im, fpn, g, x), fpn, flakeSize)
    requires 0 <= h < |im.flakes| && h != g
    ensures Dirty(fpn, flakeSize, im, h) ==> Dirty(fpn, flakeSize, Overwrite(im, fpn, g, x), h)
    ensures Plain(secret, fpn, flakeSize, Overwrite(im, fpn, g, x), h) == Plain(secret, fpn, flakeSize, im, h)
  {
    OverwriteKeepsOtherText(secret, fpn, flakeSize, im, g, x, h);
  }

  lemma OverwriteKeepsOtherText(secret: seq<byte>, fpn: nat, flakeSize: nat, im: Image, g: nat, x: seq<byte>, h: nat)
    requires Shaped(im, fpn, flakeSize) && g < |im.flakes| && |x| == flakeSize
    requires Shaped(Overwrite(im, fpn, g, x), fpn, flakeSize)
    requires 0 <= h < |im.flakes| && h != g
    ensures Plain(secret, fpn, flakeSize, Overwrite(im, fpn, g, x), h) == Plain(secret, fpn, flakeSize, im, h)
  {
    var b := Overwrite(im, fpn, g, x);
    assert b.flakes[h] == im.flakes[h];
    assert FlakeKey(secret, b.meta, fpn, h) == FlakeKey(secret, im.meta, fpn, h);
  }

  /** The written flakes of nugget u at local indices below f, as held in flakes,
      decrypt under cipher c and the keys of m to their plaintext in a; every other
      flake is as in a. */
  ghost predicate Reencrypted(secret: seq<byte>, fpn: nat, flakeSize: nat, a: Image, m: Strategy.Meta, c: CipherId,
                              flakes: seq<seq<byte>>, u: nat, f: nat)
    requires Shaped(a, fpn, flakeSize) && |flakes| == |a.flakes| && |m.keycount| == |a.meta.keycount|
  {
    (forall g :: 0 <= g < |flakes| && !(Arith.Quot(g, fpn) == u && Arith.Rem(g, fpn) < f) ==> flakes[g] == a.flakes[g])
    && (forall g :: 0 <= g < |flakes| && Arith.Quot(g, fpn) == u && Arith.Rem(g, fpn) < f && Dirty(fpn, flakeSize, a, g) ==>
          Cipher.Decrypt(c, FlakeKey(secret, m, fpn, g), flakes[g]) == Plain(secret, fpn, flakeSize, a, g))
  }

  /** Re-encrypting flake f of nugget u, when it is written, extends the prefix of
      the nugget already carried over to the new label. */
  lemma ReencryptStep(secret: seq<byte>, fpn: nat, flakeSize: nat, a: Image, m: Strategy.Meta, c: CipherId,
                      before: seq<seq<byte>>, after: seq<seq<byte>>, u: nat, f: nat, g: nat)
    requires Shaped(a, fpn, flakeSize) && |before| == |a.flakes| && |m.keycount| == |a.meta.keycount|
    requires Reencrypted(secret, fpn, flakeSize, a, m, c, before, u, f)
    requires g < |before| && Arith.Quot(g, fpn) == u && Arith.Rem(g, fpn) == f
    requires |after| == |before| && forall h :: 0 <= h < |before| && h != g ==> after[h] == before[h]
    requires Dirty(fpn, flakeSize, a, g) ==>
      Cipher.Decrypt(c, FlakeKey(secret, m, fpn, g), after[g]) == Plain(secret, fpn, flakeSize, a, g)
    requires !Dirty(fpn, flakeSize, a, g) ==> after[g] == before[g]
    ensures Reencrypted(secret, fpn, flakeSize, a, m, c, after, u, f + 1)
  {
    forall h | 0 <= h < |after| && !(Arith.Quot(h, fpn) == u && Arith.Rem(h, fpn) < f + 1)
      ensures after[h] == a.flakes[h]
    {
      assert h != g && before[h] == a.flakes[h];
    }
    forall h | 0 <= h < |after| && Arith.Quot(h, fpn) == u && Arith.Rem(h, fpn) < f + 1 && Dirty(fpn, flakeSize, a, h)
      ensures Cipher.Decrypt(c, FlakeKey(secret, m, fpn, h), after[h]) == Plain(secret, fpn, flakeSize, a, h)
    {
      if h != g {
        Strategy.FlakeIndex(g, fpn, u, f);
        Strategy.FlakeIndex(h, fpn, u, f);
        assert after[h] == before[h] && Arith.Rem(h, fpn) < f;
      }
    }
  }

  /** A nugget relabelled with a new cipher and keycount, whose written flakes were
      re-encrypted to the same plaintext under the new label, keeps every written flake. */
  lemma RelabelKeeps(secret: seq<byte>, fpn: nat, flakeSize: nat, a: Image, b: Image, u: nat)
    requires Shaped(a, fpn, flakeSize) && Shaped(b, fpn, flakeSize) && |b.flakes| == |a.flakes|
    requires b.meta.journal == a.meta.journal
    requires forall v :: 0 <= v < |a.meta.cipher| && v != u ==>
      b.meta.cipher[v] == a.meta.cipher[v] && b.meta.keycount[v] == a.meta.keycount[v]
    requires forall g :: 0 <= g < |a.flakes| && Arith.Quot(g, fpn) != u ==> b.flakes[g] == a.flakes[g]
    requires forall g :: 0 <= g < |a.flakes| && Arith.Quot(g, fpn) == u && Dirty(fpn, flakeSize, a, g) ==>
      Plain(secret, fpn, flakeSize, b, g) == Plain(secret, fpn, flakeSize, a, g)
    ensures Keeps(secret, fpn, flakeSize, a, b, 0, 0)
  {
    forall g | 0 <= g < |a.flakes| && Dirty(fpn, flakeSize, a, g)
      ensures Dirty(fpn, flakeSize, b, g) && Plain(secret, fpn, flakeSize, b, g) == Plain(secret, fpn, flakeSize, a, g)
    {
      if Arith.Quot(g, fpn) != u {
        assert b.flakes[g] == a.flakes[g];
        assert FlakeKey(secret, b.meta, fpn, g) == FlakeKey(secret, a.meta, fpn, g);
      }
    }
  }

  // ---------------------------------------------------------------------------
  // The flakes a byte request covers

  /** The first flake a request at byte offset touches. */
  function FirstFlake(offset: nat, flakeSize: nat): nat
    requires flakeSize > 0
  {
    Arith.Quot(offset, flakeSize)
  }

  /** One past the last flake a request of length bytes at offset touches. */
  function EndFlake(offset: nat, length: nat, flakeSize: nat): nat
    requires flakeSize > 0
  {
    if length == 0 then Arith.Quot(offset, flakeSize) else Arith.Quot(offset + length - 1, flakeSize) + 1
  }

  /** Flake h shares at least one byte with the request. */
  predicate InSpan(h: nat, offset: nat, length: nat, flakeSize: nat)
  {
    length > 0 && Arith.Mul(h, flakeSize) < offset + length && offset < Arith.Mul(h, flakeSize) + flakeSize
  }

  /** The covered flakes are exactly FirstFlake, ..., EndFlake - 1, and they lie
      inside a volume of limit flakes holding the request. */
  lemma SpanExact(offset: nat, length: nat, flakeSize: nat, h: nat, limit: nat)
    requires flakeSize > 0 && offset + length <= Arith.Mul(limit, flakeSize)
    ensures FirstFlake(offset, flakeSize) <= EndFlake(offset, length, flakeSize) <= limit
    ensures InSpan(h, offset, length, flakeSize)
            <==> FirstFlake(offset, flakeSize) <= h < EndFlake(offset, length, flakeSize)
  {
    SpanWithin(offset, length, flakeSize, limit);
    if InSpan(h, offset, length, flakeSize) {
      SpanAfterFirst(offset, length, flakeSize, h);
      SpanBeforeEnd(offset, length, flakeSize, h);
    }
    if FirstFlake(offset, flakeSize) <= h < EndFlake(offset, length, flakeSize) {
      SpanContains(offset, length, flakeSize, h);
    }
  }

  lemma SpanWithin(offset: nat, length: nat, flakeSize: nat, limit: nat)
    requires flakeSize > 0 && offset + length <= Arith.Mul(limit, flakeSize)
    ensures FirstFlake(offset, flakeSize) <= EndFlake(offset, length, flakeSize) <= limit
    ensures FirstFlake(offset, flakeSize) == EndFlake(offset, length, flakeSize) <==> length == 0
  {
    if length > 0 {
      Arith.QuotMono(offset, offset + length - 1, flakeSize);
      Arith.QuotBetween(offset + length - 1, flakeSize, 0, limit);
    } else {
      assert Arith.Mul(limit + 1, flakeSize) == Arith.Mul(limit, flakeSize) + flakeSize;
      Arith.QuotBetween(offset, flakeSize, 0, limit + 1);
    }
  }

  lemma SpanAfterFirst(offset: nat, length: nat, flakeSize: nat, h: nat)
    requires flakeSize > 0 && InSpan(h, offset, length, flakeSize)
    ensures FirstFlake(offset, flakeSize) <= h
  {
    assert Arith.Mul(h + 1, flakeSize) == Arith.Mul(h, flakeSize) + flakeSize;
    Arith.QuotBetween(offset, flakeSize, 0, h + 1);
  }

  lemma SpanBeforeEnd(offset: nat, length: nat, flakeSize: nat, h: nat)
    requires flakeSize > 0 && InSpan(h, offset, length, flakeSize)
    ensures h < EndFlake(offset, length, flakeSize)
  {
    Arith.QuotInBlock(Arith.Mul(h, flakeSize), flakeSize, h);
    Arith.QuotMono(Arith.Mul(h, flakeSize), offset + length - 1, flakeSize);
  }

  lemma SpanContains(offset: nat, length: nat, flakeSize: nat, h: nat)
    requires flakeSize > 0
    requires FirstFlake(offset, flakeSize) <= h < EndFlake(offset, length, flakeSize)
    ensures InSpan(h, offset, length, flakeSize)
  {
    var first, last := Arith.Quot(offset, flakeSize), Arith.Quot(offset + length - 1, flakeSize);
    Arith.QuotFloor(offset, flakeSize);
    Arith.MulLe(first, h, flakeSize);
    Arith.QuotFloor(offset + length - 1, flakeSize);
    Arith.MulLe(h, last, flakeSize);
  }

  /** Where in flake h the request's bytes start. */
  function PieceLo(h: nat, offset: nat, flakeSize: nat): nat
  {
    if offset <= Arith.Mul(h, flakeSize) then 0 else offset - Arith.Mul(h, flakeSize)
  }

  /** Where in flake h the request's bytes end. */
  function PieceHi(h: nat, offset: nat, length: nat, flakeSize: nat): nat
    requires Arith.Mul(h, flakeSize) <= offset + length
  {
    if Arith.Mul(h, flakeSize) + flakeSize <= offset + length then flakeSize else offset + length - Arith.Mul(h, flakeSize)
  }

  /** Where flake h's part of the request starts in the request's own bytes. */
  function DataLo(h: nat, offset: nat, flakeSize: nat): nat
  {
    if offset <= Arith.Mul(h, flakeSize) then Arith.Mul(h, flakeSize) - offset else 0
  }

  /** Where flake h's part of the request ends in the request's own bytes. */
  function DataHi(h: nat, offset: nat, length: nat, flakeSize: nat): nat
    requires offset <= Arith.Mul(h, flakeSize) + flakeSize
  {
    if Arith.Mul(h, flakeSize) + flakeSize <= offset + length then Arith.Mul(h, flakeSize) + flakeSize - offset else length
  }

  /** The part of a covered flake a request touches is a non-empty range of the
      flake, and the matching range of the request's bytes has the same length. */
  lemma PieceBounds(h: nat, offset: nat, length: nat, flakeSize: nat)
    requires flakeSize > 0 && InSpan(h, offset, length, flakeSize)
    ensures PieceLo(h, offset, flakeSize) < PieceHi(h, offset, length, flakeSize) <= flakeSize
    ensures DataLo(h, offset, flakeSize) < DataHi(h, offset, length, flakeSize) <= length
    ensures DataHi(h, offset, length, flakeSize) - DataLo(h, offset, flakeSize)
            == PieceHi(h, offset, length, flakeSize) - PieceLo(h, offset, flakeSize)
    ensures DataLo(h, offset, flakeSize) == Arith.Mul(h, flakeSize) + PieceLo(h, offset, flakeSize) - offset
  {
  }

  /** The parts of consecutive covered flakes follow each other in the request's
      bytes, from the first byte to the last. */
  lemma PiecesChain(h: nat, offset: nat, length: nat, flakeSize: nat, limit: nat)
    requires flakeSize > 0 && offset + length <= Arith.Mul(limit, flakeSize) && length > 0
    requires FirstFlake(offset, flakeSize) <= h < EndFlake(offset, length, flakeSize)
    ensures InSpan(h, offset, length, flakeSize)
    ensures h == FirstFlake(offset, flakeSize) ==> DataLo(h, offset, flakeSize) == 0
    ensures h + 1 < EndFlake(offset, length, flakeSize) ==>
      InSpan(h + 1, offset, length, flakeSize)
      && DataLo(h + 1, offset, flakeSize) == DataHi(h, offset, length, flakeSize)
    ensures h + 1 == EndFlake(offset, length, flakeSize) ==> DataHi(h, offset, length, flakeSize) == length
  {
    SpanExact(offset, length, flakeSize, h, limit);
    SpanExact(offset, length, flakeSize, h + 1, limit);
    assert Arith.Mul(h + 1, flakeSize) == Arith.Mul(h, flakeSize) + flakeSize;
    if h == FirstFlake(offset, flakeSize) {
      Arith.QuotFloor(offset, flakeSize);
    }
  }

  /** The request bytes recovered from per-flake parts: two byte strings of the
      request's length that agree on every covered flake's part are equal. */
  lemma {:induction false} PiecesDetermine(offset: nat, flakeSize: nat, a: seq<byte>, b: seq<byte>)
    requires flakeSize > 0 && |a| == |b|
    requires forall h :: InSpan(h, offset, |a|, flakeSize) ==>
      a[DataLo(h, offset, flakeSize)..DataHi(h, offset, |a|, flakeSize)]
      == b[DataLo(h, offset, flakeSize)..DataHi(h, offset, |a|, flakeSize)]
    ensures a == b
  {
    forall i | 0 <= i < |a|
      ensures a[i] == b[i]
    {
      var h := Arith.Quot(offset + i, flakeSize);
      Arith.QuotFloor(offset + i, flakeSize);
      assert InSpan(h, offset, |a|, flakeSize);
      var lo, hi := DataLo(h, offset, flakeSize), DataHi(h, offset, |a|, flakeSize);
      assert lo <= i < hi;
      assert a[lo..hi][i - lo] == a[i] && b[lo..hi][i - lo] == b[i];
    }
  }

  // ---------------------------------------------------------------------------
  // What a request leaves behind and what it returns

  /** Covered flake h, at base in the body, is written and holds its part of data. */
  ghost predicate HoldsAt(secret: seq<byte>, fpn: nat, flakeSize: nat, im: Image,
                          base: nat, offset: nat, data: seq<byte>, h: nat)
    requires Shaped(im, fpn, flakeSize)
  {
    InSpan(h, offset, |data|, flakeSize) && base + h < |im.flakes| && Dirty(fpn, flakeSize, im, base + h)
    && Plain(secret, fpn, flakeSize, im, base + h)[PieceLo(h, offset, flakeSize)..PieceHi(h, offset, |data|, flakeSize)]
       == data[DataLo(h, offset, flakeSize)..DataHi(h, offset, |data|, flakeSize)]
  }

  /** The volume at base holds data at byte offset: every covered flake is written
      and holds its part of data. */
  ghost predicate Holds(secret: seq<byte>, fpn: nat, flakeSize: nat, im: Image, base: nat, offset: nat, data: seq<byte>)
    requires Shaped(im, fpn, flakeSize)
  {
    forall h :: InSpan(h, offset, |data|, flakeSize) ==> HoldsAt(secret, fpn, flakeSize, im, base, offset, data, h)
  }

  /** Part h of out, once out is long enough to hold it, is the matching part of
      covered flake h at base, if that flake is written. */
  ghost predicate ShowsAt(secret: seq<byte>, fpn: nat, flakeSize: nat, im: Image,
                          base: nat, offset: nat, length: nat, out: seq<byte>, h: nat)
    requires Shaped(im, fpn, flakeSize)
  {
    InSpan(h, offset, length, flakeSize) && base + h < |im.flakes| && Dirty(fpn, flakeSize, im, base + h)
    && DataHi(h, offset, length, flakeSize) <= |out|
    ==> out[DataLo(h, offset, flakeSize)..DataHi(h, offset, length, flakeSize)]
        == Plain(secret, fpn, flakeSize, im, base + h)[PieceLo(h, offset, flakeSize)..PieceHi(h, offset, length, flakeSize)]
  }

  /** out is what a read at byte offset returns from the volume at base: its part
      for every written covered flake is that flake's bytes. */
  ghost predicate Shows(secret: seq<byte>, fpn: nat, flakeSize: nat, im: Image, base: nat, offset: nat, out: seq<byte>)
    requires Shaped(im, fpn, flakeSize)
  {
    forall h :: ShowsAt(secret, fpn, flakeSize, im, base, offset, |out|, out, h)
  }

  /** A read-modify-write of covered flake h left the bytes outside its part as
      they were, if the flake was written before. */
  ghost predicate MergesAt(secret: seq<byte>, fpn: nat, flakeSize: nat, a: Image, b: Image,
                           base: nat, offset: nat, length: nat, h: nat)
    requires Shaped(a, fpn, flakeSize) && Shaped(b, fpn, flakeSize) && |b.flakes| == |a.flakes|
  {
    InSpan(h, offset, length, flakeSize) && base + h < |a.flakes| && Dirty(fpn, flakeSize, a, base + h) ==>
      var before, after := Plain(secret, fpn, flakeSize, a, base + h), Plain(secret, fpn, flakeSize, b, base + h);
      after[..PieceLo(h, offset, flakeSize)] == before[..PieceLo(h, offset, flakeSize)]
      && after[PieceHi(h, offset, length, flakeSize)..] == before[PieceHi(h, offset, length, flakeSize)..]
  }

  /** A request merged at base from a to b stays merged when a later step keeps b
      outside a range past the request's flakes. */
  lemma MergesThenKept(secret: seq<byte>, fpn: nat, flakeSize: nat, a: Image, b: Image, c: Image,
                       base: nat, offset: nat, data: seq<byte>, lo: nat, hi: nat)
    requires Shaped(a, fpn, flakeSize) && Shaped(b, fpn, flakeSize) && Shaped(c, fpn, flakeSize)
    requires |b.flakes| == |a.flakes| && |c.flakes| == |a.flakes| && flakeSize > 0
    requires Holds(secret, fpn, flakeSize, b, base, offset, data)
    requires forall h :: MergesAt(secret, fpn, flakeSize, a, b, base, offset, |data|, h)
    requires Keeps(secret, fpn, flakeSize, b, c, lo, hi)
    requires base + EndFlake(offset, |data|, flakeSize) <= lo
    ensures forall h :: MergesAt(secret, fpn, flakeSize, a, c, base, offset, |data|, h)
  {
    forall h | InSpan(h, offset, |data|, flakeSize) && base + h < |a.flakes| && Dirty(fpn, flakeSize, a, base + h)
      ensures MergesAt(secret, fpn, flakeSize, a, c, base, offset, |data|, h)
    {
      SpanBeforeEnd(offset, |data|, flakeSize, h);
      assert HoldsAt(secret, fpn, flakeSize, b, base, offset, data, h);
      assert MergesAt(secret, fpn, flakeSize, a, b, base, offset, |data|, h);
      KeptAt(secret, fpn, flakeSize, b, c, lo, hi, base + h);
    }
  }

  /** A request merged at base from b to c is merged from a as well when a earlier
      step kept a outside a range before the request's flakes. */
  lemma KeptThenMerges(secret: seq<byte>, fpn: nat, flakeSize: nat, a: Image, b: Image, c: Image,
                       base: nat, offset: nat, length: nat, lo: nat, hi: nat)
    requires Shaped(a, fpn, flakeSize) && Shaped(b, fpn, flakeSize) && Shaped(c, fpn, flakeSize)
    requires |b.flakes| == |a.flakes| && |c.flakes| == |a.flakes| && flakeSize > 0
    requires Keeps(secret, fpn, flakeSize, a, b, lo, hi)
    requires forall h :: MergesAt(secret, fpn, flakeSize, b, c, base, offset, length, h)
    requires hi <= base
    ensures forall h :: MergesAt(secret, fpn, flakeSize, a, c, base, offset, length, h)
  {
    forall h | InSpan(h, offset, length, flakeSize) && base + h < |a.flakes| && Dirty(fpn, flakeSize, a, base + h)
      ensures MergesAt(secret, fpn, flakeSize, a, c, base, offset, length, h)
    {
      KeptAt(secret, fpn, flakeSize, a, b, lo, hi, base + h);
      assert MergesAt(secret, fpn, flakeSize, b, c, base, offset, length, h);
    }
  }

  /** A write at base 0 from a to b followed by the same write at upper from b to
      c, where the first write's span ends before upper: c holds the data in both
      volumes, keeps every other written flake of a, and merged both spans. */
  lemma MirroredWrites(secret: seq<byte>, fpn: nat, flakeSize: nat, a: Image, b: Image, c: Image,
                       upper: nat, offset: nat, data: seq<byte>)
    requires Shaped(a, fpn, flakeSize) && Shaped(b, fpn, flakeSize) && Shaped(c, fpn, flakeSize)
    requires |b.flakes| == |a.flakes| && |c.flakes| == |a.flakes| && flakeSize > 0
    requires EndFlake(offset, |data|, flakeSize) <= upper
    requires Holds(secret, fpn, flakeSize, b, 0, offset, data)
    requires forall h :: MergesAt(secret, fpn, flakeSize, a, b, 0, offset, |data|, h)
    requires Keeps(secret, fpn, flakeSize, a, b, FirstFlake(offset, flakeSize), EndFlake(offset, |data|, flakeSize))
    requires Holds(secret, fpn, flakeSize, c, upper, offset, data)
    requires forall h :: MergesAt(secret, fpn, flakeSize, b, c, upper, offset, |data|, h)
    requires Keeps(secret, fpn, flakeSize, b, c,
                   upper + FirstFlake(offset, flakeSize), upper + EndFlake(offset, |data|, flakeSize))
    ensures Holds(secret, fpn, flakeSize, c, 0, offset, data)
    ensures Holds(secret, fpn, flakeSize, c, upper, offset, data)
    ensures KeepsBoth(secret, fpn, flakeSize, a, c,
                      FirstFlake(offset, flakeSize), EndFlake(offset, |data|, flakeSize),
                      upper + FirstFlake(offset, flakeSize), upper + EndFlake(offset, |data|, flakeSize))
    ensures forall h :: MergesAt(secret, fpn, flakeSize, a, c, 0, offset, |data|, h)
    ensures forall h :: MergesAt(secret, fpn, flakeSize, a, c, upper, offset, |data|, h)
  {
    var first, end := FirstFlake(offset, flakeSize), EndFlake(offset, |data|, flakeSize);
    HoldsKept(secret, fpn, flakeSize, b, c, 0, offset, data, upper + first, upper + end);
    KeepsCompose(secret, fpn, flakeSize, a, b, c, first, end, upper + first, upper + end);
    MergesThenKept(secret, fpn, flakeSize, a, b, c, 0, offset, data, upper + first, upper + end);
    KeptThenMerges(secret, fpn, flakeSize, a, b, c, upper, offset, |data|, first, end);
  }

  /** Reading back what the volume holds returns exactly the bytes written. */
  lemma ReadBackWritten(secret: seq<byte>, fpn: nat, flakeSize: nat, im: Image, base: nat, offset: nat,
                        data: seq<byte>, out: seq<byte>)
    requires Shaped(im, fpn, flakeSize) && flakeSize > 0 && |out| == |data|
    requires Holds(secret, fpn, flakeSize, im, base, offset, data)
    requires Shows(secret, fpn, flakeSize, im, base, offset, out)
    ensures out == data
  {
    forall h | InSpan(h, offset, |out|, flakeSize)
      ensures out[DataLo(h, offset, flakeSize)..DataHi(h, offset, |out|, flakeSize)]
              == data[DataLo(h, offset, flakeSize)..DataHi(h, offset, |out|, flakeSize)]
    {
      assert HoldsAt(secret, fpn, flakeSize, im, base, offset, data, h);
      assert ShowsAt(secret, fpn, flakeSize, im, base, offset, |out|, out, h);
    }
    PiecesDetermine(offset, flakeSize, out, data);
  }

  /** What the volume holds survives any step that keeps the written flakes outside
      a range lying wholly past it. */
  lemma HoldsKept(secret: seq<byte>, fpn: nat, flakeSize: nat, a: Image, b: Image, base: nat, offset: nat,
                  data: seq<byte>, lo: nat, hi: nat)
    requires Shaped(a, fpn, flakeSize) && Shaped(b, fpn, flakeSize) && |b.flakes| == |a.flakes| && flakeSize > 0
    requires Holds(secret, fpn, flakeSize, a, base, offset, data)
    requires Keeps(secret, fpn, flakeSize, a, b, lo, hi)
    requires lo == hi || base + EndFlake(offset, |data|, flakeSize) <= lo
    ensures Holds(secret, fpn, flakeSize, b, base, offset, data)
  {
    forall h | InSpan(h, offset, |data|, flakeSize)
      ensures HoldsAt(secret, fpn, flakeSize, b, base, offset, data, h)
    {
      SpanBeforeEnd(offset, |data|, flakeSize, h);
      assert HoldsAt(secret, fpn, flakeSize, a, base, offset, data, h);
    }
  }

  /** A read-modify-write of covered flake h: the bytes it read were the flake's
      plaintext before the request, if it was written, and it wrote back those
      bytes with its part replaced by the request's part. */
  lemma MergedFlake(secret: seq<byte>, fpn: nat, flakeSize: nat, a: Image, b: Image, base: nat, offset: nat,
                    data: seq<byte>, h: nat, current: seq<byte>)
    requires Shaped(a, fpn, flakeSize) && Shaped(b, fpn, flakeSize) && |b.flakes| == |a.flakes| && flakeSize > 0
    requires InSpan(h, offset, |data|, flakeSize) && base + h < |a.flakes| && |current| == flakeSize
    requires Dirty(fpn, flakeSize, a, base + h) ==> current == Plain(secret, fpn, flakeSize, a, base + h)
    requires Dirty(fpn, flakeSize, b, base + h)
    requires Plain(secret, fpn, flakeSize, b, base + h)
             == Buffers.Splice(current, PieceLo(h, offset, flakeSize),
                               data[DataLo(h, offset, flakeSize)..DataHi(h, offset, |data|, flakeSize)])
    ensures HoldsAt(secret, fpn, flakeSize, b, base, offset, data, h)
    ensures MergesAt(secret, fpn, flakeSize, a, b, base, offset, |data|, h)
  {
    PieceBounds(h, offset, |data|, flakeSize);
  }

  /** After a write request has handled flakes first, ..., h - 1 of its span: they
      hold their parts of data and were merged into their old plaintext, and every
      other written flake is kept. */
  ghost predicate WriteProgress(secret: seq<byte>, fpn: nat, flakeSize: nat, a: Image, b: Image,
                                base: nat, offset: nat, data: seq<byte>, first: nat, h: nat)
    requires Shaped(a, fpn, flakeSize) && Shaped(b, fpn, flakeSize) && |b.flakes| == |a.flakes|
  {
    Keeps(secret, fpn, flakeSize, a, b, base + first, base + h)
    && (forall h' :: first <= h' < h ==> HoldsAt(secret, fpn, flakeSize, b, base, offset, data, h'))
    && (forall h' :: first <= h' < h ==> MergesAt(secret, fpn, flakeSize, a, b, base, offset, |data|, h'))
  }

  /** Handling flake h of a write request, by a swap decision that keeps every
      written flake and a read-modify-write of the flake, extends the progress. */
  lemma WriteStep(secret: seq<byte>, fpn: nat, flakeSize: nat, a: Image, before: Image, after: Image,
                  base: nat, offset: nat, data: seq<byte>, first: nat, h: nat, current: seq<byte>)
    requires Shaped(a, fpn, flakeSize) && Shaped(before, fpn, flakeSize) && Shaped(after, fpn, flakeSize)
    requires |before.flakes| == |a.flakes| && |after.flakes| == |a.flakes| && flakeSize > 0
    requires WriteProgress(secret, fpn, flakeSize, a, before, base, offset, data, first, h)
    requires first <= h && InSpan(h, offset, |data|, flakeSize) && base + h < |a.flakes| && |current| == flakeSize
    requires Dirty(fpn, flakeSize, before, base + h) ==> current == Plain(secret, fpn, flakeSize, before, base + h)
    requires Keeps(secret, fpn, flakeSize, before, after, base + h, base + h + 1)
    requires Dirty(fpn, flakeSize, after, base + h)
    requires Plain(secret, fpn, flakeSize, after, base + h)
             == Buffers.Splice(current, PieceLo(h, offset, flakeSize),
                               data[DataLo(h, offset, flakeSize)..DataHi(h, offset, |data|, flakeSize)])
    ensures WriteProgress(secret, fpn, flakeSize, a, after, base, offset, data, first, h + 1)
  {
    var g := base + h;
    KeepsTransitive(secret, fpn, flakeSize, a, before, after, base + first, g, g, g + 1, base + first, g + 1);
    if Dirty(fpn, flakeSize, a, g) {
      KeptAt(secret, fpn, flakeSize, a, before, base + first, g, g);
    }
    MergedFlake(secret, fpn, flakeSize, a, after, base, offset, data, h, current);
    EarlierFlakesKept(secret, fpn, flakeSize, a, before, after, base, offset, data, first, h);
    forall h' | first <= h' < h + 1
      ensures HoldsAt(secret, fpn, flakeSize, after, base, offset, data, h')
      ensures MergesAt(secret, fpn, flakeSize, a, after, base, offset, |data|, h')
    {
      if h' < h {
        assert HoldsAt(secret, fpn, flakeSize, after, base, offset, data, h');
      }
    }
  }

  /** After a read request of length bytes has handled flakes first, ..., h - 1 of
      its span: out already holds their parts, each the matching bytes of its flake
      in image a if that flake is written. */
  ghost predicate ReadProgress(secret: seq<byte>, fpn: nat, flakeSize: nat, a: Image,
                               base: nat, offset: nat, length: nat, out: seq<byte>, first: nat, h: nat)
    requires Shaped(a, fpn, flakeSize)
  {
    forall h' :: first <= h' < h && InSpan(h', offset, length, flakeSize) ==>
      DataHi(h', offset, length, flakeSize) <= |out| && ShowsAt(secret, fpn, flakeSize, a, base, offset, length, out, h')
  }

  /** Appending flake h's part of its plaintext, as read after a swap decision that
      kept every written flake of a, extends the progress of a read request. */
  lemma ReadStep(secret: seq<byte>, fpn: nat, flakeSize: nat, a: Image, before: Image, base: nat, offset: nat,
                 length: nat, out: seq<byte>, plain: seq<byte>, first: nat, h: nat, limit: nat)
    requires Shaped(a, fpn, flakeSize) && Shaped(before, fpn, flakeSize) && |before.flakes| == |a.flakes|
    requires flakeSize > 0 && offset + length <= Arith.Mul(limit, flakeSize)
    requires ReadProgress(secret, fpn, flakeSize, a, base, offset, length, out, first, h)
    requires FirstFlake(offset, flakeSize) <= h < EndFlake(offset, length, flakeSize)
    requires |out| == DataLo(h, offset, flakeSize) && |plain| == flakeSize && base + h < |a.flakes|
    requires Keeps(secret, fpn, flakeSize, a, before, 0, 0)
    requires Dirty(fpn, flakeSize, before, base + h) ==> plain == Plain(secret, fpn, flakeSize, before, base + h)
    ensures InSpan(h, offset, length, flakeSize)
    ensures PieceLo(h, offset, flakeSize) <= PieceHi(h, offset, length, flakeSize) <= |plain|
    ensures var out' := out + plain[PieceLo(h, offset, flakeSize)..PieceHi(h, offset, length, flakeSize)];
      ReadProgress(secret, fpn, flakeSize, a, base, offset, length, out', first, h + 1)
      && (h + 1 < EndFlake(offset, length, flakeSize) ==> |out'| == DataLo(h + 1, offset, flakeSize))
      && (h + 1 == EndFlake(offset, length, flakeSize) ==> |out'| == length)
  {
    PiecesChain(h, offset, length, flakeSize, limit);
    PieceBounds(h, offset, length, flakeSize);
    var piece := plain[PieceLo(h, offset, flakeSize)..PieceHi(h, offset, length, flakeSize)];
    if Dirty(fpn, flakeSize, a, base + h) {
      KeptAt(secret, fpn, flakeSize, a, before, 0, 0, base + h);
    }
    var out' := out + piece;
    ReadProgressPrefix(secret, fpn, flakeSize, a, base, offset, length, out, out', first, h);
    if Dirty(fpn, flakeSize, a, base + h) {
      assert out'[|out|..|out'|] == piece;
    }
    ReadProgressNext(secret, fpn, flakeSize, a, base, offset, length, out', first, h);
  }

  /** Bytes appended after out leave the parts it already shows in place. */
  lemma ReadProgressPrefix(secret: seq<byte>, fpn: nat, flakeSize: nat, a: Image, base: nat, offset: nat,
                           length: nat, out: seq<byte>, out': seq<byte>, first: nat, h: nat)
    requires Shaped(a, fpn, flakeSize) && flakeSize > 0
    requires ReadProgress(secret, fpn, flakeSize, a, base, offset, length, out, first, h)
    requires |out| <= |out'| && out'[..|out|] == out
    ensures ReadProgress(secret, fpn, flakeSize, a, base, offset, length, out', first, h)
  {
    forall h' | first <= h' < h && InSpan(h', offset, length, flakeSize)
      ensures ShowsAt(secret, fpn, flakeSize, a, base, offset, length, out', h')
    {
      var lo, hi := DataLo(h', offset, flakeSize), DataHi(h', offset, length, flakeSize);
      PieceBounds(h', offset, length, flakeSize);
      assert ShowsAt(secret, fpn, flakeSize, a, base, offset, length, out, h');
      assert out'[lo..hi] == out[lo..hi];
    }
  }

  /** Showing flake h's part as well extends the progress of a read past h. */
  lemma ReadProgressNext(secret: seq<byte>, fpn: nat, flakeSize: nat, a: Image, base: nat, offset: nat,
                         length: nat, out: seq<byte>, first: nat, h: nat)
    requires Shaped(a, fpn, flakeSize) && flakeSize > 0
    requires ReadProgress(secret, fpn, flakeSize, a, base, offset, length, out, first, h)
    requires InSpan(h, offset, length, flakeSize) ==> DataHi(h, offset, length, flakeSize) <= |out|
    requires ShowsAt(secret, fpn, flakeSize, a, base, offset, length, out, h)
    ensures ReadProgress(secret, fpn, flakeSize, a, base, offset, length, out, first, h + 1)
  {
  }

  /** A read request that handled its whole span shows the volume at base in
      image a. */
  lemma ReadDone(secret: seq<byte>, fpn: nat, flakeSize: nat, a: Image, base: nat, offset: nat,
                 out: seq<byte>, limit: nat)
    requires Shaped(a, fpn, flakeSize) && flakeSize > 0 && offset + |out| <= Arith.Mul(limit, flakeSize)
    requires ReadProgress(secret, fpn, flakeSize, a, base, offset, |out|, out,
                          FirstFlake(offset, flakeSize), EndFlake(offset, |out|, flakeSize))
    ensures Shows(secret, fpn, flakeSize, a, base, offset, out)
  {
    forall h
      ensures ShowsAt(secret, fpn, flakeSize, a, base, offset, |out|, out, h)
    {
      SpanExact(offset, |out|, flakeSize, h, limit);
    }
  }

  /** A write request that handled its whole span leaves the volume holding data,
      every covered flake merged, and every other written flake kept. */
  lemma WriteDone(secret: seq<byte>, fpn: nat, flakeSize: nat, a: Image, b: Image,
                  base: nat, offset: nat, data: seq<byte>, limit: nat)
    requires Shaped(a, fpn, flakeSize) && Shaped(b, fpn, flakeSize) && |b.flakes| == |a.flakes|
    requires flakeSize > 0 && offset + |data| <= Arith.Mul(limit, flakeSize)
    requires WriteProgress(secret, fpn, flakeSize, a, b, base, offset, data,
                           FirstFlake(offset, flakeSize), EndFlake(offset, |data|, flakeSize))
    ensures Holds(secret, fpn, flakeSize, b, base, offset, data)
    ensures forall h :: MergesAt(secret, fpn, flakeSize, a, b, base, offset, |data|, h)
    ensures Keeps(secret, fpn, flakeSize, a, b, base + FirstFlake(offset, flakeSize), base + EndFlake(offset, |data|, flakeSize))
  {
    forall h | InSpan(h, offset, |data|, flakeSize)
      ensures HoldsAt(secret, fpn, flakeSize, b, base, offset, data, h)
    {
      SpanExact(offset, |data|, flakeSize, h, limit);
    }
    forall h
      ensures MergesAt(secret, fpn, flakeSize, a, b, base, offset, |data|, h)
    {
      SpanExact(offset, |data|, flakeSize, h, limit);
    }
  }

  /** What earlier flakes of a request hold, and how they were merged, survives a
      step that keeps every written flake outside the one it writes. */
  lemma EarlierFlakesKept(secret: seq<byte>, fpn: nat, flakeSize: nat, a: Image, b: Image, c: Image,
                          base: nat, offset: nat, data: seq<byte>, first: nat, h: nat)
    requires Shaped(a, fpn, flakeSize) && Shaped(b, fpn, flakeSize) && Shaped(c, fpn, flakeSize)
    requires |b.flakes| == |a.flakes| && |c.flakes| == |a.flakes|
    requires forall h' :: first <= h' < h ==> HoldsAt(secret, fpn, flakeSize, b, base, offset, data, h')
    requires forall h' :: first <= h' < h ==> MergesAt(secret, fpn, flakeSize, a, b, base, offset, |data|, h')
    requires Keeps(secret, fpn, flakeSize, b, c, base + h, base + h + 1)
    ensures forall h' :: first <= h' < h ==> HoldsAt(secret, fpn, flakeSize, c, base, offset, data, h')
    ensures forall h' :: first <= h' < h ==> MergesAt(secret, fpn, flakeSize, a, c, base, offset, |data|, h')
  {
    forall h' | first <= h' < h
      ensures HoldsAt(secret, fpn, flakeSize, c, base, offset, data, h')
      ensures MergesAt(secret, fpn, flakeSize, a, c, base, offset, |data|, h')
    {
      assert HoldsAt(secret, fpn, flakeSize, b, base, offset, data, h');
      assert MergesAt(secret, fpn, flakeSize, a, b, base, offset, |data|, h');
    }
  }
}
