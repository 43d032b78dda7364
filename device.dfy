// The open device: its body of ciphertext flakes, the per-nugget metadata, the key
// cache, and the request handlers that read and write byte ranges while
// migrating nuggets to the active cipher as the swap strategy dictates.
module Device {
  import opened Types
  import Arith
  import Cipher
  import KeyCache
  import Strategy
  import Buffers
  import opened Volume

  /** The mirrored and selective strategies split the nuggets into two halves fixed
      at creation, the first on the primary cipher and the second on the swap
      cipher. */
  predicate Partitioned(s: Strategy.SwapStrategy)
  {
    s.Mirrored? || s.Selective?
  }

  /** The per-nugget state at creation: keycount 0, nothing written, and every
      nugget on the primary cipher except the second half of a partitioned device. */
  function InitialMeta(s: Strategy.SwapStrategy, numNuggets: nat, fpn: nat,
                       primary: CipherId, swapCipher: CipherId): (m: Strategy.Meta)
    ensures Strategy.WellFormed(m, fpn) && |m.cipher| == numNuggets
    ensures forall v :: 0 <= v < numNuggets ==> m.keycount[v] == 0 && Pristine(m.journal[v])
    ensures forall v :: 0 <= v < numNuggets ==>
      (m.cipher[v] == swapCipher <== Partitioned(s) && numNuggets / 2 <= v)
      && (m.cipher[v] == primary <== !Partitioned(s) || v < numNuggets / 2)
  {
    var split := if Partitioned(s) then numNuggets / 2 else numNuggets;
    Strategy.Meta(seq(numNuggets, v => if v < split then primary else swapCipher),
                  seq(numNuggets, _ => 0), seq(numNuggets, _ => seq(fpn, _ => false)))
  }

  /** Which cipher is active after a request consumed the pending swap command:
      it flips once per command, except that the disabled strategy never leaves
      the primary cipher. */
  function SwapAfter(s: Strategy.SwapStrategy, swapActive: bool, pending: bool): (r: bool)
    ensures s.Disabled? && !swapActive ==> !r
    ensures !pending ==> r == swapActive
    ensures pending && !s.Disabled? ==> r != swapActive
  {
    if pending && !s.Disabled? then !swapActive else swapActive
  }

  class Device {
    const numNuggets: nat
    const fpn: nat
    const flakeSize: nat
    /** The master secret every key is derived from. */
    const secret: seq<byte>
    const primary: CipherId
    const swapCipher: CipherId
    const strategy: Strategy.SwapStrategy
    /** The body, one ciphertext flake per entry. */
    const body: array<seq<byte>>
    const cache: KeyCache.KeyCache
    var meta: Strategy.Meta
    /** Whether the swap cipher is the active one. */
    var swapActive: bool
    /** A swap command that no request has consumed yet. */
    var swapPending: bool

    ghost function Image(): Volume.Image
      reads this, body
    {
      Volume.Image(meta, body[..])
    }

    ghost predicate Valid()
      reads this, body, cache
    {
      Shaped(Image(), fpn, flakeSize) && |meta.cipher| == numNuggets && flakeSize > 0
      && cache.Coherent(secret)
    }

    function Active(): CipherId
      reads this
    {
      if swapActive then swapCipher else primary
    }

    /** Flakes visible to the user: half of the nuggets under a partitioned
        strategy, all of them otherwise. */
    function ExposedFlakes(): (flakes: nat)
      ensures Partitioned(strategy) ==> flakes == Arith.Mul(numNuggets / 2, fpn)
      ensures Partitioned(strategy) ==> flakes + flakes <= Arith.Mul(numNuggets, fpn)
      ensures !Partitioned(strategy) ==> flakes == Arith.Mul(numNuggets, fpn)
    {
      if Partitioned(strategy) then
        Arith.MulAdd(numNuggets / 2, numNuggets / 2, fpn);
        Arith.MulLe(numNuggets / 2 + numNuggets / 2, numNuggets, fpn);
        Arith.Mul(numNuggets / 2, fpn)
      else Arith.Mul(numNuggets, fpn)
    }

    /** The size in bytes of the exposed block device: half the nuggets under a
        partitioned strategy, all of them (the writeable size) otherwise. */
    function ExposedSize(): (size: nat)
      ensures size == (if Partitioned(strategy) then numNuggets / 2 else numNuggets) * (fpn * flakeSize)
    {
      var nuggets := if Partitioned(strategy) then numNuggets / 2 else numNuggets;
      Arith.MulProduct(nuggets, fpn);
      Arith.MulProduct(ExposedFlakes(), flakeSize);
      Arith.MulAssoc(nuggets, fpn, flakeSize);
      Arith.Mul(ExposedFlakes(), flakeSize)
    }

    /** The first flake of the second half of a partitioned device. */
    function Upper(): nat
    {
      Arith.Mul(numNuggets / 2, fpn)
    }

    /** Where the volume requests address starts in the body: the second half when
        a partitioned device is on the swap cipher, the first flake otherwise. */
    function Base(): nat
      reads this
    {
      if Partitioned(strategy) && swapActive then Upper() else 0
    }

    lemma VolumeFits()
      requires Valid()
      ensures Base() + ExposedFlakes() <= body.Length
      ensures Partitioned(strategy) ==> Upper() + ExposedFlakes() <= body.Length
    {
      if Partitioned(strategy) {
        Arith.MulAdd(numNuggets / 2, numNuggets / 2, fpn);
        Arith.MulLe(numNuggets / 2 + numNuggets / 2, numNuggets, fpn);
      }
    }

    constructor Create(numNuggets: nat, fpn: nat, flakeSize: nat, secret: seq<byte>,
                       primary: CipherId, swapCipher: CipherId, strategy: Strategy.SwapStrategy)
      requires fpn > 0 && flakeSize > 0
      ensures Valid()
      ensures this.numNuggets == numNuggets && this.fpn == fpn && this.flakeSize == flakeSize
      ensures this.secret == secret && this.primary == primary && this.swapCipher == swapCipher
      ensures this.strategy == strategy
      ensures meta == InitialMeta(strategy, numNuggets, fpn, primary, swapCipher)
      ensures !swapActive && !swapPending
    {
      this.numNuggets := numNuggets;
      this.fpn := fpn;
      this.flakeSize := flakeSize;
      this.secret := secret;
      this.primary := primary;
      this.swapCipher := swapCipher;
      this.strategy := strategy;
      body := new seq<byte>[Arith.Mul(numNuggets, fpn)](_ => seq(flakeSize, _ => 0 as byte));
      cache := new KeyCache.KeyCache();
      meta := InitialMeta(strategy, numNuggets, fpn, primary, swapCipher);
      swapActive := false;
      swapPending := false;
      new;
      ShapedByNuggets(Image(), fpn, flakeSize);
    }

    /** A swap command arrives; the next request consumes it. */
    method RequestSwap()
      requires Valid()
      modifies this
      ensures Valid() && swapPending
      ensures meta == old(meta) && swapActive == old(swapActive)
    {
      swapPending := true;
    }

    /** Consumes the pending swap command, if any, at the start of a request. */
    method ConsumeSwap()
      requires Valid()
      modifies this
      ensures Valid() && !swapPending && meta == old(meta)
      ensures swapActive == SwapAfter(strategy, old(swapActive), old(swapPending))
    {
      if swapPending {
        swapPending := false;
        if !strategy.Disabled? {
          swapActive := !swapActive;
        }
      }
    }

    /** Decrypts flake g under its nugget's cipher and its flake key. */
    method ReadFlake(g: nat) returns (plain: seq<byte>)
      requires Valid() && g < body.Length
      modifies cache
      ensures Valid()
      ensures plain == Plain(secret, fpn, flakeSize, Image(), g)
    {
      var v := Arith.Quot(g, fpn);
      var key := cache.Fetch(secret, KeyCache.FlakeKeyId(v, Arith.Rem(g, fpn), meta.keycount[v]));
      plain := Cipher.Decrypt(meta.cipher[v], key, body[g]);
    }

    /** Encrypts plain into flake g under its nugget's cipher and flake key, and
        sets the flake's journal bit. */
    method WriteFlake(g: nat, plain: seq<byte>)
      requires Valid() && g < body.Length && |plain| == flakeSize
      modifies this, body, cache
      ensures Valid() && swapActive == old(swapActive) && swapPending == old(swapPending)
      ensures meta == Strategy.MarkWritten(old(meta), Arith.Quot(g, fpn), Arith.Rem(g, fpn))
      ensures Dirty(fpn, flakeSize, Image(), g) && Plain(secret, fpn, flakeSize, Image(), g) == plain
      ensures Keeps(secret, fpn, flakeSize, old(Image()), Image(), g, g + 1)
    {
      var v := Arith.Quot(g, fpn);
      var key := cache.Fetch(secret, KeyCache.FlakeKeyId(v, Arith.Rem(g, fpn), meta.keycount[v]));
      var sealed := Cipher.Encrypt(meta.cipher[v], key, plain);
      Cipher.DecryptEncrypt(meta.cipher[v], key, plain);
      OverwriteEffect(secret, fpn, flakeSize, Image(), g, sealed);
      ghost var after := Overwrite(Image(), fpn, g, sealed);
      body[g] := sealed;
      meta := Strategy.MarkWritten(meta, v, Arith.Rem(g, fpn));
      assert Image() == after;
    }

    /** Moves nugget u to the active cipher: its written flakes are decrypted under
        the recorded cipher and keycount and re-encrypted under the new ones, then
        the new cipher and keycount are recorded. */
    method Migrate(u: nat, a: Strategy.Action, active: CipherId)
      requires Valid() && u < numNuggets && a != Strategy.Keep
      modifies this, body, cache
      ensures Valid() && swapActive == old(swapActive) && swapPending == old(swapPending)
      ensures meta == Strategy.Apply(old(meta), u, a, active)
      ensures Keeps(secret, fpn, flakeSize, old(Image()), Image(), 0, 0)
    {
      var c0, k0 := meta.cipher[u], meta.keycount[u];
      var c1, k1 := Strategy.CipherAfter(a, c0, active), Strategy.KeycountAfter(a, k0);
      var m1 := Strategy.Apply(meta, u, a, active);
      ghost var im0 := Image();
      Arith.MulLe(u + 1, numNuggets, fpn);
      assert Arith.Mul(u + 1, fpn) == Arith.Mul(u, fpn) + fpn;
      var f := 0;
      while f < fpn
        invariant 0 <= f <= fpn && Arith.Mul(u, fpn) + fpn <= body.Length
        invariant meta == old(meta) && swapActive == old(swapActive) && swapPending == old(swapPending)
        invariant cache.Coherent(secret)
        invariant body.Length == |im0.flakes|
        invariant forall g :: 0 <= g < body.Length ==> |body[g]| == flakeSize
        invariant Reencrypted(secret, fpn, flakeSize, im0, m1, c1, body[..], u, f)
      {
        ReencryptFlake(u, f, c0, k0, c1, k1, im0, m1);
        f := f + 1;
      }
      meta := m1;
      ShapedByNuggets(Image(), fpn, flakeSize);
      RelabelKeeps(secret, fpn, flakeSize, im0, Image(), u);
    }

    /** Moves flake f of nugget u to cipher c1 and keycount k1 when it is written:
        decrypts it under the old key and encrypts the plaintext under the new one. */
    method ReencryptFlake(u: nat, f: nat, c0: CipherId, k0: nat, c1: CipherId, k1: nat,
                          ghost im0: Volume.Image, ghost m1: Strategy.Meta)
      requires u < numNuggets && f < fpn && Arith.Mul(u, fpn) + fpn <= body.Length
      requires Shaped(im0, fpn, flakeSize) && meta == im0.meta && body.Length == |im0.flakes|
      requires |meta.cipher| == numNuggets && meta.cipher[u] == c0 && meta.keycount[u] == k0
      requires |m1.keycount| == |meta.keycount| && m1.keycount[u] == k1
      requires cache.Coherent(secret)
      requires forall g :: 0 <= g < body.Length ==> |body[g]| == flakeSize
      requires Reencrypted(secret, fpn, flakeSize, im0, m1, c1, body[..], u, f)
      modifies body, cache
      ensures cache.Coherent(secret)
      ensures forall g :: 0 <= g < body.Length ==> |body[g]| == flakeSize
      ensures Reencrypted(secret, fpn, flakeSize, im0, m1, c1, body[..], u, f + 1)
    {
      var g := Arith.Mul(u, fpn) + f;
      Strategy.FlakeIndex(g, fpn, u, f);
      ghost var before := body[..];
      if meta.journal[u][f] {
        var oldKey := cache.Fetch(secret, KeyCache.FlakeKeyId(u, f, k0));
        var newKey := cache.Fetch(secret, KeyCache.FlakeKeyId(u, f, k1));
        assert oldKey == FlakeKey(secret, im0.meta, fpn, g) && newKey == FlakeKey(secret, m1, fpn, g);
        var plain := Cipher.Decrypt(c0, oldKey, body[g]);
        assert plain == Plain(secret, fpn, flakeSize, im0, g);
        Cipher.DecryptEncrypt(c1, newKey, plain);
        body[g] := Cipher.Encrypt(c1, newKey, plain);
      }
      ReencryptStep(secret, fpn, flakeSize, im0, m1, c1, before, body[..], u, f, g);
    }

    /** Applies the forward decision to nuggets from, ..., stop - 1 in turn. */
    method WalkNuggets(from: nat, stop: nat, op: Strategy.Access, active: CipherId)
      requires Valid() && from <= stop <= numNuggets
      modifies this, body, cache
      ensures Valid() && swapActive == old(swapActive) && swapPending == old(swapPending)
      ensures meta == Strategy.Walk(old(meta), from, stop, op, active)
      ensures Keeps(secret, fpn, flakeSize, old(Image()), Image(), 0, 0)
    {
      var v := from;
      while v < stop
        invariant from <= v <= stop
        invariant Valid() && swapActive == old(swapActive) && swapPending == old(swapPending)
        invariant Strategy.Walk(meta, v, stop, op, active) == Strategy.Walk(old(meta), from, stop, op, active)
        invariant Keeps(secret, fpn, flakeSize, old(Image()), Image(), 0, 0)
      {
        ghost var before := Image();
        var a := Strategy.ForwardAction(op, meta.cipher[v] == active, Pristine(meta.journal[v]));
        if a != Strategy.Keep {
          Migrate(v, a, active);
          KeepsTransitive(secret, fpn, flakeSize, old(Image()), before, Image(), 0, 0, 0, 0, 0, 0);
        } else {
          assert Strategy.Apply(meta, v, a, active) == meta;
        }
        v := v + 1;
      }
    }

    /** The swap decision for touched nugget u: unless it is already on the active
        cipher, it is migrated and the forward window after it is walked. */
    method VisitNugget(u: nat, op: Strategy.Access, active: CipherId, distance: nat)
      requires Valid() && u < numNuggets
      modifies this, body, cache
      ensures Valid() && swapActive == old(swapActive) && swapPending == old(swapPending)
      ensures meta == Strategy.Visit(old(meta), u, op, active, distance)
      ensures Keeps(secret, fpn, flakeSize, old(Image()), Image(), 0, 0)
    {
      var a := Strategy.TouchedAction(op, meta.cipher[u] == active, Pristine(meta.journal[u]));
      if a != Strategy.Keep {
        Migrate(u, a, active);
        ghost var migrated := Image();
        WalkNuggets(u + 1, Strategy.WindowEnd(u, distance, numNuggets), op, active);
        KeepsTransitive(secret, fpn, flakeSize, old(Image()), migrated, Image(), 0, 0, 0, 0, 0, 0);
      } else {
        assert Strategy.Apply(meta, u, a, active) == meta;
      }
    }
 
    /** The swap decision for the nugget of flake g, where one is due at g in a
        request that started at flake first. */
    method VisitFor(first: nat, g: nat, op: Strategy.Access, active: CipherId)
      requires Valid() && g < body.Length
      modifies this, body, cache
      ensures Valid() && swapActive == old(swapActive) && swapPending == old(swapPending)
      ensures Arith.Quot(g, fpn) < numNuggets
      ensures meta == if Strategy.VisitsAt(strategy, fpn, first, g)
                      then Strategy.Visit(old(meta), Arith.Quot(g, fpn), op, active, strategy.distance)
                      else old(meta)
      ensures Keeps(secret, fpn, flakeSize, old(Image()), Image(), 0, 0)
    {
      Arith.QuotBetween(g, fpn, 0, numNuggets);
      if Strategy.VisitsAt(strategy, fpn, first, g) {
        VisitNugget(Arith.Quot(g, fpn), op, active, strategy.distance);
      }
    }

    /** Flake h of a write request that started at flake first: the swap decision
        for its nugget where one is due, then a read-modify-write merging data's
        part into the flake. current is the plaintext the flake was merged into. */
    method MergeFlake(base: nat, first: nat, offset: nat, data: seq<byte>, h: nat, limit: nat, active: CipherId)
      returns (ghost current: seq<byte>)
      requires Valid() && offset + |data| <= Arith.Mul(limit, flakeSize) && base + limit <= body.Length
      requires InSpan(h, offset, |data|, flakeSize)
      modifies this, body, cache
      ensures Valid() && swapActive == old(swapActive) && swapPending == old(swapPending)
      ensures base + h < body.Length && |current| == flakeSize
      ensures meta == Strategy.Step(old(meta), strategy, active, Strategy.WriteAccess, fpn, base + first, base + h)
      ensures Keeps(secret, fpn, flakeSize, old(Image()), Image(), base + h, base + h + 1)
      ensures Dirty(fpn, flakeSize, old(Image()), base + h) ==> current == Plain(secret, fpn, flakeSize, old(Image()), base + h)
      ensures Dirty(fpn, flakeSize, Image(), base + h)
      ensures Plain(secret, fpn, flakeSize, Image(), base + h)
              == Buffers.Splice(current, PieceLo(h, offset, flakeSize),
                                data[DataLo(h, offset, flakeSize)..DataHi(h, offset, |data|, flakeSize)])
    {
      var g := base + h;
      SpanExact(offset, |data|, flakeSize, h, limit);
      PieceBounds(h, offset, |data|, flakeSize);
      ghost var start := Image();
      VisitFor(base + first, g, Strategy.WriteAccess, active);
      var piece := data[DataLo(h, offset, flakeSize)..DataHi(h, offset, |data|, flakeSize)];
      current := SpliceFlake(g, PieceLo(h, offset, flakeSize), piece, start);
    }

    /** Overwrites bytes lo, ..., lo + |piece| - 1 of flake g's plaintext with piece
        and marks the flake written; current is the plaintext it held, which is
        its plaintext in before when it was written there. */
    method SpliceFlake(g: nat, lo: nat, piece: seq<byte>, ghost before: Volume.Image) returns (ghost current: seq<byte>)
      requires Valid() && g < body.Length && lo + |piece| <= flakeSize
      requires Shaped(before, fpn, flakeSize) && |before.flakes| == body.Length
      requires Keeps(secret, fpn, flakeSize, before, Image(), 0, 0)
      modifies this, body, cache
      ensures Valid() && swapActive == old(swapActive) && swapPending == old(swapPending)
      ensures meta == Strategy.MarkWritten(old(meta), Arith.Quot(g, fpn), Arith.Rem(g, fpn))
      ensures |current| == flakeSize
      ensures Dirty(fpn, flakeSize, before, g) ==> current == Plain(secret, fpn, flakeSize, before, g)
      ensures Dirty(fpn, flakeSize, Image(), g)
      ensures Plain(secret, fpn, flakeSize, Image(), g) == Buffers.Splice(current, lo, piece)
      ensures Keeps(secret, fpn, flakeSize, before, Image(), g, g + 1)
    {
      ghost var mid := Image();
      var plain := ReadFlake(g);
      current := plain;
      if Dirty(fpn, flakeSize, before, g) {
        KeptAt(secret, fpn, flakeSize, before, mid, 0, 0, g);
      }
      WriteFlake(g, Buffers.Splice(plain, lo, piece));
      KeepsTransitive(secret, fpn, flakeSize, before, mid, Image(), 0, 0, g, g + 1, g, g + 1);
    }

    /** The state of a write request over image a once flakes first, ..., h - 1
        of its span first, ..., end - 1 are handled: the metadata is on its way
        to goal, and the data written so far is in place. */
    ghost predicate Writing(base: nat, offset: nat, data: seq<byte>, first: nat, end: nat, active: CipherId,
                            a: Volume.Image, goal: Strategy.Meta, h: nat)
      reads this, body, cache
    {
      Valid() && Shaped(a, fpn, flakeSize) && |a.flakes| == body.Length
      && first <= h <= end && base + end <= body.Length
      && Strategy.AccessFrom(meta, strategy, active, Strategy.WriteAccess, fpn, base + first, base + h, base + end) == goal
      && WriteProgress(secret, fpn, flakeSize, a, Image(), base, offset, data, first, h)
    }

    /** One flake of a write request over the image a it started from: flake h is
        merged, and the request's metadata and byte progress advance past it. */
    method WritePiece(base: nat, first: nat, offset: nat, data: seq<byte>, h: nat, limit: nat, active: CipherId,
                      ghost a: Volume.Image, ghost goal: Strategy.Meta)
      requires offset + |data| <= Arith.Mul(limit, flakeSize) && base + limit <= body.Length
      requires flakeSize > 0 && FirstFlake(offset, flakeSize) <= first && h < EndFlake(offset, |data|, flakeSize) <= limit
      requires Writing(base, offset, data, first, EndFlake(offset, |data|, flakeSize), active, a, goal, h)
      modifies this, body, cache
      ensures swapActive == old(swapActive) && swapPending == old(swapPending)
      ensures Writing(base, offset, data, first, EndFlake(offset, |data|, flakeSize), active, a, goal, h + 1)
    {
      SpanExact(offset, |data|, flakeSize, h, limit);
      ghost var before := Image();
      ghost var m0 := meta;
      ghost var current := MergeFlake(base, first, offset, data, h, limit, active);
      Strategy.AccessFromStep(m0, strategy, active, Strategy.WriteAccess, fpn, base + first, base + h,
                              base + EndFlake(offset, |data|, flakeSize));
      WriteStep(secret, fpn, flakeSize, a, before, Image(), base, offset, data, first, h, current);
    }

    /** Writes data at byte offset of the volume starting at flake base: flake by
        flake, the swap decision for each nugget where one is due, then a
        read-modify-write of the flake. */
    method WriteRange(base: nat, limit: nat, offset: nat, data: seq<byte>, active: CipherId)
      requires Valid() && offset + |data| <= Arith.Mul(limit, flakeSize) && base + limit <= body.Length
      modifies this, body, cache
      ensures FirstFlake(offset, flakeSize) <= EndFlake(offset, |data|, flakeSize) <= limit
      ensures Valid() && swapActive == old(swapActive) && swapPending == old(swapPending)
      ensures meta == Strategy.Request(old(meta), strategy, active, Strategy.WriteAccess, fpn,
                                       base + FirstFlake(offset, flakeSize), base + EndFlake(offset, |data|, flakeSize))
      ensures Holds(secret, fpn, flakeSize, Image(), base, offset, data)
      ensures forall h :: MergesAt(secret, fpn, flakeSize, old(Image()), Image(), base, offset, |data|, h)
      ensures Keeps(secret, fpn, flakeSize, old(Image()), Image(),
                    base + FirstFlake(offset, flakeSize), base + EndFlake(offset, |data|, flakeSize))
    {
      SpanWithin(offset, |data|, flakeSize, limit);
      var first, end := FirstFlake(offset, flakeSize), EndFlake(offset, |data|, flakeSize);
      ghost var im0 := Image();
      ghost var goal := Strategy.Request(meta, strategy, active, Strategy.WriteAccess, fpn, base + first, base + end);
      var h := first;
      while h < end
        invariant swapActive == old(swapActive) && swapPending == old(swapPending)
        invariant Writing(base, offset, data, first, end, active, im0, goal, h)
      {
        WritePiece(base, first, offset, data, h, limit, active, im0, goal);
        h := h + 1;
      }
      WriteDone(secret, fpn, flakeSize, im0, Image(), base, offset, data, limit);
    }

    /** Flake g of a read request that started at flake first: the swap decision
        for its nugget where one is due, then the flake's plaintext. */
    method ReadVisit(first: nat, g: nat, active: CipherId, ghost before: Volume.Image) returns (plain: seq<byte>)
      requires Valid() && first <= g < body.Length && before == Image()
      modifies this, body, cache
      ensures Valid() && swapActive == old(swapActive) && swapPending == old(swapPending)
      ensures meta == Strategy.Step(old(meta), strategy, active, Strategy.ReadAccess, fpn, first, g)
      ensures Keeps(secret, fpn, flakeSize, old(Image()), Image(), 0, 0)
      ensures |plain| == flakeSize
      ensures Dirty(fpn, flakeSize, before, g) ==> plain == Plain(secret, fpn, flakeSize, before, g)
    {
      VisitFor(first, g, Strategy.ReadAccess, active);
      plain := ReadFlake(g);
      if Dirty(fpn, flakeSize, before, g) {
        KeptAt(secret, fpn, flakeSize, before, Image(), 0, 0, g);
      }
    }

    /** The state of a read request over image a once flakes first, ..., h - 1
        of its span first, ..., end - 1 are handled: the metadata is on its way
        to goal, every written flake of a is kept, and out shows their parts. */
    ghost predicate Reading(base: nat, offset: nat, length: nat, first: nat, end: nat, active: CipherId,
                            a: Volume.Image, goal: Strategy.Meta, out: seq<byte>, h: nat)
      reads this, body, cache
    {
      Valid() && Shaped(a, fpn, flakeSize) && |a.flakes| == body.Length
      && first <= h <= end && base + end <= body.Length
      && Strategy.AccessFrom(meta, strategy, active, Strategy.ReadAccess, fpn, base + first, base + h, base + end) == goal
      && Keeps(secret, fpn, flakeSize, a, Image(), 0, 0)
      && ReadProgress(secret, fpn, flakeSize, a, base, offset, length, out, first, h)
      && (h < end ==> |out| == DataLo(h, offset, flakeSize))
      && (h == end ==> |out| == length)
    }

    /** Appends flake h's part of a read request to out, after the swap decision
        for its nugget; a is the image the request started from. */
    method ReadPiece(base: nat, first: nat, offset: nat, length: nat, h: nat, limit: nat, active: CipherId,
                     ghost a: Volume.Image, ghost goal: Strategy.Meta, out: seq<byte>) returns (out': seq<byte>)
      requires offset + length <= Arith.Mul(limit, flakeSize) && base + limit <= body.Length
      requires flakeSize > 0 && FirstFlake(offset, flakeSize) <= first && h < EndFlake(offset, length, flakeSize) <= limit
      requires Reading(base, offset, length, first, EndFlake(offset, length, flakeSize), active, a, goal, out, h)
      modifies this, body, cache
      ensures swapActive == old(swapActive) && swapPending == old(swapPending)
      ensures Reading(base, offset, length, first, EndFlake(offset, length, flakeSize), active, a, goal, out', h + 1)
    {
      ghost var before := Image();
      ghost var m0 := meta;
      var plain := ReadVisit(base + first, base + h, active, before);
      Strategy.AccessFromStep(m0, strategy, active, Strategy.ReadAccess, fpn, base + first, base + h,
                              base + EndFlake(offset, length, flakeSize));
      ReadStep(secret, fpn, flakeSize, a, before, base, offset, length, out, plain, first, h, limit);
      KeepsTransitive(secret, fpn, flakeSize, a, before, Image(), 0, 0, 0, 0, 0, 0);
      out' := out + plain[PieceLo(h, offset, flakeSize)..PieceHi(h, offset, length, flakeSize)];
    }

    /** Reads length bytes at byte offset of the volume starting at flake base:
        flake by flake, the swap decision for each nugget where one is due, then
        the flake's part of the request. */
    method ReadRange(base: nat, limit: nat, offset: nat, length: nat, active: CipherId) returns (out: seq<byte>)
      requires Valid() && offset + length <= Arith.Mul(limit, flakeSize) && base + limit <= body.Length
      modifies this, body, cache
      ensures FirstFlake(offset, flakeSize) <= EndFlake(offset, length, flakeSize) <= limit
      ensures Valid() && swapActive == old(swapActive) && swapPending == old(swapPending)
      ensures meta == Strategy.Request(old(meta), strategy, active, Strategy.ReadAccess, fpn,
                                       base + FirstFlake(offset, flakeSize), base + EndFlake(offset, length, flakeSize))
      ensures Keeps(secret, fpn, flakeSize, old(Image()), Image(), 0, 0)
      ensures |out| == length
      ensures Shows(secret, fpn, flakeSize, old(Image()), base, offset, out)
    {
      SpanWithin(offset, length, flakeSize, limit);
      var first, end := FirstFlake(offset, flakeSize), EndFlake(offset, length, flakeSize);
      if first < end {
        PiecesChain(first, offset, length, flakeSize, limit);
      }
      ghost var im0 := Image();
      ghost var goal := Strategy.Request(meta, strategy, active, Strategy.ReadAccess, fpn, base + first, base + end);
      out := [];
      var h := first;
      while h < end
        invariant swapActive == old(swapActive) && swapPending == old(swapPending)
        invariant Reading(base, offset, length, first, end, active, im0, goal, out, h)
      {
        out := ReadPiece(base, first, offset, length, h, limit, active, im0, goal, out);
        h := h + 1;
      }
      ReadDone(secret, fpn, flakeSize, im0, base, offset, out, limit);
    }

    /** A mirrored write: the same bytes at the same offset of both halves. */
    method WriteBoth(limit: nat, offset: nat, data: seq<byte>, active: CipherId)
      requires Valid() && offset + |data| <= Arith.Mul(limit, flakeSize) && Upper() + limit <= body.Length && limit <= Upper()
      modifies this, body, cache
      ensures Valid() && swapActive == old(swapActive) && swapPending == old(swapPending)
      ensures FirstFlake(offset, flakeSize) <= EndFlake(offset, |data|, flakeSize) <= limit
      ensures meta == Strategy.Request(Strategy.Request(old(meta), strategy, active, Strategy.WriteAccess, fpn,
                                                        FirstFlake(offset, flakeSize), EndFlake(offset, |data|, flakeSize)),
                                       strategy, active, Strategy.WriteAccess, fpn,
                                       Upper() + FirstFlake(offset, flakeSize), Upper() + EndFlake(offset, |data|, flakeSize))
      ensures Holds(secret, fpn, flakeSize, Image(), 0, offset, data)
      ensures Holds(secret, fpn, flakeSize, Image(), Upper(), offset, data)
      ensures KeepsBoth(secret, fpn, flakeSize, old(Image()), Image(),
                        FirstFlake(offset, flakeSize), EndFlake(offset, |data|, flakeSize),
                        Upper() + FirstFlake(offset, flakeSize), Upper() + EndFlake(offset, |data|, flakeSize))
      ensures forall h :: MergesAt(secret, fpn, flakeSize, old(Image()), Image(), 0, offset, |data|, h)
      ensures forall h :: MergesAt(secret, fpn, flakeSize, old(Image()), Image(), Upper(), offset, |data|, h)
    {
      ghost var im0 := Image();
      WriteRange(0, limit, offset, data, active);
      ghost var im1 := Image();
      WriteRange(Upper(), limit, offset, data, active);
      MirroredWrites(secret, fpn, flakeSize, im0, im1, Image(), Upper(), offset, data);
    }

    /** The write handler: consumes a pending swap command, then writes data at byte
        offset of the exposed volume; a mirrored device writes both halves, a
        selective one the half of the active cipher. */
    method Write(offset: nat, data: seq<byte>)
      requires Valid() && offset + |data| <= ExposedSize()
      modifies this, body, cache
      ensures Valid() && !swapPending && swapActive == SwapAfter(strategy, old(swapActive), old(swapPending))
      ensures Base() + ExposedFlakes() <= body.Length
      ensures Partitioned(strategy) ==> Upper() + ExposedFlakes() <= body.Length
      ensures FirstFlake(offset, flakeSize) <= EndFlake(offset, |data|, flakeSize) <= ExposedFlakes()
      ensures Holds(secret, fpn, flakeSize, Image(), Base(), offset, data)
      ensures !strategy.Mirrored? ==>
        meta == Strategy.Request(old(meta), strategy, Active(), Strategy.WriteAccess, fpn,
                                 Base() + FirstFlake(offset, flakeSize), Base() + EndFlake(offset, |data|, flakeSize))
        && Keeps(secret, fpn, flakeSize, old(Image()), Image(),
                 Base() + FirstFlake(offset, flakeSize), Base() + EndFlake(offset, |data|, flakeSize))
        && forall h :: MergesAt(secret, fpn, flakeSize, old(Image()), Image(), Base(), offset, |data|, h)
      ensures strategy.Mirrored? ==>
        meta == Strategy.Request(Strategy.Request(old(meta), strategy, Active(), Strategy.WriteAccess, fpn,
                                                  FirstFlake(offset, flakeSize), EndFlake(offset, |data|, flakeSize)),
                                 strategy, Active(), Strategy.WriteAccess, fpn,
                                 Upper() + FirstFlake(offset, flakeSize), Upper() + EndFlake(offset, |data|, flakeSize))
        && Holds(secret, fpn, flakeSize, Image(), 0, offset, data)
        && Holds(secret, fpn, flakeSize, Image(), Upper(), offset, data)
        && KeepsBoth(secret, fpn, flakeSize, old(Image()), Image(),
                     FirstFlake(offset, flakeSize), EndFlake(offset, |data|, flakeSize),
                     Upper() + FirstFlake(offset, flakeSize), Upper() + EndFlake(offset, |data|, flakeSize))
        && (forall h :: MergesAt(secret, fpn, flakeSize, old(Image()), Image(), 0, offset, |data|, h))
        && (forall h :: MergesAt(secret, fpn, flakeSize, old(Image()), Image(), Upper(), offset, |data|, h))
    {
      ConsumeSwap();
      VolumeFits();
      var limit := ExposedFlakes();
      if strategy.Mirrored? {
        WriteBoth(limit, offset, data, Active());
      } else {
        WriteRange(Base(), limit, offset, data, Active());
      }
    }

    /** The read handler: consumes a pending swap command, then reads length bytes at
        byte offset of the exposed volume, from the half of the active cipher on a
        partitioned device. */
    method Read(offset: nat, length: nat) returns (out: seq<byte>)
      requires Valid() && offset + length <= ExposedSize()
      modifies this, body, cache
      ensures Valid() && !swapPending && swapActive == SwapAfter(strategy, old(swapActive), old(swapPending))
      ensures Base() + ExposedFlakes() <= body.Length
      ensures FirstFlake(offset, flakeSize) <= EndFlake(offset, length, flakeSize) <= ExposedFlakes()
      ensures meta == Strategy.Request(old(meta), strategy, Active(), Strategy.ReadAccess, fpn,
                                       Base() + FirstFlake(offset, flakeSize), Base() + EndFlake(offset, length, flakeSize))
      ensures Keeps(secret, fpn, flakeSize, old(Image()), Image(), 0, 0)
      ensures |out| == length
      ensures Shows(secret, fpn, flakeSize, old(Image()), Base(), offset, out)
    {
      ConsumeSwap();
      VolumeFits();
      out := ReadRange(Base(), ExposedFlakes(), offset, length, Active());
    }

    /** Reading back the range just written returns the bytes written. */
    method WriteThenRead(offset: nat, data: seq<byte>) returns (out: seq<byte>)
      requires Valid() && offset + |data| <= ExposedSize()
      modifies this, body, cache
      ensures Valid() && out == data
    {
      Write(offset, data);
      ghost var written := Image();
      out := Read(offset, |data|);
      ReadBackWritten(secret, fpn, flakeSize, written, Base(), offset, data, out);
    }

    /** A swap command between a write and the read of the same range does not
        change what the read returns, except on a selective device whose halves
        are separate volumes. */
    method WriteSwapRead(offset: nat, data: seq<byte>) returns (out: seq<byte>)
      requires Valid() && offset + |data| <= ExposedSize() && !strategy.Selective?
      modifies this, body, cache
      ensures Valid() && out == data
    {
      Write(offset, data);
      ghost var written := Image();
      RequestSwap();
      out := Read(offset, |data|);
      ReadBackWritten(secret, fpn, flakeSize, written, Base(), offset, data, out);
    }

    /** On a selective device each cipher has a volume of its own: data written
        under the swap cipher is read back under it, and swapping back reads the
        data written under the primary cipher. */
    method SelectiveVolumes(offset: nat, first: seq<byte>, second: seq<byte>) returns (underSwap: seq<byte>, underPrimary: seq<byte>)
      requires Valid() && strategy.Selective? && !swapActive && !swapPending
      requires offset + |first| <= ExposedSize() && |second| == |first|
      modifies this, body, cache
      ensures Valid() && underSwap == second && underPrimary == first
    {
      Write(offset, first);
      ghost var im1 := Image();
      RequestSwap();
      Write(offset, second);
      ghost var im2 := Image();
      var lo, hi := Upper() + FirstFlake(offset, flakeSize), Upper() + EndFlake(offset, |second|, flakeSize);
      HoldsKept(secret, fpn, flakeSize, im1, im2, 0, offset, first, lo, hi);
      underSwap := Read(offset, |second|);
      ReadBackWritten(secret, fpn, flakeSize, im2, Upper(), offset, second, underSwap);
      ghost var im3 := Image();
      HoldsKept(secret, fpn, flakeSize, im2, im3, 0, offset, first, 0, 0);
      RequestSwap();
      underPrimary := Read(offset, |first|);
      ReadBackWritten(secret, fpn, flakeSize, im3, 0, offset, first, underPrimary);
    }
  }
}
