// Derivation of nugget and flake keys from the master secret, and the cache that
// keeps derived keys so each is derived at most once per open device.
module KeyCache {
  import opened Types
  import Arith

  /** What a cached key is filed under: a nugget index, or a (nugget, flake,
      keycount) chain for a flake key of one rekey generation. */
  datatype KeyId = NuggetKeyId(nugget: nat) | FlakeKeyId(nugget: nat, flake: nat, keycount: nat)

  /** Bytes of a derived key. */
  const KeyBytes: nat := 32

  /** Deterministic stand-in for the keyed derivation function: the same secret and
      key id always give the same key. */
  function Kdf(secret: seq<byte>, id: KeyId): (key: seq<byte>)
    ensures |key| == KeyBytes
  {
    var tweak := match id
      case NuggetKeyId(n) => n
      case FlakeKeyId(n, f, kc) => n * 7 + f * 13 + kc * 31 + 1;
    KeyPrefix(secret, tweak, KeyBytes)
  }

  /** The first n bytes of the key derived from secret for the given tweak: byte i
      adds the tweak and i to byte i of the secret, repeated cyclically. */
  function KeyPrefix(secret: seq<byte>, tweak: nat, n: nat): (key: seq<byte>)
    ensures |key| == n
  {
    if n == 0 then []
    else
      var i := n - 1;
      KeyPrefix(secret, tweak, i) + [(((if |secret| == 0 then 0 else secret[Arith.Rem(i, |secret|)] as int) + tweak + i) % 256) as byte]
  }

  /** The key ids a soft open derives eagerly: the nugget key of every nugget that is
      not pristine, and the flake key of every written flake at its nugget's stored
      keycount. Every populated key belongs to a nugget with a written flake. */
  predicate Populated(journal: seq<seq<bool>>, keycounts: seq<nat>, id: KeyId): (present: bool)
    requires |keycounts| == |journal|
    ensures present ==> id.nugget < |journal| && !Pristine(journal[id.nugget])
  {
    match id
    case NuggetKeyId(n) => n < |journal| && !Pristine(journal[n])
    case FlakeKeyId(n, f, kc) => n < |journal| && f < |journal[n]| && journal[n][f] && kc == keycounts[n]
  }

  /** Keys filed under a flake index past the nugget's flakes, a nugget past the
      device, or another keycount than the stored one are never populated, and a
      populated flake key comes with the key of its nugget. */
  lemma PopulatedOnlyInRange(journal: seq<seq<bool>>, keycounts: seq<nat>, n: nat, f: nat, kc: nat)
    requires |keycounts| == |journal|
    ensures n >= |journal| || f >= |journal[n]| || kc != keycounts[n] ==> !Populated(journal, keycounts, FlakeKeyId(n, f, kc))
    ensures Populated(journal, keycounts, FlakeKeyId(n, f, kc)) ==> Populated(journal, keycounts, NuggetKeyId(n))
  {
  }

  /** The populated set observed after opening the three-nugget test backstore, whose
      nuggets 0 and 2 have both flakes written at keycounts 0 and 2. */
  lemma SmallBackstorePopulation(journal: seq<seq<bool>>, keycounts: seq<nat>)
    requires journal == [[true, true], [false, false], [true, true]] && keycounts == [0, 0, 2]
    ensures Populated(journal, keycounts, NuggetKeyId(0)) && Populated(journal, keycounts, NuggetKeyId(2))
    ensures !Populated(journal, keycounts, NuggetKeyId(3))
    ensures Populated(journal, keycounts, FlakeKeyId(0, 0, 0)) && Populated(journal, keycounts, FlakeKeyId(0, 1, 0))
    ensures Populated(journal, keycounts, FlakeKeyId(2, 0, 2)) && Populated(journal, keycounts, FlakeKeyId(2, 1, 2))
    ensures !Populated(journal, keycounts, FlakeKeyId(0, 0, 2)) && !Populated(journal, keycounts, FlakeKeyId(0, 2, 0))
  {
    assert journal[0][0];
    assert journal[2][0];
  }

  class KeyCache {
    var entries: map<KeyId, seq<byte>>

    /** Every cached key is the one the derivation function gives for its id. */
    ghost predicate Coherent(secret: seq<byte>)
      reads this
    {
      forall id :: id in entries ==> entries[id] == Kdf(secret, id)
    }

    constructor()
      ensures entries == map[]
    {
      entries := map[];
    }

    method AddNuggetKey(nugget: nat, key: seq<byte>)
      modifies this
      ensures entries == old(entries)[NuggetKeyId(nugget) := key]
    {
      entries := entries[NuggetKeyId(nugget) := key];
    }

    method AddFlakeKey(nugget: nat, flake: nat, keycount: nat, key: seq<byte>)
      modifies this
      ensures entries == old(entries)[FlakeKeyId(nugget, flake, keycount) := key]
    {
      entries := entries[FlakeKeyId(nugget, flake, keycount) := key];
    }

    method GetNuggetKey(nugget: nat) returns (r: Option<seq<byte>>)
      ensures r.Some? <==> NuggetKeyId(nugget) in entries
      ensures r.Some? ==> r.value == entries[NuggetKeyId(nugget)]
    {
      var id := NuggetKeyId(nugget);
      if id in entries {
        return Some(entries[id]);
      }
      return None;
    }

    method GetFlakeKey(nugget: nat, flake: nat, keycount: nat) returns (r: Option<seq<byte>>)
      ensures r.Some? <==> FlakeKeyId(nugget, flake, keycount) in entries
      ensures r.Some? ==> r.value == entries[FlakeKeyId(nugget, flake, keycount)]
    {
      var id := FlakeKeyId(nugget, flake, keycount);
      if id in entries {
        return Some(entries[id]);
      }
      return None;
    }

    /** The key for id: the cached one if present, otherwise derived and cached. */
    method Fetch(secret: seq<byte>, id: KeyId) returns (key: seq<byte>)
      requires Coherent(secret)
      modifies this
      ensures Coherent(secret)
      ensures key == Kdf(secret, id)
      ensures entries == old(entries)[id := key]
      ensures id in old(entries) ==> entries == old(entries)
    {
      if id in entries {
        key := entries[id];
      } else {
        key := Kdf(secret, id);
        entries := entries[id := key];
      }
    }

    /** Derives and caches, nugget by nugget, the keys a soft open pre-populates. */
    method PopulateOnOpen(secret: seq<byte>, journal: seq<seq<bool>>, keycounts: seq<nat>)
      requires |keycounts| == |journal|
      modifies this
      ensures forall id :: id in entries <==> id in old(entries) || Populated(journal, keycounts, id)
      ensures forall id :: id in entries ==>
        entries[id] == if Populated(journal, keycounts, id) then Kdf(secret, id) else old(entries)[id]
    {
      var n := 0;
      while n < |journal|
        invariant 0 <= n <= |journal|
        invariant PopulatedUpTo(old(entries), entries, secret, journal, keycounts, n, 0)
      {
        PopulateNugget(old(entries), secret, journal, keycounts, n);
        n := n + 1;
      }
      PopulateDone(old(entries), entries, secret, journal, keycounts);
    }

    /** Caches the nugget key of nugget n if it is not pristine, then the key of each of its written flakes. */
    method PopulateNugget(ghost base: map<KeyId, seq<byte>>, secret: seq<byte>, journal: seq<seq<bool>>,
                          keycounts: seq<nat>, n: nat)
      requires |keycounts| == |journal| && n < |journal|
      requires PopulatedUpTo(base, entries, secret, journal, keycounts, n, 0)
      modifies this
      ensures PopulatedUpTo(base, entries, secret, journal, keycounts, n + 1, 0)
    {
      ghost var before := entries;
      if !Pristine(journal[n]) {
        var id := NuggetKeyId(n);
        entries := entries[id := Kdf(secret, id)];
      }
      PopulateNuggetKeyStep(base, before, entries, secret, journal, keycounts, n);
      var f := 0;
      while f < |journal[n]|
        invariant 0 <= f <= |journal[n]|
        invariant PopulatedUpTo(base, entries, secret, journal, keycounts, n, f + 1)
      {
        before := entries;
        if journal[n][f] {
          var id := FlakeKeyId(n, f, keycounts[n]);
          entries := entries[id := Kdf(secret, id)];
        }
        PopulateFlakeKeyStep(base, before, entries, secret, journal, keycounts, n, f);
        f := f + 1;
      }
      PopulateNextNugget(base, entries, secret, journal, keycounts, n);
    }
  }

  /** id comes before position (n, step) of the population walk: its nugget was
      finished, or it is the nugget key (step 1) or one of the first step - 1 flake
      keys of nugget n. */
  predicate Visited(id: KeyId, n: nat, step: nat)
  {
    id.nugget < n || (id.nugget == n && step > 0 && (id.NuggetKeyId? || id.flake < step - 1))
  }

  /** after holds before plus the derived keys of every populated id already visited. */
  ghost predicate PopulatedUpTo(before: map<KeyId, seq<byte>>, after: map<KeyId, seq<byte>>, secret: seq<byte>,
                                journal: seq<seq<bool>>, keycounts: seq<nat>, n: nat, step: nat)
    requires |keycounts| == |journal|
  {
    (forall id :: id in after <==> id in before || (Populated(journal, keycounts, id) && Visited(id, n, step)))
    && (forall id :: id in after ==>
          after[id] == if Populated(journal, keycounts, id) && Visited(id, n, step) then Kdf(secret, id) else before[id])
  }

  lemma PopulateNuggetKeyStep(base: map<KeyId, seq<byte>>, before: map<KeyId, seq<byte>>, after: map<KeyId, seq<byte>>,
                              secret: seq<byte>, journal: seq<seq<bool>>, keycounts: seq<nat>, n: nat)
    requires |keycounts| == |journal| && n < |journal|
    requires PopulatedUpTo(base, before, secret, journal, keycounts, n, 0)
    requires after == if !Pristine(journal[n]) then before[NuggetKeyId(n) := Kdf(secret, NuggetKeyId(n))] else before
    ensures PopulatedUpTo(base, after, secret, journal, keycounts, n, 1)
  {
    forall id ensures Visited(id, n, 1) <==> Visited(id, n, 0) || id == NuggetKeyId(n) {
    }
  }

  lemma PopulateFlakeKeyStep(base: map<KeyId, seq<byte>>, before: map<KeyId, seq<byte>>, after: map<KeyId, seq<byte>>,
                             secret: seq<byte>, journal: seq<seq<bool>>, keycounts: seq<nat>, n: nat, f: nat)
    requires |keycounts| == |journal| && n < |journal| && f < |journal[n]|
    requires PopulatedUpTo(base, before, secret, journal, keycounts, n, f + 1)
    requires after == if journal[n][f] then before[FlakeKeyId(n, f, keycounts[n]) := Kdf(secret, FlakeKeyId(n, f, keycounts[n]))] else before
    ensures PopulatedUpTo(base, after, secret, journal, keycounts, n, f + 2)
  {
    var added := FlakeKeyId(n, f, keycounts[n]);
    assert Populated(journal, keycounts, added) <==> journal[n][f];
    assert Visited(added, n, f + 2) && !Visited(added, n, f + 1);
    forall id
      ensures id in after <==> id in base || (Populated(journal, keycounts, id) && Visited(id, n, f + 2))
    {
      if id != added {
        assert id in after <==> id in before;
      }
    }
    forall id | id in after
      ensures after[id] == if Populated(journal, keycounts, id) && Visited(id, n, f + 2) then Kdf(secret, id) else base[id]
    {
      if id != added {
        assert after[id] == before[id];
      }
    }
  }

  lemma PopulateNextNugget(base: map<KeyId, seq<byte>>, m: map<KeyId, seq<byte>>,
                           secret: seq<byte>, journal: seq<seq<bool>>, keycounts: seq<nat>, n: nat)
    requires |keycounts| == |journal| && n < |journal|
    requires PopulatedUpTo(base, m, secret, journal, keycounts, n, |journal[n]| + 1)
    ensures PopulatedUpTo(base, m, secret, journal, keycounts, n + 1, 0)
  {
    forall id | Populated(journal, keycounts, id)
      ensures Visited(id, n, |journal[n]| + 1) <==> Visited(id, n + 1, 0)
    {
    }
  }

  lemma PopulateDone(base: map<KeyId, seq<byte>>, m: map<KeyId, seq<byte>>,
                     secret: seq<byte>, journal: seq<seq<bool>>, keycounts: seq<nat>)
    requires |keycounts| == |journal|
    requires PopulatedUpTo(base, m, secret, journal, keycounts, |journal|, 0)
    ensures forall id :: id in m <==> id in base || Populated(journal, keycounts, id)
    ensures forall id :: id in m ==> m[id] == if Populated(journal, keycounts, id) then Kdf(secret, id) else base[id]
  {
    forall id | Populated(journal, keycounts, id)
      ensures Visited(id, |journal|, 0)
    {
    }
  }
}
