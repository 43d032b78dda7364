// The swap strategy engine: what one read or write request does to the per-nugget
// cipher identifiers, keycounts and journal bitmasks. The request visits the
// flakes it covers in order; under the forward strategy, the first flake it
// touches in each nugget triggers that nugget's swap decision.
module Strategy {
  import opened Types
  import Arith

  datatype SwapStrategy =
    | Disabled             // every nugget stays on the primary cipher
    | Mirrored             // each write lands in both halves, one per cipher
    | Selective            // each half is its own volume, one per cipher
    | Forward(distance: nat) // migrate touched nuggets and walk ahead distance nuggets

  datatype Access = ReadAccess | WriteAccess

  /** What happens to one nugget's metadata: nothing, a relabel to the active
      cipher, or a relabel with a new keycount (its written flakes re-encrypted). */
  datatype Action = Keep | Flip | Rekey

  /** The decision for a nugget the request itself touches. A write rekeys a
      nugget that is not on the active cipher even when it is pristine; a read
      only relabels a pristine one. */
  function TouchedAction(op: Access, onActive: bool, pristine: bool): (a: Action)
    ensures a == Keep <==> onActive
    ensures a == Flip <==> !onActive && op == ReadAccess && pristine
  {
    if onActive then Keep
    else if op == ReadAccess && pristine then Flip
    else Rekey
  }

  /** The decision for a nugget in the forward window. A pristine nugget is only
      relabelled; a written one is rekeyed on a read and left alone on a write. */
  function ForwardAction(op: Access, onActive: bool, pristine: bool): (a: Action)
    ensures a == Rekey <==> !onActive && !pristine && op == ReadAccess
    ensures a == Flip <==> !onActive && pristine
  {
    if onActive then Keep
    else if pristine then Flip
    else if op == ReadAccess then Rekey
    else Keep
  }

  function CipherAfter(a: Action, c: CipherId, active: CipherId): CipherId
  {
    if a == Keep then c else active
  }

  function KeycountAfter(a: Action, kc: nat): nat
  {
    if a == Rekey then kc + 1 else kc
  }

  /** Per-nugget state: cipher identifier, keycount and journal bitmask. */
  datatype Meta = Meta(cipher: seq<CipherId>, keycount: seq<nat>, journal: seq<seq<bool>>)

  ghost predicate WellFormed(m: Meta, fpn: nat)
  {
    |m.keycount| == |m.cipher| && |m.journal| == |m.cipher|
    && forall v :: 0 <= v < |m.journal| ==> |m.journal[v]| == fpn
  }

  function Apply(m: Meta, v: nat, a: Action, active: CipherId): (r: Meta)
    requires v < |m.cipher| && |m.keycount| == |m.cipher|
    ensures r.journal == m.journal && |r.cipher| == |m.cipher| && |r.keycount| == |m.keycount|
  {
    m.(cipher := m.cipher[v := CipherAfter(a, m.cipher[v], active)],
       keycount := m.keycount[v := KeycountAfter(a, m.keycount[v])])
  }

  /** Applies the forward decision to nuggets from, from + 1, ..., stop - 1 in turn. */
  function Walk(m: Meta, from: nat, stop: nat, op: Access, active: CipherId): (r: Meta)
    requires from <= stop <= |m.cipher| && |m.keycount| == |m.cipher| && |m.journal| == |m.cipher|
    ensures r.journal == m.journal && |r.cipher| == |m.cipher| && |r.keycount| == |m.cipher|
    decreases stop - from
  {
    if from == stop then m
    else
      var a := ForwardAction(op, m.cipher[from] == active, Pristine(m.journal[from]));
      Walk(Apply(m, from, a, active), from + 1, stop, op, active)
  }

  /** The end of the forward window after nugget u: it never passes the last nugget. */
  function WindowEnd(u: nat, distance: nat, numNuggets: nat): (e: nat)
    ensures e <= numNuggets && (u < numNuggets ==> u + 1 <= e)
    ensures e <= u + distance + 1
  {
    Min(u + distance + 1, numNuggets)
  }

  /** The swap decision for touched nugget u; if it was not on the active cipher,
      the forward window after it is walked as well. */
  function Visit(m: Meta, u: nat, op: Access, active: CipherId, distance: nat): (r: Meta)
    requires u < |m.cipher| && |m.keycount| == |m.cipher| && |m.journal| == |m.cipher|
    ensures r.journal == m.journal && |r.cipher| == |m.cipher| && |r.keycount| == |m.cipher|
  {
    var a := TouchedAction(op, m.cipher[u] == active, Pristine(m.journal[u]));
    var m1 := Apply(m, u, a, active);
    if a == Keep then m1 else Walk(m1, u + 1, WindowEnd(u, distance, |m.cipher|), op, active)
  }

  function MarkWritten(m: Meta, v: nat, f: nat): (r: Meta)
    requires v < |m.journal| && f < |m.journal[v]|
    ensures r.cipher == m.cipher && r.keycount == m.keycount && |r.journal| == |m.journal|
  {
    m.(journal := m.journal[v := m.journal[v][f := true]])
  }

  /** Whether the request visits the nugget of flake g at flake g: at its first flake, and
      at the first flake of every later nugget. */
  predicate VisitsAt(s: SwapStrategy, fpn: nat, first: nat, g: nat)
    requires fpn > 0
  {
    s.Forward? && (g == first || Arith.Rem(g, fpn) == 0)
  }

  /** One flake of a request: the swap decision for its nugget where one is due,
      then, on a write, the flake's journal bit. */
  function Step(m: Meta, s: SwapStrategy, active: CipherId, op: Access, fpn: nat, first: nat, g: nat): (r: Meta)
    requires WellFormed(m, fpn) && fpn > 0 && g < Arith.Mul(|m.cipher|, fpn)
    ensures WellFormed(r, fpn) && |r.cipher| == |m.cipher|
  {
    Arith.QuotBetween(g, fpn, 0, |m.cipher|);
    var u := Arith.Quot(g, fpn);
    var m1 := if VisitsAt(s, fpn, first, g) then Visit(m, u, op, active, s.distance) else m;
    if op == WriteAccess then MarkWritten(m1, u, Arith.Rem(g, fpn)) else m1
  }

  /** The metadata after a request has visited global flakes g, ..., end - 1 of a
      request that started at flake first. */
  function AccessFrom(m: Meta, s: SwapStrategy, active: CipherId, op: Access, fpn: nat,
                      first: nat, g: nat, end: nat): (r: Meta)
    requires WellFormed(m, fpn) && fpn > 0 && first <= g <= end <= Arith.Mul(|m.cipher|, fpn)
    ensures WellFormed(r, fpn) && |r.cipher| == |m.cipher|
    decreases end - g
  {
    if g == end then m
    else AccessFrom(Step(m, s, active, op, fpn, first, g), s, active, op, fpn, first, g + 1, end)
  }

  /** A request's metadata after flake g is that after flake g + 1 once flake g
      is stepped through. */
  lemma AccessFromStep(m: Meta, s: SwapStrategy, active: CipherId, op: Access, fpn: nat, first: nat, g: nat, end: nat)
    requires WellFormed(m, fpn) && fpn > 0 && first <= g < end <= Arith.Mul(|m.cipher|, fpn)
    ensures AccessFrom(Step(m, s, active, op, fpn, first, g), s, active, op, fpn, first, g + 1, end)
            == AccessFrom(m, s, active, op, fpn, first, g, end)
  {
  }

  /** The metadata after a whole request covering flakes first, ..., end - 1. */
  function Request(m: Meta, s: SwapStrategy, active: CipherId, op: Access, fpn: nat, first: nat, end: nat): (r: Meta)
    requires WellFormed(m, fpn) && fpn > 0 && first <= end <= Arith.Mul(|m.cipher|, fpn)
    ensures WellFormed(r, fpn) && |r.cipher| == |m.cipher|
  {
    AccessFrom(m, s, active, op, fpn, first, first, end)
  }

  // ---------------------------------------------------------------------------
  // Per-nugget effects of the building blocks

  /** The forward decision a walk over [from, stop) applies to nugget v. */
  function WalkAction(m: Meta, from: nat, stop: nat, op: Access, active: CipherId, v: nat): Action
    requires v < |m.cipher| && |m.journal| == |m.cipher|
  {
    if from <= v < stop then ForwardAction(op, m.cipher[v] == active, Pristine(m.journal[v])) else Keep
  }

  lemma {:induction false} WalkEffect(m: Meta, from: nat, stop: nat, op: Access, active: CipherId)
    requires from <= stop <= |m.cipher| && |m.keycount| == |m.cipher| && |m.journal| == |m.cipher|
    decreases stop - from
    ensures forall v :: 0 <= v < |m.cipher| ==>
      (Walk(m, from, stop, op, active).cipher[v] == CipherAfter(WalkAction(m, from, stop, op, active, v), m.cipher[v], active)
       && Walk(m, from, stop, op, active).keycount[v] == KeycountAfter(WalkAction(m, from, stop, op, active, v), m.keycount[v]))
  {
    if from < stop {
      var a := ForwardAction(op, m.cipher[from] == active, Pristine(m.journal[from]));
      var m1 := Apply(m, from, a, active);
      WalkEffect(m1, from + 1, stop, op, active);
      forall v | 0 <= v < |m.cipher|
        ensures Walk(m, from, stop, op, active).cipher[v] == CipherAfter(WalkAction(m, from, stop, op, active, v), m.cipher[v], active)
        ensures Walk(m, from, stop, op, active).keycount[v] == KeycountAfter(WalkAction(m, from, stop, op, active, v), m.keycount[v])
      {
        if v != from {
          assert m1.cipher[v] == m.cipher[v] && m1.keycount[v] == m.keycount[v];
        }
      }
    }
  }

  /** The decision Visit(m, u) applies to nugget v. */
  function VisitAction(m: Meta, u: nat, op: Access, active: CipherId, distance: nat, v: nat): Action
    requires u < |m.cipher| && v < |m.cipher| && |m.journal| == |m.cipher|
  {
    var a := TouchedAction(op, m.cipher[u] == active, Pristine(m.journal[u]));
    if v == u then a
    else if a == Keep then Keep
    else WalkAction(m, u + 1, WindowEnd(u, distance, |m.cipher|), op, active, v)
  }

  lemma VisitEffect(m: Meta, u: nat, op: Access, active: CipherId, distance: nat)
    requires u < |m.cipher| && |m.keycount| == |m.cipher| && |m.journal| == |m.cipher|
    ensures forall v :: 0 <= v < |m.cipher| ==>
      (Visit(m, u, op, active, distance).cipher[v] == CipherAfter(VisitAction(m, u, op, active, distance, v), m.cipher[v], active)
       && Visit(m, u, op, active, distance).keycount[v] == KeycountAfter(VisitAction(m, u, op, active, distance, v), m.keycount[v]))
  {
    var a := TouchedAction(op, m.cipher[u] == active, Pristine(m.journal[u]));
    var m1 := Apply(m, u, a, active);
    if a != Keep {
      var stop := WindowEnd(u, distance, |m.cipher|);
      WalkEffect(m1, u + 1, stop, op, active);
    }
  }


  // ---------------------------------------------------------------------------
  // One flake of a request

  /** How far past nugget last a request touching nuggets up to last may reach. */
  function Reach(s: SwapStrategy, last: nat): nat
  {
    if s.Forward? then last + s.distance else last
  }

  lemma StepLocal(m: Meta, s: SwapStrategy, active: CipherId, op: Access, fpn: nat, first: nat, g: nat, v: nat)
    requires WellFormed(m, fpn) && fpn > 0 && g < Arith.Mul(|m.cipher|, fpn) && v < |m.cipher|
    requires v < Arith.Quot(g, fpn) || Reach(s, Arith.Quot(g, fpn)) < v
    ensures Step(m, s, active, op, fpn, first, g).cipher[v] == m.cipher[v]
    ensures Step(m, s, active, op, fpn, first, g).keycount[v] == m.keycount[v]
    ensures Step(m, s, active, op, fpn, first, g).journal[v] == m.journal[v]
  {
    Arith.QuotBetween(g, fpn, 0, |m.cipher|);
    if VisitsAt(s, fpn, first, g) {
      VisitEffect(m, Arith.Quot(g, fpn), op, active, s.distance);
    }
  }

  lemma StepEvolves(m: Meta, s: SwapStrategy, active: CipherId, op: Access, fpn: nat, first: nat, g: nat)
    requires WellFormed(m, fpn) && fpn > 0 && g < Arith.Mul(|m.cipher|, fpn)
    ensures Evolves(m, Step(m, s, active, op, fpn, first, g), active)
  {
    Arith.QuotBetween(g, fpn, 0, |m.cipher|);
    if VisitsAt(s, fpn, first, g) {
      VisitEvolves(m, Arith.Quot(g, fpn), op, active, s.distance);
    }
  }

  lemma StepWithoutVisit(m: Meta, s: SwapStrategy, active: CipherId, op: Access, fpn: nat, first: nat, g: nat)
    requires WellFormed(m, fpn) && fpn > 0 && g < Arith.Mul(|m.cipher|, fpn)
    requires !VisitsAt(s, fpn, first, g)
    ensures Step(m, s, active, op, fpn, first, g).cipher == m.cipher
    ensures Step(m, s, active, op, fpn, first, g).keycount == m.keycount
  {
  }

  lemma StepVisit(m: Meta, s: SwapStrategy, active: CipherId, op: Access, fpn: nat, first: nat, g: nat)
    requires WellFormed(m, fpn) && fpn > 0 && g < Arith.Mul(|m.cipher|, fpn)
    requires VisitsAt(s, fpn, first, g)
    ensures Arith.Quot(g, fpn) < |m.cipher|
    ensures Step(m, s, active, op, fpn, first, g).cipher == Visit(m, Arith.Quot(g, fpn), op, active, s.distance).cipher
    ensures Step(m, s, active, op, fpn, first, g).keycount == Visit(m, Arith.Quot(g, fpn), op, active, s.distance).keycount
    ensures Step(m, s, active, op, fpn, first, g).cipher[Arith.Quot(g, fpn)] == active
  {
    Arith.QuotBetween(g, fpn, 0, |m.cipher|);
    VisitEffect(m, Arith.Quot(g, fpn), op, active, s.distance);
  }

  /** Global flake v * fpn + f is flake f of nugget v. */
  lemma FlakeIndex(g: nat, fpn: nat, v: nat, f: nat)
    requires fpn > 0 && f < fpn
    ensures Arith.Mul(v, fpn) + f == g <==> (v == Arith.Quot(g, fpn) && f == Arith.Rem(g, fpn))
  {
    Arith.QuotFloor(g, fpn);
    if Arith.Mul(v, fpn) + f == g {
      Arith.QuotInBlock(g, fpn, v);
    }
  }

  /** The flake after g lies in the same nugget unless it starts a new one. */
  lemma NextFlake(g: nat, fpn: nat)
    requires fpn > 0
    ensures Arith.Rem(g + 1, fpn) != 0 ==> Arith.Quot(g + 1, fpn) == Arith.Quot(g, fpn)
  {
    Arith.QuotFloor(g, fpn);
    var u := Arith.Quot(g, fpn);
    if g + 1 < Arith.Mul(u, fpn) + fpn {
      Arith.QuotInBlock(g + 1, fpn, u);
    } else {
      Arith.QuotInBlock(g + 1, fpn, u + 1);
    }
  }

  lemma StepJournal(m: Meta, s: SwapStrategy, active: CipherId, op: Access, fpn: nat, first: nat, g: nat)
    requires WellFormed(m, fpn) && fpn > 0 && g < Arith.Mul(|m.cipher|, fpn)
    ensures forall v, f :: 0 <= v < |m.cipher| && 0 <= f < fpn ==>
      Step(m, s, active, op, fpn, first, g).journal[v][f] == (m.journal[v][f] || (op == WriteAccess && Arith.Mul(v, fpn) + f == g))
  {
    Arith.QuotBetween(g, fpn, 0, |m.cipher|);
    forall v, f | 0 <= v < |m.cipher| && 0 <= f < fpn
      ensures Step(m, s, active, op, fpn, first, g).journal[v][f] == (m.journal[v][f] || (op == WriteAccess && Arith.Mul(v, fpn) + f == g))
    {
      FlakeIndex(g, fpn, v, f);
    }
  }

  // ---------------------------------------------------------------------------
  // What a request may do to any nugget

  /** r is reachable from m by relabelling nuggets to the active cipher and bumping,
      at most once, the keycount of a nugget that was not on the active cipher. */
  ghost predicate Evolves(m: Meta, r: Meta, active: CipherId)
  {
    |r.cipher| == |m.cipher| && |r.keycount| == |m.cipher| && |m.keycount| == |m.cipher|
    && forall v :: 0 <= v < |m.cipher| ==>
      ((r.cipher[v] == m.cipher[v] || r.cipher[v] == active)
       && (r.keycount[v] == m.keycount[v]
           || (r.keycount[v] == m.keycount[v] + 1 && r.cipher[v] == active && m.cipher[v] != active)))
  }

  lemma EvolvesTransitive(m0: Meta, m1: Meta, m2: Meta, active: CipherId)
    requires Evolves(m0, m1, active) && Evolves(m1, m2, active)
    ensures Evolves(m0, m2, active)
  {
    forall v | 0 <= v < |m0.cipher|
      ensures m2.keycount[v] == m0.keycount[v]
        || (m2.keycount[v] == m0.keycount[v] + 1 && m2.cipher[v] == active && m0.cipher[v] != active)
    {
      if m2.keycount[v] != m1.keycount[v] {
        assert m1.cipher[v] != active;
        assert m1.keycount[v] == m0.keycount[v];
      }
    }
  }

  lemma VisitEvolves(m: Meta, u: nat, op: Access, active: CipherId, distance: nat)
    requires u < |m.cipher| && |m.keycount| == |m.cipher| && |m.journal| == |m.cipher|
    ensures Evolves(m, Visit(m, u, op, active, distance), active)
  {
    VisitEffect(m, u, op, active, distance);
  }

  /** A request only relabels nuggets to the active cipher and raises a keycount by
      at most one, and only on a nugget that was not on the active cipher. */
  lemma {:induction false} AccessEvolves(m: Meta, s: SwapStrategy, active: CipherId, op: Access, fpn: nat,
                                         first: nat, g: nat, end: nat)
    requires WellFormed(m, fpn) && fpn > 0 && first <= g <= end <= Arith.Mul(|m.cipher|, fpn)
    ensures Evolves(m, AccessFrom(m, s, active, op, fpn, first, g, end), active)
    decreases end - g
  {
    if g < end {
      var m2 := Step(m, s, active, op, fpn, first, g);
      StepEvolves(m, s, active, op, fpn, first, g);
      AccessEvolves(m2, s, active, op, fpn, first, g + 1, end);
      EvolvesTransitive(m, m2, AccessFrom(m2, s, active, op, fpn, first, g + 1, end), active);
    }
  }

  /** With every nugget already on the active cipher (no swap is pending), a request
      changes no cipher identifier and no keycount. */
  lemma NoSwapNoChange(m: Meta, s: SwapStrategy, active: CipherId, op: Access, fpn: nat, first: nat, end: nat)
    requires WellFormed(m, fpn) && fpn > 0 && first <= end <= Arith.Mul(|m.cipher|, fpn)
    requires forall v :: 0 <= v < |m.cipher| ==> m.cipher[v] == active
    ensures Request(m, s, active, op, fpn, first, end).cipher == m.cipher
    ensures Request(m, s, active, op, fpn, first, end).keycount == m.keycount
  {
    AccessEvolves(m, s, active, op, fpn, first, first, end);
  }

  /** Under the disabled, mirrored and selective strategies a request changes no
      cipher identifier and no keycount. */
  lemma {:induction false} StaticStrategyKeepsCiphers(m: Meta, s: SwapStrategy, active: CipherId, op: Access, fpn: nat,
                                                      first: nat, g: nat, end: nat)
    requires !s.Forward?
    requires WellFormed(m, fpn) && fpn > 0 && first <= g <= end <= Arith.Mul(|m.cipher|, fpn)
    ensures AccessFrom(m, s, active, op, fpn, first, g, end).cipher == m.cipher
    ensures AccessFrom(m, s, active, op, fpn, first, g, end).keycount == m.keycount
    decreases end - g
  {
    if g < end {
      StepWithoutVisit(m, s, active, op, fpn, first, g);
      StaticStrategyKeepsCiphers(Step(m, s, active, op, fpn, first, g), s, active, op, fpn, first, g + 1, end);
    }
  }

  // ---------------------------------------------------------------------------
  // The journal

  /** A request sets exactly the journal bits of the flakes a write covers: a read
      leaves the journal as it was, migrations included. */
  lemma {:induction false} AccessJournal(m: Meta, s: SwapStrategy, active: CipherId, op: Access, fpn: nat,
                                         first: nat, g: nat, end: nat)
    requires WellFormed(m, fpn) && fpn > 0 && first <= g <= end <= Arith.Mul(|m.cipher|, fpn)
    ensures forall v, f :: 0 <= v < |m.cipher| && 0 <= f < fpn ==>
      AccessFrom(m, s, active, op, fpn, first, g, end).journal[v][f]
        == (m.journal[v][f] || (op == WriteAccess && g <= Arith.Mul(v, fpn) + f < end))
    decreases end - g
  {
    if g < end {
      StepJournal(m, s, active, op, fpn, first, g);
      AccessJournal(Step(m, s, active, op, fpn, first, g), s, active, op, fpn, first, g + 1, end);
    }
  }

  /** A read leaves every journal bit as it was. */
  lemma ReadKeepsJournal(m: Meta, s: SwapStrategy, active: CipherId, fpn: nat, first: nat, g: nat, end: nat)
    requires WellFormed(m, fpn) && fpn > 0 && first <= g <= end <= Arith.Mul(|m.cipher|, fpn)
    ensures AccessFrom(m, s, active, ReadAccess, fpn, first, g, end).journal == m.journal
  {
    var r := AccessFrom(m, s, active, ReadAccess, fpn, first, g, end);
    AccessJournal(m, s, active, ReadAccess, fpn, first, g, end);
    forall v | 0 <= v < |m.cipher|
      ensures r.journal[v] == m.journal[v]
    {
    }
  }

  /** A write covering every flake of nugget u leaves all of u's journal bits set. */
  lemma FullNuggetWriteSetsAllBits(m: Meta, s: SwapStrategy, active: CipherId, fpn: nat, first: nat, end: nat, u: nat)
    requires WellFormed(m, fpn) && fpn > 0 && first <= end <= Arith.Mul(|m.cipher|, fpn)
    requires u < |m.cipher| && first <= Arith.Mul(u, fpn) && Arith.Mul(u, fpn) + fpn <= end
    ensures forall f :: 0 <= f < fpn ==> Request(m, s, active, WriteAccess, fpn, first, end).journal[u][f]
  {
    AccessJournal(m, s, active, WriteAccess, fpn, first, first, end);
  }

  // ---------------------------------------------------------------------------
  // Which nuggets a request may touch

  /** Nuggets below the first one a request touches keep cipher, keycount and journal. */
  lemma {:induction false} AccessBelowUntouched(m: Meta, s: SwapStrategy, active: CipherId, op: Access, fpn: nat,
                                                first: nat, g: nat, end: nat, v: nat)
    requires WellFormed(m, fpn) && fpn > 0 && first <= g <= end <= Arith.Mul(|m.cipher|, fpn)
    requires v < Arith.Quot(g, fpn) && v < |m.cipher|
    ensures AccessFrom(m, s, active, op, fpn, first, g, end).cipher[v] == m.cipher[v]
    ensures AccessFrom(m, s, active, op, fpn, first, g, end).keycount[v] == m.keycount[v]
    ensures AccessFrom(m, s, active, op, fpn, first, g, end).journal[v] == m.journal[v]
    decreases end - g
  {
    if g < end {
      Arith.QuotBetween(g, fpn, 0, |m.cipher|);
      StepLocal(m, s, active, op, fpn, first, g, v);
      Arith.QuotMono(g, g + 1, fpn);
      AccessBelowUntouched(Step(m, s, active, op, fpn, first, g), s, active, op, fpn, first, g + 1, end, v);
    }
  }

  /** Nuggets past the forward window of the last nugget a request touches keep
      cipher, keycount and journal; in particular the walk never goes past the
      device. */
  lemma {:induction false} AccessBeyondUntouched(m: Meta, s: SwapStrategy, active: CipherId, op: Access, fpn: nat,
                                                 first: nat, g: nat, end: nat, v: nat)
    requires WellFormed(m, fpn) && fpn > 0 && first <= g < end <= Arith.Mul(|m.cipher|, fpn)
    requires Reach(s, Arith.Quot(end - 1, fpn)) < v < |m.cipher|
    ensures AccessFrom(m, s, active, op, fpn, first, g, end).cipher[v] == m.cipher[v]
    ensures AccessFrom(m, s, active, op, fpn, first, g, end).keycount[v] == m.keycount[v]
    ensures AccessFrom(m, s, active, op, fpn, first, g, end).journal[v] == m.journal[v]
    decreases end - g
  {
    Arith.QuotMono(g, end - 1, fpn);
    StepLocal(m, s, active, op, fpn, first, g, v);
    if g + 1 < end {
      AccessBeyondUntouched(Step(m, s, active, op, fpn, first, g), s, active, op, fpn, first, g + 1, end, v);
    }
  }

  /** Nugget v holds one of the flakes g, ..., end - 1. */
  predicate Covers(fpn: nat, g: nat, end: nat, v: nat)
  {
    g < end && g < Arith.Mul(v, fpn) + fpn && Arith.Mul(v, fpn) < end
  }

  /** A nugget covered from flake g on is g's own nugget or is covered from g + 1 on. */
  lemma CoversNext(fpn: nat, g: nat, end: nat, v: nat)
    requires fpn > 0 && Covers(fpn, g, end, v)
    ensures v == Arith.Quot(g, fpn) || Covers(fpn, g + 1, end, v)
  {
    assert Arith.Mul(v + 1, fpn) == Arith.Mul(v, fpn) + fpn;
    Arith.QuotBetween(g, fpn, 0, v + 1);
    if v != Arith.Quot(g, fpn) {
      var q := Arith.Quot(g, fpn);
      Arith.QuotFloor(g, fpn);
      Arith.MulLe(q + 1, v, fpn);
      assert Arith.Mul(q + 1, fpn) == Arith.Mul(q, fpn) + fpn;
    }
  }

  /** Under the forward strategy every nugget a request touches ends on the active cipher. */
  lemma {:induction false} TouchedEndOnActive(m: Meta, distance: nat, active: CipherId, op: Access, fpn: nat,
                                              first: nat, g: nat, end: nat)
    requires WellFormed(m, fpn) && fpn > 0 && first <= g <= end <= Arith.Mul(|m.cipher|, fpn)
    requires g < end && !VisitsAt(Forward(distance), fpn, first, g) ==>
      Arith.Quot(g, fpn) < |m.cipher| && m.cipher[Arith.Quot(g, fpn)] == active
    ensures forall v :: 0 <= v < |m.cipher| && Covers(fpn, g, end, v) ==>
      AccessFrom(m, Forward(distance), active, op, fpn, first, g, end).cipher[v] == active
    decreases end - g
  {
    if g < end {
      var s := Forward(distance);
      Arith.QuotBetween(g, fpn, 0, |m.cipher|);
      var u := Arith.Quot(g, fpn);
      var m2 := Step(m, s, active, op, fpn, first, g);
      if VisitsAt(s, fpn, first, g) {
        StepVisit(m, s, active, op, fpn, first, g);
      } else {
        StepWithoutVisit(m, s, active, op, fpn, first, g);
      }
      NextFlake(g, fpn);
      if g + 1 < end {
        Arith.QuotBetween(g + 1, fpn, 0, |m.cipher|);
      }
      TouchedEndOnActive(m2, distance, active, op, fpn, first, g + 1, end);
      AccessEvolves(m2, s, active, op, fpn, first, g + 1, end);
      var r := AccessFrom(m2, s, active, op, fpn, first, g + 1, end);
      forall v | 0 <= v < |m.cipher| && Covers(fpn, g, end, v)
        ensures r.cipher[v] == active
      {
        CoversNext(fpn, g, end, v);
      }
    }
  }

  /** Every nugget a forward-strategy request touches ends on the active cipher. */
  lemma RequestEndsOnActive(m: Meta, distance: nat, active: CipherId, op: Access, fpn: nat, first: nat, end: nat, u: nat)
    requires WellFormed(m, fpn) && fpn > 0 && first <= end <= Arith.Mul(|m.cipher|, fpn)
    requires u < |m.cipher| && Covers(fpn, first, end, u)
    ensures Request(m, Forward(distance), active, op, fpn, first, end).cipher[u] == active
  {
    TouchedEndOnActive(m, distance, active, op, fpn, first, first, end);
  }

  // ---------------------------------------------------------------------------
  // Requests inside one nugget

  /** A request is the same as its first part followed by the rest. */
  lemma {:induction false} AccessSplit(m: Meta, s: SwapStrategy, active: CipherId, op: Access, fpn: nat,
                                       first: nat, g: nat, mid: nat, end: nat)
    requires WellFormed(m, fpn) && fpn > 0 && first <= g <= mid <= end <= Arith.Mul(|m.cipher|, fpn)
    ensures AccessFrom(m, s, active, op, fpn, first, g, end)
         == AccessFrom(AccessFrom(m, s, active, op, fpn, first, g, mid), s, active, op, fpn, first, mid, end)
    decreases mid - g
  {
    if g < mid {
      AccessSplit(Step(m, s, active, op, fpn, first, g), s, active, op, fpn, first, g + 1, mid, end);
    }
  }

  /** Past the flake where the swap decision for nugget u was taken, a request only
      sets u's journal bits. */
  lemma {:induction false} InsideOneNugget(m: Meta, s: SwapStrategy, active: CipherId, op: Access, fpn: nat,
                                           first: nat, g: nat, end: nat, u: nat)
    requires WellFormed(m, fpn) && fpn > 0 && first < g <= end <= Arith.Mul(|m.cipher|, fpn)
    requires Arith.Mul(u, fpn) < g && end <= Arith.Mul(u, fpn) + fpn
    ensures AccessFrom(m, s, active, op, fpn, first, g, end).cipher == m.cipher
    ensures AccessFrom(m, s, active, op, fpn, first, g, end).keycount == m.keycount
    decreases end - g
  {
    if g < end {
      Arith.QuotInBlock(g, fpn, u);
      StepWithoutVisit(m, s, active, op, fpn, first, g);
      InsideOneNugget(Step(m, s, active, op, fpn, first, g), s, active, op, fpn, first, g + 1, end, u);
    }
  }

  /** A request's flakes g, ..., end - 1 inside nugget u, starting where the swap
      decision for u is due, leave the ciphers and keycounts that decision gives. */
  lemma NuggetIsVisit(m: Meta, distance: nat, active: CipherId, op: Access, fpn: nat,
                      first: nat, g: nat, end: nat, u: nat)
    requires WellFormed(m, fpn) && fpn > 0 && first <= g < end <= Arith.Mul(|m.cipher|, fpn)
    requires Arith.Mul(u, fpn) <= g && end <= Arith.Mul(u, fpn) + fpn
    requires g == first || g == Arith.Mul(u, fpn)
    ensures u < |m.cipher|
    ensures AccessFrom(m, Forward(distance), active, op, fpn, first, g, end).cipher == Visit(m, u, op, active, distance).cipher
    ensures AccessFrom(m, Forward(distance), active, op, fpn, first, g, end).keycount == Visit(m, u, op, active, distance).keycount
  {
    var s := Forward(distance);
    Arith.QuotInBlock(g, fpn, u);
    StepVisit(m, s, active, op, fpn, first, g);
    InsideOneNugget(Step(m, s, active, op, fpn, first, g), s, active, op, fpn, first, g + 1, end, u);
  }

  /** A request inside nugget u leaves the ciphers and keycounts the swap decision for u gives. */
  lemma OneNuggetIsVisit(m: Meta, distance: nat, active: CipherId, op: Access, fpn: nat, first: nat, end: nat, u: nat)
    requires WellFormed(m, fpn) && fpn > 0 && first < end <= Arith.Mul(|m.cipher|, fpn)
    requires Arith.Mul(u, fpn) <= first && end <= Arith.Mul(u, fpn) + fpn
    ensures u < |m.cipher|
    ensures Request(m, Forward(distance), active, op, fpn, first, end).cipher == Visit(m, u, op, active, distance).cipher
    ensures Request(m, Forward(distance), active, op, fpn, first, end).keycount == Visit(m, u, op, active, distance).keycount
  {
    NuggetIsVisit(m, distance, active, op, fpn, first, first, end, u);
  }

  /** The swap decision for a nugget already on the active cipher changes nothing. */
  lemma VisitOnActive(m: Meta, u: nat, op: Access, active: CipherId, distance: nat)
    requires u < |m.cipher| && |m.keycount| == |m.cipher| && |m.journal| == |m.cipher|
    requires m.cipher[u] == active
    ensures Visit(m, u, op, active, distance).cipher == m.cipher
    ensures Visit(m, u, op, active, distance).keycount == m.keycount
  {
    assert m.cipher[u := m.cipher[u]] == m.cipher;
    assert m.keycount[u := m.keycount[u]] == m.keycount;
  }

  /** The forward rules for a write inside nugget u that is not on the active cipher:
      u is rekeyed onto the active cipher even if pristine; pristine nuggets of the
      window up to u + distance (never past the last nugget) are relabelled without a
      keycount change; written ones keep cipher and keycount; nothing else changes. */
  lemma ForwardWriteRules(m: Meta, distance: nat, active: CipherId, fpn: nat, first: nat, end: nat, u: nat)
    requires WellFormed(m, fpn) && fpn > 0 && first < end <= Arith.Mul(|m.cipher|, fpn)
    requires Arith.Mul(u, fpn) <= first && end <= Arith.Mul(u, fpn) + fpn && u < |m.cipher|
    requires m.cipher[u] != active
    ensures var r := Request(m, Forward(distance), active, WriteAccess, fpn, first, end);
      r.cipher[u] == active && r.keycount[u] == m.keycount[u] + 1
      && (forall v :: u < v <= u + distance && v < |m.cipher| && Pristine(m.journal[v]) ==>
            r.cipher[v] == active && r.keycount[v] == m.keycount[v])
      && (forall v :: u < v <= u + distance && v < |m.cipher| && !Pristine(m.journal[v]) ==>
            r.cipher[v] == m.cipher[v] && r.keycount[v] == m.keycount[v])
      && (forall v :: 0 <= v < |m.cipher| && (v < u || u + distance < v) ==>
            r.cipher[v] == m.cipher[v] && r.keycount[v] == m.keycount[v])
  {
    OneNuggetIsVisit(m, distance, active, WriteAccess, fpn, first, end, u);
    VisitEffect(m, u, WriteAccess, active, distance);
  }

  /** The forward rules for a read inside nugget u that is not on the active cipher:
      u is relabelled if pristine and rekeyed otherwise, and so is every nugget of
      the window up to u + distance (never past the last nugget); nothing else changes. */
  lemma ForwardReadRules(m: Meta, distance: nat, active: CipherId, fpn: nat, first: nat, end: nat, u: nat)
    requires WellFormed(m, fpn) && fpn > 0 && first < end <= Arith.Mul(|m.cipher|, fpn)
    requires Arith.Mul(u, fpn) <= first && end <= Arith.Mul(u, fpn) + fpn && u < |m.cipher|
    requires m.cipher[u] != active
    ensures var r := Request(m, Forward(distance), active, ReadAccess, fpn, first, end);
      (forall v :: u <= v <= u + distance && v < |m.cipher| && m.cipher[v] != active && Pristine(m.journal[v]) ==>
            r.cipher[v] == active && r.keycount[v] == m.keycount[v])
      && (forall v :: u <= v <= u + distance && v < |m.cipher| && m.cipher[v] != active && !Pristine(m.journal[v]) ==>
            r.cipher[v] == active && r.keycount[v] == m.keycount[v] + 1)
      && (forall v :: 0 <= v < |m.cipher| && (v < u || u + distance < v || m.cipher[v] == active) ==>
            r.cipher[v] == m.cipher[v] && r.keycount[v] == m.keycount[v])
  {
    OneNuggetIsVisit(m, distance, active, ReadAccess, fpn, first, end, u);
    VisitEffect(m, u, ReadAccess, active, distance);
  }

  /** A request inside a nugget already on the active cipher changes no cipher and no
      keycount anywhere, even when nuggets after it are on the other cipher. */
  lemma TouchedOnActiveKeepsAll(m: Meta, distance: nat, active: CipherId, op: Access, fpn: nat, first: nat, end: nat, u: nat)
    requires WellFormed(m, fpn) && fpn > 0 && first < end <= Arith.Mul(|m.cipher|, fpn)
    requires Arith.Mul(u, fpn) <= first && end <= Arith.Mul(u, fpn) + fpn && u < |m.cipher|
    requires m.cipher[u] == active
    ensures Request(m, Forward(distance), active, op, fpn, first, end).cipher == m.cipher
    ensures Request(m, Forward(distance), active, op, fpn, first, end).keycount == m.keycount
  {
    OneNuggetIsVisit(m, distance, active, op, fpn, first, end, u);
    VisitOnActive(m, u, op, active, distance);
  }

  // ---------------------------------------------------------------------------
  // Scenarios of the forward strategy

  /** The per-nugget state of a freshly created device: every nugget on the primary
      cipher at keycount 0 with no flake written. */
  function Fresh(numNuggets: nat, fpn: nat, primary: CipherId): (m: Meta)
    ensures WellFormed(m, fpn) && |m.cipher| == numNuggets
    ensures forall v :: 0 <= v < numNuggets ==> m.cipher[v] == primary && m.keycount[v] == 0 && Pristine(m.journal[v])
  {
    Meta(seq(numNuggets, _ => primary), seq(numNuggets, _ => 0), seq(numNuggets, _ => seq(fpn, _ => false)))
  }

  lemma NuggetsFit(u: nat, k: nat, h: nat, fpn: nat, numNuggets: nat)
    requires u + k < numNuggets && h <= fpn
    ensures Arith.Mul(u, fpn) <= Arith.Mul(u + k, fpn) + h <= Arith.Mul(numNuggets, fpn)
  {
    Arith.MulLe(u, u + k, fpn);
    Arith.MulLe(u + k + 1, numNuggets, fpn);
    assert Arith.Mul(u + k + 1, fpn) == Arith.Mul(u + k, fpn) + fpn;
  }

  /** A request covering nuggets u, ..., u + k - 1 and the first h flakes of nugget u + k. */
  function NuggetRequest(m: Meta, s: SwapStrategy, active: CipherId, op: Access, fpn: nat, u: nat, k: nat, h: nat): (r: Meta)
    requires WellFormed(m, fpn) && fpn > 0 && u + k < |m.cipher| && h <= fpn
    ensures WellFormed(r, fpn) && |r.cipher| == |m.cipher|
  {
    NuggetsFit(u, k, h, fpn, |m.cipher|);
    Request(m, s, active, op, fpn, Arith.Mul(u, fpn), Arith.Mul(u + k, fpn) + h)
  }

  /** A write sets a journal bit of every nugget it covers. */
  lemma WrittenNotPristine(m: Meta, s: SwapStrategy, active: CipherId, fpn: nat, first: nat, end: nat, v: nat)
    requires WellFormed(m, fpn) && fpn > 0 && first <= end <= Arith.Mul(|m.cipher|, fpn)
    requires v < |m.cipher| && Covers(fpn, first, end, v)
    ensures !Pristine(Request(m, s, active, WriteAccess, fpn, first, end).journal[v])
  {
    AccessJournal(m, s, active, WriteAccess, fpn, first, first, end);
    var f := if first <= Arith.Mul(v, fpn) then 0 else first - Arith.Mul(v, fpn);
    assert Request(m, s, active, WriteAccess, fpn, first, end).journal[v][f];
  }

  /** A request leaves the journal of every nugget it does not cover as it was. */
  lemma JournalOutsideRequest(m: Meta, s: SwapStrategy, active: CipherId, op: Access, fpn: nat, first: nat, end: nat, v: nat)
    requires WellFormed(m, fpn) && fpn > 0 && first <= end <= Arith.Mul(|m.cipher|, fpn)
    requires v < |m.cipher| && !Covers(fpn, first, end, v)
    ensures Request(m, s, active, op, fpn, first, end).journal[v] == m.journal[v]
  {
    AccessJournal(m, s, active, op, fpn, first, first, end);
    var r := Request(m, s, active, op, fpn, first, end);
    assert forall f :: 0 <= f < fpn ==> r.journal[v][f] == m.journal[v][f];
  }

  /** Writes under swap_2_forward to the first h flakes of the last three nuggets
      a, b, c of a fresh device: the first write, with no swap requested, changes no
      cipher; after a swap, writing a rekeys a onto the swap cipher, leaves the
      written b alone and relabels the pristine c; after swapping back, writing a
      again rekeys it to keycount 2 and relabels c back. */
  lemma FollowsRulesWhenWriting(n: nat, fpn: nat, h: nat, primary: CipherId, swap: CipherId,
                                m1: Meta, m2: Meta, m3: Meta)
    requires n >= 3 && fpn > 0 && 0 < h <= fpn && primary != swap
    requires m1 == NuggetRequest(Fresh(n, fpn, primary), Forward(2), primary, WriteAccess, fpn, n - 2, 0, h)
    requires m2 == NuggetRequest(m1, Forward(2), swap, WriteAccess, fpn, n - 3, 0, h)
    requires m3 == NuggetRequest(m2, Forward(2), primary, WriteAccess, fpn, n - 3, 0, h)
    ensures m1.cipher[n - 3] == primary && m1.cipher[n - 2] == primary && m1.cipher[n - 1] == primary
    ensures m1.keycount[n - 3] == 0 && m1.keycount[n - 2] == 0 && m1.keycount[n - 1] == 0
    ensures m2.cipher[n - 3] == swap && m2.cipher[n - 2] == primary && m2.cipher[n - 1] == swap
    ensures m2.keycount[n - 3] == 1 && m2.keycount[n - 2] == 0 && m2.keycount[n - 1] == 0
    ensures m3.cipher[n - 3] == primary && m3.cipher[n - 2] == primary && m3.cipher[n - 1] == primary
    ensures m3.keycount[n - 3] == 2 && m3.keycount[n - 2] == 0 && m3.keycount[n - 1] == 0
  {
    WriteScenarioFirst(n, fpn, h, primary, m1);
    WriteScenarioSecond(n, fpn, h, primary, swap, m1, m2);
    var a := n - 3;
    NuggetsFit(a, 0, h, fpn, n);
    ForwardWriteRules(m2, 2, primary, fpn, Arith.Mul(a, fpn), Arith.Mul(a, fpn) + h, a);
  }

  /** The first write of the scenario above, to nugget n - 2 with no swap
      requested: no cipher or keycount changes, and of the last two nuggets only
      the written one has a journal bit set. */
  lemma WriteScenarioFirst(n: nat, fpn: nat, h: nat, primary: CipherId, m1: Meta)
    requires n >= 3 && fpn > 0 && 0 < h <= fpn
    requires m1 == NuggetRequest(Fresh(n, fpn, primary), Forward(2), primary, WriteAccess, fpn, n - 2, 0, h)
    ensures WellFormed(m1, fpn) && |m1.cipher| == n
    ensures forall v :: 0 <= v < n ==> m1.cipher[v] == primary && m1.keycount[v] == 0
    ensures !Pristine(m1.journal[n - 2]) && Pristine(m1.journal[n - 1])
  {
    var m0 := Fresh(n, fpn, primary);
    var b, c := n - 2, n - 1;
    NuggetsFit(b, 0, h, fpn, n);
    assert Arith.Mul(b, fpn) + fpn == Arith.Mul(c, fpn);
    NoSwapNoChange(m0, Forward(2), primary, WriteAccess, fpn, Arith.Mul(b, fpn), Arith.Mul(b, fpn) + h);
    WrittenNotPristine(m0, Forward(2), primary, fpn, Arith.Mul(b, fpn), Arith.Mul(b, fpn) + h, b);
    JournalOutsideRequest(m0, Forward(2), primary, WriteAccess, fpn, Arith.Mul(b, fpn), Arith.Mul(b, fpn) + h, c);
  }

  /** The second write of the scenario above, to nugget n - 3 after a swap: it
      rekeys n - 3, leaves the written n - 2 alone, relabels the pristine n - 1,
      and sets no journal bit outside n - 3. */
  lemma WriteScenarioSecond(n: nat, fpn: nat, h: nat, primary: CipherId, swap: CipherId, m1: Meta, m2: Meta)
    requires n >= 3 && fpn > 0 && 0 < h <= fpn && primary != swap
    requires WellFormed(m1, fpn) && |m1.cipher| == n
    requires forall v :: 0 <= v < n ==> m1.cipher[v] == primary && m1.keycount[v] == 0
    requires !Pristine(m1.journal[n - 2]) && Pristine(m1.journal[n - 1])
    requires m2 == NuggetRequest(m1, Forward(2), swap, WriteAccess, fpn, n - 3, 0, h)
    ensures m2.cipher[n - 3] == swap && m2.cipher[n - 2] == primary && m2.cipher[n - 1] == swap
    ensures m2.keycount[n - 3] == 1 && m2.keycount[n - 2] == 0 && m2.keycount[n - 1] == 0
    ensures !Pristine(m2.journal[n - 2]) && Pristine(m2.journal[n - 1])
  {
    var a, b, c := n - 3, n - 2, n - 1;
    NuggetsFit(a, 0, h, fpn, n);
    NuggetsFit(b, 0, 0, fpn, n);
    assert Arith.Mul(a, fpn) + fpn == Arith.Mul(b, fpn) && Arith.Mul(b, fpn) + fpn == Arith.Mul(c, fpn);
    ForwardWriteRules(m1, 2, swap, fpn, Arith.Mul(a, fpn), Arith.Mul(a, fpn) + h, a);
    JournalOutsideRequest(m1, Forward(2), swap, WriteAccess, fpn, Arith.Mul(a, fpn), Arith.Mul(a, fpn) + h, b);
    JournalOutsideRequest(m1, Forward(2), swap, WriteAccess, fpn, Arith.Mul(a, fpn), Arith.Mul(a, fpn) + h, c);
  }

  /** The two full-nugget writes of the read scenario, with no swap requested. */
  lemma ReadScenarioWrites(n: nat, fpn: nat, primary: CipherId, m1: Meta, m2: Meta)
    requires n >= 4 && fpn > 0
    requires m1 == NuggetRequest(Fresh(n, fpn, primary), Forward(2), primary, WriteAccess, fpn, n - 3, 0, fpn)
    requires m2 == NuggetRequest(m1, Forward(2), primary, WriteAccess, fpn, n - 1, 0, fpn)
    ensures |m2.cipher| == n && WellFormed(m2, fpn)
    ensures forall v :: 0 <= v < n ==> m2.cipher[v] == primary && m2.keycount[v] == 0
    ensures !Pristine(m2.journal[n - 3]) && Pristine(m2.journal[n - 2]) && !Pristine(m2.journal[n - 1])
  {
    var m0 := Fresh(n, fpn, primary);
    var a, b, c := n - 3, n - 2, n - 1;
    NuggetsFit(a, 0, fpn, fpn, n);
    NuggetsFit(c, 0, fpn, fpn, n);
    assert Arith.Mul(a, fpn) + fpn == Arith.Mul(b, fpn) && Arith.Mul(b, fpn) + fpn == Arith.Mul(c, fpn);
    NoSwapNoChange(m0, Forward(2), primary, WriteAccess, fpn, Arith.Mul(a, fpn), Arith.Mul(a, fpn) + fpn);
    NoSwapNoChange(m1, Forward(2), primary, WriteAccess, fpn, Arith.Mul(c, fpn), Arith.Mul(c, fpn) + fpn);
    WrittenNotPristine(m0, Forward(2), primary, fpn, Arith.Mul(a, fpn), Arith.Mul(a, fpn) + fpn, a);
    JournalOutsideRequest(m0, Forward(2), primary, WriteAccess, fpn, Arith.Mul(a, fpn), Arith.Mul(a, fpn) + fpn, b);
    JournalOutsideRequest(m1, Forward(2), primary, WriteAccess, fpn, Arith.Mul(c, fpn), Arith.Mul(c, fpn) + fpn, a);
    JournalOutsideRequest(m1, Forward(2), primary, WriteAccess, fpn, Arith.Mul(c, fpn), Arith.Mul(c, fpn) + fpn, b);
    WrittenNotPristine(m1, Forward(2), primary, fpn, Arith.Mul(c, fpn), Arith.Mul(c, fpn) + fpn, c);
  }

  /** The read of the whole of nugget a = n - 3 after a swap in the read scenario. */
  lemma ReadScenarioFirstRead(n: nat, fpn: nat, primary: CipherId, swap: CipherId, m2: Meta, m3: Meta)
    requires n >= 4 && fpn > 0 && primary != swap
    requires |m2.cipher| == n && WellFormed(m2, fpn)
    requires forall v :: 0 <= v < n ==> m2.cipher[v] == primary && m2.keycount[v] == 0
    requires m3 == NuggetRequest(m2, Forward(2), swap, ReadAccess, fpn, n - 3, 0, fpn)
    requires !Pristine(m2.journal[n - 3]) && Pristine(m2.journal[n - 2]) && !Pristine(m2.journal[n - 1])
    ensures m3.cipher[n - 4] == primary && m3.cipher[n - 3] == swap && m3.cipher[n - 2] == swap && m3.cipher[n - 1] == swap
    ensures m3.keycount[n - 4] == 0 && m3.keycount[n - 3] == 1 && m3.keycount[n - 2] == 0 && m3.keycount[n - 1] == 1
    ensures m3.journal == m2.journal
  {
    var a := n - 3;
    NuggetsFit(a, 0, fpn, fpn, n);
    ForwardReadRules(m2, 2, swap, fpn, Arith.Mul(a, fpn), Arith.Mul(a, fpn) + fpn, a);
    ReadKeepsJournal(m2, Forward(2), swap, fpn, Arith.Mul(a, fpn), Arith.Mul(a, fpn), Arith.Mul(a, fpn) + fpn);
  }

  /** The read of nugget w = n - 4 and the first h flakes of a = n - 3 after swapping
      back in the read scenario. */
  lemma ReadScenarioSecondRead(n: nat, fpn: nat, h: nat, primary: CipherId, swap: CipherId, m3: Meta, m4: Meta)
    requires n >= 4 && fpn > 0 && 0 < h <= fpn && primary != swap
    requires |m3.cipher| == n && WellFormed(m3, fpn)
    requires m3.cipher[n - 4] == primary && m3.cipher[n - 3] == swap && m3.cipher[n - 2] == swap && m3.cipher[n - 1] == swap
    requires m3.keycount[n - 4] == 0 && m3.keycount[n - 3] == 1 && m3.keycount[n - 2] == 0 && m3.keycount[n - 1] == 1
    requires !Pristine(m3.journal[n - 3]) && Pristine(m3.journal[n - 2]) && !Pristine(m3.journal[n - 1])
    requires m4 == NuggetRequest(m3, Forward(2), primary, ReadAccess, fpn, n - 4, 1, h)
    ensures forall v :: n - 4 <= v < n ==> m4.cipher[v] == primary
    ensures m4.keycount[n - 4] == 0 && m4.keycount[n - 3] == 2 && m4.keycount[n - 2] == 0 && m4.keycount[n - 1] == 2
  {
    var w, a := n - 4, n - 3;
    NuggetsFit(w, 1, h, fpn, n);
    assert Arith.Mul(w, fpn) + fpn == Arith.Mul(a, fpn);
    var mA := AccessFrom(m3, Forward(2), primary, ReadAccess, fpn, Arith.Mul(w, fpn), Arith.Mul(w, fpn), Arith.Mul(a, fpn));
    AccessSplit(m3, Forward(2), primary, ReadAccess, fpn, Arith.Mul(w, fpn), Arith.Mul(w, fpn), Arith.Mul(a, fpn), Arith.Mul(a, fpn) + h);
    NuggetIsVisit(m3, 2, primary, ReadAccess, fpn, Arith.Mul(w, fpn), Arith.Mul(w, fpn), Arith.Mul(a, fpn), w);
    VisitOnActive(m3, w, ReadAccess, primary, 2);
    ReadKeepsJournal(m3, Forward(2), primary, fpn, Arith.Mul(w, fpn), Arith.Mul(w, fpn), Arith.Mul(a, fpn));
    NuggetIsVisit(mA, 2, primary, ReadAccess, fpn, Arith.Mul(w, fpn), Arith.Mul(a, fpn), Arith.Mul(a, fpn) + h, a);
    VisitEffect(mA, a, ReadAccess, primary, 2);
  }

  /** Reads under swap_2_forward over the last four nuggets w, a, b, c of a fresh
      device after a and c were written in full: after a swap, reading a rekeys a
      and c onto the swap cipher and relabels the pristine b; after swapping back,
      a read of w and the first h flakes of a leaves w alone (it is already on the
      active cipher) and walks from a: a and c are rekeyed to keycount 2, b is
      relabelled. */
  lemma FollowsRulesWhenReading(n: nat, fpn: nat, h: nat, primary: CipherId, swap: CipherId,
                                m1: Meta, m2: Meta, m3: Meta, m4: Meta)
    requires n >= 4 && fpn > 0 && 0 < h <= fpn && primary != swap
    requires m1 == NuggetRequest(Fresh(n, fpn, primary), Forward(2), primary, WriteAccess, fpn, n - 3, 0, fpn)
    requires m2 == NuggetRequest(m1, Forward(2), primary, WriteAccess, fpn, n - 1, 0, fpn)
    requires m3 == NuggetRequest(m2, Forward(2), swap, ReadAccess, fpn, n - 3, 0, fpn)
    requires m4 == NuggetRequest(m3, Forward(2), primary, ReadAccess, fpn, n - 4, 1, h)
    ensures forall v :: n - 4 <= v < n ==> m2.cipher[v] == primary && m2.keycount[v] == 0
    ensures m3.cipher[n - 4] == primary && m3.cipher[n - 3] == swap && m3.cipher[n - 2] == swap && m3.cipher[n - 1] == swap
    ensures m3.keycount[n - 4] == 0 && m3.keycount[n - 3] == 1 && m3.keycount[n - 2] == 0 && m3.keycount[n - 1] == 1
    ensures forall v :: n - 4 <= v < n ==> m4.cipher[v] == primary
    ensures m4.keycount[n - 4] == 0 && m4.keycount[n - 3] == 2 && m4.keycount[n - 2] == 0 && m4.keycount[n - 1] == 2
  {
    ReadScenarioWrites(n, fpn, primary, m1, m2);
    ReadScenarioFirstRead(n, fpn, primary, swap, m2, m3);
    ReadScenarioSecondRead(n, fpn, h, primary, swap, m3, m4);
  }

  /** swap_2_forward: a write to the start of nugget 0 just after a swap moves nugget 0
      and the two pristine nuggets after it to the swap cipher, and no further. */
  lemma WindowOfTwo(n: nat, fpn: nat, h: nat, primary: CipherId, swap: CipherId, m1: Meta)
    requires n >= 4 && fpn > 0 && 0 < h <= fpn && primary != swap
    requires m1 == NuggetRequest(Fresh(n, fpn, primary), Forward(2), swap, WriteAccess, fpn, 0, 0, h)
    ensures m1.cipher[0] == swap && m1.cipher[1] == swap && m1.cipher[2] == swap && m1.cipher[3] == primary
  {
    ForwardWriteRules(Fresh(n, fpn, primary), 2, swap, fpn, 0, h, 0);
  }

  /** swap_2_forward: a write inside the last nugget just after a swap moves only
      that nugget; the walk does not go past the end of the device. */
  lemma DoesNotWalkOffTheEnd(n: nat, fpn: nat, first: nat, end: nat, primary: CipherId, swap: CipherId)
    requires n >= 1 && fpn > 0 && primary != swap
    requires Arith.Mul(n - 1, fpn) <= first < end <= Arith.Mul(n, fpn)
    ensures var r := Request(Fresh(n, fpn, primary), Forward(2), swap, WriteAccess, fpn, first, end);
      r.cipher[n - 1] == swap && forall v :: 0 <= v < n - 1 ==> r.cipher[v] == primary
  {
    assert Arith.Mul(n - 1, fpn) + fpn == Arith.Mul(n, fpn);
    ForwardWriteRules(Fresh(n, fpn, primary), 2, swap, fpn, first, end, n - 1);
  }
}
