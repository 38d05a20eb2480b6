/**
 * Arcs and transitions. An arc joins one place and one transition; its kind
 * decides when it is active and what firing it does to its place. A
 * transition holds the set of arcs entering it and the set of arcs leaving it,
 * is enabled when every entering arc is active, and fires by firing every
 * entering arc and then every leaving arc.
 *
 * The source's arc sets are hash sets whose elements compare structurally
 * (same concrete class, same endpoints; weight and id ignored). They are
 * modelled as maps from that structural key to the arc the set holds, so a
 * set never holds two structurally equal arcs, adding an equal arc again
 * keeps the one already there, and removing removes whichever equal arc is
 * present.
 */
module Arcs {
  import opened Results
  import opened Ids
  import opened Places
  import opened Firing

  /** The ArcExceptions messages of the arc constructors. */
  datatype ArcError =
    | PlaceIsNull           // "Place is null"
    | TransitionIsNull      // "Transition is null"
    | WeightMustBePositive  // "Weight must be positive"
    | ZeroWeightNotZeroArc  // "Weight must be strictly positive unless it's a ZeroArc"

  /**
   * What arc equality compares: the concrete class, the place (by its id,
   * since places compare by id) and the transition (by reference, since
   * transitions have no `equals`).
   */
  datatype ArcKey = ArcKey(kind: Kind, placeId: nat, transition: Transition)

  class Arc {
    /** Drawn from the shared arc counter at construction; never changes. */
    const id: nat
    const kind: Kind
    /** The source of an input-side arc, the destination of an output arc. */
    const place: Place
    /** The destination of an input-side arc, the source of an output arc. */
    const transition: Transition
    /** Unvalidated after construction: `setWeight` stores any int. */
    var weight: int

    /** The field assignments of a constructor whose checks have passed. */
    constructor (id: nat, kind: Kind, place: Place, transition: Transition, weight: int)
      ensures this.id == id && this.kind == kind && this.place == place
      ensures this.transition == transition && this.weight == weight
    {
      this.id := id;
      this.kind := kind;
      this.place := place;
      this.transition := transition;
      this.weight := weight;
    }

    /** The structural identity used by `equals` and `hashCode`. */
    function Key(): ArcKey
    {
      ArcKey(kind, place.id, transition)
    }

    /** `equals`: same concrete class and same endpoints. */
    predicate SameArc(other: Arc)
    {
      Key() == other.Key()
    }

    /** `isActive`, as the arc's kind defines it, over the current count of its place. */
    predicate IsActive()
      reads this, place
    {
      Active(kind, weight, place.tokens)
    }

    /** `setWeight`: stores the weight as given, without any check. */
    method SetWeight(w: int)
      modifies this
      ensures weight == w
    {
      weight := w;
    }

    /** `fire`: changes only this arc's place, as the arc's kind defines, or fails and changes nothing. */
    method Fire() returns (r: Outcome<PlaceError>)
      modifies place
      ensures Fired(kind, weight, old(place.tokens)).Ok? ==>
        r.Done? && place.tokens == Fired(kind, weight, old(place.tokens)).value
      ensures Fired(kind, weight, old(place.tokens)).Err? ==>
        r == Fail(Fired(kind, weight, old(place.tokens)).error) && place.tokens == old(place.tokens)
    {
      match kind
      case Input =>
        if IsActive() {
          r := place.RemoveTokens(weight);
        } else {
          r := Done;
        }
      case Output =>
        r := place.AddTokens(weight);
      case Zero =>
        r := Done;
      case Reset =>
        r := place.RemoveTokens(place.tokens);
    }
  }

  /** Structural arc equality ignores ids and weights, and arcs of different kinds are never equal. */
  lemma SameArcMeans(a: Arc, b: Arc)
    ensures a.SameArc(b) <==> a.kind == b.kind && a.place.SamePlace(b.place) && a.transition == b.transition
    ensures a == b ==> a.SameArc(b)
    ensures a.kind != b.kind ==> !a.SameArc(b)
  {
  }

  /**
   * The checks of the InputArc constructor, in their order: the place, then
   * the transition, then a negative weight, then a zero weight on anything
   * but a zero arc. ZeroArc and ResetArc construct through these checks.
   */
  function InputArcCheck(place: Place?, t: Transition?, weight: int, isZeroArc: bool): (e: Option<ArcError>)
    ensures e.None? <==> place != null && t != null && (weight > 0 || (weight == 0 && isZeroArc))
    ensures place == null ==> e == Some(PlaceIsNull)
    ensures place != null && t == null ==> e == Some(TransitionIsNull)
    ensures place != null && t != null && weight < 0 ==> e == Some(WeightMustBePositive)
    ensures place != null && t != null && weight == 0 && !isZeroArc ==> e == Some(ZeroWeightNotZeroArc)
  {
    if place == null then Some(PlaceIsNull)
    else if t == null then Some(TransitionIsNull)
    else if weight < 0 then Some(WeightMustBePositive)
    else if weight == 0 && !isZeroArc then Some(ZeroWeightNotZeroArc)
    else None
  }

  /** The checks of the OutputArc constructor, in their order: the transition, then the place, then the weight. */
  function OutputArcCheck(t: Transition?, place: Place?, weight: int): (e: Option<ArcError>)
    ensures e.None? <==> t != null && place != null && weight > 0
    ensures t == null ==> e == Some(TransitionIsNull)
    ensures t != null && place == null ==> e == Some(PlaceIsNull)
    ensures t != null && place != null && weight <= 0 ==> e == Some(WeightMustBePositive)
  {
    if t == null then Some(TransitionIsNull)
    else if place == null then Some(PlaceIsNull)
    else if weight <= 0 then Some(WeightMustBePositive)
    else None
  }

  /** The constructor checks that apply to an arc of the given kind. */
  function ArcCheck(kind: Kind, place: Place?, t: Transition?, weight: int): Option<ArcError>
  {
    if kind == Output then OutputArcCheck(t, place, weight)
    else InputArcCheck(place, t, weight, kind == Zero)
  }

  /**
   * The zero arc's fixed weight 0 and the reset arc's fixed weight
   * `Integer.MAX_VALUE` always pass the weight checks, while 0 is refused for
   * a plain input arc and any weight up to 0 for an output arc.
   */
  lemma FixedWeightsPass(place: Place, t: Transition, w: int)
    ensures ArcCheck(Zero, place, t, 0).None?
    ensures ArcCheck(Reset, place, t, IntMax).None?
    ensures ArcCheck(Input, place, t, 0) == Some(ZeroWeightNotZeroArc)
    ensures w <= 0 ==> ArcCheck(Output, place, t, w) == Some(WeightMustBePositive)
  {
  }

  /**
   * `new InputArc(place, t, weight)` for `kind` Input, `new OutputArc(t,
   * place, weight)` for `kind` Output: the arc id is drawn first, so it is
   * used up even when a check then fails; a valid arc keeps its endpoints and
   * weight as given.
   */
  method NewArc(kind: Kind, place: Place?, t: Transition?, weight: int, ids: IdCounter) returns (r: Result<Arc, ArcError>)
    modifies ids
    ensures ids.next == old(ids.next) + 1
    ensures r.Err? <==> ArcCheck(kind, place, t, weight).Some?
    ensures r.Err? ==> r.error == ArcCheck(kind, place, t, weight).value
    ensures r.Ok? ==> fresh(r.value) && r.value.id == old(ids.next) && r.value.kind == kind
    ensures r.Ok? ==> r.value.place == place && r.value.transition == t && r.value.weight == weight
  {
    var id := ids.Take();
    var e := ArcCheck(kind, place, t, weight);
    if e.Some? {
      return Err(e.value);
    }
    var a := new Arc(id, kind, place, t, weight);
    r := Ok(a);
  }

  /** `new ZeroArc(place, t)`: the input-arc checks with weight 0, which only a zero arc passes. */
  method NewZeroArc(place: Place?, t: Transition?, ids: IdCounter) returns (r: Result<Arc, ArcError>)
    modifies ids
    ensures ids.next == old(ids.next) + 1
    ensures r.Err? <==> place == null || t == null
    ensures place == null ==> r == Err(PlaceIsNull)
    ensures place != null && t == null ==> r == Err(TransitionIsNull)
    ensures r.Ok? ==> fresh(r.value) && r.value.id == old(ids.next) && r.value.kind == Zero && r.value.weight == 0
    ensures r.Ok? ==> r.value.place == place && r.value.transition == t
  {
    r := NewArc(Zero, place, t, 0, ids);
  }

  /** `new ResetArc(place, t)`: the input-arc checks with weight `Integer.MAX_VALUE`. */
  method NewResetArc(place: Place?, t: Transition?, ids: IdCounter) returns (r: Result<Arc, ArcError>)
    modifies ids
    ensures ids.next == old(ids.next) + 1
    ensures r.Err? <==> place == null || t == null
    ensures place == null ==> r == Err(PlaceIsNull)
    ensures place != null && t == null ==> r == Err(TransitionIsNull)
    ensures r.Ok? ==> fresh(r.value) && r.value.id == old(ids.next) && r.value.kind == Reset && r.value.weight == IntMax
    ensures r.Ok? ==> r.value.place == place && r.value.transition == t
  {
    r := NewArc(Reset, place, t, IntMax, ids);
  }

  /**
   * Arcs of different kinds drawn from one counter, with any construction in
   * between, get strictly increasing ids: the counter is shared by all kinds.
   */
  method NewArcsDiffer(place: Place?, t: Transition?, kind: Kind, weight: int, ids: IdCounter)
    returns (r1: Result<Arc, ArcError>, r2: Result<Arc, ArcError>)
    modifies ids
    ensures ids.next == old(ids.next) + 3
    ensures r1.Ok? && r2.Ok? ==> r1.value.id + 1 < r2.value.id && r1.value != r2.value
  {
    r1 := NewZeroArc(place, t, ids);
    var between := NewArc(kind, place, t, weight, ids);
    r2 := NewResetArc(place, t, ids);
  }

  /** The weights of the arcs of an arc set, read at one moment. */
  ghost function WeightsOf(arcs: map<ArcKey, Arc>): (w: map<ArcKey, int>)
    reads set k | k in arcs :: arcs[k]
    ensures w.Keys == arcs.Keys
  {
    map k | k in arcs :: arcs[k].weight
  }

  /** Whether the reset arc of `t` on `p` is filed in `arcs` and no longer `pending`. */
  ghost predicate ResetAmong(arcs: map<ArcKey, Arc>, pending: set<ArcKey>, p: Place, t: Transition)
  {
    var k := ArcKey(Reset, p.id, t);
    k !in pending && k in arcs && arcs[k].place == p
  }

  /** The weight of the plain input arc of `t` on `p` filed in `arcs` and no longer `pending`, if any. */
  ghost function InputAmong(arcs: map<ArcKey, Arc>, weights: map<ArcKey, int>, pending: set<ArcKey>, p: Place, t: Transition): Option<int>
  {
    var k := ArcKey(Input, p.id, t);
    if k !in pending && k in arcs && k in weights && arcs[k].place == p then Some(weights[k]) else None
  }

  /** The weight of the output arc of `t` to `p` filed in `arcs` and no longer `pending`, or 0. */
  ghost function OutputAmong(arcs: map<ArcKey, Arc>, weights: map<ArcKey, int>, pending: set<ArcKey>, p: Place, t: Transition): int
  {
    var k := ArcKey(Output, p.id, t);
    if k !in pending && k in arcs && k in weights && arcs[k].place == p then weights[k] else 0
  }

  /**
   * The count a complete firing leaves in `p`, which held `before`, for arc
   * sets `ins` and `outs` whose weights were `wi` and `wo`: the closed form of
   * the input-side arcs on `p`, then the output arc's weight added.
   */
  ghost function FiredCountAmong(ins: map<ArcKey, Arc>, wi: map<ArcKey, int>, outs: map<ArcKey, Arc>, wo: map<ArcKey, int>,
                                 p: Place, t: Transition, before: nat): int
  {
    match Consumed(ResetAmong(ins, {}, p, t), InputAmong(ins, wi, {}, p, t), before)
    case Ok(c) => c + OutputAmong(outs, wo, {}, p, t)
    case Err(_) => before
  }

  /** No plain input arc filed in `arcs` and no longer `pending` has a negative weight in `weights`. */
  ghost predicate NoNegativeInput(arcs: map<ArcKey, Arc>, weights: map<ArcKey, int>, pending: set<ArcKey>)
  {
    forall k {:trigger weights[k]} :: k in arcs && k in weights && k !in pending && k.kind == Input ==> weights[k] >= 0
  }

  /** No arc filed in `arcs` and no longer `pending` has a negative weight in `weights`. */
  ghost predicate NoNegativeOutput(arcs: map<ArcKey, Arc>, weights: map<ArcKey, int>, pending: set<ArcKey>)
  {
    forall k {:trigger weights[k]} :: k in arcs && k in weights && k !in pending ==> weights[k] >= 0
  }

  /** Taking one more pending input-side arc into account: only that arc's own place changes. */
  lemma InputAmongStep(arcs: map<ArcKey, Arc>, weights: map<ArcKey, int>, pending: set<ArcKey>, k: ArcKey, p: Place, t: Transition)
    requires k in arcs && k in weights && k in pending
    requires k.kind.FromPlace() && k.transition == t && k.placeId == arcs[k].place.id
    ensures ResetAmong(arcs, pending - {k}, p, t) == (ResetAmong(arcs, pending, p, t) || (p == arcs[k].place && k.kind == Reset))
    ensures InputAmong(arcs, weights, pending - {k}, p, t)
         == if p == arcs[k].place && k.kind == Input then Some(weights[k]) else InputAmong(arcs, weights, pending, p, t)
    ensures p == arcs[k].place && k.kind == Reset ==> !ResetAmong(arcs, pending, p, t)
    ensures p == arcs[k].place && k.kind == Input ==> InputAmong(arcs, weights, pending, p, t).None?
  {
  }

  /** `now` is what the input-side arcs filed in `arcs` and no longer `pending` leave in `p`, which held `before`. */
  ghost predicate ConsumedSoFar(arcs: map<ArcKey, Arc>, weights: map<ArcKey, int>, pending: set<ArcKey>, p: Place, t: Transition, before: nat, now: nat)
  {
    Consumed(ResetAmong(arcs, pending, p, t), InputAmong(arcs, weights, pending, p, t), before) == Ok(now)
  }

  /** Firing one more pending input-side arc keeps the closed form, for its own place and for every other. */
  lemma ConsumedSoFarStep(arcs: map<ArcKey, Arc>, weights: map<ArcKey, int>, pending: set<ArcKey>, k: ArcKey, p: Place, t: Transition, before: nat, now: nat)
    requires k in arcs && k in weights && k in pending
    requires k.kind.FromPlace() && k.transition == t && k.placeId == arcs[k].place.id
    requires ConsumedSoFar(arcs, weights, pending, p, t, before, now)
    ensures Fired(k.kind, weights[k], now).Err? ==> k.kind == Input && weights[k] < 0
    ensures p == arcs[k].place && Fired(k.kind, weights[k], now).Ok? ==>
      ConsumedSoFar(arcs, weights, pending - {k}, p, t, before, Fired(k.kind, weights[k], now).value)
    ensures p != arcs[k].place ==> ConsumedSoFar(arcs, weights, pending - {k}, p, t, before, now)
  {
    InputAmongStep(arcs, weights, pending, k, p, t);
    InputArcFiring(weights[k], now);
    if p == arcs[k].place {
      ConsumedStep(k.kind, weights[k], ResetAmong(arcs, pending, p, t), InputAmong(arcs, weights, pending, p, t), before);
    }
  }

  /** Consuming, then producing, gives the closed form of a complete firing. */
  lemma FiredCountOfSteps(ins: map<ArcKey, Arc>, wi: map<ArcKey, int>, outs: map<ArcKey, Arc>, wo: map<ArcKey, int>,
                          p: Place, t: Transition, before: nat, mid: nat, after: int)
    requires ConsumedSoFar(ins, wi, {}, p, t, before, mid)
    requires after == mid + OutputAmong(outs, wo, {}, p, t)
    ensures after == FiredCountAmong(ins, wi, outs, wo, p, t, before)
  {
  }

  /** Taking one more pending output arc into account adds its weight to its own place only. */
  lemma OutputAmongStep(arcs: map<ArcKey, Arc>, weights: map<ArcKey, int>, pending: set<ArcKey>, k: ArcKey, p: Place, t: Transition)
    requires k in arcs && k in weights && k in pending
    requires k.kind == Output && k.transition == t && k.placeId == arcs[k].place.id
    ensures OutputAmong(arcs, weights, pending - {k}, p, t)
         == OutputAmong(arcs, weights, pending, p, t) + (if p == arcs[k].place then weights[k] else 0)
  {
  }

  class Transition {
    /** Drawn from the transition counter; transitions still compare by reference. */
    const id: nat
    /** `inputArcs`: the arcs entering this transition, by structural key. */
    var inputArcs: map<ArcKey, Arc>
    /** `outputArcs`: the arcs leaving this transition, by structural key. */
    var outputArcs: map<ArcKey, Arc>

    /** Every arc is filed under its own structural key: the hash-set discipline. */
    ghost predicate Valid()
      reads this
    {
      && (forall k :: k in inputArcs ==> inputArcs[k].Key() == k)
      && (forall k :: k in outputArcs ==> outputArcs[k].Key() == k)
    }

    /** The input set holds input-side arcs into this transition, the output set output arcs out of it. */
    predicate WellFormed()
      reads this
    {
      && (forall k {:trigger k in inputArcs} :: k in inputArcs ==> k.kind.FromPlace() && k.transition == this)
      && (forall k {:trigger k in outputArcs} :: k in outputArcs ==> k.kind == Output && k.transition == this)
    }

    /** The arcs of both sets. */
    ghost function Arcs(): set<Arc>
      reads this
    {
      (set k | k in inputArcs :: inputArcs[k]) + (set k | k in outputArcs :: outputArcs[k])
    }

    /** The transitions the arcs of both sets name: all that removing those arcs from a network may change. */
    ghost function ArcTransitions(): set<Transition>
      reads this
    {
      (set k | k in inputArcs :: inputArcs[k].transition) + (set k | k in outputArcs :: outputArcs[k].transition)
    }

    /** The places the arcs of both sets touch: all that firing may change. */
    ghost function Places(): set<Place>
      reads this
    {
      (set k | k in inputArcs :: inputArcs[k].place) + (set k | k in outputArcs :: outputArcs[k].place)
    }

    /** `new Transition()`: a fresh id and two empty arc sets. */
    constructor (ids: IdCounter)
      modifies ids
      ensures id == old(ids.next) && ids.next == old(ids.next) + 1
      ensures inputArcs == map[] && outputArcs == map[]
      ensures Valid() && WellFormed()
    {
      var nextId := ids.Take();
      id := nextId;
      inputArcs := map[];
      outputArcs := map[];
    }

    /** `addInputArc`: adds the arc unless a structurally equal one is already there; the output set is untouched. */
    method AddInputArc(arc: Arc)
      modifies this
      ensures old(Valid()) ==> Valid()
      ensures inputArcs == if arc.Key() in old(inputArcs) then old(inputArcs) else old(inputArcs)[arc.Key() := arc]
      ensures outputArcs == old(outputArcs)
      ensures old(WellFormed()) && arc.kind.FromPlace() && arc.transition == this ==> WellFormed()
    {
      if arc.Key() !in inputArcs {
        inputArcs := inputArcs[arc.Key() := arc];
      }
    }

    /** `removeInputArc`: drops whichever structurally equal arc is present; nothing happens if there is none. */
    method RemoveInputArc(arc: Arc)
      modifies this
      ensures old(Valid()) ==> Valid()
      ensures inputArcs == old(inputArcs) - {arc.Key()}
      ensures outputArcs == old(outputArcs)
      ensures old(WellFormed()) ==> WellFormed()
    {
      inputArcs := inputArcs - {arc.Key()};
    }

    /** `addOutputArc`: adds the arc unless a structurally equal one is already there; the input set is untouched. */
    method AddOutputArc(arc: Arc)
      modifies this
      ensures old(Valid()) ==> Valid()
      ensures outputArcs == if arc.Key() in old(outputArcs) then old(outputArcs) else old(outputArcs)[arc.Key() := arc]
      ensures inputArcs == old(inputArcs)
      ensures old(WellFormed()) && arc.kind == Output && arc.transition == this ==> WellFormed()
    {
      if arc.Key() !in outputArcs {
        outputArcs := outputArcs[arc.Key() := arc];
      }
    }

    /** `removeOutputArc`: drops whichever structurally equal arc is present; nothing happens if there is none. */
    method RemoveOutputArc(arc: Arc)
      modifies this
      ensures old(Valid()) ==> Valid()
      ensures outputArcs == old(outputArcs) - {arc.Key()}
      ensures inputArcs == old(inputArcs)
      ensures old(WellFormed()) ==> WellFormed()
    {
      outputArcs := outputArcs - {arc.Key()};
    }

    /** Enabled: every arc of the input set is active (vacuously so when there is none). */
    ghost predicate Enabled()
      reads this, Arcs(), Places()
    {
      forall k :: k in inputArcs ==> inputArcs[k].IsActive()
    }

    /** `canFire`: looks at the input arcs one by one and answers false at the first inactive one. */
    method CanFire() returns (b: bool)
      ensures b <==> Enabled()
    {
      var todo := inputArcs.Keys;
      while todo != {}
        invariant todo <= inputArcs.Keys
        invariant forall k :: k in inputArcs && k !in todo ==> inputArcs[k].IsActive()
        decreases todo
      {
        var k :| k in todo;
        if !inputArcs[k].IsActive() {
          return false;
        }
        todo := todo - {k};
      }
      return true;
    }

    /**
     * The count a successful `fire` leaves in `p`, which held `before`: the
     * closed form of the input arcs on `p`, then the output arc's weight added.
     */
    ghost function FiredCount(p: Place, before: nat): int
      reads this, Arcs()
    {
      FiredCountAmong(inputArcs, WeightsOf(inputArcs), outputArcs, WeightsOf(outputArcs), p, this, before)
    }

    /** No plain input arc carries a negative weight. */
    ghost predicate InputWeightsOk()
      reads this, Arcs()
    {
      NoNegativeInput(inputArcs, WeightsOf(inputArcs), {})
    }

    /** No output arc carries a negative weight. */
    ghost predicate OutputWeightsOk()
      reads this, Arcs()
    {
      NoNegativeOutput(outputArcs, WeightsOf(outputArcs), {})
    }

    /**
     * `fire`: fires every input arc, in whatever order the set yields them,
     * then every output arc, without asking whether the transition is
     * enabled. The first arc whose `fire` raises stops it, leaving the arcs
     * fired so far in effect. Whatever the order, a complete firing leaves
     * every touched place with the same count.
     */
    method Fire() returns (r: Outcome<PlaceError>)
      requires Valid()
      modifies Places()
      ensures old(WellFormed()) ==> (r.Done? <==> old(InputWeightsOk() && OutputWeightsOk()))
      ensures old(WellFormed()) && r.Done? ==> forall p :: p in old(Places()) ==> p.tokens == old(FiredCount(p, p.tokens))
    {
      r := FireInputs();
      if r.Fail? {
        return;
      }
      label Consumed:
      r := FireOutputs();
      if old(WellFormed()) && r.Done? {
        forall p | p in old(Places()) ensures p.tokens == old(FiredCount(p, p.tokens)) {
          FiredCountOfSteps(inputArcs, old(WeightsOf(inputArcs)), outputArcs, old(WeightsOf(outputArcs)), p, this,
                            old(p.tokens), old@Consumed(p.tokens), p.tokens);
        }
      }
    }

    /** The first loop of `fire`: every input arc, one at a time. */
    method FireInputs() returns (r: Outcome<PlaceError>)
      requires Valid()
      modifies Places()
      ensures unchanged(Arcs())
      ensures old(WellFormed()) ==> (r.Done? <==> old(InputWeightsOk()))
      ensures old(WellFormed()) && r.Done? ==> forall p :: p in old(Places()) ==>
        ConsumedSoFar(inputArcs, old(WeightsOf(inputArcs)), {}, p, this, old(p.tokens), p.tokens)
    {
      ghost var ws := WeightsOf(inputArcs);
      ghost var t0 := map p | p in Places() :: p.tokens;
      r := FireInputArcs(inputArcs, ws, t0, WellFormed());
    }

    /**
     * The loop itself, over the input set, whose weights are `ws` and whose
     * places hold `t0`.
     */
    method FireInputArcs(ghost ins: map<ArcKey, Arc>, ghost ws: map<ArcKey, int>, ghost t0: map<Place, nat>, ghost wf: bool)
      returns (r: Outcome<PlaceError>)
      requires ins == inputArcs
      requires forall k :: k in ins ==> ins[k].Key() == k && ins[k].place in t0 && k in ws && ws[k] == ins[k].weight
      requires wf ==> forall k {:trigger k in ins} :: k in ins ==> k.kind.FromPlace() && k.transition == this
      requires forall p :: p in t0 ==> t0[p] == p.tokens
      modifies t0.Keys
      ensures wf ==> (r.Done? <==> NoNegativeInput(ins, ws, {}))
      ensures wf && r.Done? ==> forall p :: p in t0 ==> ConsumedSoFar(ins, ws, {}, p, this, t0[p], p.tokens)
    {
      r := Done;
      var arcs := inputArcs;
      var todo := arcs.Keys;
      while todo != {}
        invariant todo <= ins.Keys
        invariant r.Done?
        invariant wf ==> NoNegativeInput(ins, ws, todo)
        invariant wf ==> forall p :: p in t0 ==> ConsumedSoFar(ins, ws, todo, p, this, t0[p], p.tokens)
        decreases todo
      {
        var k :| k in todo;
        r := FireInputArc(arcs[k], k, ins, todo, ws, t0, wf);
        if r.Fail? {
          return;
        }
        todo := todo - {k};
      }
    }

    /**
     * One turn of the first loop of `fire`: `arc`, filed under `k` in `ins`,
     * whose weights are `ws` and whose places held `t0` when the loop began;
     * `pending` holds the keys not fired yet.
     */
    method FireInputArc(arc: Arc, k: ArcKey, ghost ins: map<ArcKey, Arc>, ghost pending: set<ArcKey>, ghost ws: map<ArcKey, int>,
                        ghost t0: map<Place, nat>, ghost wf: bool)
      returns (r: Outcome<PlaceError>)
      requires k in ins && ins[k] == arc && arc.Key() == k && k in pending
      requires k in ws && ws[k] == arc.weight && arc.place in t0
      requires wf ==> k.kind.FromPlace() && k.transition == this
      modifies arc.place
      ensures wf ==> (r.Fail? <==> k.kind == Input && ws[k] < 0)
      ensures wf && r.Done? && NoNegativeInput(ins, ws, pending) ==> NoNegativeInput(ins, ws, pending - {k})
      ensures wf && r.Done? ==> forall p :: p in t0 ==>
        ConsumedSoFar(ins, ws, pending, p, this, t0[p], old(p.tokens)) ==>
        ConsumedSoFar(ins, ws, pending - {k}, p, this, t0[p], p.tokens)
    {
      r := arc.Fire();
      if wf {
        InputArcFiring(ws[k], old(arc.place.tokens));
        forall p | p in t0 && ConsumedSoFar(ins, ws, pending, p, this, t0[p], old(p.tokens))
          ensures r.Done? ==> ConsumedSoFar(ins, ws, pending - {k}, p, this, t0[p], p.tokens)
        {
          ConsumedSoFarStep(ins, ws, pending, k, p, this, t0[p], old(p.tokens));
        }
      }
    }

    /** The second loop of `fire`: every output arc, one at a time. */
    method FireOutputs() returns (r: Outcome<PlaceError>)
      requires Valid()
      modifies Places()
      ensures old(WellFormed()) ==> (r.Done? <==> old(OutputWeightsOk()))
      ensures old(WellFormed()) && r.Done? ==> forall p :: p in old(Places()) ==>
        p.tokens == old(p.tokens + OutputAmong(outputArcs, WeightsOf(outputArcs), {}, p, this))
    {
      ghost var ws := WeightsOf(outputArcs);
      ghost var t0 := map p | p in Places() :: p.tokens;
      r := FireOutputArcs(outputArcs, ws, t0, WellFormed());
    }

    /**
     * The loop itself, over the output set, whose weights are `ws` and whose
     * places hold `t0`.
     */
    method FireOutputArcs(ghost outs: map<ArcKey, Arc>, ghost ws: map<ArcKey, int>, ghost t0: map<Place, nat>, ghost wf: bool)
      returns (r: Outcome<PlaceError>)
      requires outs == outputArcs
      requires forall k :: k in outs ==> outs[k].Key() == k && outs[k].place in t0 && k in ws && ws[k] == outs[k].weight
      requires wf ==> forall k {:trigger k in outs} :: k in outs ==> k.kind == Output && k.transition == this
      requires forall p :: p in t0 ==> t0[p] == p.tokens
      modifies t0.Keys
      ensures wf ==> (r.Done? <==> NoNegativeOutput(outs, ws, {}))
      ensures wf && r.Done? ==> forall p :: p in t0 ==> p.tokens == t0[p] + OutputAmong(outs, ws, {}, p, this)
    {
      r := Done;
      var arcs := outputArcs;
      var todo := arcs.Keys;
      while todo != {}
        invariant todo <= outs.Keys
        invariant r.Done?
        invariant wf ==> NoNegativeOutput(outs, ws, todo)
        invariant wf ==> forall p :: p in t0 ==> p.tokens == t0[p] + OutputAmong(outs, ws, todo, p, this)
        decreases todo
      {
        var k :| k in todo;
        r := FireOutputArc(arcs[k], k, outs, todo, ws, t0, wf);
        if r.Fail? {
          return;
        }
        todo := todo - {k};
      }
    }

    /**
     * One turn of the second loop of `fire`: `arc`, filed under `k` in
     * `outs`, whose weights are `ws` and whose places held `t0` when the loop
     * began; `pending` holds the keys not fired yet.
     */
    method FireOutputArc(arc: Arc, k: ArcKey, ghost outs: map<ArcKey, Arc>, ghost pending: set<ArcKey>, ghost ws: map<ArcKey, int>,
                         ghost t0: map<Place, nat>, ghost wf: bool)
      returns (r: Outcome<PlaceError>)
      requires k in outs && outs[k] == arc && arc.Key() == k && k in pending
      requires k in ws && ws[k] == arc.weight && arc.place in t0
      requires wf ==> k.kind == Output && k.transition == this
      modifies arc.place
      ensures wf ==> (r.Fail? <==> ws[k] < 0)
      ensures wf && r.Done? && NoNegativeOutput(outs, ws, pending) ==> NoNegativeOutput(outs, ws, pending - {k})
      ensures wf && r.Done? ==> forall p :: p in t0 ==>
        old(p.tokens) == t0[p] + OutputAmong(outs, ws, pending, p, this) ==>
        p.tokens == t0[p] + OutputAmong(outs, ws, pending - {k}, p, this)
    {
      r := arc.Fire();
      if wf {
        forall p | p in t0
          ensures OutputAmong(outs, ws, pending - {k}, p, this)
               == OutputAmong(outs, ws, pending, p, this) + (if p == arc.place then ws[k] else 0)
        {
          OutputAmongStep(outs, ws, pending, k, p, this);
        }
      }
    }
  }
}
