/**
 * The Petri network: the places, transitions and arcs it knows of, kept
 * consistent with the arc sets of its transitions. Adding an arc registers
 * its endpoints and files it into its transition; removing an arc, a place
 * or a transition takes the incident arcs out of the transitions as well.
 *
 * The place set compares places by id, so it is a map from id to the place
 * it holds; the arc set compares arcs structurally, so it is a map from
 * `ArcKey` to the arc it holds; transitions compare by reference.
 */
module Network {
  import opened Results
  import opened Ids
  import opened Places
  import opened Firing
  import opened Arcs

  /** The ArcExceptions raised by `addArc`, and the fail-fast iterator's exception. */
  datatype NetworkError =
    | ArcAlreadyExists          // "This arc already exists in the Petri Network"
    | ConcurrentModification    // java.util.ConcurrentModificationException

  /**
   * The network arcs that name `t` as their transition and lie on the given
   * side of it: input-side arcs (input, zero and reset arcs) when `input`,
   * output arcs otherwise.
   */
  ghost function IncidentArcs(arcs: map<ArcKey, Arc>, t: Transition, input: bool): (m: map<ArcKey, Arc>)
    ensures forall k {:trigger k in m} :: k in m ==> k in arcs && k.transition == t && k.kind.FromPlace() == input && m[k] == arcs[k]
    ensures forall k {:trigger k in arcs} :: k in arcs && k.transition == t && k.kind.FromPlace() == input ==> k in m
  {
    map k | k in arcs && k.transition == t && k.kind.FromPlace() == input :: arcs[k]
  }

  /** Adding an arc under a new key adds it to the incident arcs of its own transition and side only. */
  lemma IncidentAfterAdd(arcs: map<ArcKey, Arc>, k: ArcKey, a: Arc, t: Transition, input: bool)
    requires k !in arcs
    ensures IncidentArcs(arcs[k := a], t, input)
         == if k.transition == t && k.kind.FromPlace() == input then IncidentArcs(arcs, t, input)[k := a]
            else IncidentArcs(arcs, t, input)
  {
    if k.transition == t && k.kind.FromPlace() == input {
      assert IncidentArcs(arcs[k := a], t, input).Keys == IncidentArcs(arcs, t, input).Keys + {k};
    } else {
      assert IncidentArcs(arcs[k := a], t, input).Keys == IncidentArcs(arcs, t, input).Keys;
    }
  }

  /** Removing an arc's key takes it out of the incident arcs of its own transition and side only. */
  lemma IncidentAfterRemove(arcs: map<ArcKey, Arc>, k: ArcKey, t: Transition, input: bool)
    ensures IncidentArcs(arcs - {k}, t, input)
         == if k.transition == t && k.kind.FromPlace() == input then IncidentArcs(arcs, t, input) - {k}
            else IncidentArcs(arcs, t, input)
  {
    if k.transition == t && k.kind.FromPlace() == input {
      assert IncidentArcs(arcs - {k}, t, input).Keys == IncidentArcs(arcs, t, input).Keys - {k};
    } else {
      assert IncidentArcs(arcs - {k}, t, input).Keys == IncidentArcs(arcs, t, input).Keys;
    }
  }

  /** A transition with no incident arcs on either side is named by no arc. */
  lemma NoIncidentArcs(arcs: map<ArcKey, Arc>, t: Transition)
    ensures (IncidentArcs(arcs, t, true) == map[] && IncidentArcs(arcs, t, false) == map[])
        <==> (forall k {:trigger k in arcs} :: k in arcs ==> k.transition != t)
  {
    if IncidentArcs(arcs, t, true) == map[] && IncidentArcs(arcs, t, false) == map[] {
      forall k | k in arcs ensures k.transition != t {
        assert k !in IncidentArcs(arcs, t, k.kind.FromPlace());
      }
    }
    if forall k {:trigger k in arcs} :: k in arcs ==> k.transition != t {
      assert IncidentArcs(arcs, t, true).Keys == {};
      assert IncidentArcs(arcs, t, false).Keys == {};
    }
  }

  /**
   * What is left of `arcs` part way through removing the keys in `doomed`:
   * a doomed key stays only while it is still `pending`.
   */
  ghost function Remaining(arcs: map<ArcKey, Arc>, doomed: set<ArcKey>, pending: set<ArcKey>): (m: map<ArcKey, Arc>)
    ensures forall k {:trigger k in m} :: k in m ==> k in arcs && m[k] == arcs[k] && (k !in doomed || k in pending)
    ensures forall k {:trigger k in arcs} :: k in arcs && (k !in doomed || k in pending) ==> k in m
  {
    map k | k in arcs && (k !in doomed || k in pending) :: arcs[k]
  }

  /** The keys of the arcs on the place with the given id. */
  ghost function OnPlace(arcs: map<ArcKey, Arc>, id: nat): (s: set<ArcKey>)
    ensures forall k {:trigger k in arcs} :: k in arcs ==> (k in s <==> k.placeId == id)
  {
    set k | k in arcs && k.placeId == id
  }

  /** Nothing is removed while every doomed key is still pending. */
  lemma RemainingAtStart(arcs: map<ArcKey, Arc>, doomed: set<ArcKey>, pending: set<ArcKey>)
    requires forall k {:trigger k in arcs} :: k in arcs && k in doomed ==> k in pending
    ensures Remaining(arcs, doomed, pending) == arcs
  {
    assert Remaining(arcs, doomed, pending).Keys == arcs.Keys;
  }

  /** Visiting one pending key removes it exactly when it is doomed. */
  lemma RemainingStep(arcs: map<ArcKey, Arc>, doomed: set<ArcKey>, pending: set<ArcKey>, k: ArcKey)
    requires k in pending
    ensures Remaining(arcs, doomed, pending - {k})
         == if k in doomed then Remaining(arcs, doomed, pending) - {k} else Remaining(arcs, doomed, pending)
  {
    if k in doomed {
      assert Remaining(arcs, doomed, pending - {k}).Keys == Remaining(arcs, doomed, pending).Keys - {k};
    } else {
      assert Remaining(arcs, doomed, pending - {k}).Keys == Remaining(arcs, doomed, pending).Keys;
    }
  }

  /** Once every key of `arcs` is removed, nothing is left. */
  lemma RemainingNone(arcs: map<ArcKey, Arc>)
    ensures Remaining(arcs, arcs.Keys, {}) == map[]
  {
    assert Remaining(arcs, arcs.Keys, {}).Keys == {};
  }

  /**
   * Removing the arcs incident to `t` on one side empties that side and
   * leaves every other transition's incident arcs, and `t`'s other side, as
   * they were.
   */
  lemma IncidentAfterRemoving(arcs: map<ArcKey, Arc>, t: Transition, input: bool, t': Transition, side: bool)
    ensures IncidentArcs(Remaining(arcs, IncidentArcs(arcs, t, input).Keys, {}), t', side)
         == if t' == t && side == input then map[] else IncidentArcs(arcs, t', side)
  {
    var r := Remaining(arcs, IncidentArcs(arcs, t, input).Keys, {});
    if t' == t && side == input {
      assert IncidentArcs(r, t', side).Keys == {};
    } else {
      assert IncidentArcs(r, t', side).Keys == IncidentArcs(arcs, t', side).Keys;
    }
  }

  /**
   * Filing a new arc into the arc set and into its own transition keeps the
   * network linked: `arcs0` is the arc set before, and every transition other
   * than the arc's still holds exactly its incident arcs in it.
   */
  lemma LinkedAfterFiling(n: PetriNetwork, arcs0: map<ArcKey, Arc>, a: Arc)
    requires a.Key() !in arcs0 && n.arcs == arcs0[a.Key() := a] && a.transition in n.transitions
    requires forall k {:trigger k in arcs0} :: k in arcs0 ==> k.transition in n.transitions
    requires forall t {:trigger t in n.transitions} :: t in n.transitions && t != a.transition ==>
      t.inputArcs == IncidentArcs(arcs0, t, true) && t.outputArcs == IncidentArcs(arcs0, t, false)
    requires LiveSet(a.transition, a.kind.FromPlace()) == IncidentArcs(arcs0, a.transition, a.kind.FromPlace())[a.Key() := a]
    requires LiveSet(a.transition, !a.kind.FromPlace()) == IncidentArcs(arcs0, a.transition, !a.kind.FromPlace())
    ensures n.Linked()
  {
    forall t | t in n.transitions
      ensures t.inputArcs == IncidentArcs(n.arcs, t, true) && t.outputArcs == IncidentArcs(n.arcs, t, false)
    {
      IncidentAfterAdd(arcs0, a.Key(), a, t, true);
      IncidentAfterAdd(arcs0, a.Key(), a, t, false);
    }
  }

  /** The set a transition's arc-set iteration runs over: its input set or its output set. */
  function LiveSet(t: Transition, input: bool): map<ArcKey, Arc>
    reads t
  {
    if input then t.inputArcs else t.outputArcs
  }

  class PetriNetwork {
    /** `places`, by id. */
    var places: map<nat, Place>
    /** `transitions`, by reference. */
    var transitions: set<Transition>
    /** `arcs`, by structural key. */
    var arcs: map<ArcKey, Arc>

    /** Every element is filed under its own equality key: the hash-set discipline. */
    ghost predicate Valid()
      reads this`places, this`arcs
    {
      && (forall i {:trigger i in places} :: i in places ==> places[i].id == i)
      && (forall k {:trigger k in arcs} :: k in arcs ==> arcs[k].Key() == k)
    }

    /**
     * Every arc names a registered transition, and each registered
     * transition's input and output sets are exactly the network arcs
     * incident to it on that side.
     */
    ghost predicate Linked()
      reads this`arcs, this`transitions, transitions
    {
      && (forall k {:trigger k in arcs} :: k in arcs ==> k.transition in transitions)
      && (forall t {:trigger t in transitions} :: t in transitions ==>
            t.inputArcs == IncidentArcs(arcs, t, true) && t.outputArcs == IncidentArcs(arcs, t, false))
    }

    /** Every arc's place is a registered place. */
    ghost predicate Anchored()
      reads this`places, this`arcs
    {
      forall k {:trigger k in arcs} :: k in arcs ==> k.placeId in places
    }

    /** The consistency the network's operations keep. */
    ghost predicate Consistent()
      reads this, transitions
    {
      Linked() && Anchored()
    }

    /** `new PetriNetwork()`: three empty sets. */
    constructor ()
      ensures places == map[] && transitions == {} && arcs == map[]
      ensures Valid() && Consistent()
    {
      places := map[];
      transitions := {};
      arcs := map[];
    }

    /** `addPlace`: a place with the id of one already present is not added again. */
    method AddPlace(p: Place)
      modifies this
      ensures places == if p.id in old(places) then old(places) else old(places)[p.id := p]
      ensures transitions == old(transitions) && arcs == old(arcs)
      ensures old(Valid()) ==> Valid()
      ensures old(Consistent()) ==> Consistent()
    {
      if p.id !in places {
        places := places[p.id := p];
      }
    }

    /**
     * `addTransition`. The network stays consistent when the transition is
     * already registered or holds no arcs yet.
     */
    method AddTransition(t: Transition)
      modifies this
      ensures transitions == old(transitions) + {t}
      ensures places == old(places) && arcs == old(arcs)
      ensures old(Valid()) ==> Valid()
      ensures old(Consistent()) && (t in old(transitions) || (t.inputArcs == map[] && t.outputArcs == map[])) ==> Consistent()
    {
      if t !in transitions {
        if Linked() {
          NoIncidentArcs(arcs, t);
        }
        transitions := transitions + {t};
      }
    }

    /**
     * `addArc`: registers the arc's place and transition if they are not
     * there yet, then fails if a structurally equal arc is already in the
     * network, and otherwise adds the arc and files it into its transition's
     * input set (input-side arcs) or output set (output arcs).
     */
    method AddArc(a: Arc) returns (r: Outcome<NetworkError>)
      modifies this, a.transition
      ensures places == if a.place.id in old(places) then old(places) else old(places)[a.place.id := a.place]
      ensures transitions == old(transitions) + {a.transition}
      ensures r.Fail? <==> a.Key() in old(arcs)
      ensures r.Fail? ==> r.error == ArcAlreadyExists && arcs == old(arcs) && unchanged(a.transition)
      ensures r.Done? ==> arcs == old(arcs)[a.Key() := a]
      ensures r.Done? ==>
        LiveSet(a.transition, a.kind.FromPlace())
          == (if a.Key() in old(LiveSet(a.transition, a.kind.FromPlace())) then old(LiveSet(a.transition, a.kind.FromPlace()))
              else old(LiveSet(a.transition, a.kind.FromPlace()))[a.Key() := a]) &&
        LiveSet(a.transition, !a.kind.FromPlace()) == old(LiveSet(a.transition, !a.kind.FromPlace()))
      ensures old(Valid()) ==> Valid()
      ensures old(Consistent()) &&
        (a.transition in old(transitions) || (old(a.transition.inputArcs) == map[] && old(a.transition.outputArcs) == map[]))
        ==> Consistent()
    {
      if a.place.id !in places {
        AddPlace(a.place);
      }
      if a.transition !in transitions {
        AddTransition(a.transition);
      }
      if a.Key() in arcs {
        return Fail(ArcAlreadyExists);
      }
      FileArc(a);
      r := Done;
    }

    /** The second half of `addArc`: the arc, new to the network, goes into the arc set and into its transition. */
    method FileArc(a: Arc)
      requires a.Key() !in arcs && a.transition in transitions && a.place.id in places
      modifies this, a.transition
      ensures places == old(places) && transitions == old(transitions)
      ensures arcs == old(arcs)[a.Key() := a]
      ensures LiveSet(a.transition, a.kind.FromPlace())
           == if a.Key() in old(LiveSet(a.transition, a.kind.FromPlace())) then old(LiveSet(a.transition, a.kind.FromPlace()))
              else old(LiveSet(a.transition, a.kind.FromPlace()))[a.Key() := a]
      ensures LiveSet(a.transition, !a.kind.FromPlace()) == old(LiveSet(a.transition, !a.kind.FromPlace()))
      ensures old(Valid()) ==> Valid()
      ensures old(Linked()) ==> Linked()
      ensures old(Anchored()) ==> Anchored()
    {
      var t := a.transition;
      var k := a.Key();
      ghost var linked := Linked();
      ghost var arcs0 := arcs;
      arcs := arcs[k := a];
      if a.kind.FromPlace() {
        t.AddInputArc(a);
      } else {
        t.AddOutputArc(a);
      }
      if linked {
        LinkedAfterFiling(this, arcs0, a);
      }
    }

    /**
     * `removeArc`: removes whichever structurally equal arc the network
     * holds and, if there was one, takes it out of the arc's transition too;
     * an arc the network does not hold changes nothing.
     */
    method RemoveArc(a: Arc)
      modifies this, a.transition
      ensures places == old(places) && transitions == old(transitions)
      ensures arcs == old(arcs) - {a.Key()}
      ensures a.Key() !in old(arcs) ==> unchanged(a.transition)
      ensures a.Key() in old(arcs) ==>
        LiveSet(a.transition, a.kind.FromPlace()) == old(LiveSet(a.transition, a.kind.FromPlace())) - {a.Key()} &&
        LiveSet(a.transition, !a.kind.FromPlace()) == old(LiveSet(a.transition, !a.kind.FromPlace()))
      ensures old(Valid()) ==> Valid()
      ensures old(Linked()) ==> Linked()
      ensures old(Anchored()) ==> Anchored()
    {
      var k := a.Key();
      if k in arcs {
        ghost var linked := Linked();
        ghost var arcs0 := arcs;
        arcs := arcs - {k};
        if a.kind.FromPlace() {
          a.transition.RemoveInputArc(a);
        } else {
          a.transition.RemoveOutputArc(a);
        }
        if linked {
          forall t' | t' in transitions
            ensures t'.inputArcs == IncidentArcs(arcs, t', true) && t'.outputArcs == IncidentArcs(arcs, t', false)
          {
            IncidentAfterRemove(arcs0, k, t', true);
            IncidentAfterRemove(arcs0, k, t', false);
          }
        }
      }
    }

    /** The transitions the network's arcs name: what removing some of those arcs may change. */
    ghost function ArcTransitions(): set<Transition>
      reads this
    {
      set k | k in arcs :: arcs[k].transition
    }

    /** Every arc's place is registered, except possibly the place with the given id. */
    ghost predicate AnchoredBut(id: nat)
      reads this`places, this`arcs
    {
      forall k {:trigger k in arcs} :: k in arcs ==> k.placeId in places || k.placeId == id
    }

    /**
     * `removePlace`: a registered place is dropped, then every arc on it is
     * removed, iterating over a copy of the arc set; an unregistered place
     * changes nothing.
     */
    method RemovePlace(p: Place)
      requires Valid()
      modifies this, ArcTransitions()
      ensures transitions == old(transitions)
      ensures places == old(places) - {p.id}
      ensures p.id !in old(places) ==> arcs == old(arcs)
      ensures forall k {:trigger k in arcs} :: k in arcs ==>
        k in old(arcs) && arcs[k] == old(arcs)[k] && (p.id in old(places) ==> k.placeId != p.id)
      ensures forall k {:trigger k in old(arcs)} :: k in old(arcs) && (p.id !in old(places) || k.placeId != p.id) ==> k in arcs
      ensures Valid()
      ensures old(Linked()) ==> Linked()
      ensures old(Anchored()) ==> Anchored()
    {
      if p.id in places {
        places := places - {p.id};
        var snap := arcs;
        RemoveEachOnPlace(p, snap, OnPlace(snap, p.id));
      }
    }

    /** The loop of `removePlace`, over a copy `snap` of the arc set. */
    method RemoveEachOnPlace(p: Place, snap: map<ArcKey, Arc>, ghost doomed: set<ArcKey>)
      requires arcs == snap && Valid()
      requires forall k {:trigger k in snap} :: k in snap ==> (k in doomed <==> k.placeId == p.id)
      modifies this, ArcTransitions()
      ensures places == old(places) && transitions == old(transitions)
      ensures arcs == Remaining(snap, doomed, {})
      ensures Valid()
      ensures old(Linked()) ==> Linked()
      ensures old(AnchoredBut(p.id)) ==> AnchoredBut(p.id)
    {
      var todo := snap.Keys;
      RemainingAtStart(snap, doomed, todo);
      while todo != {}
        invariant todo <= snap.Keys
        invariant Valid() && places == old(places) && transitions == old(transitions)
        invariant arcs == Remaining(snap, doomed, todo)
        invariant old(Linked()) ==> Linked()
        invariant old(AnchoredBut(p.id)) ==> AnchoredBut(p.id)
        decreases todo
      {
        var k :| k in todo;
        assert snap[k].transition in old(ArcTransitions());
        RemoveOnPlaceStep(p, snap, doomed, todo, k);
        todo := todo - {k};
      }
    }

    /** One visit of `removePlace`'s loop: the visited arc is removed when it lies on the place. */
    method RemoveOnPlaceStep(p: Place, snap: map<ArcKey, Arc>, ghost doomed: set<ArcKey>, todo: set<ArcKey>, k: ArcKey)
      requires k in todo && todo <= snap.Keys
      requires forall k {:trigger k in snap} :: k in snap ==> (k in doomed <==> k.placeId == p.id)
      requires Valid() && arcs == Remaining(snap, doomed, todo)
      modifies this, snap[k].transition
      ensures places == old(places) && transitions == old(transitions)
      ensures arcs == Remaining(snap, doomed, todo - {k})
      ensures Valid()
      ensures old(Linked()) ==> Linked()
      ensures old(AnchoredBut(p.id)) ==> AnchoredBut(p.id)
    {
      var a := snap[k];
      assert a.Key() == k;
      RemainingStep(snap, doomed, todo, k);
      if a.place.id == p.id {
        RemoveArc(a);
      }
    }

    /**
     * Removes every arc incident to `t` on one side, iterating over a copy of
     * that side's set, so that removing an arc never disturbs the iteration.
     */
    method RemoveIncident(t: Transition, input: bool)
      requires Valid() && Linked() && t in transitions
      modifies this, t
      ensures places == old(places) && transitions == old(transitions)
      ensures forall k {:trigger k in arcs} :: k in arcs ==>
        k in old(arcs) && arcs[k] == old(arcs)[k] && !(k.transition == t && k.kind.FromPlace() == input)
      ensures forall k {:trigger k in old(arcs)} :: k in old(arcs) && !(k.transition == t && k.kind.FromPlace() == input) ==> k in arcs
      ensures LiveSet(t, input) == map[]
      ensures LiveSet(t, !input) == old(LiveSet(t, !input))
      ensures Valid() && Linked()
      ensures old(Anchored()) ==> Anchored()
    {
      var snap := LiveSet(t, input);
      ghost var arcs0 := arcs;
      RemoveEachIncident(t, input, snap, arcs0);
      RemainingNone(snap);
      forall t' | t' in transitions
        ensures t'.inputArcs == IncidentArcs(arcs, t', true) && t'.outputArcs == IncidentArcs(arcs, t', false)
      {
        IncidentAfterRemoving(arcs0, t, input, t', true);
        IncidentAfterRemoving(arcs0, t, input, t', false);
      }
    }

    /** The loop of `RemoveIncident`, over a copy `snap` of the side's set. */
    method RemoveEachIncident(t: Transition, input: bool, snap: map<ArcKey, Arc>, ghost arcs0: map<ArcKey, Arc>)
      requires arcs == arcs0 && LiveSet(t, input) == snap
      requires forall k {:trigger k in snap} :: k in snap ==>
        k in arcs0 && snap[k] == arcs0[k] && snap[k].Key() == k && k.transition == t && k.kind.FromPlace() == input
      modifies this, t
      ensures places == old(places) && transitions == old(transitions)
      ensures arcs == Remaining(arcs0, snap.Keys, {})
      ensures LiveSet(t, input) == Remaining(snap, snap.Keys, {})
      ensures LiveSet(t, !input) == old(LiveSet(t, !input))
    {
      var todo := snap.Keys;
      RemainingAtStart(arcs0, snap.Keys, todo);
      RemainingAtStart(snap, snap.Keys, todo);
      while todo != {}
        invariant todo <= snap.Keys
        invariant places == old(places) && transitions == old(transitions)
        invariant arcs == Remaining(arcs0, snap.Keys, todo)
        invariant LiveSet(t, input) == Remaining(snap, snap.Keys, todo)
        invariant LiveSet(t, !input) == old(LiveSet(t, !input))
        decreases todo
      {
        var k :| k in todo;
        RemoveIncidentStep(t, input, snap, arcs0, todo, k);
        todo := todo - {k};
      }
    }

    /** One visit of `RemoveIncident`'s loop: the visited arc leaves the network and its transition. */
    method RemoveIncidentStep(t: Transition, input: bool, snap: map<ArcKey, Arc>, ghost arcs0: map<ArcKey, Arc>,
                              todo: set<ArcKey>, k: ArcKey)
      requires k in todo && todo <= snap.Keys
      requires forall k {:trigger k in snap} :: k in snap ==>
        k in arcs0 && snap[k] == arcs0[k] && snap[k].Key() == k && k.transition == t && k.kind.FromPlace() == input
      requires arcs == Remaining(arcs0, snap.Keys, todo) && LiveSet(t, input) == Remaining(snap, snap.Keys, todo)
      modifies this, t
      ensures places == old(places) && transitions == old(transitions)
      ensures arcs == Remaining(arcs0, snap.Keys, todo - {k})
      ensures LiveSet(t, input) == Remaining(snap, snap.Keys, todo - {k})
      ensures LiveSet(t, !input) == old(LiveSet(t, !input))
    {
      RemainingStep(arcs0, snap.Keys, todo, k);
      RemainingStep(snap, snap.Keys, todo, k);
      RemoveArc(snap[k]);
    }

    /**
     * `removeTransition` as evidently intended: a registered transition is
     * dropped together with every arc incident to it. The arcs are removed
     * first and the transition last; the final state is the same as when the
     * transition goes first.
     */
    method RemoveTransition(t: Transition)
      requires Valid() && Consistent()
      modifies this, t
      ensures places == old(places) && transitions == old(transitions) - {t}
      ensures t !in old(transitions) ==> arcs == old(arcs) && unchanged(t)
      ensures forall k {:trigger k in arcs} :: k in arcs ==> k in old(arcs) && arcs[k] == old(arcs)[k] && k.transition != t
      ensures forall k {:trigger k in old(arcs)} :: k in old(arcs) && k.transition != t ==> k in arcs
      ensures t in old(transitions) ==> t.inputArcs == map[] && t.outputArcs == map[]
      ensures Valid() && Consistent()
    {
      if t in transitions {
        RemoveIncident(t, true);
        RemoveIncident(t, false);
        NoIncidentArcs(arcs, t);
        transitions := transitions - {t};
      }
    }

    /**
     * `removeTransition` as written: the transition is dropped first, then
     * each of its two sets is walked with the set's own fail-fast iterator
     * while `removeArc` takes the visited arc out of that very set. Once an
     * arc is removed, the iterator's next step finds the set modified and
     * raises ConcurrentModificationException, so the removal fails part way
     * whenever a side holds two arcs or more. The transition is then gone
     * while an arc naming it is left in the network, which is no longer
     * consistent.
     */
    method RemoveTransitionAsWritten(t: Transition) returns (r: Outcome<NetworkError>)
      requires Valid() && Consistent()
      modifies this, t
      ensures places == old(places) && transitions == old(transitions) - {t}
      ensures Valid()
      ensures t !in old(transitions) ==> r == Done && arcs == old(arcs) && unchanged(t)
      ensures r.Fail? ==> r.error == ConcurrentModification
      ensures t in old(transitions) ==> (r.Fail? <==> |old(t.inputArcs)| >= 2 || |old(t.outputArcs)| >= 2)
      ensures t in old(transitions) && r.Done? ==>
        t.inputArcs == map[] && t.outputArcs == map[] &&
        arcs == old(arcs) - old(t.inputArcs).Keys - old(t.outputArcs).Keys
      ensures r.Fail? ==> t !in transitions && exists k {:trigger k in arcs} :: k in arcs && k.transition == t
      ensures r.Fail? ==> !Consistent()
    {
      if t !in transitions {
        return Done;
      }
      transitions := transitions - {t};
      r := RemoveWhileIterating(t, true);
      if r.Fail? {
        return;
      }
      r := RemoveWhileIterating(t, false);
    }

    /**
     * A for-each loop over one of `t`'s live sets that calls `removeArc` on
     * every arc it visits. `todo` holds what the iterator has not returned
     * yet; before each step the iterator compares the set with the one it
     * was created over and fails if they differ.
     */
    method RemoveWhileIterating(t: Transition, input: bool) returns (r: Outcome<NetworkError>)
      requires Valid()
      requires forall k {:trigger k in LiveSet(t, input)} :: k in LiveSet(t, input) ==>
        k in arcs && LiveSet(t, input)[k].Key() == k && k.transition == t && k.kind.FromPlace() == input
      modifies this, t
      ensures places == old(places) && transitions == old(transitions)
      ensures Valid()
      ensures r.Fail? ==> r.error == ConcurrentModification
      ensures r.Fail? <==> |old(LiveSet(t, input))| >= 2
      ensures r.Done? ==> LiveSet(t, input) == map[] && arcs == old(arcs) - old(LiveSet(t, input)).Keys
      ensures r.Fail? ==>
        exists k :: (k in old(LiveSet(t, input)) && arcs == old(arcs) - {k} &&
                     LiveSet(t, input) == old(LiveSet(t, input)) - {k})
      ensures r.Fail? ==> exists k {:trigger k in arcs} :: k in arcs && k in old(LiveSet(t, input))
      ensures LiveSet(t, !input) == old(LiveSet(t, !input))
    {
      var live := LiveSet(t, input);
      var todo := live.Keys;
      ghost var gone: set<ArcKey> := {};
      ghost var last := ArcKey(Input, 0, t);
      while todo != {}
        invariant gone == {} || gone == {last}
        invariant gone == {} ==> arcs == old(arcs) && LiveSet(t, input) == live && todo == live.Keys
        invariant gone == {last} ==>
          last in live && arcs == old(arcs) - {last} && LiveSet(t, input) == live - {last} && todo == live.Keys - {last}
        invariant places == old(places) && transitions == old(transitions)
        invariant LiveSet(t, !input) == old(LiveSet(t, !input))
        decreases todo
      {
        if LiveSet(t, input) != live {
          assert gone == {last} && |todo| >= 1;
          assert |live.Keys| == |todo| + 1;
          var stranded :| stranded in todo;
          assert stranded in arcs && stranded in live;
          return Fail(ConcurrentModification);
        }
        var k :| k in todo;
        todo := todo - {k};
        RemoveArc(live[k]);
        gone, last := {k}, k;
      }
      if gone == {} {
        assert live == map[];
      } else {
        assert live.Keys == {last};
      }
      r := Done;
    }

    /** `fire`: the transition fires when it can fire, and otherwise nothing changes. */
    method Fire(t: Transition) returns (fired: bool, r: Outcome<PlaceError>)
      requires t.Valid()
      modifies t.Places()
      ensures fired <==> old(t.Enabled())
      ensures !fired ==> r == Done && unchanged(t.Places())
      ensures fired && old(t.WellFormed()) ==> (r.Done? <==> old(t.InputWeightsOk() && t.OutputWeightsOk()))
      ensures fired && old(t.WellFormed()) && r.Done? ==>
        forall p :: p in old(t.Places()) ==> p.tokens == old(t.FiredCount(p, p.tokens))
    {
      fired := t.CanFire();
      if fired {
        r := t.Fire();
      } else {
        r := Done;
      }
    }
  }

  /** A fresh transition with an input arc and a zero arc from the same place, not yet filed anywhere. */
  method TwoInputArcs() returns (t: Transition, a: Arc, z: Arc)
    ensures fresh(t) && t.inputArcs == map[] && t.outputArcs == map[]
    ensures a.transition == t && z.transition == t && a.kind == Input && z.kind == Zero
  {
    var placeIds := new IdCounter();
    var transitionIds := new IdCounter();
    var arcIds := new IdCounter();
    var rp := NewPlace(1, placeIds);
    assert rp.Ok?;
    t := new Transition(transitionIds);
    var ra := NewArc(Input, rp.value, t, 1, arcIds);
    assert ra.Ok?;
    var rz := NewZeroArc(rp.value, t, arcIds);
    a, z := ra.value, rz.value;
  }

  /**
   * Builds a network holding one place and one transition joined by an
   * input arc and a zero arc: two input-side arcs of one transition.
   */
  method TwoInputArcsNetwork() returns (n: PetriNetwork, t: Transition)
    ensures fresh(n) && fresh(t)
    ensures n.Valid() && n.Consistent() && n.transitions == {t}
    ensures |t.inputArcs| == 2 && t.outputArcs == map[]
  {
    var a, z;
    t, a, z := TwoInputArcs();
    n := new PetriNetwork();
    var r1 := n.AddArc(a);
    var r2 := n.AddArc(z);
    assert a.Key() != z.Key();
  }

  /**
   * The removal as written fails on that network with
   * ConcurrentModificationException, leaving an arc behind and the network
   * inconsistent.
   */
  method RemoveTransitionAsWrittenFails() returns (n: PetriNetwork, r: Outcome<NetworkError>)
    ensures r == Fail(ConcurrentModification)
    ensures n.arcs != map[] && n.transitions == {} && !n.Consistent()
  {
    var t;
    n, t := TwoInputArcsNetwork();
    r := n.RemoveTransitionAsWritten(t);
  }

  /**
   * A transition registered in a consistent network is well formed, so the
   * outcome clauses of `PetriNetwork.Fire` apply to every registered one.
   */
  lemma RegisteredWellFormed(n: PetriNetwork, t: Transition)
    requires n.Valid() && n.Consistent() && t in n.transitions
    ensures t.Valid() && t.WellFormed()
  {
  }

  /** The corrected removal empties that network of arcs and transitions and keeps it consistent. */
  method RemoveTransitionEmpties() returns (n: PetriNetwork)
    ensures n.arcs == map[] && n.transitions == {} && n.Valid() && n.Consistent()
  {
    var t;
    n, t := TwoInputArcsNetwork();
    ghost var arcs0 := n.arcs;
    assert forall k {:trigger k in arcs0} :: k in arcs0 ==> k.transition == t;
    n.RemoveTransition(t);
    assert n.arcs.Keys == {};
  }
}
