/**
 * The two editor adapters that act on the token-flow model: a place adapter
 * that adds, removes and sets tokens on the place it wraps, and an arc
 * adapter that classifies the arc it wraps and reads or writes its weight as
 * the editor's "multiplicity". The editor-side labels and node base classes
 * are not modelled; an adapter holds only the model objects it wraps.
 */
module Adapters {
  import opened Results
  import opened Places
  import opened Firing
  import opened Arcs

  /**
   * The count and outcome `setTokens(n)` leaves behind, starting from
   * `tokens`: the place is first emptied, which cannot fail, and then `n` is
   * added, which fails on a negative `n` after the emptying has happened.
   */
  function AfterSetTokens(tokens: nat, n: int): (r: (nat, Outcome<PlaceError>))
    ensures r.1 == (if n < 0 then Fail(NegativeAddCount) else Done)
    ensures n >= 0 ==> r.0 == n
    ensures n < 0 ==> r.0 == 0
  {
    RemoveAllEmpties(tokens);
    var emptied := RemovedTokens(tokens, tokens).value;
    match AddedTokens(emptied, n)
    case Ok(v) => (v, Done)
    case Err(e) => (emptied, Fail(e))
  }

  /**
   * `setTokens` is not atomic: a rejected negative count still loses every
   * token the place held, so the failing call changes the place.
   */
  lemma SetTokensNotAtomic(tokens: nat, n: int)
    requires n < 0 && tokens > 0
    ensures AfterSetTokens(tokens, n).1 == Fail(NegativeAddCount)
    ensures AfterSetTokens(tokens, n).0 != tokens
  {
  }

  /** Setting a count twice is the same as setting the second count once. */
  lemma SetTokensOverwrites(tokens: nat, n: int, m: int)
    ensures AfterSetTokens(AfterSetTokens(tokens, n).0, m) == AfterSetTokens(tokens, m)
  {
  }

  class PlaceAdapter {
    /** The wrapped place; `getPlace` returns it. */
    const place: Place

    /** `new PlaceAdapter(p, label)`, without the editor label. */
    constructor (p: Place)
      ensures place == p
    {
      place := p;
    }

    /** `addToken`: one more token, never an error. */
    method AddToken()
      modifies place
      ensures place.tokens == old(place.tokens) + 1
    {
      var r := place.AddTokens(1);
    }

    /** `removeToken`: one token fewer, but an empty place stays empty. */
    method RemoveToken()
      modifies place
      ensures place.tokens == (if old(place.tokens) > 0 then old(place.tokens) - 1 else 0)
    {
      var r := place.RemoveTokens(1);
    }

    /** `getTokens`: the count of the wrapped place; `SetThenGetTokens` states what it reads back after a set. */
    method GetTokens() returns (n: nat)
      ensures n == place.tokens
    {
      n := place.tokens;
    }

    /**
     * `setTokens(n)`: empties the place, then adds `n`. A negative `n` fails
     * only at the second step, so the place is left empty, not as it was.
     */
    method SetTokens(n: int) returns (r: Outcome<PlaceError>)
      modifies place
      ensures (place.tokens, r) == AfterSetTokens(old(place.tokens), n)
    {
      var placeTokens := place.tokens;
      r := place.RemoveTokens(placeTokens);
      r := place.AddTokens(n);
    }
  }

  /** `getTokens` after `setTokens(n)` reads back `n`, for any `n >= 0`. */
  method SetThenGetTokens(a: PlaceAdapter, n: int) returns (got: nat, r: Outcome<PlaceError>)
    modifies a.place
    ensures r.Done? <==> n >= 0
    ensures n >= 0 ==> got == n
    ensures n < 0 ==> got == 0
  {
    r := a.SetTokens(n);
    got := a.GetTokens();
  }

  /** The ResetArcMultiplicityException of the editor. */
  datatype MultiplicityError = ResetArcMultiplicity

  /** The editor node an arc adapter names as its source or destination. */
  datatype Node =
    | PlaceNode(adapter: PlaceAdapter)
    | TransitionNode(transition: Transition)

  class ArcAdapter {
    /** The wrapped arc; `getArc` returns it. */
    const arc: Arc
    /** `getSource` and `getDestination` return these, as given to the constructor. */
    const source: Node
    const destination: Node

    constructor (arc: Arc, source: Node, destination: Node)
      ensures this.arc == arc && this.source == source && this.destination == destination
    {
      this.arc := arc;
      this.source := source;
      this.destination := destination;
    }

    /** `isReset`: the wrapped arc is a ResetArc. */
    predicate IsReset()
    {
      arc.kind == Reset
    }

    /** `isInhibitory`: the wrapped arc is a ZeroArc. */
    predicate IsInhibitory()
    {
      arc.kind == Zero
    }

    /** `isRegular`: the wrapped arc is neither a ResetArc nor a ZeroArc. */
    predicate IsRegular()
    {
      !(arc.kind == Reset || arc.kind == Zero)
    }

    /** `isSourceAPlace`: the source node is a place adapter. */
    predicate IsSourceAPlace()
    {
      source.PlaceNode?
    }

    /**
     * The adapter's endpoints are those of its arc: the arc's place on the
     * place side and the arc's transition on the transition side, with the
     * place as source exactly for an InputArc, ZeroArc or ResetArc.
     */
    predicate Matches()
    {
      if arc.kind.FromPlace() then
        source.PlaceNode? && source.adapter.place == arc.place &&
        destination == TransitionNode(arc.transition)
      else
        source == TransitionNode(arc.transition) &&
        destination.PlaceNode? && destination.adapter.place == arc.place
    }

    /** `getMultiplicity`: the weight, or an error for a reset arc. */
    function Multiplicity(): (r: Result<int, MultiplicityError>)
      reads arc
      ensures r.Err? <==> IsReset()
      ensures r.Ok? ==> r.value == arc.weight
    {
      if IsReset() then Err(ResetArcMultiplicity) else Ok(arc.weight)
    }

    /**
     * `setMultiplicity(m)`: a reset arc refuses and keeps its weight; any
     * other arc stores `m` as given, so the weight reads back as `m` even
     * when it is zero or negative. An inhibitory arc stays active exactly
     * when it was, since its activation ignores the weight.
     */
    method SetMultiplicity(m: int) returns (r: Outcome<MultiplicityError>)
      modifies arc
      ensures r == (if IsReset() then Fail(ResetArcMultiplicity) else Done)
      ensures arc.weight == (if IsReset() then old(arc.weight) else m)
      ensures Multiplicity() == (if IsReset() then Err(ResetArcMultiplicity) else Ok(m))
      ensures IsInhibitory() ==> arc.IsActive() == old(arc.IsActive())
    {
      if IsReset() {
        return Fail(ResetArcMultiplicity);
      }
      arc.SetWeight(m);
      r := Done;
    }
  }

  /** Every wrapped arc falls in exactly one of the editor's three classes. */
  lemma ExactlyOneClass(a: ArcAdapter)
    ensures a.IsReset() || a.IsInhibitory() || a.IsRegular()
    ensures !(a.IsReset() && a.IsInhibitory())
    ensures !(a.IsReset() && a.IsRegular())
    ensures !(a.IsInhibitory() && a.IsRegular())
    ensures a.IsRegular() <==> a.arc.kind == Input || a.arc.kind == Output
  {
  }

  /**
   * For an adapter whose endpoints match its arc, the source is a place
   * exactly for the input-side kinds (InputArc, ZeroArc, ResetArc).
   */
  lemma SourceIsPlaceIffInputSide(a: ArcAdapter)
    requires a.Matches()
    ensures a.IsSourceAPlace() <==> a.arc.kind.FromPlace()
  {
  }
}
