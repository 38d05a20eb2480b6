/**
 * What each of the four arc kinds does to the one place it touches: when it
 * is active and what firing it leaves in the place. These are the
 * `isActive` and `fire` overrides of InputArc, OutputArc, ZeroArc and
 * ResetArc, stated on a token count rather than on a place object.
 */
module Firing {
  import opened Results
  import opened Places

  /** The four concrete arc classes. Zero and Reset arcs are InputArcs in the source. */
  datatype Kind = Input | Output | Zero | Reset {
    /** InputArc and its subclasses run from a place to a transition. */
    predicate FromPlace() { this != Output }
  }

  /** `Integer.MAX_VALUE`, the weight every reset arc is built with. */
  const IntMax: int := 0x7fff_ffff

  /** `isActive` of an arc of the given kind and weight over a place holding `tokens`. */
  function Active(kind: Kind, weight: int, tokens: nat): bool
  {
    match kind
    case Input => tokens >= weight
    case Output => true
    case Zero => tokens == 0
    case Reset => tokens > 0
  }

  /** The count `fire` leaves in the arc's place, or the place error it raises. */
  function Fired(kind: Kind, weight: int, tokens: nat): Result<nat, PlaceError>
  {
    match kind
    case Input => if Active(Input, weight, tokens) then RemovedTokens(tokens, weight) else Ok(tokens)
    case Output => AddedTokens(tokens, weight)
    case Zero => Ok(tokens)
    case Reset => RemovedTokens(tokens, tokens)
  }

  /**
   * An input arc with a non-negative weight is active iff the place holds at
   * least the weight; firing it then takes exactly the weight, and firing it
   * while inactive changes nothing. A negative weight (possible only through
   * `setWeight`) makes it always active and makes `fire` raise the place's
   * negative-count error.
   */
  lemma InputArcFiring(weight: int, tokens: nat)
    ensures weight >= 0 ==> (Active(Input, weight, tokens) <==> tokens >= weight)
    ensures weight >= 0 && tokens >= weight ==> Fired(Input, weight, tokens) == Ok(tokens - weight)
    ensures tokens < weight ==> Fired(Input, weight, tokens) == Ok(tokens)
    ensures weight < 0 ==> Active(Input, weight, tokens) && Fired(Input, weight, tokens) == Err(NegativeRemoveCount)
  {
    RemoveClamps(tokens, weight);
  }

  /** An output arc is always active and adds exactly its weight; a negative weight makes `fire` fail. */
  lemma OutputArcFiring(weight: int, tokens: nat)
    ensures Active(Output, weight, tokens)
    ensures weight >= 0 ==> Fired(Output, weight, tokens) == Ok(tokens + weight)
    ensures weight < 0 ==> Fired(Output, weight, tokens) == Err(NegativeAddCount)
  {
  }

  /** A zero (inhibitor) arc is active iff the place is empty, whatever its weight, and firing it changes nothing. */
  lemma ZeroArcFiring(weight: int, weight': int, tokens: nat)
    ensures Active(Zero, weight, tokens) <==> tokens == 0
    ensures Active(Zero, weight, tokens) == Active(Zero, weight', tokens)
    ensures Fired(Zero, weight, tokens) == Ok(tokens)
  {
  }

  /** A reset arc is active iff the place is non-empty; firing it empties the place, never fails, and is idempotent. */
  lemma ResetArcFiring(weight: int, tokens: nat)
    ensures Active(Reset, weight, tokens) <==> tokens > 0
    ensures Fired(Reset, weight, tokens) == Ok(0)
    ensures Fired(Reset, weight, Fired(Reset, weight, tokens).value) == Fired(Reset, weight, tokens)
  {
    RemoveAllEmpties(tokens);
    RemoveAllEmpties(0);
  }

  /**
   * The input-side arcs one transition has on one place, in the order its
   * input set happens to be iterated: pairs of kind and weight.
   */
  type PlaceArcs = seq<(Kind, int)>

  /** No Output arcs and no two arcs of the same kind: what structural arc equality guarantees within one input set. */
  predicate OneOfEachKind(arcs: PlaceArcs)
  {
    && (forall i :: 0 <= i < |arcs| ==> arcs[i].0.FromPlace())
    && (forall i, j :: 0 <= i < j < |arcs| ==> arcs[i].0 != arcs[j].0)
  }

  /**
   * Firing the arcs one after the other, stopping at the first error, as the
   * loop of `Transition.fire` does. This sequence view and the loop of
   * `Arcs.Transition.Fire` are parallel statements: neither is derived from
   * the other, but both are proved equal to the one closed form `Consumed`
   * (here by `FireInOrderClosedForm`, there through `ConsumedStep`, which
   * `Arcs.ConsumedSoFarStep` applies at each turn of the loop).
   */
  function FireInOrder(arcs: PlaceArcs, tokens: nat): Result<nat, PlaceError>
    decreases |arcs|
  {
    if arcs == [] then Ok(tokens)
    else match Fired(arcs[0].0, arcs[0].1, tokens)
      case Err(e) => Err(e)
      case Ok(t) => FireInOrder(arcs[1..], t)
  }

  /** Whether a reset arc is among the arcs. */
  function HasReset(arcs: PlaceArcs): bool
  {
    exists i :: 0 <= i < |arcs| && arcs[i].0 == Reset
  }

  /** The weight of the plain input arc among the arcs, if there is one (the first, if several). */
  function InputWeight(arcs: PlaceArcs): Option<int>
    decreases |arcs|
  {
    if arcs == [] then None
    else if arcs[0].0 == Input then Some(arcs[0].1)
    else InputWeight(arcs[1..])
  }

  /**
   * What the input arcs of one transition leave in one place, in closed form:
   * a negative input weight fails; otherwise a reset arc empties the place;
   * otherwise an input arc takes its weight if there is enough; a zero arc
   * never matters.
   */
  function Consumed(reset: bool, input: Option<int>, tokens: nat): Result<nat, PlaceError>
  {
    if input.Some? && input.value < 0 then Err(NegativeRemoveCount)
    else if reset then Ok(0)
    else if input.Some? && input.value <= tokens then Ok(tokens - input.value)
    else Ok(tokens)
  }

  /**
   * One more arc of a kind not yet present, fired after the others, gives the
   * closed form with that arc included.
   */
  lemma ConsumedStep(kind: Kind, weight: int, reset: bool, input: Option<int>, tokens: nat)
    requires kind.FromPlace()
    requires kind == Reset ==> !reset
    requires kind == Input ==> input.None?
    requires Consumed(reset, input, tokens).Ok?
    ensures Fired(kind, weight, Consumed(reset, input, tokens).value)
         == Consumed(reset || kind == Reset, if kind == Input then Some(weight) else input, tokens)
  {
  }

  /**
   * One more arc of a kind not yet present, fired before the others, gives
   * the closed form with that arc included.
   */
  lemma ConsumedFirst(kind: Kind, weight: int, reset: bool, input: Option<int>, tokens: nat)
    requires kind.FromPlace()
    requires kind == Reset ==> !reset
    requires kind == Input ==> input.None?
    ensures Fired(kind, weight, tokens).Err? ==> kind == Input && weight < 0
    ensures Fired(kind, weight, tokens).Ok? ==>
      Consumed(reset, input, Fired(kind, weight, tokens).value)
        == Consumed(reset || kind == Reset, if kind == Input then Some(weight) else input, tokens)
  {
  }

  /** Firing the input arcs in any order gives the closed form. */
  lemma {:induction false} FireInOrderClosedForm(arcs: PlaceArcs, tokens: nat)
    requires OneOfEachKind(arcs)
    ensures FireInOrder(arcs, tokens) == Consumed(HasReset(arcs), InputWeight(arcs), tokens)
    decreases |arcs|
  {
    if arcs != [] {
      var rest := arcs[1..];
      assert OneOfEachKind(rest) by {
        forall i, j | 0 <= i < j < |rest| ensures rest[i].0 != rest[j].0 {
          assert rest[i] == arcs[i + 1] && rest[j] == arcs[j + 1];
        }
      }
      assert HasReset(arcs) <==> arcs[0].0 == Reset || HasReset(rest) by {
        if HasReset(rest) {
          var i :| 0 <= i < |rest| && rest[i].0 == Reset;
          assert arcs[i + 1].0 == Reset;
        }
        if HasReset(arcs) && arcs[0].0 != Reset {
          var i :| 0 <= i < |arcs| && arcs[i].0 == Reset;
          assert rest[i - 1].0 == Reset;
        }
      }
      InputWeightAbsent(rest, arcs[0].0);
      forall i | 0 <= i < |rest| ensures rest[i].0 != arcs[0].0 {
        assert rest[i] == arcs[i + 1];
      }
      var k, w := arcs[0].0, arcs[0].1;
      match Fired(k, w, tokens)
      case Err(e) =>
      case Ok(t) =>
        FireInOrderClosedForm(rest, t);
        ConsumedFirst(k, w, HasReset(rest), InputWeight(rest), tokens);
    }
  }

  /** Without an input arc among them, the arcs have no input weight. */
  lemma {:induction false} InputWeightAbsent(arcs: PlaceArcs, kind: Kind)
    ensures (forall i :: 0 <= i < |arcs| ==> arcs[i].0 != Input) ==> InputWeight(arcs) == None
    decreases |arcs|
  {
    if arcs != [] {
      InputWeightAbsent(arcs[1..], kind);
      if forall i :: 0 <= i < |arcs| ==> arcs[i].0 != Input {
        assert forall i :: 0 <= i < |arcs[1..]| ==> arcs[1..][i].0 != Input by {
          forall i | 0 <= i < |arcs[1..]| ensures arcs[1..][i].0 != Input {
            assert arcs[1..][i] == arcs[i + 1];
          }
        }
      }
    }
  }

  /** The input weight is the weight of the one input arc among the arcs, and there is none without one. */
  lemma {:induction false} InputWeightFound(arcs: PlaceArcs)
    requires OneOfEachKind(arcs)
    ensures InputWeight(arcs).Some? <==> exists i :: 0 <= i < |arcs| && arcs[i].0 == Input
    ensures forall i :: 0 <= i < |arcs| && arcs[i].0 == Input ==> InputWeight(arcs) == Some(arcs[i].1)
    decreases |arcs|
  {
    if arcs != [] {
      var rest := arcs[1..];
      forall i | 0 <= i < |rest| ensures rest[i] == arcs[i + 1] && rest[i].0 != arcs[0].0 {
      }
      InputWeightFound(rest);
    }
  }

  /**
   * The iteration order of a transition's input set does not matter: any two
   * orders of the same arcs leave the place with the same count, or fail alike.
   */
  lemma FireOrderIrrelevant(a: PlaceArcs, b: PlaceArcs, tokens: nat)
    requires OneOfEachKind(a) && OneOfEachKind(b)
    requires multiset(a) == multiset(b)
    ensures FireInOrder(a, tokens) == FireInOrder(b, tokens)
  {
    FireInOrderClosedForm(a, tokens);
    FireInOrderClosedForm(b, tokens);
    InputWeightFound(a);
    InputWeightFound(b);
    forall x | x in a ensures x in b {
      assert x in multiset(a);
    }
    forall x | x in b ensures x in a {
      assert x in multiset(b);
    }
    if HasReset(a) {
      var i :| 0 <= i < |a| && a[i].0 == Reset;
      assert a[i] in b;
    }
    if HasReset(b) {
      var i :| 0 <= i < |b| && b[i].0 == Reset;
      assert b[i] in a;
    }
    if InputWeight(a).Some? {
      var i :| 0 <= i < |a| && a[i].0 == Input;
      assert a[i] in b;
    }
    if InputWeight(b).Some? {
      var i :| 0 <= i < |b| && b[i].0 == Input;
      assert b[i] in a;
    }
  }
}
