# Petri-net token flow, modelled in Dafny

This project models the token-flow core of the `sadokmelina` Petri-net package of a Petri-net editor.

- **Place.** A place counts tokens. Adding a negative count is an error. Removing more tokens than the place holds empties it.
- **Arcs.** An arc joins one place and one transition and has one of four kinds:
  - an input arc takes its weight from the place when there is enough;
  - an output arc adds its weight to the place;
  - a zero (inhibitor) arc is active only on an empty place and never changes it;
  - a reset arc is active on a non-empty place and empties it.
- **Transition.** A transition holds the arcs entering it and the arcs leaving it. It can fire when every entering arc is active. `fire` fires every entering arc, then every leaving arc, and does not check whether it can fire.
- **Network.** The network registers places, transitions and arcs and keeps the arc sets of its transitions in step with its own arc set. Adding an arc registers its endpoints and rejects a duplicate. Removing an arc also takes it out of its transition; removing a place or a transition also removes the arcs incident to it.
- **Adapters.** Two editor adapters act on the model:
  - the place adapter adds, removes and sets tokens;
  - the arc adapter classifies arcs and reads or writes the weight as a "multiplicity".

Modules, one file each:

- `Results`: result and outcome datatypes.
- `Ids`: the incrementing id counters of places, arcs and transitions, passed as an explicit allocator.
- `Places`: the place class and the value-level add and remove rules.
- `Firing`: what each arc kind does to one token count, and why the order of firing does not matter.
- `Arcs`: the arc class, the constructor checks and the transition class.
- `Network`: the network class.
- `Adapters`: the place and arc adapters.

Java's hash sets compare elements with `equals`, so each set is modelled as a map keyed by the compared value:

- the place set maps a place id to the place;
- the arc sets map an `ArcKey` to the arc, where the key holds the kind, the place id and the transition reference;
- transitions have no `equals` and stay a plain set of references.

`add` keeps the element already filed under an equal key, and `remove` drops whichever equal element is present. Iteration over a hash set visits its elements in an unspecified order, which the model picks with `:|`.

Three behaviours of the code that a reader may not expect:

- A duplicate arc is rejected only after its place and transition have been registered, so a failing `addArc` can still change the place and transition sets (PetriNetwork.java:150-161).
- `setTokens` is not atomic. A negative count fails after the place has already been emptied.
- An input or output arc whose weight was set negative makes `fire` raise part way through, instead of every arc effect always running.

## Model

| member | source | states |
|---|---|---|
| Ids.IdCounter.Take | src/main/org/pneditor/petrinet/models/sadokmelina/AArc.java:19-22 | hands out the current counter value and advances the counter by exactly one |
| Ids.IdCounter.constructor | src/main/org/pneditor/petrinet/models/sadokmelina/AArc.java:11 | a counter starts at 1, as the static `nextID` of arcs (and `NextID` of places and transitions) does |
| Places.AddedTokens | src/main/org/pneditor/petrinet/models/sadokmelina/Place.java:60-65 | adding fails exactly on a negative count, with the add error; otherwise the new count exceeds the old by exactly the count |
| Places.RemovedTokens | src/main/org/pneditor/petrinet/models/sadokmelina/Place.java:71-80 | the count `removeTokens` leaves, or its negative-count error; its meaning (error iff negative, exact subtraction, clamp to 0) is stated by `Places.RemoveClamps` |
| Places.RemoveClamps | src/main/org/pneditor/petrinet/models/sadokmelina/Place.java:71-80 | removal fails exactly on a negative count, with the remove error; otherwise it never raises the count, subtracts exactly when there are enough tokens and leaves 0 when there are not |
| Places.RemoveUndoesAdd | src/main/org/pneditor/petrinet/models/sadokmelina/Place.java:60-80 | removing a non-negative count just added restores the original count |
| Places.RemoveAllEmpties | src/main/org/pneditor/petrinet/models/sadokmelina/Place.java:75-79 | removing the whole count succeeds and leaves 0 |
| Places.Place.constructor | src/main/org/pneditor/petrinet/models/sadokmelina/Place.java:23-29 | a validated place keeps the given id and count |
| Places.Place.AddTokens | src/main/org/pneditor/petrinet/models/sadokmelina/Place.java:60-65 | a negative count fails and leaves the place as it was; otherwise the count grows by exactly the argument |
| Places.Place.RemoveTokens | src/main/org/pneditor/petrinet/models/sadokmelina/Place.java:71-80 | a negative count fails and leaves the place as it was; otherwise the new count is the clamped difference |
| Places.Place.SamePlace | src/main/org/pneditor/petrinet/models/sadokmelina/Place.java:88-94 | `equals`: two places are equal exactly when their ids agree; `Places.NewPlacesDiffer` shows that separately built places are never equal |
| Places.NewPlace | src/main/org/pneditor/petrinet/models/sadokmelina/Place.java:23-29 | the id is used up even when construction fails; construction fails exactly on a negative initial count; a new place holds the next id and the given count |
| Places.NewPlacesDiffer | src/main/org/pneditor/petrinet/models/sadokmelina/Place.java:88-94 | places built from one counter, with a construction in between that may have failed, get ids at least two apart and so are never equal; the counter advances by three |
| Firing.InputArcFiring | src/org/pneditor/petrinet/models/sadokmelina/InputArc.java:127-139 | with a non-negative weight, an input arc is active iff the place holds at least the weight, and firing then takes exactly the weight; firing an inactive arc changes nothing; a negative weight makes the arc always active and makes firing raise the remove error |
| Firing.Active | src/org/pneditor/petrinet/models/sadokmelina/InputArc.java:127-129 | `isActive` of all four kinds over one count: the input arc here, and the overrides at OutputArc.java:126-128, ZeroArc.java:37-39 and ResetArc.java:39-41; its meaning per kind is stated by `Firing.InputArcFiring`, `Firing.OutputArcFiring`, `Firing.ZeroArcFiring` and `Firing.ResetArcFiring` |
| Firing.Fired | src/org/pneditor/petrinet/models/sadokmelina/InputArc.java:135-139 | `fire` of all four kinds on one count: the guarded input arc here, and the overrides at OutputArc.java:134-136, ZeroArc.java:46-48 and ResetArc.java:48-50; its meaning per kind is stated by the same four lemmas |
| Firing.OutputArcFiring | src/main/org/pneditor/petrinet/models/sadokmelina/OutputArc.java:126-136 | an output arc is always active and adds exactly its weight; a negative weight makes firing raise the add error |
| Firing.ZeroArcFiring | src/org/pneditor/petrinet/models/sadokmelina/ZeroArc.java:37-48 | a zero arc is active iff the place is empty, whatever its weight, and firing it leaves the count unchanged |
| Firing.ResetArcFiring | src/main/org/pneditor/petrinet/models/sadokmelina/ResetArc.java:39-50 | a reset arc is active iff the place is non-empty; firing it leaves 0, never fails, and firing twice equals firing once |
| Firing.ConsumedStep | src/main/org/pneditor/petrinet/models/sadokmelina/Transition.java:134-136 | firing one more input-side arc of a new kind after the others gives the closed form with that arc included |
| Firing.ConsumedFirst | src/main/org/pneditor/petrinet/models/sadokmelina/Transition.java:134-136 | firing one more input-side arc of a new kind before the others gives the closed form with that arc included, and only a negative input weight fails |
| Firing.FireOrderIrrelevant | src/main/org/pneditor/petrinet/models/sadokmelina/Transition.java:132-136 | any two iteration orders of the same input-side arcs on one place leave the same count or fail alike |
| Firing.FireInOrderClosedForm | src/main/org/pneditor/petrinet/models/sadokmelina/Transition.java:134-136 | firing the input-side arcs on one place in a given order equals the closed form: a negative input weight fails; otherwise a reset arc empties the place; otherwise an input arc takes its weight if there is enough |
| Firing.InputWeightFound | src/main/org/pneditor/petrinet/models/sadokmelina/Transition.java:134-136 | the closed form sees an input weight exactly when an input arc is among the arcs, and it is that arc's weight |
| Arcs.Arc.constructor | src/org/pneditor/petrinet/models/sadokmelina/InputArc.java:24-48 | a validated arc keeps its id, kind, endpoints and weight as given |
| Arcs.Arc.SetWeight | src/org/pneditor/petrinet/models/sadokmelina/InputArc.java:80-82 | stores any weight without a check |
| Arcs.Arc.Fire | src/org/pneditor/petrinet/models/sadokmelina/InputArc.java:135-139 | the arc's place changes only as the arc's kind defines; an error leaves the place unchanged and reports the place error; no other object changes |
| Arcs.Arc.IsActive | src/org/pneditor/petrinet/models/sadokmelina/InputArc.java:127-129 | `isActive` of the arc over its place's current count, as `Firing.Active` gives for its kind and weight |
| Arcs.Arc.Key | src/org/pneditor/petrinet/models/sadokmelina/InputArc.java:99-120 | the fields `equals` compares: the concrete class, the place (by id) and the transition (by reference), while `hashCode` uses the place and transition only; weight and id are not part of it |
| Arcs.Arc.SameArc | src/org/pneditor/petrinet/models/sadokmelina/InputArc.java:99-110 | `equals` of InputArc and its subclasses, and of OutputArc (OutputArc.java:97-108): equal keys; `Arcs.SameArcMeans` states what that means |
| Arcs.SameArcMeans | src/org/pneditor/petrinet/models/sadokmelina/InputArc.java:99-110 | two arcs are equal iff they have the same kind, equal places and the same transition; weight and id do not matter, and different kinds are never equal |
| Arcs.InputArcCheck | src/org/pneditor/petrinet/models/sadokmelina/InputArc.java:24-48 | validation passes iff both endpoints are present and the weight is positive, or zero on a zero arc; each error is stated: a missing place first, then a missing transition, then a negative weight, then a zero weight on anything but a zero arc |
| Arcs.OutputArcCheck | src/main/org/pneditor/petrinet/models/sadokmelina/OutputArc.java:25-46 | validation passes iff both endpoints are present and the weight is positive; each error is stated: a missing transition first, then a missing place, then a weight of 0 or less |
| Arcs.FixedWeightsPass | src/org/pneditor/petrinet/models/sadokmelina/ZeroArc.java:19-21 | the zero arc's weight 0 and the reset arc's weight 2147483647 always pass; weight 0 fails for an input arc; a weight up to 0 fails for an output arc |
| Arcs.NewArc | src/main/org/pneditor/petrinet/models/sadokmelina/AArc.java:19-22 | the arc id is drawn before validation and is used up even on failure; construction fails exactly when validation does, with its error; a new arc holds the drawn id, kind, endpoints and weight |
| Arcs.NewZeroArc | src/org/pneditor/petrinet/models/sadokmelina/ZeroArc.java:19-21 | fails only on a missing place or transition, in that order; otherwise it builds a zero arc of weight 0 holding the drawn counter value as its id |
| Arcs.NewResetArc | src/main/org/pneditor/petrinet/models/sadokmelina/ResetArc.java:19-21 | fails only on a missing place or transition, in that order; otherwise it builds a reset arc of weight 2147483647 holding the drawn counter value as its id |
| Arcs.NewArcsDiffer | src/main/org/pneditor/petrinet/models/sadokmelina/AArc.java:11-22 | a zero arc and a reset arc built from one counter, with an arc of any kind built (or failing) in between, get strictly increasing ids at least two apart; the counter advances by three |
| Arcs.ConsumedSoFarStep | src/main/org/pneditor/petrinet/models/sadokmelina/Transition.java:134-136 | firing one more input arc keeps the closed form for its own place and leaves every other place as it was |
| Arcs.OutputAmongStep | src/main/org/pneditor/petrinet/models/sadokmelina/Transition.java:138-140 | firing one more output arc adds its weight to its own place only |
| Arcs.Transition.constructor | src/main/org/pneditor/petrinet/models/sadokmelina/Transition.java:30-34 | a new transition takes the next id and has two empty arc sets |
| Arcs.Transition.AddInputArc | src/main/org/pneditor/petrinet/models/sadokmelina/Transition.java:39-41 | adds the arc unless an equal one is present, which is then kept; the output set does not change |
| Arcs.Transition.RemoveInputArc | src/main/org/pneditor/petrinet/models/sadokmelina/Transition.java:46-48 | removes whichever equal arc is present; with none, nothing changes; the output set does not change |
| Arcs.Transition.AddOutputArc | src/main/org/pneditor/petrinet/models/sadokmelina/Transition.java:53-55 | adds the arc unless an equal one is present; the input set does not change |
| Arcs.Transition.RemoveOutputArc | src/main/org/pneditor/petrinet/models/sadokmelina/Transition.java:60-62 | removes whichever equal arc is present; the input set does not change |
| Arcs.Transition.CanFire | src/main/org/pneditor/petrinet/models/sadokmelina/Transition.java:120-127 | true iff every input arc is active, which holds vacuously for no input arcs; changes nothing |
| Arcs.Transition.Fire | src/main/org/pneditor/petrinet/models/sadokmelina/Transition.java:132-141 | without checking enablement, fire succeeds iff no input arc and no output arc has a negative weight; on success every touched place ends with the closed form of its input-side arcs plus its output weight, whatever the iteration order |
| Arcs.Transition.FireInputs | src/main/org/pneditor/petrinet/models/sadokmelina/Transition.java:134-136 | the input loop succeeds iff no input arc has a negative weight, and then leaves every place at its closed form |
| Arcs.Transition.FireInputArcs | src/main/org/pneditor/petrinet/models/sadokmelina/Transition.java:134-136 | the input loop in any order of visits: stops at the first failing arc, and on success reaches the closed form |
| Arcs.Transition.FireInputArc | src/main/org/pneditor/petrinet/models/sadokmelina/Transition.java:135 | one turn of the input loop: fails iff the arc is an input arc with a negative weight; on success the arc's own place moves one step closer to its closed form and every other place keeps its progress |
| Arcs.Transition.FireOutputs | src/main/org/pneditor/petrinet/models/sadokmelina/Transition.java:138-140 | the output loop succeeds iff no output arc has a negative weight, and then adds to each place exactly its output arc's weight |
| Arcs.Transition.FireOutputArcs | src/main/org/pneditor/petrinet/models/sadokmelina/Transition.java:138-140 | the output loop in any order of visits: each place gains its output arc's weight |
| Arcs.Transition.FireOutputArc | src/main/org/pneditor/petrinet/models/sadokmelina/Transition.java:139 | one turn of the output loop: fails iff the weight is negative; on success the arc's place gains exactly its weight and every other place keeps its progress |
| Network.IncidentArcs | src/main/org/pneditor/petrinet/models/sadokmelina/PetriNetwork.java:163-172 | the arcs a transition's input set (input, zero and reset arcs) or output set (output arcs) must hold: exactly the network arcs naming it on that side |
| Network.IncidentAfterAdd | src/main/org/pneditor/petrinet/models/sadokmelina/PetriNetwork.java:163-172 | a new arc joins the incident arcs of its own transition and side only |
| Network.IncidentAfterRemove | src/main/org/pneditor/petrinet/models/sadokmelina/PetriNetwork.java:181-205 | removing an arc takes it out of the incident arcs of its own transition and side only |
| Network.NoIncidentArcs | src/main/org/pneditor/petrinet/models/sadokmelina/PetriNetwork.java:64-82 | a transition has no incident arcs on either side iff no network arc names it |
| Network.IncidentAfterRemoving | src/main/org/pneditor/petrinet/models/sadokmelina/PetriNetwork.java:70-75 | removing all of a transition's arcs on one side empties that side and leaves every other transition and side as it was |
| Network.Remaining | src/main/org/pneditor/petrinet/models/sadokmelina/PetriNetwork.java:104-118 | what a removal loop has left so far: the arcs not doomed plus the doomed ones still to visit |
| Network.OnPlace | src/main/org/pneditor/petrinet/models/sadokmelina/PetriNetwork.java:105-117 | the arcs `removePlace` removes: exactly those whose place is the removed one |
| Network.RemainingAtStart | src/main/org/pneditor/petrinet/models/sadokmelina/PetriNetwork.java:104 | before any visit, nothing is removed |
| Network.RemainingStep | src/main/org/pneditor/petrinet/models/sadokmelina/PetriNetwork.java:104-118 | visiting one arc removes it exactly when it is doomed |
| Network.RemainingNone | src/main/org/pneditor/petrinet/models/sadokmelina/PetriNetwork.java:70-75 | once every arc of a set has been visited and removed, nothing is left |
| Network.LinkedAfterFiling | src/main/org/pneditor/petrinet/models/sadokmelina/PetriNetwork.java:163-172 | filing a new arc into the network and its own transition keeps every transition's sets equal to its incident arcs |
| Network.PetriNetwork.constructor | src/main/org/pneditor/petrinet/models/sadokmelina/PetriNetwork.java:26-30 | a new network has no places, transitions or arcs, and is consistent |
| Network.PetriNetwork.AddPlace | src/main/org/pneditor/petrinet/models/sadokmelina/PetriNetwork.java:89-91 | registers the place unless one with its id is present; nothing else changes; consistency is kept |
| Network.PetriNetwork.AddTransition | src/main/org/pneditor/petrinet/models/sadokmelina/PetriNetwork.java:55-57 | registers the transition; consistency is kept when it was registered already or holds no arcs |
| Network.PetriNetwork.AddArc | src/main/org/pneditor/petrinet/models/sadokmelina/PetriNetwork.java:131-173 | registers the arc's place and transition even when the arc is then rejected; fails with "already exists" iff an equal arc is in the network, leaving the arcs and the transition unchanged; otherwise adds the arc to the network and to its transition's input set (input, zero, reset) or output set (output); keeps the network consistent |
| Network.PetriNetwork.FileArc | src/main/org/pneditor/petrinet/models/sadokmelina/PetriNetwork.java:163-172 | a new arc goes into the arc set and into its transition's set on its side only, keeping every invariant |
| Network.PetriNetwork.RemoveArc | src/main/org/pneditor/petrinet/models/sadokmelina/PetriNetwork.java:181-205 | removes the equal arc from the network and, if one was present, from its transition's set on its side; an absent arc changes nothing; every invariant is kept |
| Network.PetriNetwork.RemovePlace | src/main/org/pneditor/petrinet/models/sadokmelina/PetriNetwork.java:98-124 | a registered place is removed together with exactly the arcs on it, input-side arcs from it and output arcs to it; all other arcs stay; an unregistered place changes nothing; every invariant is kept |
| Network.PetriNetwork.RemoveEachOnPlace | src/main/org/pneditor/petrinet/models/sadokmelina/PetriNetwork.java:104-118 | the loop over the copied arc set removes exactly the arcs on the place and keeps the transitions' sets in step |
| Network.PetriNetwork.RemoveOnPlaceStep | src/main/org/pneditor/petrinet/models/sadokmelina/PetriNetwork.java:105-117 | one visit removes the visited arc exactly when it lies on the place |
| Network.PetriNetwork.RemoveIncident | src/main/org/pneditor/petrinet/models/sadokmelina/PetriNetwork.java:70-75 | removes every arc of one side of a transition from the network and the transition, iterating over a copy; the other side and all other arcs stay |
| Network.PetriNetwork.RemoveEachIncident | src/main/org/pneditor/petrinet/models/sadokmelina/PetriNetwork.java:70-75 | the loop over the copy removes every visited arc from both the network and the transition's set |
| Network.PetriNetwork.RemoveIncidentStep | src/main/org/pneditor/petrinet/models/sadokmelina/PetriNetwork.java:71 | one visit takes the visited arc out of the network and the transition's set |
| Network.PetriNetwork.RemoveTransition | src/main/org/pneditor/petrinet/models/sadokmelina/PetriNetwork.java:64-82 | the intended cascade: a registered transition is unregistered with exactly the arcs naming it, leaving its sets empty; all other arcs stay; an unregistered transition changes nothing; the network stays consistent |
| Network.PetriNetwork.RemoveTransitionAsWritten | src/main/org/pneditor/petrinet/models/sadokmelina/PetriNetwork.java:64-82 | the transition is unregistered first; the removal then fails with a concurrent-modification error iff one of its two sets held two arcs or more; after a failure an arc naming the unregistered transition is left in the network, which is no longer consistent |
| Network.PetriNetwork.RemoveWhileIterating | src/main/org/pneditor/petrinet/models/sadokmelina/PetriNetwork.java:70-72 | a for-each over a live set that removes each visited arc fails iff the set held two or more arcs; a failure has removed exactly one arc and left another of the set in the network; with fewer arcs, it removes them all from the set and the network; arcs stay filed under their own keys |
| Network.PetriNetwork.Fire | src/main/org/pneditor/petrinet/models/sadokmelina/PetriNetwork.java:36-48 | fires iff the transition is enabled; otherwise no place changes; when it fires, the result is that of the transition's own `fire` |
| Network.RegisteredWellFormed | src/main/org/pneditor/petrinet/models/sadokmelina/PetriNetwork.java:131-173 | a transition registered in a consistent network is valid and well formed (its sets hold only arcs of the right side naming it, as `addArc` files them), so the outcome clauses of the network's `fire` apply to it |
| Network.RemoveTransitionAsWrittenFails | src/main/org/pneditor/petrinet/models/sadokmelina/PetriNetwork.java:64-82 | on that network, the removal as written fails with the concurrent-modification error, leaving no transition but an arc behind, so the network is inconsistent |
| Network.RemoveTransitionEmpties | src/main/org/pneditor/petrinet/models/sadokmelina/PetriNetwork.java:64-82 | on that network, the corrected removal leaves no arcs and no transitions, and a consistent network |
| Adapters.AfterSetTokens | src/main/org/pneditor/petrinet/adapters/sadokmelina/PlaceAdapter.java:73-77 | setting a count leaves exactly that count when it is non-negative; a negative count fails with the add error and leaves 0 |
| Adapters.SetTokensNotAtomic | src/main/org/pneditor/petrinet/adapters/sadokmelina/PlaceAdapter.java:73-77 | a failing set on a non-empty place still changes the place |
| Adapters.SetTokensOverwrites | src/main/org/pneditor/petrinet/adapters/sadokmelina/PlaceAdapter.java:73-77 | setting twice equals setting the second count once |
| Adapters.PlaceAdapter.constructor | src/main/org/pneditor/petrinet/adapters/sadokmelina/PlaceAdapter.java:25-28 | wraps the given place |
| Adapters.PlaceAdapter.AddToken | src/main/org/pneditor/petrinet/adapters/sadokmelina/PlaceAdapter.java:43-45 | the count grows by exactly one |
| Adapters.PlaceAdapter.RemoveToken | src/main/org/pneditor/petrinet/adapters/sadokmelina/PlaceAdapter.java:51-54 | the count drops by one, but an empty place stays at 0 |
| Adapters.PlaceAdapter.GetTokens | src/main/org/pneditor/petrinet/adapters/sadokmelina/PlaceAdapter.java:62-64 | returns the wrapped place's count |
| Adapters.PlaceAdapter.SetTokens | src/main/org/pneditor/petrinet/adapters/sadokmelina/PlaceAdapter.java:73-77 | the place ends as `AfterSetTokens` describes: emptied first, then the count added, which fails on a negative count |
| Adapters.SetThenGetTokens | src/main/org/pneditor/petrinet/adapters/sadokmelina/PlaceAdapter.java:62-77 | reading back after setting a non-negative count gives that count; after a negative one, 0 |
| Adapters.ArcAdapter.constructor | src/main/org/pneditor/petrinet/adapters/sadokmelina/ArcAdapter.java:32-36 | stores the arc, source and destination as given |
| Adapters.ArcAdapter.IsSourceAPlace | src/main/org/pneditor/petrinet/adapters/sadokmelina/ArcAdapter.java:73-78 | the stored source node is a place adapter; `Adapters.SourceIsPlaceIffInputSide` ties it to the arc's kind |
| Adapters.ArcAdapter.IsReset | src/main/org/pneditor/petrinet/adapters/sadokmelina/ArcAdapter.java:86-92 | the wrapped arc is a reset arc; `Adapters.ExactlyOneClass` shows the three classifications partition the kinds |
| Adapters.ArcAdapter.IsRegular | src/main/org/pneditor/petrinet/adapters/sadokmelina/ArcAdapter.java:100-106 | the wrapped arc is neither a reset arc nor a zero arc, that is, an input or output arc, as `Adapters.ExactlyOneClass` states |
| Adapters.ArcAdapter.IsInhibitory | src/main/org/pneditor/petrinet/adapters/sadokmelina/ArcAdapter.java:114-120 | the wrapped arc is a zero arc; exactly one of the three classifications holds, by `Adapters.ExactlyOneClass` |
| Adapters.ArcAdapter.Multiplicity | src/main/org/pneditor/petrinet/adapters/sadokmelina/ArcAdapter.java:130-135 | fails with the reset-arc error iff the arc is a reset arc; otherwise returns its weight |
| Adapters.ArcAdapter.SetMultiplicity | src/main/org/pneditor/petrinet/adapters/sadokmelina/ArcAdapter.java:145-150 | a reset arc refuses and keeps its weight; any other arc stores the value unchecked, so the multiplicity then reads back that value; an inhibitory arc's activity does not change |
| Adapters.ExactlyOneClass | src/main/org/pneditor/petrinet/adapters/sadokmelina/ArcAdapter.java:87-120 | every arc is exactly one of reset, inhibitory and regular, and regular means an input or output arc |
| Adapters.SourceIsPlaceIffInputSide | src/main/org/pneditor/petrinet/adapters/sadokmelina/ArcAdapter.java:73-78 | for an adapter whose endpoints are its arc's, the source is a place iff the arc is an input, zero or reset arc |

## Left out

- `toString`, every `main` demo and the `System.out` messages of the network are output only. They are modelled as changing nothing.
- The editor's network and transition adapters are left out. They are glue to editor classes that are not part of this model.
- The editor node an arc adapter holds is either a place adapter or a bare transition, not a transition adapter. The adapters' editor labels are not modelled.
- The getters that return a network's or a transition's internal sets are left out. The aliasing they allow is not modelled.
- Places.Place.AddTokens: counts are unbounded integers, so Java's 32-bit overflow of `tokens += count` is not modelled. The same holds for Adapters.PlaceAdapter.AddToken and the id counters.
- Arcs.Transition.Fire: the result is stated only for a transition whose sets hold arcs of the right side naming it, which the network keeps. The places left by a `fire` that fails part way are not described beyond the failure itself.
- Network.PetriNetwork.Fire: inherits the same two limits from the transition's `fire`; `Network.RegisteredWellFormed` shows the first one holds for every transition registered in a consistent network.
- Network.PetriNetwork.AddArc: the rollback in `addArc` when filing into the transition throws is not modelled. Filing into a hash set cannot throw, so that branch never runs.
- Network.PetriNetwork.RemovePlace: requires every arc and place to be filed under its own key. Java's hash sets guarantee this themselves.
- Network.PetriNetwork.RemoveTransition: requires the network to be consistent. It removes the incident arcs before unregistering the transition, not after; the end state is the same.
- Network.PetriNetwork.RemoveTransitionAsWritten: requires the same consistency as the corrected removal.
- Network.PetriNetwork.RemoveWhileIterating: the fail-fast iterator's modification counter is modelled by comparing the live set with the set the iteration began over. Within this loop, a set that changed never changes back.
- The order of hash-set iteration is not modelled. Every order is allowed, and the order-independence lemmas show that the result does not depend on it.

## Findings

| source | as written | input that shows it | evidently intended | confidence | as-written member | corrected member |
|---|---|---|---|---|---|---|
| src/main/org/pneditor/petrinet/models/sadokmelina/PetriNetwork.java:64-82 | removes the transition, then iterates its live input and output sets while `removeArc` deletes from those same sets, so the second step of the iteration raises ConcurrentModificationException; the transition is then already gone and some of its arcs are left behind | a network with one place and one transition joined by an input arc and a zero arc | remove the transition and every arc incident to it, iterating over a copy as `removePlace` does | not executed | Network.RemoveTransitionAsWrittenFails | Network.RemoveTransitionEmpties |
