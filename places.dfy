/**
 * A place of the Petri network: a token counter that never goes below zero.
 * Adding a negative count is an error; removing more than is there empties
 * the place instead of failing.
 */
module Places {
  import opened Results
  import opened Ids

  /** The three PlaceExceptions messages of the source. */
  datatype PlaceError =
    | NegativeInitialTokens  // "Number of tokens cannot be negative"
    | NegativeAddCount       // "Number of tokens to add cannot be negative"
    | NegativeRemoveCount    // "Number of tokens to remove cannot be negative"

  /** The count a place holds after `addTokens(count)`, or the error it raises. */
  function AddedTokens(tokens: nat, count: int): (r: Result<nat, PlaceError>)
    ensures r.Err? <==> count < 0
    ensures r.Err? ==> r.error == NegativeAddCount
    ensures r.Ok? ==> r.value >= tokens && r.value - tokens == count
  {
    if count < 0 then Err(NegativeAddCount) else Ok(tokens + count)
  }

  /** The count a place holds after `removeTokens(count)`, or the error it raises. */
  function RemovedTokens(tokens: nat, count: int): (r: Result<nat, PlaceError>)
  {
    if count < 0 then Err(NegativeRemoveCount)
    else if tokens >= count then Ok(tokens - count)
    else Ok(0)
  }

  /**
   * Removal is lenient: a non-negative count never fails, takes away exactly
   * `count` when there are enough tokens and clamps at zero otherwise.
   */
  lemma RemoveClamps(tokens: nat, count: int)
    ensures RemovedTokens(tokens, count).Err? <==> count < 0
    ensures RemovedTokens(tokens, count).Err? ==> RemovedTokens(tokens, count).error == NegativeRemoveCount
    ensures count >= 0 ==> RemovedTokens(tokens, count).value <= tokens
    ensures 0 <= count <= tokens ==> RemovedTokens(tokens, count).value + count == tokens
    ensures count > tokens ==> RemovedTokens(tokens, count).value == 0
  {
  }

  /** Removing what was just added restores the count. */
  lemma RemoveUndoesAdd(tokens: nat, count: nat)
    ensures AddedTokens(tokens, count).Ok?
    ensures RemovedTokens(AddedTokens(tokens, count).value, count) == Ok(tokens)
  {
  }

  /** Removing everything a place holds always succeeds and leaves it empty. */
  lemma RemoveAllEmpties(tokens: nat)
    ensures RemovedTokens(tokens, tokens) == Ok(0)
  {
  }

  class Place {
    /** Drawn from the place counter at construction; the basis of equality. */
    const id: nat
    /** The token count; its type keeps it non-negative. */
    var tokens: nat

    /** The part of `new Place(tokens)` that runs once validation has passed. */
    constructor (id: nat, tokens: nat)
      ensures this.id == id && this.tokens == tokens
    {
      this.id := id;
      this.tokens := tokens;
    }

    /** `addTokens`: fails on a negative count and then changes nothing. */
    method AddTokens(count: int) returns (r: Outcome<PlaceError>)
      modifies this
      ensures r == (if count < 0 then Fail(NegativeAddCount) else Done)
      ensures tokens == (if count < 0 then old(tokens) else old(tokens) + count)
    {
      if count < 0 {
        return Fail(NegativeAddCount);
      }
      tokens := tokens + count;
      r := Done;
    }

    /** `removeTokens`: fails on a negative count, otherwise subtracts and clamps at zero. */
    method RemoveTokens(count: int) returns (r: Outcome<PlaceError>)
      modifies this
      ensures r == (if count < 0 then Fail(NegativeRemoveCount) else Done)
      ensures r.Fail? ==> tokens == old(tokens)
      ensures r.Done? ==> tokens == RemovedTokens(old(tokens), count).value
    {
      if count < 0 {
        return Fail(NegativeRemoveCount);
      }
      if tokens >= count {
        tokens := tokens - count;
      } else {
        tokens := 0;
      }
      r := Done;
    }

    /** `equals`: two places are the same place exactly when their ids agree. */
    predicate SamePlace(other: Place)
    {
      id == other.id
    }
  }

  /**
   * `new Place(tokens)`: the id is drawn before the count is checked, so a
   * rejected construction still uses up an id.
   */
  method NewPlace(tokens: int, ids: IdCounter) returns (r: Result<Place, PlaceError>)
    modifies ids
    ensures ids.next == old(ids.next) + 1
    ensures r.Err? <==> tokens < 0
    ensures r.Err? ==> r.error == NegativeInitialTokens
    ensures r.Ok? ==> fresh(r.value) && r.value.id == old(ids.next) && r.value.tokens == tokens
  {
    var id := ids.Take();
    if tokens < 0 {
      return Err(NegativeInitialTokens);
    }
    var p := new Place(id, tokens);
    r := Ok(p);
  }

  /**
   * Places built from the same counter never share an id, so they are never
   * equal, even when a construction in between, with any count, failed: the
   * failed one still used up the id between them.
   */
  method NewPlacesDiffer(t1: int, between: int, t2: int, ids: IdCounter)
    returns (r1: Result<Place, PlaceError>, r2: Result<Place, PlaceError>)
    modifies ids
    ensures ids.next == old(ids.next) + 3
    ensures r1.Ok? && r2.Ok? ==> !r1.value.SamePlace(r2.value) && r1.value.id + 1 < r2.value.id
  {
    r1 := NewPlace(t1, ids);
    var skipped := NewPlace(between, ids);
    r2 := NewPlace(t2, ids);
  }
}
