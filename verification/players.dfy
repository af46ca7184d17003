/**
 * One player's contribution (`processPlayer`): keep the items rated at or above the
 * filter's threshold, in rating order, and hand that list to the emitter.
 */
module Players {
  import opened Wrappers
  import opened Tables
  import opened Config

  /** One decoded `{"item": ..., "rating": ...}` entry of a player's `ratings` array. */
  datatype Rating = Rating(item: Item, rating: real)

  /** A rating qualifies when it is at least the threshold (ties included). */
  predicate Qualifies(r: Rating, threshold: real) {
    r.rating >= threshold
  }

  /** The qualifying items of `ratings`, in order, duplicates kept. */
  function Qualifying(ratings: seq<Rating>, threshold: real): (items: seq<Item>)
    ensures |items| <= |ratings|
    decreases |ratings|
  {
    if ratings == [] then []
    else (if Qualifies(ratings[0], threshold) then [ratings[0].item] else []) + Qualifying(ratings[1..], threshold)
  }

  /** Filtering distributes over concatenation: relative order is kept and nothing is merged. */
  lemma {:induction false} QualifyingAppend(a: seq<Rating>, b: seq<Rating>, threshold: real)
    ensures Qualifying(a + b, threshold) == Qualifying(a, threshold) + Qualifying(b, threshold)
    decreases |a|
  {
    if a == [] {
      assert a + b == b;
    } else {
      var head := if Qualifies(a[0], threshold) then [a[0].item] else [];
      assert (a + b)[0] == a[0];
      assert (a + b)[1..] == a[1..] + b;
      QualifyingAppend(a[1..], b, threshold);
      calc {
        Qualifying(a + b, threshold);
        head + Qualifying(a[1..] + b, threshold);
        head + (Qualifying(a[1..], threshold) + Qualifying(b, threshold));
        (head + Qualifying(a[1..], threshold)) + Qualifying(b, threshold);
        Qualifying(a, threshold) + Qualifying(b, threshold);
      }
    }
  }

  /** An item is kept exactly when some rating of it reaches the threshold. */
  lemma {:induction false} QualifyingMembership(ratings: seq<Rating>, threshold: real, x: Item)
    ensures x in Qualifying(ratings, threshold) <==>
              exists i | 0 <= i < |ratings| :: ratings[i].item == x && Qualifies(ratings[i], threshold)
    decreases |ratings|
  {
    if ratings != [] {
      QualifyingMembership(ratings[1..], threshold, x);
      if exists i | 0 <= i < |ratings| :: ratings[i].item == x && Qualifies(ratings[i], threshold) {
        var i :| 0 <= i < |ratings| && ratings[i].item == x && Qualifies(ratings[i], threshold);
        if i > 0 {
          assert ratings[1..][i - 1] == ratings[i];
        }
      }
      if x in Qualifying(ratings[1..], threshold) {
        var i :| 0 <= i < |ratings[1..]| && ratings[1..][i].item == x && Qualifies(ratings[1..][i], threshold);
        assert ratings[i + 1] == ratings[1..][i];
      }
    }
  }

  /** When every rating qualifies, every item is kept in place, repeated items included. */
  lemma {:induction false} QualifyingKeepsAll(ratings: seq<Rating>, threshold: real)
    requires forall i | 0 <= i < |ratings| :: Qualifies(ratings[i], threshold)
    ensures Qualifying(ratings, threshold) == seq(|ratings|, i requires 0 <= i < |ratings| => ratings[i].item)
    decreases |ratings|
  {
    if ratings != [] {
      QualifyingKeepsAll(ratings[1..], threshold);
    }
  }

  /** When no rating qualifies, the player contributes an empty item list. */
  lemma {:induction false} QualifyingDropsAll(ratings: seq<Rating>, threshold: real)
    requires forall i | 0 <= i < |ratings| :: !Qualifies(ratings[i], threshold)
    ensures Qualifying(ratings, threshold) == []
    decreases |ratings|
  {
    if ratings != [] {
      QualifyingDropsAll(ratings[1..], threshold);
    }
  }

  /** The rating loop of `processPlayer`: append each qualifying item in array order. */
  method SelectItems(ratings: seq<Rating>, threshold: real) returns (items: seq<Item>)
    ensures items == Qualifying(ratings, threshold)
  {
    items := [];
    var i := 0;
    while i < |ratings|
      invariant 0 <= i <= |ratings|
      invariant items == Qualifying(ratings[..i], threshold)
    {
      if ratings[i].rating >= threshold {
        items := items + [ratings[i].item];
      }
      assert ratings[..i + 1] == ratings[..i] + [ratings[i]];
      QualifyingAppend(ratings[..i], [ratings[i]], threshold);
      i := i + 1;
    }
    assert ratings[..i] == ratings;
  }

  /**
   * `processPlayer`: the emitter's table for the qualifying items; a filter whose
   * emitter was never set fails on the null reference.
   */
  method ProcessPlayer(cf: CollaborativeFilter, ratings: seq<Rating>, emit: (Emitter, seq<Item>) -> Table<real>)
    returns (r: Result<Table<real>, Fault>)
    ensures cf.emitter.None? <==> r.Failure?
    ensures cf.emitter.Some? ==> r == Success(emit(cf.emitter.value, Qualifying(ratings, cf.threshold)))
  {
    var items := SelectItems(ratings, cf.threshold);
    match cf.emitter
    case None => r := Failure(NullPointer);
    case Some(e) => r := Success(emit(e, items));
  }

  /** The running table after merging each player's contribution in turn, from an empty table. */
  function MergeAll(e: Emitter, threshold: real, players: seq<seq<Rating>>,
                       emit: (Emitter, seq<Item>) -> Table<real>,
                       merge: (Table<real>, Table<real>) -> Table<real>): (merged: Table<real>)
    decreases |players|
  {
    if players == [] then map[]
    else
      var n := |players| - 1;
      merge(MergeAll(e, threshold, players[..n], emit, merge), emit(e, Qualifying(players[n], threshold)))
  }

  /**
   * The accumulation loop of `processPlayers` over already decoded players: each
   * player's contribution is merged into one running table.
   */
  method Accumulate(cf: CollaborativeFilter, players: seq<seq<Rating>>,
                       emit: (Emitter, seq<Item>) -> Table<real>,
                       merge: (Table<real>, Table<real>) -> Table<real>)
    returns (r: Result<Table<real>, Fault>)
    ensures r.Failure? <==> cf.emitter.None? && players != []
    ensures cf.emitter.Some? ==> r == Success(MergeAll(cf.emitter.value, cf.threshold, players, emit, merge))
    ensures players == [] ==> r == Success(map[])
  {
    var table: Table<real> := map[];
    var i := 0;
    while i < |players|
      invariant 0 <= i <= |players|
      invariant cf.emitter.Some? ==> table == MergeAll(cf.emitter.value, cf.threshold, players[..i], emit, merge)
      invariant i == 0 ==> table == map[]
      invariant cf.emitter.None? ==> i == 0
    {
      var contribution := ProcessPlayer(cf, players[i], emit);
      if contribution.Failure? {
        return Failure(contribution.error);
      }
      assert players[..i + 1][..i] == players[..i];
      table := merge(table, contribution.value);
      i := i + 1;
    }
    assert players[..i] == players;
    r := Success(table);
  }
}
