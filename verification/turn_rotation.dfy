/** What a sequence of `nextTurn` calls does to a round in play: how long
    the drawing phase lasts and whom the turn cursor visits. */
module TurnRotation {
  import opened Wrappers
  import opened GameTypes
  import opened GameRoom

  /** The room after `k` successive `nextTurn` calls. */
  function Advance(r: Room, k: nat): Room
    decreases k
  {
    if k == 0 then r else Advance(NextTurn(r).0, k - 1)
  }

  /** `whoseTurn()` read before each of `k` successive `nextTurn` calls. */
  function TurnOrder(r: Room, k: nat): (s: seq<Option<User>>)
    ensures |s| == k
    decreases k
  {
    if k == 0 then [] else [WhoseTurn(r)] + TurnOrder(NextTurn(r).0, k - 1)
  }

  /** From turn t of a round in play, k calls move the counter to t + k and
      touch nothing else, and the room moves to voting exactly when the
      counter passes twice the roster size. */
  lemma {:induction false} AdvanceInPlay(r: Room, k: nat)
    requires r.phase == Play && 1 <= r.turn <= 2 * |r.users| && r.turn - 1 + k <= 2 * |r.users|
    ensures Advance(r, k) == r.(turn := r.turn + k,
                                phase := if r.turn - 1 + k >= 2 * |r.users| then Vote else Play)
    decreases k
  {
    if k > 0 {
      var next := NextTurn(r).0;
      if r.turn >= 2 * |r.users| {
        assert k == 1;
        assert Advance(next, 0) == next;
      } else {
        assert next == r.(turn := r.turn + 1);
        AdvanceInPlay(next, k - 1);
      }
    }
  }

  /** A round of N >= 1 players, started at turn 1: calls 1 to 2N - 1 of
      `nextTurn` keep the room in play, the call numbered 2N moves it to
      voting, and every call returns the incremented turn. */
  lemma DrawingPhaseLength(r: Room, k: nat)
    requires r.phase == Play && r.turn == 1 && |r.users| >= 1
    requires 1 <= k <= 2 * |r.users|
    ensures NextTurn(Advance(r, k - 1)).1 == Some(1 + k)
    ensures Advance(r, k).phase == (if k < 2 * |r.users| then Play else Vote)
    ensures Advance(r, k).turn == 1 + k && Advance(r, k).users == r.users
  {
    AdvanceInPlay(r, k - 1);
    AdvanceInPlay(r, k);
  }

  /** From turn t, the cursor visits the roster round-robin starting at
      position t - 1, as long as the room stays in play. */
  lemma {:induction false} TurnOrderFrom(r: Room, k: nat)
    requires r.phase == Play && r.turn >= 1 && |r.users| >= 1 && r.turn - 1 + k <= 2 * |r.users|
    ensures forall i :: 0 <= i < k ==>
              TurnOrder(r, k)[i] == Some(r.users[(r.turn - 1 + i) % |r.users|])
    decreases k
  {
    if k > 1 {
      var next := NextTurn(r).0;
      assert next == r.(turn := r.turn + 1);
      TurnOrderFrom(next, k - 1);
      var s := TurnOrder(r, k);
      assert s[1..] == TurnOrder(next, k - 1);
      forall i | 1 <= i < k
        ensures s[i] == Some(r.users[(r.turn - 1 + i) % |r.users|])
      {
        assert s[i] == TurnOrder(next, k - 1)[i - 1];
      }
    }
  }

  /** Over one round the turns go through the roster twice, in the round's
      seating order: each player draws exactly twice. */
  lemma TwoPassesPerRound(r: Room)
    requires r.phase == Play && r.turn == 1 && |r.users| >= 1
    ensures var n := |r.users|;
            forall i :: 0 <= i < 2 * n ==> TurnOrder(r, 2 * n)[i] == Some((r.users + r.users)[i])
  {
    var n := |r.users|;
    TurnOrderFrom(r, 2 * n);
    forall i | 0 <= i < 2 * n
      ensures (r.users + r.users)[i] == r.users[i % n]
    {
      if i >= n {
        assert i % n == i - n;
      }
    }
  }

  /** Outside play nobody has the turn, and `nextTurn` outside play and
      voting is a no-op that returns nothing. */
  lemma IdleOutsideRound(r: Room)
    requires r.phase == Setup || r.phase == End
    ensures WhoseTurn(r).None?
    ensures NextTurn(r) == (r, None)
    ensures forall k: nat :: Advance(r, k) == r
  {
    forall k: nat
      ensures Advance(r, k) == r
    {
      IdleAdvance(r, k);
    }
  }

  lemma {:induction false} IdleAdvance(r: Room, k: nat)
    requires r.phase == Setup || r.phase == End
    ensures Advance(r, k) == r
    decreases k
  {
    if k > 0 {
      IdleAdvance(NextTurn(r).0, k - 1);
    }
  }
}
