/** What a sequence of `addVote` calls does to a room whose ballot is
    open: when the ballot closes and what it decides. */
module VotingRound {
  import opened Wrappers
  import opened GameTypes
  import opened GameRoom
  import Votes

  /** The room after casting the given ballots in order under the given
      decision rule, each call's outcome discarded as the caller of
      `addVote` does. */
  function CastAll(r: Room, ballots: seq<string>, rule: Votes.Rule): Room {
    if |ballots| == 0 then r
    else AddVote(CastAll(r, ballots[..|ballots| - 1], rule), ballots[|ballots| - 1], rule).0
  }

  /** An open ballot over N >= 1 players, with a faker set and no votes
      yet: after k <= N ballots the tally counts them, the room stays in
      voting while k < N and ends on the N-th ballot, recording whether the
      faker was caught under the rule; nothing else changes. */
  lemma {:induction false} CastBallots(r: Room, ballots: seq<string>, rule: Votes.Rule)
    requires r.phase == Vote && r.votes == [] && r.faker.Some? && |r.users| >= 1
    requires |ballots| <= |r.users|
    ensures var e := CastAll(r, ballots, rule);
            && e.votes == Votes.TallyOf(ballots)
            && (e.phase == End <==> |ballots| == |r.users|)
            && (|ballots| < |r.users| ==> e.phase == Vote && e.fakerCaught == r.fakerCaught)
            && (|ballots| == |r.users| ==>
                  e.fakerCaught == Some(Votes.Caught(rule, Votes.TallyOf(ballots), r.faker.value.name)))
            && e.(votes := r.votes, phase := r.phase, fakerCaught := r.fakerCaught) == r
  {
    if |ballots| > 0 {
      var init := ballots[..|ballots| - 1];
      CastBallots(r, init, rule);
      Votes.TallyOfCounts(init);
    }
  }

  /** The intended decision, read directly from the ballots: the faker is
      caught exactly when they drew at least one ballot and strictly more
      than anybody else who was named. */
  lemma {:induction false} CaughtByBallots(ballots: seq<string>, fakerName: string)
    ensures Votes.FakerCaught(Votes.TallyOf(ballots), fakerName) <==>
              multiset(ballots)[fakerName] > 0 &&
              forall n :: n in ballots && n != fakerName ==> multiset(ballots)[n] < multiset(ballots)[fakerName]
  {
    var v := Votes.TallyOf(ballots);
    Votes.TallyOfCounts(ballots);
    Votes.FakerCaughtIsStrictPlurality(v, fakerName);
    var fakerVotes := multiset(ballots)[fakerName];
    if Votes.FakerCaught(v, fakerName) {
      forall n | n in ballots && n != fakerName
        ensures multiset(ballots)[n] < fakerVotes
      {
        assert Votes.Count(v, n) > 0;
        var k :| 0 <= k < |v| && v[k] == Votes.Entry(n, Votes.Lookup(v, n).value);
      }
    } else if fakerVotes > 0 {
      var k :| 0 <= k < |v| && v[k].name != fakerName && v[k].count >= Votes.Count(v, fakerName);
      Votes.CountOfEntry(v, k);
      assert Votes.Count(v, v[k].name) > 0;
      assert v[k].name in ballots;
    }
  }

  /** A full ballot that names at most one player besides the faker is
      decided the same way by the comparison as written and as intended. */
  lemma RulesAgreeWithOneRival(r: Room, ballots: seq<string>)
    requires r.phase == Vote && r.votes == [] && r.faker.Some? && |r.users| >= 1
    requires |ballots| == |r.users|
    requires forall n, m ::
               n in ballots && m in ballots && n != r.faker.value.name && m != r.faker.value.name ==> n == m
    ensures CastAll(r, ballots, Votes.AsWritten) == CastAll(r, ballots, Votes.Intended)
  {
    CastBallots(r, ballots, Votes.AsWritten);
    CastBallots(r, ballots, Votes.Intended);
    var v := Votes.TallyOf(ballots);
    var f := r.faker.value.name;
    Votes.TallyOfCounts(ballots);
    forall i, j | 0 <= i < j < |v| && v[i].name != f
      ensures v[j].name == f
    {
      assert v[i].name in ballots && v[j].name in ballots;
    }
    Votes.AsWrittenAgreesWithOneRival(v, f);
  }

  /** Five players, faker B, ballots A, A, C, B, B. As written, the source
      ends the round with the faker caught although B only ties A; the
      intended decision lets B escape. */
  lemma TiedFakerCaughtAsWritten(r: Room)
    requires r.phase == Vote && r.votes == [] && r.faker.Some? && r.faker.value.name == "B"
    requires |r.users| == 5
    ensures CastAll(r, ["A", "A", "C", "B", "B"], Votes.AsWritten).fakerCaught == Some(true)
    ensures CastAll(r, ["A", "A", "C", "B", "B"], Votes.Intended).fakerCaught == Some(false)
  {
    CastBallots(r, ["A", "A", "C", "B", "B"], Votes.AsWritten);
    CastBallots(r, ["A", "A", "C", "B", "B"], Votes.Intended);
    Votes.AsWrittenCatchesTiedFaker();
  }

  /** Three players, faker B, one vote each: a tie, so the faker escapes,
      both as intended and as written (the last rival, C, also has one
      vote). */
  lemma TieLetsFakerEscape()
    ensures !Votes.FakerCaught(Votes.TallyOf(["A", "B", "C"]), "B")
    ensures !Votes.FakerCaughtAsWritten(Votes.TallyOf(["A", "B", "C"]), "B")
  {
    var b := ["A", "B", "C"];
    assert b[..2] == ["A", "B"] && b[..2][..1] == ["A"] && ["A"][..0] == [];
    var v := Votes.TallyOf(b);
    assert Votes.TallyOf(["A"]) == [Votes.Entry("A", 1)];
    Votes.IncrementAppends([Votes.Entry("A", 1)], "B");
    Votes.IncrementAppends([Votes.Entry("A", 1), Votes.Entry("B", 1)], "C");
    assert Votes.TallyOf(["A", "B"]) == [Votes.Entry("A", 1), Votes.Entry("B", 1)];
    assert v == [Votes.Entry("A", 1), Votes.Entry("B", 1), Votes.Entry("C", 1)];
    assert Votes.Count(v, "B") == 1;
    assert v[0].name != "B";
    Votes.FakerCaughtAsWrittenBeatsLastRival(v, "B");
    assert Votes.LastRival(v, "B") == 2;
  }

  /** Three players, faker B, two votes for B and one for C: caught, both as
      intended and as written. */
  lemma PluralityCatchesFaker()
    ensures Votes.FakerCaught(Votes.TallyOf(["B", "B", "C"]), "B")
    ensures Votes.FakerCaughtAsWritten(Votes.TallyOf(["B", "B", "C"]), "B")
  {
    var b := ["B", "B", "C"];
    assert b[..2] == ["B", "B"] && b[..2][..1] == ["B"] && ["B"][..0] == [];
    var v := Votes.TallyOf(b);
    assert Votes.TallyOf(["B"]) == [Votes.Entry("B", 1)];
    Votes.IncrementBumps([Votes.Entry("B", 1)], "B", 0);
    assert Votes.TallyOf(["B", "B"]) == [Votes.Entry("B", 2)];
    Votes.IncrementAppends([Votes.Entry("B", 2)], "C");
    assert v == [Votes.Entry("B", 2), Votes.Entry("C", 1)];
    assert Votes.Count(v, "B") == 2;
    assert Votes.MaxVotesForArtist(v, "B") == 1;
    Votes.FakerCaughtAsWrittenBeatsLastRival(v, "B");
    assert Votes.LastRival(v, "B") == 1;
  }

  /** Three players, faker B, one vote for A and two for C: the faker has
      no vote and escapes, both as intended and as written (`votes["B"]` is
      undefined, and no comparison with it holds). */
  lemma UnnamedFakerEscapes()
    ensures !Votes.FakerCaught(Votes.TallyOf(["A", "C", "C"]), "B")
    ensures !Votes.FakerCaughtAsWritten(Votes.TallyOf(["A", "C", "C"]), "B")
  {
    var b := ["A", "C", "C"];
    assert b[..2] == ["A", "C"] && b[..2][..1] == ["A"] && ["A"][..0] == [];
    var v := Votes.TallyOf(b);
    assert Votes.TallyOf(["A"]) == [Votes.Entry("A", 1)];
    Votes.IncrementAppends([Votes.Entry("A", 1)], "C");
    assert Votes.TallyOf(["A", "C"]) == [Votes.Entry("A", 1), Votes.Entry("C", 1)];
    Votes.IncrementBumps([Votes.Entry("A", 1), Votes.Entry("C", 1)], "C", 1);
    assert v == [Votes.Entry("A", 1), Votes.Entry("C", 2)];
    assert Votes.Count(v, "B") == 0;
    Votes.FakerCaughtAsWrittenBeatsLastRival(v, "B");
  }
}
