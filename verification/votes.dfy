/** The vote tally of a round: a plain object from accused name to count,
    kept here as an association list in first-insertion order (the order in
    which `Object.entries` enumerates it), with the tally-level computations
    that decide whether the faker was caught. */
module Votes {
  import opened Wrappers

  datatype Entry = Entry(name: string, count: nat)

  type Tally = seq<Entry>

  /** No name appears in two entries, as for the keys of an object. */
  predicate UniqueNames(v: Tally) {
    forall i, j :: 0 <= i < j < |v| ==> v[i].name != v[j].name
  }

  /** `votes[name]`: the count stored under `name`, or `undefined`. */
  function Lookup(v: Tally, name: string): (r: Option<nat>)
    ensures r.None? <==> forall k :: 0 <= k < |v| ==> v[k].name != name
    ensures r.Some? ==> exists k :: 0 <= k < |v| && v[k] == Entry(name, r.value)
  {
    if |v| == 0 then None
    else if v[0].name == name then Some(v[0].count)
    else
      var r := Lookup(v[1..], name);
      assert forall k :: 1 <= k < |v| ==> v[k] == v[1..][k - 1];
      r
  }

  /** The number of votes against `name`, absent entries counting as zero. */
  function Count(v: Tally, name: string): nat {
    Lookup(v, name).GetOr(0)
  }

  /** In a tally without repeated names, an entry's count is what a lookup
      of its name finds. */
  lemma {:induction false} CountOfEntry(v: Tally, k: nat)
    requires UniqueNames(v) && k < |v|
    ensures Count(v, v[k].name) == v[k].count
  {
    if k > 0 {
      CountOfEntry(v[1..], k - 1);
    }
  }

  /** `getNumVotes`: the sum of all counts, so no single count exceeds it. */
  function Total(v: Tally): (r: nat)
    ensures forall k :: 0 <= k < |v| ==> v[k].count <= r
  {
    if |v| == 0 then 0
    else
      var r := v[0].count + Total(v[1..]);
      assert forall k :: 1 <= k < |v| ==> v[k] == v[1..][k - 1];
      r
  }

  /** The `addVote` update of the tally: `votes[name] += 1` when the entry
      is present (its count is then at least one, so truthy), otherwise
      `votes[name] = 1`, which appends a new key. Existing keys keep their
      places; a new one goes last. */
  function Increment(v: Tally, name: string): (r: Tally)
    ensures |r| == |v| || (|r| == |v| + 1 && r[|v|] == Entry(name, 1) && Lookup(v, name).None?)
    ensures forall k :: 0 <= k < |v| ==> r[k].name == v[k].name
  {
    if |v| == 0 then [Entry(name, 1)]
    else if v[0].name == name then [Entry(name, v[0].count + 1)] + v[1..]
    else [v[0]] + Increment(v[1..], name)
  }

  /** A vote for a name without an entry appends the entry at one. */
  lemma {:induction false} IncrementAppends(v: Tally, name: string)
    requires Lookup(v, name).None?
    ensures Increment(v, name) == v + [Entry(name, 1)]
  {
    if |v| > 0 {
      assert v[0].name != name;
      assert forall k :: 0 <= k < |v[1..]| ==> v[1..][k] == v[k + 1];
      IncrementAppends(v[1..], name);
      assert v == [v[0]] + v[1..];
    }
  }

  /** A vote for a name with an entry bumps that entry in place. */
  lemma {:induction false} IncrementBumps(v: Tally, name: string, i: nat)
    requires i < |v| && v[i].name == name
    requires forall k :: 0 <= k < i ==> v[k].name != name
    ensures Increment(v, name) == v[i := Entry(name, v[i].count + 1)]
  {
    if i > 0 {
      IncrementBumps(v[1..], name, i - 1);
      assert v == [v[0]] + v[1..];
    }
  }

  /** A vote adds exactly one to the accused's count, creating it at one,
      and leaves every other count alone. */
  lemma {:induction false} IncrementCount(v: Tally, name: string, n: string)
    ensures Count(Increment(v, name), n) == Count(v, n) + (if n == name then 1 else 0)
  {
    if |v| > 0 && v[0].name != name {
      IncrementCount(v[1..], name, n);
      var r := Increment(v, name);
      assert r[1..] == Increment(v[1..], name);
    }
  }

  /** A vote adds exactly one to the sum of the counts. */
  lemma {:induction false} IncrementTotal(v: Tally, name: string)
    ensures Total(Increment(v, name)) == Total(v) + 1
  {
    if |v| > 0 && v[0].name != name {
      IncrementTotal(v[1..], name);
      var r := Increment(v, name);
      assert r[1..] == Increment(v[1..], name);
    } else if |v| > 0 {
      assert Increment(v, name)[1..] == v[1..];
    }
  }

  /** Both effects of one vote on the tally, for every name. */
  lemma IncrementCounts(v: Tally, name: string)
    ensures forall n :: Count(Increment(v, name), n) == Count(v, n) + (if n == name then 1 else 0)
    ensures Total(Increment(v, name)) == Total(v) + 1
  {
    forall n {
      IncrementCount(v, name, n);
    }
    IncrementTotal(v, name);
  }

  /** A vote never duplicates a key. */
  lemma {:induction false} IncrementKeepsNamesUnique(v: Tally, name: string)
    ensures UniqueNames(v) ==> UniqueNames(Increment(v, name))
  {
    if UniqueNames(v) && |v| > 0 && v[0].name != name {
      IncrementKeepsNamesUnique(v[1..], name);
      var r := Increment(v, name);
      assert r[1..] == Increment(v[1..], name);
      if Lookup(v[1..], name).None? {
        assert forall k :: 1 <= k < |v| ==> v[k] == v[1..][k - 1];
      }
    }
  }

  /** The tally after the given ballots were cast, in order, on an empty
      tally. */
  function TallyOf(ballots: seq<string>): Tally {
    if |ballots| == 0 then []
    else Increment(TallyOf(ballots[..|ballots| - 1]), ballots[|ballots| - 1])
  }

  /** The tally counts exactly the ballots cast against each name, its
      total is the number of ballots, it never repeats a name, and it names
      nobody who was not voted for. */
  lemma {:induction false} TallyOfCounts(ballots: seq<string>)
    ensures forall n :: Count(TallyOf(ballots), n) == multiset(ballots)[n]
    ensures Total(TallyOf(ballots)) == |ballots|
    ensures UniqueNames(TallyOf(ballots))
    ensures forall k :: 0 <= k < |TallyOf(ballots)| ==> TallyOf(ballots)[k].name in ballots
  {
    if |ballots| > 0 {
      var init := ballots[..|ballots| - 1];
      TallyOfCounts(init);
      IncrementCounts(TallyOf(init), ballots[|ballots| - 1]);
      IncrementKeepsNamesUnique(TallyOf(init), ballots[|ballots| - 1]);
      assert ballots == init + [ballots[|ballots| - 1]];
    }
  }

  /** The entries accused of being the faker's fellow players: those not
      named after the faker (`filter(vote => vote[0] !== faker.name)`). */
  function NonFaker(v: Tally, fakerName: string): (r: Tally)
    ensures forall e :: e in r <==> e in v && e.name != fakerName
    ensures |r| <= |v|
  {
    if |v| == 0 then []
    else if v[0].name != fakerName then [v[0]] + NonFaker(v[1..], fakerName)
    else NonFaker(v[1..], fakerName)
  }

  /** The filter distributes over concatenation, so the entries it keeps
      stay in insertion order. */
  lemma {:induction false} NonFakerAppend(a: Tally, b: Tally, fakerName: string)
    ensures NonFaker(a + b, fakerName) == NonFaker(a, fakerName) + NonFaker(b, fakerName)
  {
    if |a| == 0 {
      assert a + b == b;
    } else {
      assert (a + b)[0] == a[0];
      assert (a + b)[1..] == a[1..] + b;
      NonFakerAppend(a[1..], b, fakerName);
    }
  }

  /** Position k holds the last entry not named after the faker. */
  predicate IsLastRival(v: Tally, fakerName: string, k: int) {
    0 <= k < |v| && v[k].name != fakerName && forall j :: k < j < |v| ==> v[j].name == fakerName
  }

  /** The position of the last entry not named after the faker, or -1 when
      every entry names the faker. */
  function LastRival(v: Tally, fakerName: string): (k: int)
    ensures -1 <= k < |v|
    ensures k == -1 <==> forall j :: 0 <= j < |v| ==> v[j].name == fakerName
    ensures 0 <= k ==> IsLastRival(v, fakerName, k)
    decreases |v|
  {
    if |v| == 0 then -1
    else if v[|v| - 1].name != fakerName then |v| - 1
    else
      var k := LastRival(v[..|v| - 1], fakerName);
      assert forall j :: 0 <= j < |v| - 1 ==> v[j] == v[..|v| - 1][j];
      k
  }

  /** The last entry the filter keeps is the tally's last rival entry. */
  lemma NonFakerLast(v: Tally, fakerName: string)
    ensures var r := NonFaker(v, fakerName);
            && (|r| == 0 <==> LastRival(v, fakerName) == -1)
            && (|r| > 0 ==> r[|r| - 1] == v[LastRival(v, fakerName)])
  {
    var k := LastRival(v, fakerName);
    if k != -1 {
      var tail := v[k + 1..];
      assert forall j :: 0 <= j < |tail| ==> tail[j].name == fakerName;
      assert NonFaker(tail, fakerName) == [];
      assert v == v[..k] + [v[k]] + tail;
      NonFakerAppend(v[..k] + [v[k]], tail, fakerName);
      NonFakerAppend(v[..k], [v[k]], fakerName);
      assert NonFaker([v[k]], fakerName) == [v[k]];
    }
  }

  // ---------------------------------------------------------------------
  // The maximum as the source computes it.
  // ---------------------------------------------------------------------

  /** The JavaScript values the `reduce` in `getMaxVotesForArtist` handles:
      `undefined`, a number, and an `[name, count]` entry. */
  datatype JsValue = Undefined | Num(n: nat) | Pair(key: string, count: nat)

  /** `a[1]`: the count of an entry; `undefined` for a number. */
  function Second(a: JsValue): JsValue {
    match a
    case Pair(_, c) => Num(c)
    case _ => Undefined
  }

  /** `x > y`: `undefined` converts to NaN, and every comparison with NaN
      is false. */
  predicate Greater(x: JsValue, y: JsValue) {
    x.Num? && y.Num? && x.n > y.n
  }

  /** The reducer `(a, b) => a[1] > b[1] ? a[1] : b[1]`. */
  function ReduceStep(a: JsValue, b: JsValue): JsValue {
    if Greater(Second(a), Second(b)) then Second(a) else Second(b)
  }

  /** `entries.reduce(ReduceStep, acc)`, folding from the left. */
  function Reduce(acc: JsValue, entries: Tally): JsValue
    decreases |entries|
  {
    if |entries| == 0 then acc
    else Reduce(ReduceStep(acc, Pair(entries[0].name, entries[0].count)), entries[1..])
  }

  /** `getMaxVotesForArtist` as written: the fold starts from the number 0.
      It yields a number that is 0 or the count of some other accused
      player, but not necessarily the largest such count. */
  function MaxVotesForArtistAsWritten(v: Tally, fakerName: string): (r: JsValue)
    ensures r.Num?
    ensures r.n == 0 || exists k :: 0 <= k < |v| && v[k].name != fakerName && v[k].count == r.n
  {
    var rivals := NonFaker(v, fakerName);
    ReduceYieldsLast(Num(0), rivals);
    assert |rivals| > 0 ==> rivals[|rivals| - 1] in rivals;
    Reduce(Num(0), rivals)
  }

  /** The count of the last entry, 0 when there is none. */
  function LastCount(entries: Tally): nat {
    if |entries| == 0 then 0 else entries[|entries| - 1].count
  }

  /** Started from anything but an entry, the reducer never looks at its
      accumulator: `a[1]` is `undefined`, so every step yields `b[1]`, and the
      fold ends with the count of the last entry. */
  lemma {:induction false} ReduceYieldsLast(acc: JsValue, entries: Tally)
    requires !acc.Pair?
    decreases |entries|
    ensures Reduce(acc, entries) == if |entries| == 0 then acc else Num(LastCount(entries))
  {
    if |entries| > 0 {
      var next := ReduceStep(acc, Pair(entries[0].name, entries[0].count));
      assert next == Num(entries[0].count);
      ReduceYieldsLast(next, entries[1..]);
    }
  }

  /** The as-written helper returns the count of the last entry, in
      insertion order, that is not named after the faker, or 0 when every
      entry names the faker. */
  lemma AsWrittenIsLastRival(v: Tally, fakerName: string)
    ensures var k := LastRival(v, fakerName);
            MaxVotesForArtistAsWritten(v, fakerName) == Num(if k == -1 then 0 else v[k].count)
  {
    ReduceYieldsLast(Num(0), NonFaker(v, fakerName));
    NonFakerLast(v, fakerName);
  }

  /** `votes[faker.name] > getMaxVotesForArtist()` as written. */
  predicate FakerCaughtAsWritten(v: Tally, fakerName: string) {
    var fakerVotes := match Lookup(v, fakerName)
                      case Some(c) => Num(c)
                      case None => Undefined;
    Greater(fakerVotes, MaxVotesForArtistAsWritten(v, fakerName))
  }

  /** The decision as written: the faker is caught exactly when somebody
      voted for them and they have strictly more votes than the last other
      player to be accused, whatever anybody else received. */
  lemma FakerCaughtAsWrittenBeatsLastRival(v: Tally, fakerName: string)
    ensures var k := LastRival(v, fakerName);
            FakerCaughtAsWritten(v, fakerName) <==>
              Count(v, fakerName) > 0 && (k == -1 || v[k].count < Count(v, fakerName))
  {
    AsWrittenIsLastRival(v, fakerName);
  }

  // ---------------------------------------------------------------------
  // The maximum as intended.
  // ---------------------------------------------------------------------

  /** `entries.reduce((a, b) => a > b[1] ? a : b[1], acc)`: the largest of
      `acc` and the counts. */
  function MaxFold(acc: nat, entries: Tally): (r: nat)
    ensures acc <= r
    ensures forall k :: 0 <= k < |entries| ==> entries[k].count <= r
    ensures r == acc || exists k :: 0 <= k < |entries| && entries[k].count == r
    decreases |entries|
  {
    if |entries| == 0 then acc
    else
      var r := MaxFold(if acc > entries[0].count then acc else entries[0].count, entries[1..]);
      assert forall k :: 1 <= k < |entries| ==> entries[k] == entries[1..][k - 1];
      r
  }

  /** The highest tally against anybody but the faker, 0 when nobody else
      received a vote. */
  function MaxVotesForArtist(v: Tally, fakerName: string): (r: nat)
    ensures forall k :: 0 <= k < |v| && v[k].name != fakerName ==> v[k].count <= r
    ensures r == 0 || exists k :: 0 <= k < |v| && v[k].name != fakerName && v[k].count == r
  {
    var rivals := NonFaker(v, fakerName);
    assert forall k :: 0 <= k < |v| && v[k].name != fakerName ==> v[k] in rivals;
    MaxFold(0, rivals)
  }

  /** The catch decision as intended: the faker's tally (0 without an entry)
      strictly above the highest tally against anybody else. */
  predicate FakerCaught(v: Tally, fakerName: string) {
    Count(v, fakerName) > MaxVotesForArtist(v, fakerName)
  }

  /** The plurality rule: the faker is caught exactly when somebody voted for
      them and every other accused player received strictly fewer votes;
      ties let the faker escape. */
  lemma FakerCaughtIsStrictPlurality(v: Tally, fakerName: string)
    ensures FakerCaught(v, fakerName) <==>
              Count(v, fakerName) > 0 &&
              forall k :: 0 <= k < |v| && v[k].name != fakerName ==> v[k].count < Count(v, fakerName)
  {
  }

  /** When at most one entry names somebody other than the faker, the last
      such entry is also the largest, so the fold returns the right maximum
      and the two decisions agree. */
  lemma AsWrittenAgreesWithOneRival(v: Tally, fakerName: string)
    requires forall i, j :: 0 <= i < j < |v| && v[i].name != fakerName ==> v[j].name == fakerName
    ensures MaxVotesForArtistAsWritten(v, fakerName) == Num(MaxVotesForArtist(v, fakerName))
    ensures FakerCaughtAsWritten(v, fakerName) <==> FakerCaught(v, fakerName)
  {
    AsWrittenIsLastRival(v, fakerName);
    var k := LastRival(v, fakerName);
    var m := MaxVotesForArtist(v, fakerName);
    if k != -1 {
      assert v[k].count <= m;
      if m != 0 {
        var i :| 0 <= i < |v| && v[i].name != fakerName && v[i].count == m;
        assert i == k;
      }
    }
  }

  /** Which comparison decides the outcome when the ballot closes: line 118
      as the source writes it, or with the intended maximum. */
  datatype Rule = AsWritten | Intended

  /** Whether the faker counts as caught under the given rule. */
  predicate Caught(rule: Rule, v: Tally, fakerName: string) {
    match rule
    case AsWritten => FakerCaughtAsWritten(v, fakerName)
    case Intended => FakerCaught(v, fakerName)
  }

  /** A receives two votes, then C one, then B two: the tally keeps the
      names in the order they were first voted for. */
  lemma CounterexampleTally()
    ensures TallyOf(["A", "A", "C", "B", "B"]) == [Entry("A", 2), Entry("C", 1), Entry("B", 2)]
  {
    var b := ["A", "A", "C", "B", "B"];
    assert b[..4] == ["A", "A", "C", "B"] && b[..4][..3] == ["A", "A", "C"];
    assert b[..4][..3][..2] == ["A", "A"] && ["A", "A"][..1] == ["A"] && ["A"][..0] == [];
    assert TallyOf(["A"]) == [Entry("A", 1)];
    IncrementBumps([Entry("A", 1)], "A", 0);
    assert TallyOf(["A", "A"]) == [Entry("A", 2)];
    IncrementAppends([Entry("A", 2)], "C");
    assert TallyOf(["A", "A", "C"]) == [Entry("A", 2), Entry("C", 1)];
    IncrementAppends([Entry("A", 2), Entry("C", 1)], "B");
    assert TallyOf(["A", "A", "C", "B"]) == [Entry("A", 2), Entry("C", 1), Entry("B", 1)];
    IncrementBumps([Entry("A", 2), Entry("C", 1), Entry("B", 1)], "B", 2);
  }

  /** Faker B with the tally above. The fold reports C's single vote as the
      maximum, so B counts as caught although B only ties A; the intended
      maximum is A's two votes, and B escapes. */
  lemma AsWrittenCatchesTiedFaker()
    ensures var v := TallyOf(["A", "A", "C", "B", "B"]);
            && MaxVotesForArtistAsWritten(v, "B") == Num(1)
            && MaxVotesForArtist(v, "B") == 2
            && FakerCaughtAsWritten(v, "B")
            && !FakerCaught(v, "B")
  {
    CounterexampleTally();
    var v := [Entry("A", 2), Entry("C", 1), Entry("B", 2)];
    assert v[1..] == [Entry("C", 1), Entry("B", 2)] && v[1..][1..] == [Entry("B", 2)];
    assert v[1..][1..][1..] == [];
    assert LastRival(v, "B") == 1 by {
      assert v[..2] == [Entry("A", 2), Entry("C", 1)];
    }
    AsWrittenIsLastRival(v, "B");
    assert Lookup(v, "B") == Some(2);
    assert v[0].name != "B";
  }
}
