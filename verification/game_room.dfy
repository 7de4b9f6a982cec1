/** The room state machine. Every method of the room becomes a pure function
    from the room before the call to the room after it, paired with the
    method's return value; what the method reads from randomness or from
    the prompt provider is passed in. */
module GameRoom {
  import opened Wrappers
  import opened GameTypes
  import Roster
  import Votes

  datatype Room = Room(
    roomCode: string,
    users: seq<User>,
    host: Option<User>,
    round: nat,
    phase: Phase,
    turn: int,
    keyword: Option<string>,
    hint: Option<string>,
    faker: Option<User>,
    strokes: seq<Stroke>,
    votes: Votes.Tally,
    fakerCaught: Option<bool>)

  /** The capacity invariant every operation keeps. */
  predicate Valid(r: Room) {
    |r.users| <= MaxUsers
  }

  predicate IsFull(r: Room) {
    |r.users| >= MaxUsers
  }

  /** No one is left to play: the roster is empty or everybody on it has
      disconnected. */
  predicate IsDead(r: Room) {
    |r.users| == 0 || forall k :: 0 <= k < |r.users| ==> !r.users[k].connected
  }

  predicate IsGameInProgress(r: Room) {
    r.phase == Play || r.phase == Vote
  }

  predicate IsVoting(r: Room) {
    r.phase == Vote
  }

  /** A room as the registry creates it: nobody seated, no round played. */
  function NewRoom(roomCode: string, host: Option<User>): (r: Room)
    ensures Valid(r) && IsDead(r) && !IsGameInProgress(r)
    ensures r.users == [] && r.phase == Setup
    ensures r.roomCode == roomCode && r.host == host && r.round == 0 && r.turn == -1
    ensures r.keyword.None? && r.hint.None? && r.faker.None?
    ensures r.strokes == [] && r.votes == [] && r.fakerCaught.None?
  {
    Room(roomCode, [], host, 0, Setup, -1, None, None, None, [], [], None)
  }

  /** Admission: a full room refuses and stays as it is; otherwise the
      user takes the last seat, and becomes host only when asked to. */
  function AddUser(r: Room, user: User, isHost: bool): (res: (Room, bool))
    ensures res.1 <==> |r.users| < MaxUsers
    ensures !res.1 ==> res.0 == r
    ensures res.1 ==> |res.0.users| == |r.users| + 1 && res.0.users[..|r.users|] == r.users
                      && res.0.users[|r.users|] == user
    ensures res.0.host != r.host ==> isHost && res.1
    ensures isHost && res.1 ==> res.0.host == Some(user)
    ensures res.0.(users := r.users, host := r.host) == r
    ensures Valid(r) ==> Valid(res.0)
  {
    if IsFull(r) then (r, false)
    else
      var users := r.users + [user];
      assert users[..|r.users|] == r.users;
      (r.(users := users, host := if isHost then Some(user) else r.host), true)
  }

  /** Rejoin: the first seat held under the user's name gets the fresh
      connection object; with no such seat the call throws and nothing
      changes. */
  function ReaddUser(r: Room, user: User): (res: Result<Room, Failure>)
    ensures res.Err? <==> !Roster.HasName(r.users, user.name)
    ensures res.Err? ==> res.error == RejoinTargetNotFound
    ensures res.Ok? ==> exists i :: 0 <= i < |r.users| && r.users[i].name == user.name
                          && (forall k :: 0 <= k < i ==> r.users[k].name != user.name)
                          && res.value.users == r.users[i := user]
    ensures res.Ok? ==> |res.value.users| == |r.users| && res.value.(users := r.users) == r
  {
    var i := Roster.FindIndexByName(r.users, user.name);
    if i != -1 then Ok(r.(users := r.users[i := user]))
    else Err(RejoinTargetNotFound)
  }

  /** Leave: `splice(indexOf(user), 1)`. A seated connection object loses
      its first seat and everybody else keeps their order; for one not
      seated, `indexOf` gives -1 and the splice removes the last seat
      instead. Returns the new roster size. */
  function DropUser(r: Room, user: User): (res: (Room, nat))
    ensures res.1 == |res.0.users|
    ensures res.0.(users := r.users) == r
    ensures Roster.HasId(r.users, user.id) ==>
              var i := Roster.IndexOf(r.users, user);
              res.0.users == r.users[..i] + r.users[i + 1..]
              && multiset(res.0.users) == multiset(r.users) - multiset{r.users[i]}
    ensures !Roster.HasId(r.users, user.id) && |r.users| > 0 ==> res.0.users == r.users[..|r.users| - 1]
    ensures |r.users| == 0 ==> res.0.users == []
    ensures |res.0.users| == if |r.users| == 0 then 0 else |r.users| - 1
  {
    var i := Roster.IndexOf(r.users, user);
    var users := Roster.SpliceOne(r.users, i);
    Roster.SpliceOneRemoves(r.users, i);
    (r.(users := users), |users|)
  }

  /** Lookup by display name: the occupant of the first seat with that
      name, if any. */
  function FindUser(r: Room, name: string): (res: Option<User>)
    ensures res.None? <==> !Roster.HasName(r.users, name)
    ensures res.Some? ==> exists i :: 0 <= i < |r.users| && r.users[i] == res.value
                            && res.value.name == name
                            && forall k :: 0 <= k < i ==> r.users[k].name != name
  {
    var i := Roster.FindIndexByName(r.users, name);
    if i == -1 then None else Some(r.users[i])
  }

  /** A new round. `order` is the in-place shuffle of the roster,
      `fakerPick` the position the random pick lands on in the shuffled
      roster (there is none to land on when the roster is empty, and the
      faker is then undefined), and `prompt` the provider's answer. */
  function StartNewRound(r: Room, order: seq<nat>, fakerPick: nat, prompt: Prompt): (res: Room)
    requires Roster.IsPermutation(order, |r.users|)
    requires |r.users| == 0 || fakerPick < |r.users|
    ensures res.round == r.round + 1
    ensures res.phase == Play && res.turn == 1
    ensures multiset(res.users) == multiset(r.users)
    ensures res.keyword == Some(prompt.keyword) && res.hint == Some(prompt.hint)
    ensures |r.users| > 0 <==> res.faker.Some?
    ensures res.faker.Some? ==> res.faker.value in res.users
    ensures res.strokes == [] && res.votes == [] && res.fakerCaught.None?
    ensures res.roomCode == r.roomCode && res.host == r.host
  {
    Roster.PermutePreservesMultiset(r.users, order);
    var users := Roster.Permute(r.users, order);
    var faker := if |users| == 0 then None else Some(users[fakerPick]);
    Room(r.roomCode, users, r.host, r.round + 1, Play, 1, Some(prompt.keyword), Some(prompt.hint),
         faker, [], [], None)
  }

  /** Back to setup from any phase: the round's secrets are forgotten and
      everybody who disconnected loses their seat; the round counter,
      strokes, votes and outcome stay. */
  function InvokeSetup(r: Room): (res: Room)
    ensures res.phase == Setup && res.turn == -1
    ensures res.keyword.None? && res.hint.None? && res.faker.None?
    ensures forall k :: 0 <= k < |res.users| ==> res.users[k].connected
    ensures forall u :: multiset(res.users)[u] == if u.connected then multiset(r.users)[u] else 0
    ensures res.(users := r.users, phase := r.phase, turn := r.turn, keyword := r.keyword,
                 hint := r.hint, faker := r.faker) == r
  {
    Roster.KeepConnectedCounts(r.users);
    var users := Roster.KeepConnected(r.users);
    assert forall k :: 0 <= k < |users| ==> users[k] in users;
    r.(phase := Setup, turn := -1, keyword := None, hint := None, faker := None, users := users)
  }

  /** `a % b` in JavaScript: the remainder takes the sign of the dividend. */
  function JsRem(a: int, b: int): (r: int)
    requires b > 0
    ensures 0 <= a ==> r == a % b
    ensures a < 0 ==> r <= 0
    ensures -b < r < b
    ensures (a - r) % b == 0
  {
    if a >= 0 then
      assert a - a % b == b * (a / b);
      MultipleRem(b, a / b);
      a % b
    else
      NegativeRem(a, b);
      -((-a) % b)
  }

  /** For a negative dividend the truncated remainder differs from the
      dividend by a multiple of the divisor. */
  lemma NegativeRem(a: int, b: int)
    requires a < 0 && b > 0
    ensures (a + (-a) % b) % b == 0
  {
    var x := -a;
    var q := x / b;
    assert x == b * q + x % b;
    assert a + x % b == b * -q by {
      assert b * -q == -(b * q);
    }
    MultipleRem(b, -q);
  }

  /** A multiple of b leaves no remainder. */
  lemma MultipleRem(b: int, q: int)
    requires b > 0
    ensures (b * q) % b == 0
  {
    var m := (b * q) % b;
    var d := (b * q) / b;
    assert b * q == b * d + m;
    var k := q - d;
    assert b * k == m by {
      assert b * k == b * q - b * d;
    }
  }

  /** The player whose turn it is: defined only during play, as the round's
      turn counter taken round-robin over the roster. A negative index or
      an empty roster (index NaN) reads `undefined`. */
  function WhoseTurn(r: Room): (res: Option<User>)
    ensures res.Some? ==> r.phase == Play && res.value in r.users
    ensures r.phase == Play && |r.users| > 0 && r.turn >= 1 ==>
              res == Some(r.users[(r.turn - 1) % |r.users|])
  {
    if r.phase != Play || |r.users| == 0 then None
    else
      var idx := JsRem(r.turn - 1, |r.users|);
      if idx >= 0 then Some(r.users[idx]) else None
  }

  /** Record a stroke; no phase or turn check is made. */
  function AddStroke(r: Room, username: string, points: seq<Point>): (res: (Room, seq<Stroke>))
    ensures res.1 == res.0.strokes
    ensures |res.1| == |r.strokes| + 1 && res.1[..|r.strokes|] == r.strokes
    ensures res.1[|r.strokes|] == Stroke(username, points)
    ensures res.0.(strokes := r.strokes) == r
  {
    var strokes := r.strokes + [Stroke(username, points)];
    assert strokes[..|r.strokes|] == r.strokes;
    (r.(strokes := strokes), strokes)
  }

  /** Advance the turn counter while a game is in progress and report the
      new turn; once every player has had two turns the room moves to
      voting on this same call. Outside play and voting nothing happens and
      nothing is returned. */
  function NextTurn(r: Room): (res: (Room, Option<int>))
    ensures !IsGameInProgress(r) ==> res == (r, None)
    ensures IsGameInProgress(r) ==> res.1 == Some(r.turn + 1) && res.0.turn == r.turn + 1
    ensures IsGameInProgress(r) ==>
              (res.0.phase == Vote <==> r.phase == Vote || r.turn >= 2 * |r.users|)
    ensures IsGameInProgress(res.0) <==> IsGameInProgress(r)
    ensures res.0.(turn := r.turn, phase := r.phase) == r
  {
    if IsGameInProgress(r) then
      var turn := r.turn + 1;
      var phase := if turn - 1 >= |r.users| * 2 then Vote else r.phase;
      (r.(turn := turn, phase := phase), Some(turn))
    else (r, None)
  }

  /** Cast one vote. The ballot closes on the call that brings the total
      to the roster size: the room ends and records whether the faker was
      caught, as decided by `rule` (`AsWritten` is the source's comparison,
      `Intended` the one with the true maximum). Closing the ballot while
      no faker is set reads `faker.name` of `undefined` and throws, after
      the tally and the phase were already updated. */
  function AddVote(r: Room, votedPlayer: string, rule: Votes.Rule): (res: (Room, Option<Failure>))
    ensures forall n :: Votes.Count(res.0.votes, n) == Votes.Count(r.votes, n) + (if n == votedPlayer then 1 else 0)
    ensures Votes.Total(res.0.votes) == Votes.Total(r.votes) + 1
    ensures Votes.UniqueNames(r.votes) ==> Votes.UniqueNames(res.0.votes)
    ensures res.0.phase == if Votes.Total(r.votes) + 1 == |r.users| then End else r.phase
    ensures res.1.Some? <==> Votes.Total(r.votes) + 1 == |r.users| && r.faker.None?
    ensures res.1.Some? ==> res.1 == Some(FakerUndefined)
    ensures Votes.Total(r.votes) + 1 == |r.users| && r.faker.Some? ==>
              res.0.fakerCaught == Some(Votes.Caught(rule, res.0.votes, r.faker.value.name))
    ensures Votes.Total(r.votes) + 1 != |r.users| || r.faker.None? ==> res.0.fakerCaught == r.fakerCaught
    ensures res.0.(votes := r.votes, phase := r.phase, fakerCaught := r.fakerCaught) == r
  {
    Votes.IncrementCounts(r.votes, votedPlayer);
    Votes.IncrementKeepsNamesUnique(r.votes, votedPlayer);
    var votes := Votes.Increment(r.votes, votedPlayer);
    if Votes.Total(votes) == |r.users| then
      var ended := r.(votes := votes, phase := End);
      match r.faker
      case None => (ended, Some(FakerUndefined))
      case Some(f) => (ended.(fakerCaught := Some(Votes.Caught(rule, votes, f.name))), None)
    else (r.(votes := votes), None)
  }

  /** Once setup has purged the disconnected, the room is dead exactly when
      nobody is left. */
  lemma SetupDeadIffEmpty(r: Room)
    ensures IsDead(InvokeSetup(r)) <==> |InvokeSetup(r).users| == 0
  {
  }

  /** A room is dead exactly when setup would leave it empty. */
  lemma {:induction false} DeadIffSetupEmpties(r: Room)
    ensures IsDead(r) <==> Roster.KeepConnected(r.users) == []
  {
    Roster.KeepConnectedCounts(r.users);
    if Roster.KeepConnected(r.users) == [] {
      forall k | 0 <= k < |r.users|
        ensures !r.users[k].connected
      {
        assert multiset(r.users)[r.users[k]] > 0;
      }
    }
  }

  /** Setup twice is setup once. */
  lemma InvokeSetupIdempotent(r: Room)
    ensures InvokeSetup(InvokeSetup(r)) == InvokeSetup(r)
  {
    Roster.KeepConnectedIdempotent(r.users);
  }

  /** Setup keeps the connected players in the order they sat: it commutes
      with splitting the roster anywhere. */
  lemma SetupKeepsOrder(r: Room, a: seq<User>, b: seq<User>)
    requires r.users == a + b
    ensures InvokeSetup(r).users == Roster.KeepConnected(a) + Roster.KeepConnected(b)
  {
    Roster.KeepConnectedAppend(a, b);
  }

  /** Leaving undoes joining: a connection object that was not seated
      joins and leaves, and the roster is as before. */
  lemma JoinThenLeave(r: Room, user: User, isHost: bool)
    requires |r.users| < MaxUsers && !Roster.HasId(r.users, user.id)
    ensures DropUser(AddUser(r, user, isHost).0, user).0.users == r.users
  {
    var joined := AddUser(r, user, isHost).0;
    assert joined.users == r.users + [user];
    assert Roster.IndexOf(joined.users, user) == |r.users|;
  }

  /** Leaving goes by identity alone: two records of the same connection
      object, whatever their name or connection flag read, drop the same
      seat. */
  lemma DropUserByIdentity(r: Room, user: User, other: User)
    requires user.id == other.id
    ensures DropUser(r, user) == DropUser(r, other)
  {
    assert Roster.IndexOf(r.users, user) == Roster.IndexOf(r.users, other);
  }

  /** After a newcomer with a fresh name joins, looking the name up finds
      them. */
  lemma JoinThenFind(r: Room, user: User, isHost: bool)
    requires |r.users| < MaxUsers && !Roster.HasName(r.users, user.name)
    ensures FindUser(AddUser(r, user, isHost).0, user.name) == Some(user)
  {
    var joined := AddUser(r, user, isHost).0;
    assert joined.users == r.users + [user];
    assert joined.users[|r.users|].name == user.name;
  }

  /** After a successful rejoin, looking the name up finds the fresh
      connection object. */
  lemma RejoinThenFind(r: Room, user: User)
    requires ReaddUser(r, user).Ok?
    ensures FindUser(ReaddUser(r, user).value, user.name) == Some(user)
  {
    var i := Roster.FindIndexByName(r.users, user.name);
    var users := ReaddUser(r, user).value.users;
    assert users == r.users[i := user];
    assert forall k :: 0 <= k < i ==> users[k].name != user.name;
    assert users[i].name == user.name;
    assert Roster.HasName(users, user.name);
    var j := Roster.FindIndexByName(users, user.name);
    assert j == i;
  }
}
