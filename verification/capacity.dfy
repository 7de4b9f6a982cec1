/** The room's capacity over its whole life: whatever the event loop calls,
    in whatever order, the roster never holds more than ten players. */
module Capacity {
  import opened Wrappers
  import opened GameTypes
  import opened GameRoom
  import Roster
  import Votes

  /** One call the event loop can make on a room, with the random and
      external inputs it consumes. */
  datatype Op =
    | Join(user: User, isHost: bool)
    | Rejoin(user: User)
    | Leave(user: User)
    | Find(name: string)
    | NewRound(order: seq<nat>, fakerPick: nat, prompt: Prompt)
    | ForceSetup
    | Draw(username: string, points: seq<Point>)
    | Advance
    | Cast(votedPlayer: string)

  /** The room after one call. A call that throws leaves the room as the
      throw found it. A round start whose random inputs are not a shuffle
      of the roster and a position in it cannot come from the random
      source, and is taken as no call. */
  function Step(r: Room, op: Op): Room {
    match op
    case Join(u, isHost) => AddUser(r, u, isHost).0
    case Rejoin(u) => (match ReaddUser(r, u) case Ok(r') => r' case Err(_) => r)
    case Leave(u) => DropUser(r, u).0
    case Find(_) => r
    case NewRound(order, pick, prompt) =>
      if Roster.IsPermutation(order, |r.users|) && (|r.users| == 0 || pick < |r.users|)
      then StartNewRound(r, order, pick, prompt)
      else r
    case ForceSetup => InvokeSetup(r)
    case Draw(name, points) => AddStroke(r, name, points).0
    case Advance => NextTurn(r).0
    case Cast(name) => AddVote(r, name, Votes.AsWritten).0
  }

  /** The room after the calls in order. */
  function Run(r: Room, ops: seq<Op>): Room {
    if |ops| == 0 then r else Step(Run(r, ops[..|ops| - 1]), ops[|ops| - 1])
  }

  /** No single call grows the roster past capacity; only a successful
      join grows it at all. */
  lemma StepKeepsCapacity(r: Room, op: Op)
    requires Valid(r)
    ensures Valid(Step(r, op))
    ensures !op.Join? ==> |Step(r, op).users| <= |r.users|
  {
    match op {
      case NewRound(order, pick, prompt) =>
        if Roster.IsPermutation(order, |r.users|) && (|r.users| == 0 || pick < |r.users|) {
          assert |multiset(Step(r, op).users)| == |multiset(r.users)|;
        }
      case ForceSetup =>
        assert |InvokeSetup(r).users| <= |r.users| by {
          assert InvokeSetup(r).users == Roster.KeepConnected(r.users);
        }
      case _ =>
    }
  }

  /** From a freshly created room, any sequence of calls keeps the roster
      at ten players or fewer. */
  lemma {:induction false} RunKeepsCapacity(r: Room, ops: seq<Op>)
    requires Valid(r)
    ensures Valid(Run(r, ops))
  {
    if |ops| > 0 {
      RunKeepsCapacity(r, ops[..|ops| - 1]);
      StepKeepsCapacity(Run(r, ops[..|ops| - 1]), ops[|ops| - 1]);
    }
  }

  /** Every room the registry creates stays within capacity for its whole
      life. */
  lemma CreatedRoomsStayWithinCapacity(roomCode: string, host: Option<User>, ops: seq<Op>)
    ensures |Run(NewRoom(roomCode, host), ops).users| <= MaxUsers
  {
    RunKeepsCapacity(NewRoom(roomCode, host), ops);
  }
}
