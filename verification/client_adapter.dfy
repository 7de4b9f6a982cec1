/** The client-facing snapshot of a room, and the two redactions applied to
    copies of it. A snapshot is a plain object; here it is a map from the
    wire keys to the values they carry, taken at the moment it is built. In
    the source the `strokes` and `votes` entries share the room's live
    array and object, so later strokes and votes show through an
    unredacted snapshot; the model does not follow that sharing. */
module ClientAdapter {
  import opened Wrappers
  import opened GameTypes
  import GameRoom
  import Votes

  datatype Key =
    | RoomCodeKey | UsersKey | RoundKey | PhaseKey | TurnKey | WhoseTurnKey
    | KeywordKey | HintKey | FakerNameKey | StrokesKey | VotesKey | FakerCaughtKey

  /** A seat as clients see it. */
  datatype UserView = UserView(name: string, connected: bool)

  /** The values a snapshot key can hold. `Undefined` is a key that is
      present with value `undefined`; `Null` is JSON null. */
  datatype Value =
    | Undefined
    | Null
    | Str(s: string)
    | Int(i: int)
    | Bool(b: bool)
    | PhaseVal(phase: Phase)
    | UserList(users: seq<UserView>)
    | StrokeList(strokes: seq<Stroke>)
    | TallyVal(tally: Votes.Tally)

  type StateJson = map<Key, Value>

  /** The twelve keys of the wire schema. */
  const AllKeys: set<Key> := {RoomCodeKey, UsersKey, RoundKey, PhaseKey, TurnKey, WhoseTurnKey,
                              KeywordKey, HintKey, FakerNameKey, StrokesKey, VotesKey, FakerCaughtKey}

  /** The schema lists every key. */
  lemma EveryKeyInSchema(fields: set<Key>)
    ensures fields <= AllKeys
  {
    forall k | k in fields
      ensures k in AllKeys
    {
      match k
      case RoomCodeKey =>
      case UsersKey =>
      case RoundKey =>
      case PhaseKey =>
      case TurnKey =>
      case WhoseTurnKey =>
      case KeywordKey =>
      case HintKey =>
      case FakerNameKey =>
      case StrokesKey =>
      case VotesKey =>
      case FakerCaughtKey =>
    }
  }

  /** The text the keyword is replaced with for players not entitled to it. */
  const Redacted: string := "???"

  function ViewUsers(users: seq<User>): (r: seq<UserView>)
    ensures |r| == |users|
    ensures forall k :: 0 <= k < |users| ==> r[k] == UserView(users[k].name, users[k].connected)
  {
    seq(|users|, k requires 0 <= k < |users| => UserView(users[k].name, users[k].connected))
  }

  function OptionalStr(s: Option<string>): Value {
    match s
    case Some(v) => Str(v)
    case None => Undefined
  }

  function OptionalBool(b: Option<bool>): Value {
    match b
    case Some(v) => Bool(v)
    case None => Undefined
  }

  /** The value `generateStateJson` stores under each key. `whoseTurn` is
      null, not undefined, when nobody has the turn; `fakerName` is
      undefined when no faker is set. */
  function Field(room: GameRoom.Room, k: Key): Value {
    match k
    case RoomCodeKey => Str(room.roomCode)
    case UsersKey => UserList(ViewUsers(room.users))
    case RoundKey => Int(room.round)
    case PhaseKey => PhaseVal(room.phase)
    case TurnKey => Int(room.turn)
    case WhoseTurnKey => (match GameRoom.WhoseTurn(room) case Some(u) => Str(u.name) case None => Null)
    case KeywordKey => OptionalStr(room.keyword)
    case HintKey => OptionalStr(room.hint)
    case FakerNameKey => (match room.faker case Some(f) => Str(f.name) case None => Undefined)
    case StrokesKey => StrokeList(room.strokes)
    case VotesKey => TallyVal(room.votes)
    case FakerCaughtKey => OptionalBool(room.fakerCaught)
  }

  /** `generateStateJson`: the snapshot, narrowed by `_.pick` to
      `pickFields` when it is given. Every key of the schema is present in
      the full snapshot, so narrowing keeps exactly the requested keys. */
  function GenerateStateJson(room: GameRoom.Room, pickFields: Option<set<Key>>): (s: StateJson)
    ensures pickFields.None? ==> s.Keys == AllKeys
    ensures pickFields.Some? ==> s.Keys == pickFields.value
    ensures forall k :: k in s ==> s[k] == Field(room, k)
    ensures WhoseTurnKey in s ==>
              (s[WhoseTurnKey] == Null <==> GameRoom.WhoseTurn(room).None?)
              && (GameRoom.WhoseTurn(room).Some? ==> s[WhoseTurnKey] == Str(GameRoom.WhoseTurn(room).value.name))
    ensures FakerNameKey in s ==>
              (s[FakerNameKey] == Undefined <==> room.faker.None?)
              && (room.faker.Some? ==> s[FakerNameKey] == Str(room.faker.value.name))
    ensures KeywordKey in s ==> (s[KeywordKey] == Undefined <==> room.keyword.None?)
    ensures UsersKey in s ==> s[UsersKey] == UserList(ViewUsers(room.users))
  {
    match pickFields
    case None => map k | k in AllKeys :: Field(room, k)
    case Some(fields) =>
      EveryKeyInSchema(fields);
      map k | k in fields :: Field(room, k)
  }

  /** `hideKeyword`: a copy whose keyword reads `"???"`; every other key
      keeps its value. Assigning the key adds it when a narrowed snapshot
      lacked it. */
  function HideKeyword(s: StateJson): (r: StateJson)
    ensures r.Keys == s.Keys + {KeywordKey}
    ensures r[KeywordKey] == Str(Redacted)
    ensures forall k :: k in s && k != KeywordKey ==> r[k] == s[k]
  {
    s[KeywordKey := Str(Redacted)]
  }

  /** `hideFaker`: a copy whose faker name is `undefined`; every other key
      keeps its value. */
  function HideFaker(s: StateJson): (r: StateJson)
    ensures r.Keys == s.Keys + {FakerNameKey}
    ensures r[FakerNameKey] == Undefined
    ensures forall k :: k in s && k != FakerNameKey ==> r[k] == s[k]
  {
    s[FakerNameKey := Undefined]
  }

  /** Redacting twice is redacting once, and the two redactions can be
      applied in either order. */
  lemma RedactionsIdempotentAndCommute(s: StateJson)
    ensures HideKeyword(HideKeyword(s)) == HideKeyword(s)
    ensures HideFaker(HideFaker(s)) == HideFaker(s)
    ensures HideKeyword(HideFaker(s)) == HideFaker(HideKeyword(s))
  {
  }

  /** A redacted snapshot of the whole room reveals neither secret, and
      differs from the unredacted one in nothing else. */
  lemma RedactedSnapshotHidesSecrets(room: GameRoom.Room)
    ensures var s := GenerateStateJson(room, None);
            var h := HideFaker(HideKeyword(s));
            && h.Keys == AllKeys
            && h[KeywordKey] == Str(Redacted) && h[FakerNameKey] == Undefined
            && forall k :: k in AllKeys && k != KeywordKey && k != FakerNameKey ==> h[k] == s[k]
  {
  }

  /** Narrowing then redacting the keyword is redacting then narrowing, as
      long as the keyword was requested. */
  lemma PickThenHideKeyword(room: GameRoom.Room, fields: set<Key>)
    requires KeywordKey in fields
    ensures HideKeyword(GenerateStateJson(room, Some(fields)))
            == map k | k in fields :: HideKeyword(GenerateStateJson(room, None))[k]
  {
    var full := HideKeyword(GenerateStateJson(room, None));
    EveryKeyInSchema(fields);
    var narrowed := map k | k in fields :: full[k];
    var picked := HideKeyword(GenerateStateJson(room, Some(fields)));
    assert picked.Keys == narrowed.Keys;
    forall k | k in picked
      ensures picked[k] == narrowed[k]
    {
    }
  }
}
