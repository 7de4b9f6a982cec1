/** The value types a game room is built from. */
module GameTypes {

  /** Capacity of one room. */
  const MaxUsers: nat := 10

  /** A player's connection object. `id` stands for the object's identity:
      two connection objects of the same player (a refresh, say) share a
      `name` but differ in `id`. */
  datatype User = User(id: nat, name: string, connected: bool)

  datatype Phase = Setup | Play | Vote | End

  datatype Point = Point(x: int, y: int)

  /** One continuous pen movement, attributed to a player by name. */
  datatype Stroke = Stroke(username: string, points: seq<Point>)

  /** A `{keyword, hint}` pair handed out by the prompt provider. */
  datatype Prompt = Prompt(keyword: string, hint: string)

  /** What a room operation can throw: the domain error raised when a
      rejoin finds no seat, and the TypeError raised when a vote closes a
      ballot while no faker is set. */
  datatype Failure = RejoinTargetNotFound | FakerUndefined
}
