/** The world state of the arena shooter's authoritative server: the players
    in join order, the bullets in flight in spawn order, and the bullet
    counter, together with the game's fixed constants. Coordinates and time
    are exact reals; hit points and ammunition are integers. */
module World {

  type UserId = string

  datatype Option<T> = None | Some(value: T)

  /** The four facings; nothing moves or aims diagonally. */
  datatype Direction = Up | Down | Left | Right

  datatype Location = Location(x: real, y: real)

  /** A joined player. `targetLoc` and `targetDir` are the pending movement
      and facing intents set by the command handlers and read by the tick. */
  datatype Player = Player(
    id: UserId,
    location: Location,
    lookingDirection: Direction,
    hp: int,
    ammo: int,
    targetLoc: Option<Location>,
    targetDir: Option<Direction>)

  /** A bullet in flight. The id `ConsumedId` marks a bullet that hit
      somebody during the current tick and is about to be pruned. */
  datatype Bullet = Bullet(id: int, location: Location, direction: Direction)

  datatype State = State(players: seq<Player>, bullets: seq<Bullet>, bulletsCount: int)

  /** The handlers' reply to the host: success, or a failure with a message. */
  datatype Response = Ok | Error(msg: string)

  /** A command handler's outcome: the state after the command and its reply. */
  datatype Handled = Handled(state: State, response: Response)

  const ArenaSize: real := 1024.0
  const InitialHp: int := 10
  const InitialAmmo: int := 48
  const PlayerSpeed: real := 90.0
  const BulletSpeed: real := 300.0
  /** A bullet spawns this many units ahead of the shooter along its facing. */
  const MuzzleOffset: real := 33.0
  /** A bullet hits every player whose Euclidean distance to it is at most this. */
  const HitRadius: real := 32.0
  const ConsumedId: int := -1
  const NotJoined: string := "Not joined"

  /** The closed arena square [0, 1024] x [0, 1024]. */
  predicate InArena(l: Location) {
    0.0 <= l.x <= ArenaSize && 0.0 <= l.y <= ArenaSize
  }

  /** Some player in the list carries this user id. */
  predicate Joined(players: seq<Player>, id: UserId) {
    exists i :: 0 <= i < |players| && players[i].id == id
  }

  /** `k` is the index of the first player carrying this user id. */
  predicate FirstWith(players: seq<Player>, id: UserId, k: int) {
    && 0 <= k < |players|
    && players[k].id == id
    && forall j :: 0 <= j < k ==> players[j].id != id
  }
}
