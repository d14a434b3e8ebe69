/** The command handlers: create the world, join, set a movement target,
    set a facing, and fire. Creating the world takes no input. The other
    handlers take the state and the acting user id and return the next state
    with a response. Joining always succeeds; moving, turning and firing fail
    with "Not joined", changing nothing, for a user id that matches no player. */
module Commands {
  import opened World

  /** The index of the first player with the given id, as `Array.find`
      selects it. */
  function FindPlayer(players: seq<Player>, id: UserId): (r: Option<nat>)
    ensures r.None? <==> !Joined(players, id)
    ensures r.Some? ==> FirstWith(players, id, r.value)
  {
    if |players| == 0 then None
    else if players[0].id == id then Some(0)
    else
      match FindPlayer(players[1..], id)
      case None => None
      case Some(k) =>
        assert forall j :: 1 <= j <= k + 1 ==> players[j] == players[1..][j - 1];
        Some(k + 1)
  }

  /** The state a fresh game room starts from. */
  function Initialize(): (s: State)
    ensures |s.players| == 0 && |s.bullets| == 0 && s.bulletsCount == 0
  {
    State([], [], 0)
  }

  /** A spawn point as the join handler draws it: integer coordinates in
      [0, 1024) on both axes. */
  predicate IsSpawnPoint(l: Location) {
    && 0.0 <= l.x < ArenaSize && l.x == l.x.Floor as real
    && 0.0 <= l.y < ArenaSize && l.y == l.y.Floor as real
  }

  /** Appends a new player for `id` at `spawn`; never fails and never checks
      whether `id` already joined. `spawn` stands for the random draw. */
  function JoinGame(s: State, id: UserId, spawn: Location): (r: Handled)
    requires IsSpawnPoint(spawn)
    ensures r.response == Ok
    ensures |r.state.players| == |s.players| + 1
    ensures r.state.players[..|s.players|] == s.players
    ensures var p := r.state.players[|s.players|];
      && p.id == id && p.location == spawn && InArena(p.location)
      && p.lookingDirection == Up && p.hp == InitialHp && p.ammo == InitialAmmo
      && p.targetLoc.None? && p.targetDir.None?
    ensures r.state.bullets == s.bullets && r.state.bulletsCount == s.bulletsCount
  {
    var p := Player(id, spawn, Up, InitialHp, InitialAmmo, None, None);
    Handled(s.(players := s.players + [p]), Ok)
  }

  /** `t` is `s` with at most the player at index `k` replaced. */
  predicate OnlyPlayerChanged(s: State, t: State, k: int) {
    && |t.players| == |s.players|
    && t.bullets == s.bullets
    && t.bulletsCount == s.bulletsCount
    && forall i :: 0 <= i < |s.players| && i != k ==> t.players[i] == s.players[i]
  }

  /** Sets the movement target of the first player with this id, if that
      player is alive; a dead player's request is accepted and ignored. */
  function MoveTo(s: State, id: UserId, target: Location): (r: Handled)
    ensures !Joined(s.players, id) <==> r.response == Error(NotJoined)
    ensures !Joined(s.players, id) ==> r.state == s
    ensures forall k :: FirstWith(s.players, id, k) ==>
      && r.response == Ok
      && OnlyPlayerChanged(s, r.state, k)
      && r.state.players[k] == s.players[k].(targetLoc := r.state.players[k].targetLoc)
      && (s.players[k].hp > 0 ==> r.state.players[k].targetLoc == Some(target))
      && (s.players[k].hp <= 0 ==> r.state == s)
  {
    match FindPlayer(s.players, id)
    case None => Handled(s, Error(NotJoined))
    case Some(k) =>
      var p := s.players[k];
      if p.hp > 0 then Handled(s.(players := s.players[k := p.(targetLoc := Some(target))]), Ok)
      else Handled(s, Ok)
  }

  /** Sets the pending facing of the first player with this id, alive or dead. */
  function ChangeDir(s: State, id: UserId, dir: Direction): (r: Handled)
    ensures !Joined(s.players, id) <==> r.response == Error(NotJoined)
    ensures !Joined(s.players, id) ==> r.state == s
    ensures forall k :: FirstWith(s.players, id, k) ==>
      && r.response == Ok
      && OnlyPlayerChanged(s, r.state, k)
      && r.state.players[k] == s.players[k].(targetDir := Some(dir))
  {
    match FindPlayer(s.players, id)
    case None => Handled(s, Error(NotJoined))
    case Some(k) =>
      Handled(s.(players := s.players[k := s.players[k].(targetDir := Some(dir))]), Ok)
  }

  /** Where a bullet fired from `l` while facing `d` appears: 33 units from
      the shooter along the facing's axis, on the side the facing names. */
  function MuzzlePoint(l: Location, d: Direction): (m: Location)
    ensures (m.x - l.x) * (m.x - l.x) + (m.y - l.y) * (m.y - l.y) == MuzzleOffset * MuzzleOffset
    ensures d == Up ==> m.x == l.x && m.y < l.y
    ensures d == Down ==> m.x == l.x && m.y > l.y
    ensures d == Left ==> m.y == l.y && m.x < l.x
    ensures d == Right ==> m.y == l.y && m.x > l.x
  {
    match d
    case Up => l.(y := l.y - MuzzleOffset)
    case Down => l.(y := l.y + MuzzleOffset)
    case Left => l.(x := l.x - MuzzleOffset)
    case Right => l.(x := l.x + MuzzleOffset)
  }

  /** The bullet a successful shot appends. Its id is read from the counter,
      which the shot itself does not advance. */
  function Shot(s: State, p: Player): (b: Bullet)
    ensures b.id == s.bulletsCount + 1
    ensures b.direction == p.lookingDirection
    ensures b.location == MuzzlePoint(p.location, p.lookingDirection)
  {
    Bullet(s.bulletsCount + 1, MuzzlePoint(p.location, p.lookingDirection), p.lookingDirection)
  }

  /** Fires for the first player with this id when it is alive and has ammo:
      one round is spent and one bullet appended; otherwise nothing happens
      and the command still succeeds. */
  function Shoot(s: State, id: UserId): (r: Handled)
    ensures !Joined(s.players, id) <==> r.response == Error(NotJoined)
    ensures !Joined(s.players, id) ==> r.state == s
    ensures forall k :: FirstWith(s.players, id, k) ==>
      && r.response == Ok
      && OnlyPlayerChanged(s.(bullets := r.state.bullets), r.state, k)
      && var p := s.players[k];
      if p.ammo > 0 && p.hp > 0 then
        && r.state.players[k] == p.(ammo := p.ammo - 1)
        && r.state.bullets == s.bullets + [Shot(s, p)]
      else
        r.state == s
    ensures r.state.bulletsCount == s.bulletsCount
    ensures |r.state.players| == |s.players|
    ensures forall i :: 0 <= i < |s.players| && s.players[i].ammo >= 0 ==> r.state.players[i].ammo >= 0
  {
    match FindPlayer(s.players, id)
    case None => Handled(s, Error(NotJoined))
    case Some(k) =>
      var p := s.players[k];
      if p.ammo > 0 && p.hp > 0 then
        var fired := s.players[k := p.(ammo := p.ammo - 1)];
        Handled(State(fired, s.bullets + [Shot(s, p)], s.bulletsCount), Ok)
      else
        Handled(s, Ok)
  }

  /** After joining, the joining id is served by the first player carrying
      it: the new entry when the id was fresh, the old one on a repeat join,
      so a duplicate entry never receives commands. */
  lemma JoinThenFind(s: State, id: UserId, spawn: Location)
    requires IsSpawnPoint(spawn)
    ensures FindPlayer(JoinGame(s, id, spawn).state.players, id) ==
      if Joined(s.players, id) then FindPlayer(s.players, id) else Some(|s.players|)
  {
    var ps := JoinGame(s, id, spawn).state.players;
    assert forall i :: 0 <= i < |s.players| ==> ps[i] == s.players[i];
    match FindPlayer(s.players, id)
    case None =>
      assert FirstWith(ps, id, |s.players|);
    case Some(k) =>
      assert FirstWith(ps, id, k);
  }
}
