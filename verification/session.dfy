/** A game room over time: the invariant every handler and the tick keep,
    and runs of commands starting from a freshly initialized room. */
module Session {
  import opened World
  import opened Commands
  import opened Simulation

  /** Hit points and ammunition stay within their starting values and never
      go negative, a player at zero hit points has no ammunition, and every
      player stands inside the closed arena. */
  predicate ConsistentPlayer(p: Player) {
    && 0 <= p.hp <= InitialHp
    && 0 <= p.ammo <= InitialAmmo
    && (p.hp == 0 ==> p.ammo == 0)
    && InArena(p.location)
  }

  /** The invariant of every room reachable from `Initialize`. The counter
      stays at zero, so every bullet in flight carries id 1. */
  predicate Consistent(s: State) {
    && s.bulletsCount == 0
    && (forall i :: 0 <= i < |s.bullets| ==> s.bullets[i].id == 1)
    && (forall i :: 0 <= i < |s.players| ==> ConsistentPlayer(s.players[i]))
  }

  lemma InitializeConsistent()
    ensures Consistent(Initialize())
  {
  }

  lemma JoinConsistent(s: State, id: UserId, spawn: Location)
    requires IsSpawnPoint(spawn)
    ensures Consistent(s) ==> Consistent(JoinGame(s, id, spawn).state)
  {
  }

  /** MoveTo, ChangeDir and Shoot keep the invariant and every player's id. */
  lemma MoveToConsistent(s: State, id: UserId, target: Location)
    ensures Consistent(s) ==> Consistent(MoveTo(s, id, target).state)
    ensures forall i :: 0 <= i < |s.players| ==> MoveTo(s, id, target).state.players[i].id == s.players[i].id
  {
    if Joined(s.players, id) {
      assert FirstWith(s.players, id, FindPlayer(s.players, id).value);
    }
  }

  lemma ChangeDirConsistent(s: State, id: UserId, dir: Direction)
    ensures Consistent(s) ==> Consistent(ChangeDir(s, id, dir).state)
    ensures forall i :: 0 <= i < |s.players| ==> ChangeDir(s, id, dir).state.players[i].id == s.players[i].id
  {
    if Joined(s.players, id) {
      assert FirstWith(s.players, id, FindPlayer(s.players, id).value);
    }
  }

  lemma ShootConsistent(s: State, id: UserId)
    ensures Consistent(s) ==> Consistent(Shoot(s, id).state)
    ensures forall i :: 0 <= i < |s.players| ==> Shoot(s, id).state.players[i].id == s.players[i].id
  {
    if Joined(s.players, id) {
      assert FirstWith(s.players, id, FindPlayer(s.players, id).value);
    }
  }

  lemma {:induction false} HitsKeepPlayerConsistent(p: Player, k: nat)
    requires ConsistentPlayer(p)
    ensures ConsistentPlayer(ApplyHits(p, k))
  {
    ApplyHitsClosedForm(p, k);
  }

  lemma TickConsistent(s: State, delta: real)
    ensures Consistent(s) ==> Consistent(OnTick(s, delta))
  {
    if Consistent(s) {
      var r := OnTick(s, delta);
      TickPlayers(s, delta);
      forall i | 0 <= i < |s.players|
        ensures ConsistentPlayer(r.players[i])
      {
        var moved := MovePlayer(s.players[i], delta);
        HitsKeepPlayerConsistent(moved, HitCount(moved.location, s.bullets, delta));
      }
      var placed := MovePlayers(s.players, delta);
      var marked := ProcessBullets(placed, s.bullets, delta).bullets;
      ProcessBulletsMarks(placed, s.bullets, delta);
      forall i | 0 <= i < |r.bullets|
        ensures r.bullets[i].id == 1
      {
        assert r.bullets[i] in marked;
        var j :| 0 <= j < |marked| && marked[j] == r.bullets[i];
        assert marked[j] == Mark(placed, s.bullets[j], delta);
      }
    }
  }

  /** The host's inputs: the four commands and the tick. */
  datatype Command =
    | Join(user: UserId, spawn: Location)
    | Move(user: UserId, target: Location)
    | Aim(user: UserId, dir: Direction)
    | Fire(user: UserId)
    | Tick(delta: real)

  /** A join's spawn point is one the random draw can produce. */
  predicate WellFormed(c: Command) {
    c.Join? ==> IsSpawnPoint(c.spawn)
  }

  /** Applies one command or tick; the handlers' responses go to the host. */
  function Step(s: State, c: Command): (r: State)
    requires WellFormed(c)
    ensures Consistent(s) ==> Consistent(r)
    ensures r.bulletsCount == s.bulletsCount
    ensures |r.players| == |s.players| + (if c.Join? then 1 else 0)
    ensures forall i :: 0 <= i < |s.players| ==> r.players[i].id == s.players[i].id
  {
    match c
    case Join(u, l) =>
      JoinConsistent(s, u, l);
      JoinGame(s, u, l).state
    case Move(u, t) =>
      MoveToConsistent(s, u, t);
      MoveTo(s, u, t).state
    case Aim(u, d) =>
      ChangeDirConsistent(s, u, d);
      ChangeDir(s, u, d).state
    case Fire(u) =>
      ShootConsistent(s, u);
      Shoot(s, u).state
    case Tick(d) =>
      TickConsistent(s, d);
      OnTick(s, d)
  }

  /** How many joins a run contains. */
  function Joins(cmds: seq<Command>): nat {
    if |cmds| == 0 then 0 else (if cmds[0].Join? then 1 else 0) + Joins(cmds[1..])
  }

  /** Applies commands and ticks in order. Players are only ever appended,
      one per join, and never lose their id; the bullet counter never moves;
      and the invariant holds throughout. */
  function Run(s: State, cmds: seq<Command>): (r: State)
    requires forall i :: 0 <= i < |cmds| ==> WellFormed(cmds[i])
    ensures Consistent(s) ==> Consistent(r)
    ensures r.bulletsCount == s.bulletsCount
    ensures |r.players| == |s.players| + Joins(cmds)
    ensures forall i :: 0 <= i < |s.players| ==> r.players[i].id == s.players[i].id
    decreases |cmds|
  {
    if |cmds| == 0 then s
    else Run(Step(s, cmds[0]), cmds[1..])
  }

  /** Every bullet in any room reachable from a fresh one carries id 1:
      bullet ids are not unique. */
  lemma {:induction false} ReachableBulletIds(cmds: seq<Command>)
    requires forall i :: 0 <= i < |cmds| ==> WellFormed(cmds[i])
    ensures var r := Run(Initialize(), cmds);
      r.bulletsCount == 0 && forall i :: 0 <= i < |r.bullets| ==> r.bullets[i].id == 1
  {
    InitializeConsistent();
  }

  /** Two shots in a row from a fresh player spawn two bullets with the same id. */
  lemma TwoShotsShareAnId()
    ensures var s := Run(Initialize(), [Join("a", Location(100.0, 100.0)), Fire("a"), Fire("a")]);
      && |s.bullets| == 2
      && s.bullets[0].id == s.bullets[1].id == 1
      && s.players[0].ammo == InitialAmmo - 2
  {
    var s0 := Initialize();
    var s1 := JoinGame(s0, "a", Location(100.0, 100.0)).state;
    assert FirstWith(s1.players, "a", 0);
    var s2 := Shoot(s1, "a").state;
    assert FirstWith(s2.players, "a", 0);
    var s3 := Shoot(s2, "a").state;
    var cmds := [Join("a", Location(100.0, 100.0)), Fire("a"), Fire("a")];
    assert Run(s0, cmds) == Run(s1, cmds[1..]) == Run(s2, cmds[2..]) == Run(s3, []);
  }

  lemma MulMono(x: real, y: real, c: real)
    requires 0.0 <= x <= y && 0.0 <= c
    ensures x * c <= y * c
  {
  }

  lemma MulStrictMono(x: real, y: real, c: real)
    requires 0.0 <= x < y && 0.0 < c
    ensures x * c < y * c
  {
  }

  /** A square is within the squared radius exactly when its root is within the radius. */
  lemma SquareWithinRadius(a: real)
    ensures a * a <= HitRadius * HitRadius <==> -HitRadius <= a <= HitRadius
  {
    var b := Abs(a);
    assert a * a == b * b;
    if b <= HitRadius {
      MulMono(b, HitRadius, b);
      MulMono(b, HitRadius, HitRadius);
    } else {
      MulStrictMono(HitRadius, b, b);
      MulStrictMono(HitRadius, b, HitRadius);
    }
  }

  /** Because Left and Right bullets travel against their spawn offset, a
      horizontal shot flies back through the spot it was fired from: a
      shooter who stays put is in range of its own bullet after one tick
      exactly when the bullet travels between 1 and 65 units. A vertical shot
      travels away and never comes back for a non-negative time step. */
  lemma OwnShotReachesShooter(l: Location, d: Direction, id: int, delta: real)
    ensures InRange(l, MoveBullet(Bullet(id, MuzzlePoint(l, d), d), delta).location) <==>
      if d == Left || d == Right then 1.0 <= BulletSpeed * delta <= 65.0
      else -65.0 <= BulletSpeed * delta <= -1.0
  {
    var at := MoveBullet(Bullet(id, MuzzlePoint(l, d), d), delta).location;
    var step := BulletSpeed * delta;
    match d
    case Up =>
      assert l.x - at.x == 0.0 && l.y - at.y == MuzzleOffset + step;
      SquareWithinRadius(MuzzleOffset + step);
    case Down =>
      assert l.x - at.x == 0.0 && l.y - at.y == -(MuzzleOffset + step);
      SquareWithinRadius(-(MuzzleOffset + step));
    case Left =>
      assert l.y - at.y == 0.0 && l.x - at.x == MuzzleOffset - step;
      SquareWithinRadius(MuzzleOffset - step);
    case Right =>
      assert l.y - at.y == 0.0 && l.x - at.x == step - MuzzleOffset;
      SquareWithinRadius(step - MuzzleOffset);
  }

  /** The scenario's room: the shooter at (100, 100) facing up with 47
      rounds, and its bullets flying up along x = 100 at the given heights. */
  function Lone(heights: seq<real>): State {
    State([Player("A", Location(100.0, 100.0), Up, InitialHp, 47, None, None)],
          seq(|heights|, i requires 0 <= i < |heights| => Bullet(1, Location(100.0, heights[i]), Up)),
          0)
  }

  /** Joining at (100, 100) and firing once leaves one bullet at (100, 67). */
  lemma ScenarioSetup()
    ensures Run(Initialize(), [Join("A", Location(100.0, 100.0)), Fire("A")]) == Lone([67.0])
  {
    var s0 := Initialize();
    var s1 := JoinGame(s0, "A", Location(100.0, 100.0)).state;
    assert FirstWith(s1.players, "A", 0);
    var s := Shoot(s1, "A").state;
    var cmds := [Join("A", Location(100.0, 100.0)), Fire("A")];
    assert Run(s0, cmds) == Run(s1, cmds[1..]) == Run(s, []);
  }

  /** A tick of 0.11 s moves the lone bullet up 33 units, out of the
      shooter's reach; it survives exactly while it stays above y = 0. */
  lemma ScenarioTick(y: real)
    requires y < 101.0
    ensures OnTick(Lone([y]), 0.11) == if 0.0 < y - 33.0 then Lone([y - 33.0]) else Lone([])
  {
    var s := Lone([y]);
    var r := OnTick(s, 0.11);
    var shooter := s.players[0];
    assert MovePlayers(s.players, 0.11) == [shooter];
    var moved := MoveBullet(s.bullets[0], 0.11);
    assert moved == Bullet(1, Location(100.0, y - 33.0), Up);
    assert !InRange(shooter.location, moved.location);
    assert HitCount(shooter.location, s.bullets, 0.11) == 0;
    TickPlayers(s, 0.11);
    assert r.players == [shooter];
    TickBullets(s, 0.11);
    assert !AnyInRange([shooter], moved.location);
    assert Survivors([shooter], s.bullets, 0.11) == if 0.0 < y - 33.0 then [moved] else [];
  }

  /** A lone player at (100, 100) facing up fires: the bullet appears at
      (100, 67) and the player has 47 rounds left. Ticks of 0.11 s move it
      33 units each, to (100, 34) and (100, 1), where it is still inside;
      the third tick takes it to (100, -32) and prunes it. */
  lemma StraightShotScenario()
    ensures var s := Run(Initialize(), [Join("A", Location(100.0, 100.0)), Fire("A")]);
      && s.bullets == [Bullet(1, Location(100.0, 67.0), Up)]
      && s.players[0].ammo == 47
      && OnTick(s, 0.11).bullets == [Bullet(1, Location(100.0, 34.0), Up)]
      && OnTick(OnTick(s, 0.11), 0.11).bullets == [Bullet(1, Location(100.0, 1.0), Up)]
      && OnTick(OnTick(OnTick(s, 0.11), 0.11), 0.11).bullets == []
  {
    ScenarioSetup();
    ScenarioTick(67.0);
    ScenarioTick(34.0);
    ScenarioTick(1.0);
  }
}
