/** The tick simulator. One tick (1) snaps each player with a movement
    target onto it along at most one axis, when that axis is within one
    tick's travel, and applies a pending facing; (2) advances every bullet in list order and
    damages every player it lands within the hit radius of; (3) prunes the
    bullets that hit somebody or left the open arena, keeping their order. */
module Simulation {
  import opened World

  function Abs(v: real): (r: real)
    ensures 0.0 <= r && (r == v || r == -v)
  {
    if v < 0.0 then -v else v
  }

  /** `v` raised to 0 and then lowered to the arena size. */
  function Clamp(v: real): (r: real)
    ensures 0.0 <= r <= ArenaSize
    ensures 0.0 <= v <= ArenaSize ==> r == v
    ensures v < 0.0 ==> r == 0.0
    ensures ArenaSize < v ==> r == ArenaSize
  {
    var raised := if v < 0.0 then 0.0 else v;
    if ArenaSize < raised then ArenaSize else raised
  }

  /** Applies a pending facing, which stays pending. */
  function Face(p: Player): Player {
    if p.targetDir.Some? then p.(lookingDirection := p.targetDir.value) else p
  }

  /** One tick of one player's movement. Hit points are not consulted. The
      x axis is tried first and, when it snaps, ends the player's step
      before the facing is applied. Neither intent is ever cleared. */
  function MovePlayer(p: Player, delta: real): (q: Player)
    ensures q == p.(location := q.location, lookingDirection := q.lookingDirection)
    ensures p.targetLoc.None? ==> q.location == p.location
    ensures q.location.x == p.location.x || q.location.y == p.location.y
    ensures q.location.x != p.location.x ==>
      p.targetLoc.Some? && q.location.x == Clamp(p.targetLoc.value.x) && q.lookingDirection == p.lookingDirection
    ensures q.location.y != p.location.y ==>
      p.targetLoc.Some? && q.location.y == Clamp(p.targetLoc.value.y)
    ensures q.lookingDirection == p.lookingDirection || p.targetDir == Some(q.lookingDirection)
    ensures InArena(p.location) ==> InArena(q.location)
  {
    if p.targetLoc.Some? then
      var t := p.targetLoc.value;
      var toMove := PlayerSpeed * delta;
      var dx := Abs(t.x - p.location.x);
      var dy := Abs(t.y - p.location.y);
      if 0.0 < dx <= toMove then
        p.(location := p.location.(x := Clamp(t.x)))
      else if 0.0 < dy <= toMove then
        Face(p.(location := p.location.(y := Clamp(t.y))))
      else
        Face(p)
    else
      Face(p)
  }

  function MovePlayers(ps: seq<Player>, delta: real): (r: seq<Player>)
    ensures |r| == |ps|
    ensures forall i :: 0 <= i < |ps| ==> r[i] == MovePlayer(ps[i], delta)
  {
    seq(|ps|, i requires 0 <= i < |ps| => MovePlayer(ps[i], delta))
  }

  /** A snap on x: the player lands on the clamped target x, keeps its y,
      and its facing is not updated this tick. */
  lemma SnapOnArrivalX(p: Player, delta: real)
    requires p.targetLoc.Some?
    requires 0.0 < Abs(p.targetLoc.value.x - p.location.x) <= PlayerSpeed * delta
    ensures MovePlayer(p, delta).location == Location(Clamp(p.targetLoc.value.x), p.location.y)
    ensures MovePlayer(p, delta).lookingDirection == p.lookingDirection
  {
  }

  /** A snap on y happens only when x is not within reach (or already
      reached); the facing is then applied. */
  lemma SnapOnArrivalY(p: Player, delta: real)
    requires p.targetLoc.Some?
    requires !(0.0 < Abs(p.targetLoc.value.x - p.location.x) <= PlayerSpeed * delta)
    requires 0.0 < Abs(p.targetLoc.value.y - p.location.y) <= PlayerSpeed * delta
    ensures MovePlayer(p, delta).location == Location(p.location.x, Clamp(p.targetLoc.value.y))
    ensures MovePlayer(p, delta) == Face(p.(location := Location(p.location.x, Clamp(p.targetLoc.value.y))))
  {
  }

  /** Out of reach on both axes, or without a target: the player stays put. */
  lemma NoSnap(p: Player, delta: real)
    requires p.targetLoc.Some? ==>
      && !(0.0 < Abs(p.targetLoc.value.x - p.location.x) <= PlayerSpeed * delta)
      && !(0.0 < Abs(p.targetLoc.value.y - p.location.y) <= PlayerSpeed * delta)
    ensures MovePlayer(p, delta) == Face(p)
  {
  }

  /** Once the pending facing has been applied, later ticks keep it. */
  lemma FacingIdempotent(p: Player, delta: real)
    requires p.targetDir == Some(p.lookingDirection)
    ensures MovePlayer(p, delta).lookingDirection == p.lookingDirection
    ensures MovePlayer(p, delta).targetDir == p.targetDir
  {
  }

  /** A target inside the arena and within one tick's reach on each axis is
      reached after at most two ticks (x first, then y) and then kept. */
  lemma {:induction false} ArrivesWithinTwoTicks(p: Player, delta: real)
    requires p.targetLoc.Some? && InArena(p.targetLoc.value)
    requires Abs(p.targetLoc.value.x - p.location.x) <= PlayerSpeed * delta
    requires Abs(p.targetLoc.value.y - p.location.y) <= PlayerSpeed * delta
    ensures MovePlayer(MovePlayer(p, delta), delta).location == p.targetLoc.value
    ensures MovePlayer(MovePlayer(MovePlayer(p, delta), delta), delta).location == p.targetLoc.value
  {
    var t := p.targetLoc.value;
    var q := MovePlayer(p, delta);
    if 0.0 < Abs(t.x - p.location.x) {
      assert q.location == Location(t.x, p.location.y);
    } else {
      assert q.location == Location(t.x, t.y);
    }
    var q2 := MovePlayer(q, delta);
    assert q2.location == t;
    assert Abs(t.x - q2.location.x) == 0.0 && Abs(t.y - q2.location.y) == 0.0;
  }

  /** With a target beyond the arena edge the player already stands on, and
      that edge within reach, every tick snaps x onto the edge and skips the
      facing: the player is a fixed point and a pending facing is never
      applied while this target stands. */
  lemma FacingStarvesBeyondEdge(p: Player, delta: real)
    requires p.targetLoc.Some? && p.location.x == ArenaSize
    requires ArenaSize < p.targetLoc.value.x <= ArenaSize + PlayerSpeed * delta
    ensures MovePlayer(p, delta) == p
  {
  }

  /** Bullet motion along the bullet's fixed direction. */
  function MoveBullet(b: Bullet, delta: real): (c: Bullet)
    ensures c.id == b.id && c.direction == b.direction
  {
    var step := BulletSpeed * delta;
    var l := b.location;
    match b.direction
    case Up => b.(location := l.(y := l.y - step))
    case Down => b.(location := l.(y := l.y + step))
    case Left => b.(location := l.(x := l.x + step))
    case Right => b.(location := l.(x := l.x - step))
  }

  /** A bullet covers exactly 300 units per second along one axis. Up and
      Down move along y as named; Left moves towards larger x and Right
      towards smaller x. */
  lemma BulletFlight(b: Bullet, delta: real)
    ensures var c := MoveBullet(b, delta);
      && Abs(c.location.x - b.location.x) + Abs(c.location.y - b.location.y) == BulletSpeed * Abs(delta)
      && ((b.direction == Up || b.direction == Down) ==> c.location.x == b.location.x)
      && ((b.direction == Left || b.direction == Right) ==> c.location.y == b.location.y)
      && (0.0 <= delta ==>
        && (b.direction == Up ==> c.location.y <= b.location.y)
        && (b.direction == Down ==> b.location.y <= c.location.y)
        && (b.direction == Left ==> b.location.x <= c.location.x)
        && (b.direction == Right ==> c.location.x <= b.location.x))
  {
  }

  /** Euclidean distance at most the hit radius, compared squared: for a
      non-negative d, sqrt(d) <= 32 exactly when d <= 1024. */
  predicate InRange(player: Location, bullet: Location) {
    var dx := player.x - bullet.x;
    var dy := player.y - bullet.y;
    dx * dx + dy * dy <= HitRadius * HitRadius
  }

  /** Some player stands within the hit radius of `at`. */
  predicate AnyInRange(players: seq<Player>, at: Location) {
    exists j :: 0 <= j < |players| && InRange(players[j].location, at)
  }

  /** `b` is `a` with at most hit points and ammunition changed: nobody
      moved, turned, or changed intent. */
  predicate SameBodies(a: seq<Player>, b: seq<Player>) {
    |a| == |b| && forall i :: 0 <= i < |a| ==> b[i] == a[i].(hp := b[i].hp, ammo := b[i].ammo)
  }

  /** The effect of one hit on one player: a living player loses one hit
      point, and a player left at or below zero has its ammunition taken. */
  function ApplyHit(p: Player): (q: Player)
    ensures q == p.(hp := q.hp, ammo := q.ammo)
    ensures q.hp < p.hp <==> 0 < p.hp
    ensures p.hp - 1 <= q.hp <= p.hp
    ensures 0 <= p.hp ==> 0 <= q.hp
    ensures q.hp <= 0 ==> q.ammo == 0
    ensures 0 < q.hp ==> q.ammo == p.ammo
  {
    var hp := if 0 < p.hp then p.hp - 1 else p.hp;
    p.(hp := hp, ammo := if hp <= 0 then 0 else p.ammo)
  }

  /** `k` hits in a row. */
  function ApplyHits(p: Player, k: nat): Player
    decreases k
  {
    if k == 0 then p else ApplyHits(ApplyHit(p), k - 1)
  }

  /** Closed form of `k` hits: hit points drop by `k` but not below zero
      (a player already at or below zero keeps its value), and any hit that
      leaves the player at or below zero empties its ammunition. */
  lemma {:induction false} ApplyHitsClosedForm(p: Player, k: nat)
    decreases k
    ensures var q := ApplyHits(p, k);
      && q == p.(hp := q.hp, ammo := q.ammo)
      && q.hp == (if 0 < p.hp then (if k < p.hp then p.hp - k else 0) else p.hp)
      && q.ammo == (if 0 < k && q.hp <= 0 then 0 else p.ammo)
  {
    if k > 0 {
      ApplyHitsClosedForm(ApplyHit(p), k - 1);
    }
  }

  /** Some player is in range exactly when the first one is or a later one is. */
  lemma AnyInRangeSplit(players: seq<Player>, at: Location)
    requires 0 < |players|
    ensures AnyInRange(players, at) <==> InRange(players[0].location, at) || AnyInRange(players[1..], at)
  {
    if AnyInRange(players[1..], at) {
      var j :| 0 <= j < |players[1..]| && InRange(players[1..][j].location, at);
      assert players[j + 1] == players[1..][j];
    }
    if AnyInRange(players, at) && !InRange(players[0].location, at) {
      var j :| 0 <= j < |players| && InRange(players[j].location, at);
      assert players[1..][j - 1] == players[j];
    }
  }

  /** The player list after a strike, with the number of players it hit. */
  datatype Volley = Volley(players: seq<Player>, hits: nat)

  /** What one moved bullet at `at` does to the player list: every player
      within range takes a hit, and `hits` counts them. */
  function Strike(players: seq<Player>, at: Location): (r: Volley)
    ensures |r.players| == |players|
    ensures 0 < r.hits <==> AnyInRange(players, at)
    ensures r.hits <= |players|
  {
    if |players| == 0 then Volley([], 0)
    else
      var rest := Strike(players[1..], at);
      AnyInRangeSplit(players, at);
      if InRange(players[0].location, at) then
        Volley([ApplyHit(players[0])] + rest.players, rest.hits + 1)
      else
        Volley([players[0]] + rest.players, rest.hits)
  }

  /** The player at index `i` takes a hit exactly when it is in range. */
  lemma {:induction false} StrikeAt(players: seq<Player>, at: Location, i: int)
    requires 0 <= i < |players|
    ensures Strike(players, at).players[i] ==
      if InRange(players[i].location, at) then ApplyHit(players[i]) else players[i]
  {
    if 0 < i {
      StrikeAt(players[1..], at, i - 1);
      assert players[1..][i - 1] == players[i];
    }
  }

  /** A strike changes hit points and ammunition only. */
  lemma StrikeKeepsBodies(players: seq<Player>, at: Location)
    ensures SameBodies(players, Strike(players, at).players)
  {
    forall i | 0 <= i < |players| {
      StrikeAt(players, at, i);
    }
  }

  /** A moved bullet, marked as consumed when it reached some player. */
  function Mark(players: seq<Player>, b: Bullet, delta: real): Bullet {
    var moved := MoveBullet(b, delta);
    if AnyInRange(players, moved.location) then moved.(id := ConsumedId) else moved
  }

  /** The state of the bullet pass after its last bullet. */
  datatype Sweep = Sweep(players: seq<Player>, bullets: seq<Bullet>)

  /** Whether a bullet is marked depends only on where the players stand. */
  lemma SameBodiesSameMarks(a: seq<Player>, b: seq<Player>, bullets: seq<Bullet>, delta: real)
    requires SameBodies(a, b)
    ensures forall i :: 0 <= i < |bullets| ==> Mark(a, bullets[i], delta) == Mark(b, bullets[i], delta)
  {
    forall i | 0 <= i < |bullets|
      ensures Mark(a, bullets[i], delta) == Mark(b, bullets[i], delta)
    {
      var at := MoveBullet(bullets[i], delta).location;
      if AnyInRange(a, at) {
        var j :| 0 <= j < |a| && InRange(a[j].location, at);
        assert b[j].location == a[j].location;
      }
      if AnyInRange(b, at) {
        var j :| 0 <= j < |b| && InRange(b[j].location, at);
        assert b[j].location == a[j].location;
      }
    }
  }

  /** The bullet pass, a left fold over the bullets threading the players:
      each bullet moves, then strikes the players as earlier bullets left
      them, and is marked when it hit anybody. */
  function ProcessBullets(players: seq<Player>, bullets: seq<Bullet>, delta: real): (r: Sweep)
    decreases |bullets|
    ensures |r.players| == |players|
    ensures |r.bullets| == |bullets|
  {
    if |bullets| == 0 then Sweep(players, [])
    else
      var moved := MoveBullet(bullets[0], delta);
      var volley := Strike(players, moved.location);
      var b := if 0 < volley.hits then moved.(id := ConsumedId) else moved;
      var rest := ProcessBullets(volley.players, bullets[1..], delta);
      Sweep(rest.players, [b] + rest.bullets)
  }

  /** Each bullet leaves the pass moved, and marked exactly when some
      player, alive or dead, stood within range of it; since hits never
      move anybody, that is decided by where the players stood when the
      pass began. */
  lemma {:induction false} ProcessBulletsMarks(players: seq<Player>, bullets: seq<Bullet>, delta: real)
    decreases |bullets|
    ensures forall i :: 0 <= i < |bullets| ==>
      ProcessBullets(players, bullets, delta).bullets[i] == Mark(players, bullets[i], delta)
  {
    if |bullets| > 0 {
      var moved := MoveBullet(bullets[0], delta);
      var volley := Strike(players, moved.location);
      var rest := ProcessBullets(volley.players, bullets[1..], delta);
      var r := ProcessBullets(players, bullets, delta);
      assert r.bullets[0] == Mark(players, bullets[0], delta);
      ProcessBulletsMarks(volley.players, bullets[1..], delta);
      StrikeKeepsBodies(players, moved.location);
      SameBodiesSameMarks(volley.players, players, bullets[1..], delta);
      forall i | 1 <= i < |bullets|
        ensures r.bullets[i] == Mark(players, bullets[i], delta)
      {
        assert r.bullets[i] == rest.bullets[i - 1];
        assert bullets[1..][i - 1] == bullets[i];
      }
    }
  }

  /** How many of the bullets, once moved, land within range of `at`. */
  function HitCount(at: Location, bullets: seq<Bullet>, delta: real): nat {
    if |bullets| == 0 then 0
    else (if InRange(at, MoveBullet(bullets[0], delta).location) then 1 else 0) + HitCount(at, bullets[1..], delta)
  }

  /** A hit now followed by `later` hits is `later + 1` hits. */
  lemma HitThenHits(p: Player, struck: Player, hit: bool, later: nat)
    requires struck == if hit then ApplyHit(p) else p
    ensures ApplyHits(struck, later) == ApplyHits(p, later + if hit then 1 else 0)
  {
  }

  /** Damage accumulates across the pass: each player ends it as if hit once
      per bullet that landed within range of it, in order, so a later bullet
      sees what earlier ones did. */
  lemma {:induction false} ProcessBulletsDamage(players: seq<Player>, bullets: seq<Bullet>, delta: real, i: int)
    requires 0 <= i < |players|
    decreases |bullets|
    ensures ProcessBullets(players, bullets, delta).players[i]
      == ApplyHits(players[i], HitCount(players[i].location, bullets, delta))
  {
    if |bullets| > 0 {
      var moved := MoveBullet(bullets[0], delta);
      var volley := Strike(players, moved.location);
      var p := players[i];
      var hit := InRange(p.location, moved.location);
      var later := HitCount(p.location, bullets[1..], delta);
      StrikeAt(players, moved.location, i);
      ProcessBulletsDamage(volley.players, bullets[1..], delta, i);
      HitThenHits(p, volley.players[i], hit, later);
    }
  }

  /** The bullet pass changes hit points and ammunition only. */
  lemma ProcessBulletsBodies(players: seq<Player>, bullets: seq<Bullet>, delta: real)
    ensures SameBodies(players, ProcessBullets(players, bullets, delta).players)
  {
    var after := ProcessBullets(players, bullets, delta).players;
    forall i | 0 <= i < |players|
      ensures after[i] == players[i].(hp := after[i].hp, ammo := after[i].ammo)
    {
      ProcessBulletsDamage(players, bullets, delta, i);
      ApplyHitsClosedForm(players[i], HitCount(players[i].location, bullets, delta));
    }
  }

  /** A bullet that survives the prune: not consumed, strictly inside the arena. */
  predicate Survives(b: Bullet) {
    && b.id != ConsumedId
    && 0.0 < b.location.x < ArenaSize
    && 0.0 < b.location.y < ArenaSize
  }

  /** Keeps the surviving bullets. */
  function Prune(bs: seq<Bullet>): (r: seq<Bullet>)
    ensures |r| <= |bs|
    ensures forall b :: b in r ==> b in bs && Survives(b)
    ensures forall b :: b in bs && Survives(b) ==> b in r
  {
    if |bs| == 0 then []
    else (if Survives(bs[0]) then [bs[0]] else []) + Prune(bs[1..])
  }

  /** The prune preserves order: it distributes over concatenation. */
  lemma {:induction false} PruneAppend(a: seq<Bullet>, b: seq<Bullet>)
    ensures Prune(a + b) == Prune(a) + Prune(b)
  {
    if |a| > 0 {
      assert (a + b)[1..] == a[1..] + b;
      PruneAppend(a[1..], b);
    } else {
      assert a + b == b;
    }
  }

  /** Pruning twice prunes nothing more. */
  lemma {:induction false} PruneIdempotent(bs: seq<Bullet>)
    ensures Prune(Prune(bs)) == Prune(bs)
  {
    if |bs| > 0 {
      PruneIdempotent(bs[1..]);
      var head := if Survives(bs[0]) then [bs[0]] else [];
      PruneAppend(head, Prune(bs[1..]));
      if Survives(bs[0]) {
        assert Prune(head) == head by {
          assert head[1..] == [];
        }
      }
    }
  }

  /** One tick of the whole world. */
  function OnTick(s: State, delta: real): (r: State)
    ensures |r.players| == |s.players|
    ensures |r.bullets| <= |s.bullets|
    ensures r.bulletsCount == s.bulletsCount
    ensures forall b :: b in r.bullets ==> Survives(b)
    ensures forall i :: 0 <= i < |s.players| ==>
      && r.players[i].id == s.players[i].id
      && r.players[i].targetLoc == s.players[i].targetLoc
      && r.players[i].targetDir == s.players[i].targetDir
  {
    var placed := MovePlayers(s.players, delta);
    var sweep := ProcessBullets(placed, s.bullets, delta);
    ProcessBulletsBodies(placed, s.bullets, delta);
    State(sweep.players, Prune(sweep.bullets), s.bulletsCount)
  }

  /** Reference definition of the bullets after a tick: in their original
      order, each bullet moved, kept when it was not already consumed,
      reached no player standing at `placed`, and is strictly inside. */
  function Survivors(placed: seq<Player>, bullets: seq<Bullet>, delta: real): seq<Bullet> {
    if |bullets| == 0 then []
    else
      var moved := MoveBullet(bullets[0], delta);
      var keep := && moved.id != ConsumedId
                  && !AnyInRange(placed, moved.location)
                  && 0.0 < moved.location.x < ArenaSize
                  && 0.0 < moved.location.y < ArenaSize;
      (if keep then [moved] else []) + Survivors(placed, bullets[1..], delta)
  }

  lemma {:induction false} PruneMarked(placed: seq<Player>, marked: seq<Bullet>, bullets: seq<Bullet>, delta: real)
    requires |marked| == |bullets|
    requires forall i :: 0 <= i < |bullets| ==> marked[i] == Mark(placed, bullets[i], delta)
    ensures Prune(marked) == Survivors(placed, bullets, delta)
  {
    if |bullets| > 0 {
      assert forall i :: 0 <= i < |bullets| - 1 ==> marked[1..][i] == marked[i + 1];
      assert forall i :: 0 <= i < |bullets| - 1 ==> bullets[1..][i] == bullets[i + 1];
      PruneMarked(placed, marked[1..], bullets[1..], delta);
    }
  }

  /** The bullets after a tick are exactly the reference survivors, taken
      against the players' places after they moved. */
  lemma TickBullets(s: State, delta: real)
    ensures OnTick(s, delta).bullets == Survivors(MovePlayers(s.players, delta), s.bullets, delta)
  {
    var placed := MovePlayers(s.players, delta);
    ProcessBulletsMarks(placed, s.bullets, delta);
    PruneMarked(placed, ProcessBullets(placed, s.bullets, delta).bullets, s.bullets, delta);
  }

  /** Each player after a tick: moved first, then hit once per bullet that
      landed within range of where it moved to. */
  lemma TickPlayers(s: State, delta: real)
    ensures forall i :: 0 <= i < |s.players| ==>
      var moved := MovePlayer(s.players[i], delta);
      OnTick(s, delta).players[i] == ApplyHits(moved, HitCount(moved.location, s.bullets, delta))
  {
    forall i | 0 <= i < |s.players| {
      ProcessBulletsDamage(MovePlayers(s.players, delta), s.bullets, delta, i);
    }
  }

  /** A bullet that ends the tick on or beyond an arena edge is gone in that
      same tick. */
  lemma BoundaryPruning(s: State, delta: real, b: Bullet)
    requires b in s.bullets
    requires var at := MoveBullet(b, delta).location;
      at.x <= 0.0 || ArenaSize <= at.x || at.y <= 0.0 || ArenaSize <= at.y
    ensures MoveBullet(b, delta) !in OnTick(s, delta).bullets
  {
  }
}
