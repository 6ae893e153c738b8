/** The mutable game state that `loadGame` keeps in closure variables
    (`collisionObjects`, `gemState`, `zombieState`, `bulletState`,
    `playerState`, `characterState`, `moveSpeed` and the character's
    position and facing) and the procedures that update it in place, each
    proved to compute what the specification modules define. */
module Game {
  import opened Geometry
  import opened Entities
  import opened Placement
  import opened Player
  import opened Pickups
  import opened Combat
  import opened Horde
  import opened Spawning

  /** A rock on its ring slot and a tree at its spiral point. */
  function NewRock(spot: Point2): (e: Entity)
    ensures e.kind == Rock && e.radius == RockCollisionRadius
  {
    Entity(Rock, Vec3(spot.x, ObstacleHeight, spot.z), RockCollisionRadius, 0)
  }

  function NewTree(spot: Point2): (e: Entity)
    ensures e.kind == Tree && e.radius == TreeCollisionRadius
  {
    Entity(Tree, Vec3(spot.x, ObstacleHeight, spot.z), TreeCollisionRadius, 0)
  }

  /** The rocks of `slots`, in order, each at its ring's radius along the
      direction `dir` gives for its slot. */
  function Rocks(slots: seq<Slot>, dir: Slot -> Point2): (es: seq<Entity>)
    ensures |es| == |slots|
    ensures forall k :: 0 <= k < |es| ==> es[k] == NewRock(OnCircle(slots[k].ring.radius, dir(slots[k])))
  {
    seq(|slots|, (k: int) requires 0 <= k < |slots| => NewRock(OnCircle(slots[k].ring.radius, dir(slots[k]))))
  }

  /** The 100 trees, tree `i` at spiral distance `TreeDistance(i)` along the
      direction `dir(i)` of its golden-angle turn. */
  function Trees(dir: nat -> Point2): (es: seq<Entity>)
    ensures |es| == TreeCount
    ensures forall i :: 0 <= i < |es| ==> es[i] == NewTree(OnCircle(TreeDistance(i), dir(i)))
  {
    seq(TreeCount, (i: int) requires 0 <= i < TreeCount => NewTree(OnCircle(TreeDistance(i), dir(i))))
  }

  /** Placing the rocks or the trees appends one object per entry to
      `collisionObjects`, in order, under consecutive fresh identities, and
      leaves the gems, the zombies and every earlier object alone. */
  lemma ObstaclesLayout(r: Registry, next: nat, es: seq<Entity>)
    requires forall k :: 0 <= k < |es| ==> es[k].kind == Rock || es[k].kind == Tree
    ensures var r' := RegisterAll(r, next, es);
      && r'.objs == r.objs + Ids(next, next + |es|)
      && r'.gems == r.gems && r'.zombies == r.zombies
      && (forall id :: next <= id < next + |es| ==> id in r'.ents && r'.ents[id] == es[id - next])
      && (forall id :: id in r.ents && id < next ==> id in r'.ents && r'.ents[id] == r.ents[id])
  {
    RegisterAllObjs(r, next, es);
    RegisterAllLists(r, next, es);
    IdsOfKindNone(next, es, Gem);
    IdsOfKindNone(next, es, Zombie);
    RegisterAllEnts(r, next, es);
    assert r.gems + [] == r.gems && r.zombies + [] == r.zombies;
  }

  /** The objects under identities `next`, `next + 1`, ... are rocks, the
      one for `slots[k]` at ground distance `slots[k].ring.radius` from the centre. */
  predicate RocksPlaced(r: Registry, next: nat, slots: seq<Slot>) {
    forall id :: next <= id < next + |slots| ==>
      && id in r.ents && r.ents[id].kind == Rock
      && DistSqXZ(r.ents[id].pos, Origin) == slots[id - next].ring.radius * slots[id - next].ring.radius
  }

  /** With unit directions, as `cos`/`sin` give, every registered rock stands
      on the circle of its ring. */
  lemma RocksOnRings(r: Registry, next: nat, slots: seq<Slot>, dir: Slot -> Point2)
    requires forall s :: Unit(dir(s))
    ensures RocksPlaced(RegisterAll(r, next, Rocks(slots, dir)), next, slots)
  {
    var es := Rocks(slots, dir);
    ObstaclesLayout(r, next, es);
    forall k | 0 <= k < |slots|
      ensures DistSqXZ(es[k].pos, Origin) == slots[k].ring.radius * slots[k].ring.radius
    {
      OnCircleDistance(slots[k].ring.radius, dir(slots[k]));
    }
  }

  /** `e` is a tree at ground distance `TreeDistance(i)` from the centre. */
  predicate TreeAt(e: Entity, i: nat) {
    e.kind == Tree && DistSqXZ(e.pos, Origin) == TreeDistance(i) * TreeDistance(i)
  }

  /** With unit directions, tree `i` stands at ground distance `TreeDistance(i)`. */
  lemma TreeAtDistance(dir: nat -> Point2, i: nat)
    requires Unit(dir(i)) && i < TreeCount
    ensures TreeAt(Trees(dir)[i], i)
  {
    OnCircleDistance(TreeDistance(i), dir(i));
  }

  /** The objects under identities `next` to `next + 99` are the trees, the
      one under `next + i` at ground distance `TreeDistance(i)` from the centre. */
  predicate TreesPlaced(r: Registry, next: nat) {
    forall id :: next <= id < next + TreeCount ==> id in r.ents && TreeAt(r.ents[id], id - next)
  }

  /** With unit directions, the tree registered under identity `next + i`
      stands at ground distance `TreeDistance(i)` from the centre. */
  lemma TreesOnSpiral(r: Registry, next: nat, dir: nat -> Point2)
    requires forall i :: Unit(dir(i))
    ensures TreesPlaced(RegisterAll(r, next, Trees(dir)), next)
  {
    var es := Trees(dir);
    ObstaclesLayout(r, next, es);
    var r' := RegisterAll(r, next, es);
    forall id | next <= id < next + TreeCount
      ensures id in r'.ents && TreeAt(r'.ents[id], id - next)
    {
      TreeAtDistance(dir, id - next);
    }
  }

  /** The values of the game state a frame reads and writes. */
  datatype State = State(reg: Registry, nextId: nat, bullets: seq<Bullet>, pos: Vec3, facing: real,
                         crouching: bool, moveSpeed: real, crouchAmount: real,
                         health: int, alive: bool, gemCount: nat)

  /** `updateCharacter()`: the player steps along the held direction when
      `checkCollisions` allows it, and turns to face that direction. */
  function CharacterStep(c: Controls, forward: Vec3, right: Vec3, normalize: Vec3 -> Vec3, atan2: (real, real) -> real, s: State): State
    requires Known(s.reg)
  {
    var d := RawDirection(c, forward, right);
    s.(pos := Move(s.pos, d, normalize(d), StepLength(s.crouching, s.moveSpeed), s.reg),
       facing := if d != Origin then atan2(normalize(d).x, normalize(d).z) else s.facing)
  }

  /** `animateCharacter()`: the crouch blend moves one step; the height does not change. */
  function AnimateStep(s: State): State {
    s.(crouchAmount := CrouchStep(s.crouchAmount, s.crouching))
  }

  /** `checkGemCollection()` at the player's position. */
  function CollectStep(s: State): State
    requires WF(s.reg, s.nextId)
  {
    var (r, count) := Collect(s.pos, s.reg, s.gemCount);
    s.(reg := r, gemCount := count)
  }

  /** `updateBullets()`: every bullet advances and resolves against the registry. */
  function BulletStep(s: State): State
    requires Known(s.reg)
  {
    var a := Combat.UpdateBullets(Arena(s.reg, s.bullets));
    s.(reg := a.reg, bullets := a.bullets)
  }

  /** `updateZombies()`: the horde moves toward the player, and each zombie
      within reach strikes. */
  function ZombieStep(normalize: Vec3 -> Vec3, s: State): State
    requires forall id :: id in s.reg.zombies ==> id in s.reg.ents
  {
    var hits := Attackers(s.reg.ents, s.reg.zombies, s.pos);
    s.(reg := s.reg.(ents := MoveAll(s.reg.ents, s.reg.zombies, s.pos, normalize)),
       health := HealthAfter(s.health, hits), alive := AliveAfter(s.alive, s.health, hits))
  }

  /** One frame of `animate` on the state `s`: the five steps in the game's
      order, each on the state the one before it left. */
  function Frame(c: Controls, forward: Vec3, right: Vec3, normalize: Vec3 -> Vec3, atan2: (real, real) -> real, s: State): State
    requires WF(s.reg, s.nextId) && ZombieHealthOk(s.reg)
  {
    var s1 := AnimateStep(CharacterStep(c, forward, right, normalize, atan2, s));
    CollectEffect(s1.pos, s1.reg, s1.nextId, s1.gemCount);
    var s2 := CollectStep(s1);
    RunWF(Arena(s2.reg, s2.bullets), |s2.bullets|, s2.nextId);
    ZombieStep(normalize, BulletStep(s2))
  }

  /** A frame keeps the registry well formed and every live zombie at 50 or
      25 health, keeps every bullet within range, creates no object, never
      lowers the gem count, keeps collected plus remaining gems constant,
      never heals and never revives. */
  lemma FrameKeeps(c: Controls, forward: Vec3, right: Vec3, normalize: Vec3 -> Vec3, atan2: (real, real) -> real, s: State)
    requires WF(s.reg, s.nextId) && ZombieHealthOk(s.reg) && InRange(s.bullets)
    ensures var s' := Frame(c, forward, right, normalize, atan2, s);
      && WF(s'.reg, s'.nextId) && ZombieHealthOk(s'.reg) && InRange(s'.bullets)
      && s'.nextId == s.nextId
      && s'.gemCount >= s.gemCount && s'.gemCount + |s'.reg.gems| == s.gemCount + |s.reg.gems|
      && s'.health <= s.health && (s'.alive ==> s.alive)
  {
    var s1 := AnimateStep(CharacterStep(c, forward, right, normalize, atan2, s));
    CollectEffect(s1.pos, s1.reg, s1.nextId, s1.gemCount);
    var s2 := CollectStep(s1);
    RunWF(Arena(s2.reg, s2.bullets), |s2.bullets|, s2.nextId);
    RunInRange(Arena(s2.reg, s2.bullets), |s2.bullets|);
    var s3 := BulletStep(s2);
    MoveAllWF(s3.reg, s3.nextId, s3.pos, normalize);
  }

  class World {
    /** `collisionObjects`, `gemState.gems` and `zombieState.zombies`, with the objects they hold. */
    var reg: Registry
    /** The next unused identity. */
    var nextId: nat
    /** `bulletState.bullets`. */
    var bullets: seq<Bullet>
    /** `character.position` and `character.rotation.y`. */
    var pos: Vec3
    var facing: real
    /** `characterState.isCrouching`, `moveSpeed`, `characterState.crouchAmount`. */
    var crouching: bool
    var moveSpeed: real
    var crouchAmount: real
    /** `playerState.health`, `playerState.isAlive`, `gemState.count`. */
    var health: int
    var alive: bool
    var gemCount: nat
    /** How many gems were ever placed. */
    ghost var gemsPlaced: nat

    /** What the game keeps true between frames. */
    ghost predicate Valid()
      reads this`reg, this`nextId, this`moveSpeed, this`crouching, this`crouchAmount
      reads this`gemCount, this`gemsPlaced, this`bullets, this`pos
    {
      && WF(reg, nextId) && ZombieHealthOk(reg)
      && moveSpeed == SpeedSetting(crouching)
      && 0.0 <= crouchAmount <= 1.0
      && gemCount + |reg.gems| == gemsPlaced
      && InRange(bullets)
      && pos.y == PlayerHeight
    }

    /** The values of the fields, as a `State`. */
    function Current(): State
      reads this
    {
      State(reg, nextId, bullets, pos, facing, crouching, moveSpeed, crouchAmount, health, alive, gemCount)
    }

    /** The state at the start of `loadGame`, before anything is placed. */
    constructor ()
      ensures Valid()
      ensures reg == Registry(map[], [], [], []) && nextId == 0 && bullets == []
      ensures pos == Vec3(0.0, PlayerHeight, 0.0) && facing == 0.0
      ensures !crouching && moveSpeed == WalkSpeed && crouchAmount == 0.0
      ensures health == MaxHealth && alive && gemCount == 0 && gemsPlaced == 0
    {
      reg, nextId := Registry(map[], [], [], []), 0;
      bullets := [];
      pos, facing := Vec3(0.0, PlayerHeight, 0.0), 0.0;
      crouching, moveSpeed, crouchAmount := false, WalkSpeed, 0.0;
      health, alive, gemCount := MaxHealth, true, 0;
      gemsPlaced := 0;
    }

    /** Pushes a new object onto `collisionObjects` and, for a gem or a zombie, onto its own array. */
    method Add(e: Entity) returns (id: nat)
      requires Valid()
      requires e.kind == Gem ==> e.radius == GemRadius
      requires e.kind == Zombie ==> e.radius == ZombieRadius && e.health == ZombieMaxHealth
      modifies this`reg, this`nextId, this`gemsPlaced
      ensures Valid()
      ensures id == old(nextId) && nextId == id + 1
      ensures reg == Register(old(reg), id, e)
      ensures gemsPlaced == old(gemsPlaced) + (if e.kind == Gem then 1 else 0)
    {
      RegisterWF(reg, nextId, e);
      id := nextId;
      var gems, zombies := reg.gems, reg.zombies;
      if e.kind == Gem {
        gems := gems + [id];
        gemsPlaced := gemsPlaced + 1;
      }
      if e.kind == Zombie {
        zombies := zombies + [id];
      }
      reg := Registry(reg.ents[id := e], reg.objs + [id], gems, zombies);
      nextId := nextId + 1;
    }

    // -------------------------------------------------------------------
    // Placing the world.

    /** Registers the objects of `es` one after the other, none of them a gem. */
    method AddAll(es: seq<Entity>)
      requires Valid()
      requires forall k :: 0 <= k < |es| ==> es[k].kind != Gem
      requires forall k :: 0 <= k < |es| ==> es[k].kind == Zombie ==> es[k].radius == ZombieRadius && es[k].health == ZombieMaxHealth
      modifies this`reg, this`nextId, this`gemsPlaced
      ensures Valid()
      ensures reg == RegisterAll(old(reg), old(nextId), es) && nextId == old(nextId) + |es|
      ensures gemsPlaced == old(gemsPlaced)
    {
      var k := 0;
      while k < |es|
        invariant 0 <= k <= |es|
        invariant Valid()
        invariant reg == RegisterAll(old(reg), old(nextId), es[..k]) && nextId == old(nextId) + k
        invariant gemsPlaced == old(gemsPlaced)
      {
        var id := Add(es[k]);
        RegisterAllSnoc(old(reg), old(nextId), es[..k], es[k]);
        assert es[..k + 1] == es[..k] + [es[k]];
        k := k + 1;
      }
      assert es[..k] == es;
    }

    /** The `rockPositions.forEach` loop: the rocks of the three rings, ring
        by ring and index by index, rock `i` of a ring along the direction
        `dir` gives for its angle `i * 2π / count`. */
    method PlaceRocks(dir: Slot -> Point2)
      requires Valid()
      requires forall s :: Unit(dir(s))
      modifies this`reg, this`nextId, this`gemsPlaced
      ensures Valid()
      ensures reg == RegisterAll(old(reg), old(nextId), Rocks(RockSlots(), dir))
      ensures nextId == old(nextId) + |RockSlots()| && gemsPlaced == old(gemsPlaced)
      ensures RocksPlaced(reg, old(nextId), RockSlots())
    {
      ghost var r0, n0 := reg, nextId;
      AddAll(Rocks(RockSlots(), dir));
      RocksOnRings(r0, n0, RockSlots(), dir);
    }

    /** The tree loader's loop: 100 trees of radius 1, tree `i` along the
        direction `dir(i)` of its golden-angle turn. */
    method PlaceTrees(dir: nat -> Point2)
      requires Valid()
      requires forall i :: Unit(dir(i))
      modifies this`reg, this`nextId, this`gemsPlaced
      ensures Valid()
      ensures reg == RegisterAll(old(reg), old(nextId), Trees(dir))
      ensures nextId == old(nextId) + TreeCount && gemsPlaced == old(gemsPlaced)
      ensures TreesPlaced(reg, old(nextId))
    {
      ghost var r0, n0 := reg, nextId;
      AddAll(Trees(dir));
      TreesOnSpiral(r0, n0, dir);
    }

    /** Installs a registry that differs from the current one only by
        `n - nextId` new gems, keeping the invariant. */
    method StoreGems(r: Registry, n: nat)
      requires Valid()
      requires WF(r, n) && ZombieHealthOk(r) && nextId <= n && |r.gems| == |reg.gems| + (n - nextId)
      modifies this`reg, this`nextId, this`gemsPlaced
      ensures Valid()
      ensures reg == r && nextId == n && gemsPlaced == old(gemsPlaced) + (n - old(nextId))
    {
      reg, nextId, gemsPlaced := r, n, gemsPlaced + (n - nextId);
    }

    /** `spawnGems()`: 20 gems, each placed by the attempt loop of
        `PlaceGems`. What this places, and where, is stated by the lemmas
        about `SpawnUpTo`. */
    method SpawnGems(sample: (nat, nat) -> Point2)
      requires Valid()
      modifies this`reg, this`nextId, this`gemsPlaced
      ensures Valid()
      ensures var s := Spawning.SpawnGems(sample, old(reg), old(nextId));
        reg == s.reg && nextId == s.next
      ensures gemsPlaced == old(gemsPlaced) + (nextId - old(nextId))
    {
      SpawnGemsWF(sample, reg, nextId);
      var r, n := PlaceGems(sample, reg, nextId);
      StoreGems(r, n);
    }

    /** `spawnZombies()`: five zombies of health 50 and radius 1.5, zombie `i`
        at the ground point `spot(i)`; `WaveLayout` says where they land. */
    method SpawnZombies(spot: nat -> Point2)
      requires Valid()
      modifies this`reg, this`nextId, this`gemsPlaced
      ensures Valid()
      ensures reg == RegisterAll(old(reg), old(nextId), Wave(spot))
      ensures nextId == old(nextId) + WaveSize && gemsPlaced == old(gemsPlaced)
    {
      AddAll(Wave(spot));
    }

    /** The 15-second interval: a new wave only while fewer than 20 gems are collected. */
    method WaveTimer(spot: nat -> Point2)
      requires Valid()
      modifies this`reg, this`nextId, this`gemsPlaced
      ensures Valid()
      ensures WaveDue(gemCount) ==> reg == RegisterAll(old(reg), old(nextId), Wave(spot)) && nextId == old(nextId) + WaveSize
      ensures !WaveDue(gemCount) ==> reg == old(reg) && nextId == old(nextId)
      ensures gemsPlaced == old(gemsPlaced)
      ensures old(gemsPlaced) < WinGems ==> reg == RegisterAll(old(reg), old(nextId), Wave(spot))
    {
      if gemCount < WinGems {
        SpawnZombies(spot);
      }
    }

    // -------------------------------------------------------------------
    // Input handlers.

    /** The `c` key and the crouch button: pressing sets `isCrouching` and
        `moveSpeed = 0.3`, releasing clears it and sets `moveSpeed = 0.4`. */
    method SetCrouch(down: bool)
      requires Valid()
      modifies this`crouching, this`moveSpeed
      ensures Valid()
      ensures crouching == down && moveSpeed == (if down then 0.3 else 0.4)
    {
      crouching := down;
      moveSpeed := if down then 0.3 else 0.4;
    }

    /** `shoot()` (the `f` key): turns the character to the camera's ground
        direction `forward` and fires a bullet from `muzzle` along
        `heading(facing)`, the unit z axis turned by the character's rotation. */
    method Shoot(forward: Vec3, normalize: Vec3 -> Vec3, atan2: (real, real) -> real, muzzle: Vec3, heading: real -> Vec3)
      requires Valid()
      modifies this`facing, this`bullets
      ensures Valid()
      ensures facing == if forward != Origin then atan2(normalize(forward).x, normalize(forward).z) else old(facing)
      ensures bullets == old(bullets) + [Bullet(muzzle, heading(facing), 0)]
    {
      // The direction is reset and then set to the camera's ground direction.
      var d := forward;
      if d != Origin {
        var unit := normalize(d);
        facing := atan2(unit.x, unit.z);
      }
      bullets := bullets + [Bullet(muzzle, heading(facing), 0)];
    }

    // -------------------------------------------------------------------
    // One frame.

    /** Puts the character at `q`, at the height it already stands. */
    method Stand(q: Vec3)
      requires Valid() && q.y == pos.y
      modifies this`pos
      ensures Valid() && pos == q
    {
      pos := q;
    }

    /** `updateCharacter()`: builds the direction from the held controls and,
        when it is not zero, steps along its normalisation `normalize(d)` by
        `moveSpeed` (halved while crouching) if `checkCollisions` allows the
        new position, and turns the character to face the direction. */
    method UpdateCharacter(c: Controls, forward: Vec3, right: Vec3, normalize: Vec3 -> Vec3, atan2: (real, real) -> real)
      requires Valid()
      modifies this`pos, this`facing
      ensures Valid()
      ensures Current() == CharacterStep(c, forward, right, normalize, atan2, old(Current()))
      ensures var d := RawDirection(c, forward, right);
        && pos == Move(old(pos), d, normalize(d), StepLength(crouching, moveSpeed), reg)
        && facing == if d != Origin then atan2(normalize(d).x, normalize(d).z) else old(facing)
    {
      var q, f := Steer(c, forward, right, normalize, atan2, pos, facing, crouching, moveSpeed, reg);
      Stand(q);
      facing := f;
    }

    /** `animateCharacter()`: `crouchAmount` moves 0.1 toward 1 while
        crouching and toward 0 otherwise; the height it sets is 2.4 both
        standing and crouched, so the character never changes height. */
    method AnimateCharacter()
      requires Valid()
      modifies this`crouchAmount, this`pos
      ensures Valid()
      ensures crouchAmount == CrouchStep(old(crouchAmount), crouching)
      ensures pos == old(pos)
      ensures Current() == AnimateStep(old(Current()))
    {
      if crouching {
        var up := crouchAmount + CrouchRate;
        crouchAmount := if up < 1.0 then up else 1.0;
      } else {
        var down := crouchAmount - CrouchRate;
        crouchAmount := if down > 0.0 then down else 0.0;
      }
      var baseHeight, crouchHeight := 2.4, 2.4;
      var currentHeight := baseHeight - crouchAmount * (baseHeight - crouchHeight);
      if crouchAmount > 0.0 {
        pos := pos.(y := currentHeight);
      } else {
        pos := pos.(y := baseHeight);
      }
    }

    /** Installs a new registry and gem counter that keep the invariant,
        with the objects created so far unchanged. */
    method Restock(r: Registry, count: nat)
      requires Valid()
      requires WF(r, nextId) && ZombieHealthOk(r) && count + |r.gems| == gemsPlaced
      modifies this`reg, this`gemCount
      ensures Valid() && reg == r && gemCount == count
    {
      reg, gemCount := r, count;
    }

    /** Installs a new registry with the same number of gems, keeping the
        invariant. */
    method Rearrange(r: Registry)
      requires Valid()
      requires WF(r, nextId) && ZombieHealthOk(r) && |r.gems| == |reg.gems|
      modifies this`reg
      ensures Valid() && reg == r
    {
      reg := r;
    }

    /** `checkGemCollection()`: walks `gemState.gems` from the back, and each
        gem closer than 1.5 to the player is counted, spliced out of the
        gems and removed from `collisionObjects` by `indexOf`/`splice`. */
    method CheckGemCollection()
      requires Valid()
      modifies this`reg, this`gemCount
      ensures Valid()
      ensures (reg, gemCount) == Collect(pos, old(reg), old(gemCount))
      ensures Current() == CollectStep(old(Current()))
    {
      var gems, objs, count := CollectLoop(pos, reg, gemCount);
      CollectEffect(pos, reg, nextId, gemCount);
      Restock(reg.(gems := gems, objs := objs), count);
    }

    /** `updateBullets()`: every bullet advances, resolves at most one hit
        and expires past 200; `Combat` states what that does to the zombies,
        `collisionObjects` and the bullets. */
    method UpdateBullets()
      requires Valid()
      modifies this`reg, this`bullets
      ensures Valid()
      ensures Arena(reg, bullets) == Combat.UpdateBullets(old(Arena(reg, bullets)))
      ensures Current() == BulletStep(old(Current()))
    {
      RunWF(Arena(reg, bullets), |bullets|, nextId);
      RunInRange(Arena(reg, bullets), |bullets|);
      reg, bullets := RunBulletLoop(reg, bullets);
    }

    /** `updateZombies()`: pursuit and attacks, as `MoveZombies` computes them. */
    method UpdateZombies(normalize: Vec3 -> Vec3)
      requires Valid()
      modifies this`reg, this`health, this`alive
      ensures Valid()
      ensures reg == old(reg).(ents := MoveAll(old(reg).ents, old(reg).zombies, pos, normalize))
      ensures var hits := Attackers(old(reg).ents, old(reg).zombies, pos);
        health == HealthAfter(old(health), hits) && alive == AliveAfter(old(alive), old(health), hits)
      ensures Current() == ZombieStep(normalize, old(Current()))
    {
      ghost var s := Current();
      var r, p := reg, pos;
      MoveAllWF(r, nextId, p, normalize);
      var ents, h, a := MoveZombies(r.ents, r.zombies, p, normalize, health, alive);
      Rearrange(r.(ents := ents));
      health, alive := h, a;
      assert Current() == s.(reg := r.(ents := ents), health := h, alive := a);
    }

    /** `checkWinCondition()`: a win needs an empty horde and 20 gems, so it
        is out of reach while fewer than 20 gems were ever placed. */
    method CheckWinCondition() returns (won: bool)
      requires Valid()
      ensures won == WinConditionMet(reg.zombies, gemCount)
      ensures won ==> |reg.zombies| == 0 && gemsPlaced >= WinGems
    {
      won := |reg.zombies| == 0 && gemCount >= WinGems;
    }

    /** While fewer than 20 gems were ever placed, the win test cannot succeed,
        however the gems are collected and the zombies fought. */
    lemma NoWinBeforeTwentyPlaced()
      requires Valid() && gemsPlaced < WinGems
      ensures !WinConditionMet(reg.zombies, gemCount)
    {
    }

    /** One frame of `animate`: the state becomes `Frame` of the old one, in
        the game's order (move, crouch blend, gem collection, bullets,
        zombies), and the result is the win test on the new state. */
    method Tick(c: Controls, forward: Vec3, right: Vec3, normalize: Vec3 -> Vec3, atan2: (real, real) -> real) returns (won: bool)
      requires Valid()
      modifies this
      ensures Valid()
      ensures Current() == Frame(c, forward, right, normalize, atan2, old(Current()))
      ensures nextId == old(nextId) && gemsPlaced == old(gemsPlaced)
      ensures gemCount >= old(gemCount) && health <= old(health) && (alive ==> old(alive))
      ensures won == WinConditionMet(reg.zombies, gemCount)
    {
      UpdateCharacter(c, forward, right, normalize, atan2);
      AnimateCharacter();
      CheckGemCollection();
      UpdateBullets();
      UpdateZombies(normalize);
      won := CheckWinCondition();
    }
  }
}
