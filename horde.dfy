/** Zombie pursuit and attack (`updateZombies`), zombie waves (`spawnZombies`
    and the 15-second interval) and the win test (`checkWinCondition`). */
module Horde {
  import opened Geometry
  import opened Entities

  const ZombieSpeed: real := 0.1
  const DetectionRadius: real := 200.0
  const AttackRadius: real := 1.0
  const AttackDamage: int := 10
  /** `zombieState.count`: zombies per wave. */
  const WaveSize: nat := 5
  /** Zombies stand at height 2.4. */
  const ZombieHeight: real := 2.4
  const WinGems: nat := 20

  /** Within `detectionRadius` of the player (`distanceToPlayer <= 200`). */
  predicate Pursues(e: Entity, player: Vec3) {
    AtMost(DistSq(e.pos, player), DetectionRadius)
  }

  /** Within `attackRadius` of the player (`distanceToPlayer <= 1`). */
  predicate Attacks(e: Entity, player: Vec3) {
    AtMost(DistSq(e.pos, player), AttackRadius)
  }

  /** One zombie's move: 0.1 along `toward`, the normalised vector from the
      zombie to the player, when the player is within 200. */
  function StepZombie(e: Entity, player: Vec3, normalize: Vec3 -> Vec3): (e': Entity)
    ensures e'.kind == e.kind && e'.radius == e.radius && e'.health == e.health
    ensures !Pursues(e, player) ==> e' == e
  {
    if Pursues(e, player) then e.(pos := e.pos.Plus(normalize(player.Minus(e.pos)).Scaled(ZombieSpeed))) else e
  }

  /** The objects after the `forEach` over `zombies` has moved each listed
      zombie in turn. */
  function MoveAll(ents: map<nat, Entity>, zs: seq<nat>, player: Vec3, normalize: Vec3 -> Vec3): (m: map<nat, Entity>)
    requires forall id :: id in zs ==> id in ents
    ensures m.Keys == ents.Keys
    decreases |zs|
  {
    if zs == [] then ents
    else
      var m := MoveAll(ents, zs[..|zs| - 1], player, normalize);
      var z := zs[|zs| - 1];
      m[z := StepZombie(m[z], player, normalize)]
  }

  /** Moving the horde leaves every unlisted object as it was and changes
      no object's kind, radius or health: only zombie positions move. */
  lemma {:induction false} MoveAllShape(ents: map<nat, Entity>, zs: seq<nat>, player: Vec3, normalize: Vec3 -> Vec3)
    requires forall id :: id in zs ==> id in ents
    ensures var m := MoveAll(ents, zs, player, normalize);
      && (forall id :: id in ents && id !in zs ==> m[id] == ents[id])
      && (forall id :: id in ents ==> m[id].kind == ents[id].kind && m[id].radius == ents[id].radius && m[id].health == ents[id].health)
    decreases |zs|
  {
    if zs != [] {
      var front := zs[..|zs| - 1];
      assert forall id :: id in front ==> id in zs;
      MoveAllShape(ents, front, player, normalize);
    }
  }

  /** How many listed zombies stand within the attack radius, measured
      before they move. */
  function Attackers(ents: map<nat, Entity>, zs: seq<nat>, player: Vec3): (n: nat)
    requires forall id :: id in zs ==> id in ents
    ensures n <= |zs|
    decreases |zs|
  {
    if zs == [] then 0
    else Attackers(ents, zs[..|zs| - 1], player) + (if Attacks(ents[zs[|zs| - 1]], player) then 1 else 0)
  }

  /** The `forEach` from its state before zombie `k` to its state after it:
      zombie `k` has not moved yet, so it is judged at its starting place,
      and only its own entry changes. */
  lemma MoveStep(ents: map<nat, Entity>, zs: seq<nat>, k: nat, player: Vec3, normalize: Vec3 -> Vec3)
    requires k < |zs| && NoDup(zs)
    requires forall id :: id in zs ==> id in ents
    ensures var m := MoveAll(ents, zs[..k], player, normalize);
      && zs[k] in m && m[zs[k]] == ents[zs[k]]
      && MoveAll(ents, zs[..k + 1], player, normalize) == m[zs[k] := StepZombie(ents[zs[k]], player, normalize)]
      && Attackers(ents, zs[..k + 1], player) == Attackers(ents, zs[..k], player) + (if Attacks(ents[zs[k]], player) then 1 else 0)
  {
    assert zs[..k + 1][..k] == zs[..k];
    assert zs[k] in zs;
    assert zs[k] !in zs[..k];
    MoveAllShape(ents, zs[..k], player, normalize);
  }

  /** The `forEach` of `updateZombies` over the zombies `zs`: a zombie within
      200 of the player steps 0.1 toward it, and one that stood within 1
      (before its step) takes 10 from `health`, clearing `alive` once health
      is at or below 0. */
  method MoveZombies(ents: map<nat, Entity>, zs: seq<nat>, player: Vec3, normalize: Vec3 -> Vec3, health: int, alive: bool)
    returns (ents': map<nat, Entity>, health': int, alive': bool)
    requires NoDup(zs) && forall id :: id in zs ==> id in ents
    ensures ents' == MoveAll(ents, zs, player, normalize)
    ensures var hits := Attackers(ents, zs, player);
      health' == HealthAfter(health, hits) && alive' == AliveAfter(alive, health, hits)
  {
    ents', health', alive' := ents, health, alive;
    var k := 0;
    while k < |zs|
      invariant 0 <= k <= |zs|
      invariant ents' == MoveAll(ents, zs[..k], player, normalize)
      invariant var hits := Attackers(ents, zs[..k], player);
        health' == HealthAfter(health, hits) && alive' == AliveAfter(alive, health, hits)
    {
      MoveStep(ents, zs, k, player, normalize);
      var z := zs[k];
      var e := ents'[z];
      var distanceToPlayer := DistSq(e.pos, player);
      if AtMost(distanceToPlayer, DetectionRadius) {
        var toward := normalize(player.Minus(e.pos));
        ents' := ents'[z := e.(pos := e.pos.Plus(toward.Scaled(ZombieSpeed)))];
        if AtMost(distanceToPlayer, AttackRadius) {
          health' := health' - AttackDamage;
          if health' <= 0 {
            alive' := false;
          }
        }
      }
      k := k + 1;
    }
    assert zs[..k] == zs;
  }

  /** Some zombie hits exactly when at least one listed zombie stands within
      the attack radius of the player. */
  lemma {:induction false} AttackersWitness(ents: map<nat, Entity>, zs: seq<nat>, player: Vec3)
    requires forall id :: id in zs ==> id in ents
    ensures Attackers(ents, zs, player) > 0 <==> exists k :: 0 <= k < |zs| && Attacks(ents[zs[k]], player)
    decreases |zs|
  {
    if zs != [] {
      var init := zs[..|zs| - 1];
      AttackersWitness(ents, init, player);
      if exists k :: 0 <= k < |init| && Attacks(ents[init[k]], player) {
        var k :| 0 <= k < |init| && Attacks(ents[init[k]], player);
        assert zs[k] == init[k];
      }
      if exists k :: 0 <= k < |zs| && Attacks(ents[zs[k]], player) {
        var k :| 0 <= k < |zs| && Attacks(ents[zs[k]], player);
        if k < |init| {
          assert init[k] == zs[k];
        }
      }
    }
  }

  /** Hits stack: when every listed zombie is in range, each one hits. */
  lemma {:induction false} AllAttack(ents: map<nat, Entity>, zs: seq<nat>, player: Vec3)
    requires forall id :: id in zs ==> id in ents && Attacks(ents[id], player)
    ensures Attackers(ents, zs, player) == |zs|
    decreases |zs|
  {
    if zs != [] {
      assert zs[|zs| - 1] in zs;
      AllAttack(ents, zs[..|zs| - 1], player);
    }
  }

  /** The player's health after `hits` zombie hits of 10 each: never clamped. */
  function HealthAfter(health: int, hits: nat): (h: int)
    ensures h <= health
    ensures hits > 0 ==> h < health
  {
    health - AttackDamage * hits
  }

  /** `playerState.isAlive` after the loop: cleared by any hit that leaves health at or below 0. */
  function AliveAfter(alive: bool, health: int, hits: nat): bool {
    alive && !(hits > 0 && HealthAfter(health, hits) <= 0)
  }

  /** Health and liveness after `n` ticks with one zombie in range on each. */
  function UnderAttack(health: int, alive: bool, n: nat): (int, bool)
    decreases n
  {
    if n == 0 then (health, alive)
    else UnderAttack(HealthAfter(health, 1), AliveAfter(alive, health, 1), n - 1)
  }

  lemma {:induction false} UnderAttackHealth(health: int, alive: bool, n: nat)
    ensures UnderAttack(health, alive, n).0 == health - 10 * n
    ensures UnderAttack(health, alive, n).1 == (alive && (n == 0 || health - 10 * n > 0))
    decreases n
  {
    if n > 0 {
      UnderAttackHealth(HealthAfter(health, 1), AliveAfter(alive, health, 1), n - 1);
      assert HealthAfter(health, 1) - 10 * (n - 1) == health - 10 * n;
      assert health - 10 * n > 0 ==> health - 10 > 0;
    }
  }

  /** From full health, one zombie in range kills the player on the tenth
      tick; health is not clamped, so an eleventh tick takes it to -10. */
  lemma TenTicksKill()
    ensures UnderAttack(100, true, 9) == (10, true)
    ensures UnderAttack(100, true, 10) == (0, false)
    ensures UnderAttack(100, true, 11) == (-10, false)
  {
    UnderAttackHealth(100, true, 9);
    UnderAttackHealth(100, true, 10);
    UnderAttackHealth(100, true, 11);
  }

  /** Moving zombies keeps the registry well formed and every zombie's health. */
  lemma MoveAllWF(r: Registry, next: nat, player: Vec3, normalize: Vec3 -> Vec3)
    requires WF(r, next) && ZombieHealthOk(r)
    ensures WF(r.(ents := MoveAll(r.ents, r.zombies, player, normalize)), next)
    ensures ZombieHealthOk(r.(ents := MoveAll(r.ents, r.zombies, player, normalize)))
  {
    MoveAllShape(r.ents, r.zombies, player, normalize);
  }

  /** A new zombie of a wave: health 50, radius 1.5, at `spot` on the ground. */
  function NewZombie(spot: Point2): (e: Entity)
    ensures e.kind == Zombie && e.health == ZombieMaxHealth && e.radius == ZombieRadius
  {
    Entity(Zombie, Vec3(spot.x, ZombieHeight, spot.z), ZombieRadius, ZombieMaxHealth)
  }

  /** The wave of `spawnZombies`: zombie `i` at the ground point `spot(i)`. */
  function Wave(spot: nat -> Point2): (es: seq<Entity>)
    ensures |es| == WaveSize
    ensures forall i :: 0 <= i < |es| ==> es[i] == NewZombie(spot(i))
  {
    seq(WaveSize, (i: int) requires 0 <= i < WaveSize => NewZombie(spot(i)))
  }

  /** A wave appends its five zombies, under consecutive fresh identities, to
      the end of both `zombies` and `collisionObjects`, leaves the gems and
      every earlier object alone, and keeps the registry well formed. */
  lemma WaveLayout(r: Registry, next: nat, spot: nat -> Point2)
    ensures var r' := RegisterAll(r, next, Wave(spot));
      && r'.zombies == r.zombies + Ids(next, next + WaveSize)
      && r'.objs == r.objs + Ids(next, next + WaveSize)
      && r'.gems == r.gems
      && (forall id :: next <= id < next + WaveSize ==> id in r'.ents && r'.ents[id] == NewZombie(spot(id - next)))
      && (forall id :: id in r.ents && id < next ==> id in r'.ents && r'.ents[id] == r.ents[id])
  {
    var es := Wave(spot);
    RegisterAllObjs(r, next, es);
    RegisterAllLists(r, next, es);
    IdsOfKindNone(next, es, Gem);
    IdsOfKindAll(next, es, Zombie);
    RegisterAllEnts(r, next, es);
    assert r.gems + [] == r.gems;
  }

  /** `checkWinCondition`: no zombie left and at least 20 gems collected. */
  function WinConditionMet(zombies: seq<nat>, gemCount: nat): bool {
    |zombies| == 0 && gemCount >= WinGems
  }

  /** The wave timer spawns only while fewer than 20 gems are collected. */
  predicate WaveDue(gemCount: nat) {
    gemCount < WinGems
  }
}
