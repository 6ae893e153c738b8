/** Bullets (`updateBullets`): each tick every live bullet moves one unit
    along its direction, resolves at most one hit against the registry, and
    expires once it has travelled more than 200. */
module Combat {
  import opened Geometry
  import opened Entities

  const BulletSpeed: real := 1.0
  const MaxDistance: nat := 200
  const BulletDamage: int := 25

  /** A fired bullet: its mesh position, its fixed direction and `distanceTraveled`. */
  datatype Bullet = Bullet(pos: Vec3, dir: Vec3, traveled: nat)

  /** The state `updateBullets` reads and writes. */
  datatype Arena = Arena(reg: Registry, bullets: seq<Bullet>)

  /** `addScaledVector(direction, speed)` and `distanceTraveled += speed`. */
  function Advance(b: Bullet): (b': Bullet)
    ensures b'.dir == b.dir && b'.traveled == b.traveled + 1
  {
    b.(pos := b.pos.Plus(b.dir.Scaled(BulletSpeed)), traveled := b.traveled + 1)
  }

  /** A bullet hits zombie `id`: 25 damage, and at health <= 0 the zombie is
      spliced out of `zombies` and `collisionObjects`. */
  function HitZombie(r: Registry, id: nat): Registry
    requires id in r.ents
  {
    var e := r.ents[id].(health := r.ents[id].health - BulletDamage);
    var ents := r.ents[id := e];
    if e.health <= 0 then Registry(ents, RemoveFirst(r.objs, id), r.gems, RemoveFirst(r.zombies, id))
    else r.(ents := ents)
  }

  /** The hit the moved bullet `b` resolves, as an index into `collisionObjects`. */
  function HitOf(b: Bullet, r: Registry): Option<nat>
    requires Known(r)
  {
    FirstHit(b.pos, r)
  }

  /** One iteration of the backwards loop of `updateBullets`, on bullet `i`.
      A hit splices the bullet out; then, independently, `distanceTraveled > 200`
      splices index `i` again, which after a hit is the next bullet. */
  function ResolveBullet(a: Arena, i: nat): (a': Arena)
    requires i < |a.bullets| && Known(a.reg)
    ensures Known(a'.reg)
    ensures |a'.bullets| >= i && a'.bullets[..i] == a.bullets[..i]
  {
    var b := Advance(a.bullets[i]);
    var bs := a.bullets[i := b];
    var hit := HitOf(b, a.reg);
    var reg := if hit.Some? && a.reg.objs[hit.value] in a.reg.zombies
               then HitZombie(a.reg, a.reg.objs[hit.value]) else a.reg;
    var bs1 := if hit.Some? then Splice(bs, i) else bs;
    var bs2 := if b.traveled > MaxDistance then Splice(bs1, i) else bs1;
    Arena(reg, bs2)
  }

  /** The loop from bullet `i - 1` down to bullet 0. */
  function RunBullets(a: Arena, i: nat): (a': Arena)
    requires i <= |a.bullets| && Known(a.reg)
    ensures Known(a'.reg)
    decreases i
  {
    if i == 0 then a else RunBullets(ResolveBullet(a, i - 1), i - 1)
  }

  /** `updateBullets()`. */
  function UpdateBullets(a: Arena): Arena
    requires Known(a.reg)
  {
    RunBullets(a, |a.bullets|)
  }

  /** One pass of the body of the backwards loop of `updateBullets`, on bullet `i`. */
  method ResolveOne(r: Registry, bs: seq<Bullet>, i: nat) returns (reg: Registry, bullets: seq<Bullet>)
    requires i < |bs| && Known(r)
    ensures Arena(reg, bullets) == ResolveBullet(Arena(r, bs), i)
  {
    reg := r;
    var b := Advance(bs[i]);
    bullets := bs[i := b];
    var h := FindHit(b.pos, r);
    if h.Some? {
      var obj := r.objs[h.value];
      if obj in r.zombies {
        reg := HitZombie(r, obj);
      }
      bullets := Splice(bullets, i);
    }
    if b.traveled > MaxDistance {
      bullets := Splice(bullets, i);
    }
  }

  /** The backwards loop of `updateBullets` over `bulletState.bullets`,
      updating the zombies and `collisionObjects` it hits as it goes. */
  method RunBulletLoop(r: Registry, bs: seq<Bullet>) returns (reg: Registry, bullets: seq<Bullet>)
    requires Known(r)
    ensures Arena(reg, bullets) == UpdateBullets(Arena(r, bs))
  {
    reg, bullets := r, bs;
    var i := |bullets|;
    while i > 0
      invariant 0 <= i <= |bullets| && Known(reg)
      invariant UpdateBullets(Arena(r, bs)) == RunBullets(Arena(reg, bullets), i)
    {
      reg, bullets := ResolveOne(reg, bullets, i - 1);
      i := i - 1;
    }
  }

  // ---------------------------------------------------------------------
  // What one iteration does.

  /** The fate of the bullet: it stays, advanced by one unit with
      `distanceTraveled` one higher, exactly when it hit nothing and has not
      gone past 200; when it either hit or went past 200 it alone is removed. */
  lemma BulletFate(a: Arena, i: nat)
    requires i < |a.bullets| && Known(a.reg)
    ensures var b := Advance(a.bullets[i]); var a' := ResolveBullet(a, i);
      && (HitOf(b, a.reg).None? && b.traveled <= MaxDistance ==> a'.bullets == a.bullets[i := b])
      && (HitOf(b, a.reg).Some? != (b.traveled > MaxDistance) ==> a'.bullets == a.bullets[..i] + a.bullets[i + 1..])
  {
    var b := Advance(a.bullets[i]);
    assert Splice(a.bullets[i := b], i) == a.bullets[..i] + a.bullets[i + 1..];
  }

  /** A bullet that hits something on the very tick its distance first
      exceeds 200 is spliced twice: the second `splice(i, 1)` removes the
      bullet that followed it, which has already been advanced this tick. */
  lemma HitAtRangeDropsNextBullet(a: Arena, i: nat)
    requires i < |a.bullets| && Known(a.reg)
    requires HitOf(Advance(a.bullets[i]), a.reg).Some?
    requires Advance(a.bullets[i]).traveled > MaxDistance
    ensures ResolveBullet(a, i).bullets == a.bullets[..i] + (if i + 1 < |a.bullets| then a.bullets[i + 2..] else [])
  {
    var bs := a.bullets[i := Advance(a.bullets[i])];
    assert Splice(bs, i) == a.bullets[..i] + a.bullets[i + 1..];
    if i + 1 < |a.bullets| {
      assert Splice(a.bullets[..i] + a.bullets[i + 1..], i) == a.bullets[..i] + a.bullets[i + 2..];
    } else {
      assert a.bullets[..i] + a.bullets[i + 1..] == a.bullets[..i];
    }
  }

  /** Gems never stop a bullet, and a hit on a rock or a tree absorbs the
      bullet and changes nothing else in the registry. */
  lemma ObstacleHitChangesNothing(a: Arena, i: nat)
    requires i < |a.bullets| && Known(a.reg)
    requires var h := HitOf(Advance(a.bullets[i]), a.reg); h.None? || a.reg.objs[h.value] !in a.reg.zombies
    ensures ResolveBullet(a, i).reg == a.reg
  {}

  /** A hit on zombie `z` subtracts exactly 25 from its health and touches no
      other object; the zombie leaves both `zombies` and `collisionObjects`
      exactly when its health falls to 0 or below, and no other id leaves. */
  lemma ZombieHitEffect(r: Registry, next: nat, z: nat)
    requires WF(r, next) && z in r.zombies
    ensures var r' := HitZombie(r, z);
      && r'.ents == r.ents[z := r.ents[z].(health := r.ents[z].health - 25)]
      && r'.gems == r.gems
      && (r.ents[z].health - 25 <= 0 <==> z !in r'.zombies)
      && (r.ents[z].health - 25 <= 0 <==> z !in r'.objs)
      && (forall id :: id in r'.zombies <==> id in r.zombies && (id != z || r.ents[z].health - 25 > 0))
      && (forall id :: id in r'.objs <==> id in r.objs && (id != z || r.ents[z].health - 25 > 0))
  {
    RemoveFirstMembers(r.objs, z);
    RemoveFirstMembers(r.zombies, z);
  }

  /** A zombie hit takes the registry from well formed to well formed, and
      keeps every live zombie at 50 or 25 health. */
  lemma HitZombieWF(r: Registry, next: nat, z: nat)
    requires WF(r, next) && ZombieHealthOk(r) && z in r.zombies
    ensures WF(HitZombie(r, z), next)
    ensures ZombieHealthOk(HitZombie(r, z))
  {
    var r' := HitZombie(r, z);
    ZombieHitEffect(r, next, z);
    RemoveFirstMembers(r.objs, z);
    RemoveFirstMembers(r.zombies, z);
    assert r.ents[z].kind == Zombie;
    forall id | id in r'.gems ensures id in r'.objs && r'.ents[id].kind == Gem && r'.ents[id].radius == GemRadius {
      assert id != z;
    }
    forall id | id in r'.objs && r'.ents[id].kind == Zombie ensures id in r'.zombies {
      assert id in r.objs;
    }
  }

  /** The registry side of one iteration keeps the registry well formed and the gems as they were. */
  lemma ResolveBulletWF(a: Arena, i: nat, next: nat)
    requires i < |a.bullets| && WF(a.reg, next) && ZombieHealthOk(a.reg)
    ensures WF(ResolveBullet(a, i).reg, next) && ZombieHealthOk(ResolveBullet(a, i).reg)
    ensures ResolveBullet(a, i).reg.gems == a.reg.gems
  {
    var h := HitOf(Advance(a.bullets[i]), a.reg);
    if h.Some? && a.reg.objs[h.value] in a.reg.zombies {
      HitZombieWF(a.reg, next, a.reg.objs[h.value]);
    }
  }

  /** A fresh zombie (health 50) survives the first 25-point hit with 25 and
      is removed from both lists by the second. */
  lemma ZombieDiesOnSecondHit(r: Registry, next: nat, z: nat)
    requires WF(r, next) && ZombieHealthOk(r) && z in r.zombies && r.ents[z].health == ZombieMaxHealth
    ensures var r1 := HitZombie(r, z);
      && z in r1.zombies && z in r1.objs && r1.ents[z].health == 25
      && var r2 := HitZombie(r1, z);
         z !in r2.zombies && z !in r2.objs && r2.ents[z].health == 0
  {
    ZombieHitEffect(r, next, z);
    var r1 := HitZombie(r, z);
    HitZombieWF(r, next, z);
    ZombieHitEffect(r1, next, z);
  }

  // ---------------------------------------------------------------------
  // Range.

  predicate InRange(bs: seq<Bullet>) {
    forall k :: 0 <= k < |bs| ==> bs[k].traveled <= MaxDistance
  }

  lemma SpliceInRange(bs: seq<Bullet>, i: nat)
    requires InRange(bs)
    ensures InRange(Splice(bs, i))
  {}

  /** No bullet that survives an iteration has travelled more than 200. */
  lemma ResolveInRange(a: Arena, i: nat)
    requires i < |a.bullets| && Known(a.reg) && InRange(a.bullets)
    ensures InRange(ResolveBullet(a, i).bullets)
  {
    var b := Advance(a.bullets[i]);
    var bs := a.bullets[i := b];
    var bs1 := if HitOf(b, a.reg).Some? then Splice(bs, i) else bs;
    if b.traveled > MaxDistance {
      if HitOf(b, a.reg).Some? {
        assert InRange(a.bullets[..i] + a.bullets[i + 1..]);
        assert bs1 == a.bullets[..i] + a.bullets[i + 1..];
        SpliceInRange(bs1, i);
      } else {
        assert Splice(bs, i) == a.bullets[..i] + a.bullets[i + 1..];
      }
    } else if HitOf(b, a.reg).Some? {
      assert bs1 == a.bullets[..i] + a.bullets[i + 1..];
    }
  }

  /** After a whole tick every live bullet has `distanceTraveled <= 200`: a
      bullet is removed on the tick its distance first exceeds 200. */
  lemma {:induction false} RunInRange(a: Arena, i: nat)
    requires i <= |a.bullets| && Known(a.reg) && InRange(a.bullets)
    ensures InRange(RunBullets(a, i).bullets)
    decreases i
  {
    if i > 0 {
      ResolveInRange(a, i - 1);
      RunInRange(ResolveBullet(a, i - 1), i - 1);
    }
  }

  /** A tick keeps the registry well formed and never touches the gems. */
  lemma {:induction false} RunWF(a: Arena, i: nat, next: nat)
    requires i <= |a.bullets| && WF(a.reg, next) && ZombieHealthOk(a.reg)
    ensures WF(RunBullets(a, i).reg, next) && ZombieHealthOk(RunBullets(a, i).reg)
    ensures RunBullets(a, i).reg.gems == a.reg.gems
    decreases i
  {
    if i > 0 {
      ResolveBulletWF(a, i - 1, next);
      RunWF(ResolveBullet(a, i - 1), i - 1, next);
    }
  }
}
