/** The collision registry: the shared `collisionObjects` array and the lists
    of gems and zombies that alias its entries, with the two read-only
    queries over it that the game runs before moving or placing something. */
module Entities {
  import opened Geometry

  datatype Option<T> = None | Some(value: T)

  /** What a registered object is. Projectiles and the player are never registered. */
  datatype Kind = Rock | Tree | Gem | Zombie

  /** A registered object: its position, `userData.collisionRadius` and, for
      zombies, `userData.health`. */
  datatype Entity = Entity(kind: Kind, pos: Vec3, radius: real, health: int)

  const GemRadius: real := 0.5
  const ZombieRadius: real := 1.5
  const ZombieMaxHealth: int := 50
  const IslandRadius: real := 145.0

  /** `userData.isCollectable`, which only gems carry. */
  predicate IsCollectable(e: Entity) { e.kind == Gem }

  /** The objects of the world, each under an id standing for its JavaScript
      identity. `objs` is `collisionObjects`, `gems` is `gemState.gems`, `zombies`
      is `zombieState.zombies`; a gem or zombie sits in two lists at once and
      its state lives once, in `ents`. */
  datatype Registry = Registry(ents: map<nat, Entity>, objs: seq<nat>, gems: seq<nat>, zombies: seq<nat>)

  // ---------------------------------------------------------------------
  // Array surgery as JavaScript does it.

  predicate NoDup<T(==)>(s: seq<T>) {
    forall i, j :: 0 <= i < j < |s| ==> s[i] != s[j]
  }

  /** `s.splice(i, 1)`: removes the element at `i`; an index past the end removes nothing. */
  function Splice<T>(s: seq<T>, i: nat): (r: seq<T>)
    ensures i < |s| ==> |r| == |s| - 1
    ensures i >= |s| ==> r == s
    ensures forall k :: 0 <= k < i && k < |r| ==> r[k] == s[k]
    ensures forall k :: i <= k < |r| ==> r[k] == s[k + 1]
  {
    if i < |s| then s[..i] + s[i + 1..] else s
  }

  /** `s.indexOf(x)`. */
  function IndexOf<T(==)>(s: seq<T>, x: T): (k: int)
    ensures -1 <= k < |s|
    ensures k == -1 <==> x !in s
    ensures 0 <= k ==> s[k] == x && forall j :: 0 <= j < k ==> s[j] != x
  {
    if |s| == 0 then -1
    else if s[0] == x then 0
    else
      var k := IndexOf(s[1..], x);
      if k == -1 then -1 else k + 1
  }

  /** `const i = s.indexOf(x); if (i > -1) s.splice(i, 1);` */
  function RemoveFirst<T(==)>(s: seq<T>, x: T): (r: seq<T>)
    ensures forall y :: y in r ==> y in s
    ensures x !in s ==> r == s
  {
    var k := IndexOf(s, x);
    if k > -1 then Splice(s, k) else s
  }

  /** The elements of `s` that are not in `drop`, in their order. */
  function Without(s: seq<nat>, drop: set<nat>): (r: seq<nat>)
    ensures |r| <= |s|
    ensures forall x :: x in r <==> x in s && x !in drop
  {
    if s == [] then []
    else (if s[0] in drop then [] else [s[0]]) + Without(s[1..], drop)
  }

  lemma NoDupTail<T>(s: seq<T>)
    requires NoDup(s) && s != []
    ensures s[0] !in s[1..] && NoDup(s[1..])
  {
    forall j | 0 <= j < |s| - 1 ensures s[1..][j] != s[0] {
      assert s[1..][j] == s[j + 1];
    }
  }

  lemma {:induction false} WithoutNoDup(s: seq<nat>, drop: set<nat>)
    requires NoDup(s)
    ensures NoDup(Without(s, drop))
  {
    if s != [] {
      NoDupTail(s);
      WithoutNoDup(s[1..], drop);
    }
  }

  lemma {:induction false} WithoutEmpty(s: seq<nat>)
    ensures Without(s, {}) == s
  {
    if s != [] {
      WithoutEmpty(s[1..]);
      assert s == [s[0]] + s[1..];
    }
  }

  lemma {:induction false} WithoutIgnoresAbsent(s: seq<nat>, drop: set<nat>, x: nat)
    requires x !in s
    ensures Without(s, drop + {x}) == Without(s, drop)
  {
    if s != [] {
      WithoutIgnoresAbsent(s[1..], drop, x);
    }
  }

  lemma RemoveFirstCons(y: nat, t: seq<nat>, x: nat)
    requires y != x
    ensures RemoveFirst([y] + t, x) == [y] + RemoveFirst(t, x)
  {
    var s := [y] + t;
    assert s[1..] == t;
    var k := IndexOf(t, x);
    if k > -1 {
      assert IndexOf(s, x) == k + 1;
      assert Splice(s, k + 1) == [y] + Splice(t, k);
    }
  }

  /** Removing an id by `indexOf`/`splice` from a duplicate-free list is
      filtering it out: the one occurrence goes and nothing else changes. */
  lemma RemoveFirstHead(x: nat, rest: seq<nat>)
    ensures RemoveFirst([x] + rest, x) == rest
  {
    assert IndexOf([x] + rest, x) == 0;
    assert ([x] + rest)[1..] == rest;
  }

  lemma WithoutCons(y: nat, t: seq<nat>, drop: set<nat>)
    ensures Without([y] + t, drop) == (if y in drop then [] else [y]) + Without(t, drop)
  {
    assert ([y] + t)[1..] == t;
  }

  lemma {:induction false} RemoveFirstWithout(s: seq<nat>, drop: set<nat>, x: nat)
    requires NoDup(s) && x in s && x !in drop
    ensures RemoveFirst(Without(s, drop), x) == Without(s, drop + {x})
  {
    NoDupTail(s);
    var t := s[1..];
    assert s == [s[0]] + t;
    WithoutCons(s[0], t, drop);
    WithoutCons(s[0], t, drop + {x});
    if s[0] == x {
      WithoutIgnoresAbsent(t, drop, x);
      RemoveFirstHead(x, Without(t, drop));
    } else {
      RemoveFirstWithout(t, drop, x);
      if s[0] !in drop {
        RemoveFirstCons(s[0], Without(t, drop), x);
      }
    }
  }

  /** On a duplicate-free list, `RemoveFirst` removes exactly `x` and keeps the list duplicate-free. */
  lemma RemoveFirstMembers(s: seq<nat>, x: nat)
    requires NoDup(s)
    ensures NoDup(RemoveFirst(s, x))
    ensures forall y :: y in RemoveFirst(s, x) <==> y in s && y != x
    ensures |RemoveFirst(s, x)| == if x in s then |s| - 1 else |s|
  {
    WithoutEmpty(s);
    if x in s {
      RemoveFirstWithout(s, {}, x);
      assert {} + {x} == {x};
      WithoutNoDup(s, {x});
    } else {
      assert IndexOf(s, x) == -1;
    }
  }

  // ---------------------------------------------------------------------
  // Well-formedness of the registry.

  /** Every id in use is below `next`, so `next` is a fresh identity. */
  predicate Fresh(r: Registry, next: nat) {
    forall id :: id in r.ents ==> id < next
  }

  /** Every listed id names a known object. */
  predicate Known(r: Registry) {
    forall id :: id in r.objs ==> id in r.ents
  }

  /** The shape the game keeps: each object is registered at most once, every
      gem and zombie is also registered, the lists agree with the kinds, and
      gems and zombies carry their fixed radii. */
  predicate WF(r: Registry, next: nat) {
    && Fresh(r, next)
    && Known(r)
    && NoDup(r.objs) && NoDup(r.gems) && NoDup(r.zombies)
    && (forall id :: id in r.gems ==> id in r.objs && r.ents[id].kind == Gem && r.ents[id].radius == GemRadius)
    && (forall id :: id in r.zombies ==> id in r.objs && r.ents[id].kind == Zombie && r.ents[id].radius == ZombieRadius)
    && (forall id :: id in r.objs && r.ents[id].kind == Gem ==> id in r.gems)
    && (forall id :: id in r.objs && r.ents[id].kind == Zombie ==> id in r.zombies)
  }

  /** Under 25-point hits from a start of 50, a live zombie has 50 or 25 health. */
  predicate ZombieHealthOk(r: Registry)
    requires Known(r)
    requires forall id :: id in r.zombies ==> id in r.objs
  {
    forall id :: id in r.zombies ==> r.ents[id].health == 50 || r.ents[id].health == 25
  }

  /** Registering a fresh object (pushing it onto `collisionObjects` and, for a
      gem or a zombie, onto its own list) keeps the registry well formed. */
  function Register(r: Registry, id: nat, e: Entity): (r': Registry) {
    Registry(r.ents[id := e], r.objs + [id],
             if e.kind == Gem then r.gems + [id] else r.gems,
             if e.kind == Zombie then r.zombies + [id] else r.zombies)
  }

  lemma RegisterWF(r: Registry, next: nat, e: Entity)
    requires WF(r, next)
    requires e.kind == Gem ==> e.radius == GemRadius
    requires e.kind == Zombie ==> e.radius == ZombieRadius
    ensures WF(Register(r, next, e), next + 1)
    ensures r.zombies == Register(r, next, e).zombies || (e.kind == Zombie && Register(r, next, e).zombies == r.zombies + [next])
  {
    var r' := Register(r, next, e);
    assert next !in r.objs && next !in r.gems && next !in r.zombies;
    forall id | id in r'.objs && r'.ents[id].kind == Gem ensures id in r'.gems {
      if id != next { assert id in r.objs; }
    }
    forall id | id in r'.objs && r'.ents[id].kind == Zombie ensures id in r'.zombies {
      if id != next { assert id in r.objs; }
    }
  }

  /** The identities `lo`, `lo + 1`, ..., `hi - 1`, in order. */
  function Ids(lo: nat, hi: nat): (ids: seq<nat>)
    ensures |ids| == if lo <= hi then hi - lo else 0
    ensures forall k :: 0 <= k < |ids| ==> ids[k] == lo + k
    decreases hi
  {
    if hi <= lo then [] else Ids(lo, hi - 1) + [hi - 1]
  }

  lemma IdsSnoc(lo: nat, hi: nat)
    requires lo <= hi
    ensures Ids(lo, hi + 1) == Ids(lo, hi) + [hi]
  {}

  /** Registering the objects `es` one after the other under the fresh
      identities `next`, `next + 1`, .... */
  function RegisterAll(r: Registry, next: nat, es: seq<Entity>): Registry
    decreases |es|
  {
    if es == [] then r
    else
      var n := |es| - 1;
      Register(RegisterAll(r, next, es[..n]), next + n, es[n])
  }

  lemma RegisterAllSnoc(r: Registry, next: nat, es: seq<Entity>, e: Entity)
    ensures RegisterAll(r, next, es + [e]) == Register(RegisterAll(r, next, es), next + |es|, e)
  {
    assert (es + [e])[..|es|] == es;
  }

  /** Registering objects keeps every listed identity known. */
  lemma {:induction false} RegisterAllKnown(r: Registry, next: nat, es: seq<Entity>)
    requires Known(r)
    ensures Known(RegisterAll(r, next, es))
    decreases |es|
  {
    if es != [] {
      RegisterAllKnown(r, next, es[..|es| - 1]);
    }
  }

  /** The identities among `next`, `next + 1`, ... whose object in `es` is of kind `k`. */
  function IdsOfKind(next: nat, es: seq<Entity>, k: Kind): (ids: seq<nat>)
    ensures |ids| <= |es|
    decreases |es|
  {
    if es == [] then []
    else
      var n := |es| - 1;
      IdsOfKind(next, es[..n], k) + (if es[n].kind == k then [next + n] else [])
  }

  /** When every object of `es` is of kind `k`, all their identities are listed. */
  lemma {:induction false} IdsOfKindAll(next: nat, es: seq<Entity>, k: Kind)
    requires forall j :: 0 <= j < |es| ==> es[j].kind == k
    ensures IdsOfKind(next, es, k) == Ids(next, next + |es|)
    decreases |es|
  {
    if es != [] {
      IdsOfKindAll(next, es[..|es| - 1], k);
    }
  }

  /** When no object of `es` is of kind `k`, none is listed. */
  lemma {:induction false} IdsOfKindNone(next: nat, es: seq<Entity>, k: Kind)
    requires forall j :: 0 <= j < |es| ==> es[j].kind != k
    ensures IdsOfKind(next, es, k) == []
    decreases |es|
  {
    if es != [] {
      IdsOfKindNone(next, es[..|es| - 1], k);
    }
  }

  lemma IdsOfKindSnoc(next: nat, es: seq<Entity>, e: Entity, k: Kind)
    ensures IdsOfKind(next, es + [e], k) == IdsOfKind(next, es, k) + (if e.kind == k then [next + |es|] else [])
  {
    assert (es + [e])[..|es|] == es;
  }

  /** One list of the registry grows by the identities of the new objects of its kind. */
  lemma ListStep(l: seq<nat>, l1: seq<nat>, l2: seq<nat>, ids: seq<nat>, ids': seq<nat>, tail: seq<nat>)
    requires l1 == l + ids && l2 == l1 + tail && ids' == ids + tail
    ensures l2 == l + ids'
  {
    assert (l + ids) + tail == l + (ids + tail);
  }

  lemma EntsStep(m: map<nat, Entity>, m1: map<nat, Entity>, m2: map<nat, Entity>, next: nat, es: seq<Entity>, e: Entity, es': seq<Entity>)
    requires forall id :: next <= id < next + |es| ==> id in m1 && m1[id] == es[id - next]
    requires forall id :: id in m && id < next ==> id in m1 && m1[id] == m[id]
    requires m2 == m1[next + |es| := e] && es' == es + [e]
    ensures forall id :: next <= id < next + |es'| ==> id in m2 && m2[id] == es'[id - next]
    ensures forall id :: id in m && id < next ==> id in m2 && m2[id] == m[id]
  {
    forall id | next <= id < next + |es'| ensures id in m2 && m2[id] == es'[id - next] {
      if id < next + |es| {
        assert es'[id - next] == es[id - next];
      }
    }
  }

  /** `RegisterAll` pushes the new identities, in order, onto `collisionObjects`. */
  lemma {:induction false} RegisterAllObjs(r: Registry, next: nat, es: seq<Entity>)
    ensures RegisterAll(r, next, es).objs == r.objs + Ids(next, next + |es|)
    decreases |es|
  {
    if es == [] {
      assert r.objs + [] == r.objs;
    } else {
      var n := |es| - 1;
      var init, e := es[..n], es[n];
      assert es == init + [e];
      RegisterAllObjs(r, next, init);
      RegisterAllSnoc(r, next, init, e);
      IdsSnoc(next, next + n);
      ListStep(r.objs, RegisterAll(r, next, init).objs, RegisterAll(r, next, es).objs,
               Ids(next, next + n), Ids(next, next + |es|), [next + n]);
    }
  }

  /** `RegisterAll` pushes the gems among the new objects onto
      `gemState.gems`, and the zombies onto `zombieState.zombies`, in order. */
  lemma {:induction false} RegisterAllLists(r: Registry, next: nat, es: seq<Entity>)
    ensures RegisterAll(r, next, es).gems == r.gems + IdsOfKind(next, es, Gem)
    ensures RegisterAll(r, next, es).zombies == r.zombies + IdsOfKind(next, es, Zombie)
    decreases |es|
  {
    if es == [] {
      assert r.gems + [] == r.gems && r.zombies + [] == r.zombies;
    } else {
      var n := |es| - 1;
      var init, e := es[..n], es[n];
      assert es == init + [e];
      RegisterAllLists(r, next, init);
      RegisterAllSnoc(r, next, init, e);
      var r1, r2 := RegisterAll(r, next, init), RegisterAll(r, next, es);
      IdsOfKindSnoc(next, init, e, Gem);
      ListStep(r.gems, r1.gems, r2.gems, IdsOfKind(next, init, Gem), IdsOfKind(next, es, Gem),
               if e.kind == Gem then [next + n] else []);
      IdsOfKindSnoc(next, init, e, Zombie);
      ListStep(r.zombies, r1.zombies, r2.zombies, IdsOfKind(next, init, Zombie), IdsOfKind(next, es, Zombie),
               if e.kind == Zombie then [next + n] else []);
    }
  }

  /** Identity `next + k` names `es[k]`, and no object below `next` changes. */
  lemma {:induction false} RegisterAllEnts(r: Registry, next: nat, es: seq<Entity>)
    ensures var m := RegisterAll(r, next, es).ents;
      && (forall id :: next <= id < next + |es| ==> id in m && m[id] == es[id - next])
      && (forall id :: id in r.ents && id < next ==> id in m && m[id] == r.ents[id])
    decreases |es|
  {
    if es != [] {
      var n := |es| - 1;
      var init, e := es[..n], es[n];
      assert es == init + [e];
      RegisterAllEnts(r, next, init);
      RegisterAllSnoc(r, next, init, e);
      EntsStep(r.ents, RegisterAll(r, next, init).ents, RegisterAll(r, next, es).ents, next, init, e, es);
    }
  }

  /** The objects a well-formed registry may take: gems and zombies with their fixed radii. */
  predicate Registrable(e: Entity) {
    && (e.kind == Gem ==> e.radius == GemRadius)
    && (e.kind == Zombie ==> e.radius == ZombieRadius)
  }

  lemma WFStep(r1: Registry, r2: Registry, next: nat, e: Entity)
    requires WF(r1, next) && Registrable(e)
    requires r2 == Register(r1, next, e)
    ensures WF(r2, next + 1)
  {
    RegisterWF(r1, next, e);
  }

  /** Registering objects keeps the registry well formed. */
  lemma {:induction false} RegisterAllWF(r: Registry, next: nat, es: seq<Entity>)
    requires WF(r, next)
    requires forall k :: 0 <= k < |es| ==> Registrable(es[k])
    ensures WF(RegisterAll(r, next, es), next + |es|)
    decreases |es|
  {
    if es != [] {
      var n := |es| - 1;
      RegisterAllWF(r, next, es[..n]);
      var r1 := RegisterAll(r, next, es[..n]);
      assert WF(r1, next + n);
      var r2 := RegisterAll(r, next, es);
      assert r2 == Register(r1, next + n, es[n]);
      WFStep(r1, r2, next + n, es[n]);
    }
  }

  lemma OnlyGemsStep(r: Registry, r1: Registry, r2: Registry, next: nat, e: Entity)
    requires WF(r1, next) && OnlyGemsAdded(r, r1) && IsCollectable(e)
    requires r2 == Register(r1, next, e)
    ensures OnlyGemsAdded(r, r2)
  {
    OnlyGemsAddedRegister(r, r1, next, e);
  }

  /** Registering nothing but collectables adds nothing but gems. */
  lemma {:induction false} RegisterAllOnlyGems(r: Registry, next: nat, es: seq<Entity>)
    requires WF(r, next)
    requires forall k :: 0 <= k < |es| ==> IsCollectable(es[k]) && Registrable(es[k])
    ensures OnlyGemsAdded(r, RegisterAll(r, next, es))
    decreases |es|
  {
    if es == [] {
      assert OnlyGemsAdded(r, r);
    } else {
      var n := |es| - 1;
      var init, e := es[..n], es[n];
      assert es == init + [e];
      RegisterAllOnlyGems(r, next, init);
      RegisterAllWF(r, next, init);
      RegisterAllSnoc(r, next, init, e);
      OnlyGemsStep(r, RegisterAll(r, next, init), RegisterAll(r, next, es), next + n, e);
    }
  }

  // ---------------------------------------------------------------------
  // checkCollisions: may the player stand at `p`?

  /** Outside the island: `sqrt(x*x + z*z) > islandRadius`. */
  predicate OffIsland(p: Vec3) {
    p.x * p.x + p.z * p.z > IslandRadius * IslandRadius
  }

  /** `e` blocks `p`: ground distance below `collisionRadius || 2`. */
  predicate Blocks(p: Vec3, e: Entity) {
    Closer(DistSqXZ(p, e.pos), OrDefault(e.radius, 2.0))
  }

  /** The `for (const obj of collisionObjects)` loop from index `k` on: zombies
      are skipped, any other object closer than its radius rejects. */
  function NoneBlockFrom(p: Vec3, r: Registry, k: nat): (ok: bool)
    requires Known(r)
    decreases |r.objs| - k
    ensures ok <==> forall j :: k <= j < |r.objs| && r.objs[j] !in r.zombies ==> !Blocks(p, r.ents[r.objs[j]])
  {
    if k >= |r.objs| then true
    else if r.objs[k] in r.zombies then NoneBlockFrom(p, r, k + 1)
    else if Blocks(p, r.ents[r.objs[k]]) then false
    else NoneBlockFrom(p, r, k + 1)
  }

  /** `checkCollisions(newPosition)`: true when the move is allowed. */
  function CheckCollisions(p: Vec3, r: Registry): (ok: bool)
    requires Known(r)
    ensures ok <==> !OffIsland(p) && forall j :: 0 <= j < |r.objs| && r.objs[j] !in r.zombies ==> !Blocks(p, r.ents[r.objs[j]])
  {
    if OffIsland(p) then false else NoneBlockFrom(p, r, 0)
  }

  /** `checkCollisions(p)`: the island test, then the loop over `collisionObjects`. */
  method CollisionFree(p: Vec3, r: Registry) returns (ok: bool)
    requires Known(r)
    ensures ok == CheckCollisions(p, r)
  {
    if p.x * p.x + p.z * p.z > IslandRadius * IslandRadius {
      return false;
    }
    var k := 0;
    while k < |r.objs|
      invariant 0 <= k <= |r.objs|
      invariant NoneBlockFrom(p, r, 0) == NoneBlockFrom(p, r, k)
    {
      var e := r.ents[r.objs[k]];
      if r.objs[k] !in r.zombies && Closer(DistSqXZ(p, e.pos), OrDefault(e.radius, 2.0)) {
        return false;
      }
      k := k + 1;
    }
    return true;
  }

  /** Zombies never block the player, wherever they stand. */
  lemma ZombiesNeverBlock(p: Vec3, r: Registry, z: nat, e: Entity)
    requires Known(r) && z in r.zombies && z in r.ents
    ensures CheckCollisions(p, r.(ents := r.ents[z := e])) == CheckCollisions(p, r)
  {
    var r' := r.(ents := r.ents[z := e]);
    forall j | 0 <= j < |r.objs| && r.objs[j] !in r.zombies
      ensures r'.ents[r.objs[j]] == r.ents[r.objs[j]]
    {}
  }

  /** A registered gem, radius 0.5, blocks the player like any obstacle. */
  lemma GemsBlock(p: Vec3, r: Registry, next: nat, g: nat)
    requires WF(r, next) && g in r.gems
    requires DistSqXZ(p, r.ents[g].pos) < 0.25
    ensures !CheckCollisions(p, r)
  {
    var j := IndexOf(r.objs, g);
    assert r.objs[j] == g;
    assert r.ents[g].kind == Gem;
    assert g !in r.zombies;
    assert Blocks(p, r.ents[r.objs[j]]);
  }

  // ---------------------------------------------------------------------
  // isValidGemPosition: may a gem be placed at `p`?

  /** Closer than `collisionRadius + 2` in the ground plane. */
  predicate TooCloseForGem(p: Vec3, e: Entity) {
    Closer(DistSqXZ(p, e.pos), e.radius + 2.0)
  }

  /** The `for (const obj of collisionObjects)` loop of the test, from index `k` on. */
  function GemClearFrom(p: Vec3, r: Registry, k: nat): bool
    requires Known(r)
    decreases |r.objs| - k
  {
    if k >= |r.objs| then true
    else if IsCollectable(r.ents[r.objs[k]]) then GemClearFrom(p, r, k + 1)
    else if TooCloseForGem(p, r.ents[r.objs[k]]) then false
    else GemClearFrom(p, r, k + 1)
  }

  /** `isValidGemPosition(position)`. */
  function IsValidGemPosition(p: Vec3, r: Registry): bool
    requires Known(r)
  {
    GemClearFrom(p, r, 0)
  }

  /** `isValidGemPosition(p)`: the loop over `collisionObjects`. */
  method GemSpotFree(p: Vec3, r: Registry) returns (ok: bool)
    requires Known(r)
    ensures ok == IsValidGemPosition(p, r)
  {
    var k := 0;
    while k < |r.objs|
      invariant 0 <= k <= |r.objs|
      invariant GemClearFrom(p, r, 0) == GemClearFrom(p, r, k)
    {
      var e := r.ents[r.objs[k]];
      if !IsCollectable(e) && Closer(DistSqXZ(p, e.pos), e.radius + 2.0) {
        return false;
      }
      k := k + 1;
    }
    return true;
  }

  lemma {:induction false} GemClearFromMeaning(p: Vec3, r: Registry, k: nat)
    requires Known(r)
    ensures GemClearFrom(p, r, k) <==>
      forall j :: k <= j < |r.objs| && !IsCollectable(r.ents[r.objs[j]]) ==> !TooCloseForGem(p, r.ents[r.objs[j]])
    decreases |r.objs| - k
  {
    if k < |r.objs| {
      GemClearFromMeaning(p, r, k + 1);
    }
  }

  /** A spot is valid for a gem exactly when it is clear, by the safety
      margin, of every registered object that is not itself collectable.
      There is no island test. */
  lemma IsValidGemPositionMeaning(p: Vec3, r: Registry)
    requires Known(r)
    ensures IsValidGemPosition(p, r) <==>
      forall j :: 0 <= j < |r.objs| && !IsCollectable(r.ents[r.objs[j]]) ==> !TooCloseForGem(p, r.ents[r.objs[j]])
  {
    GemClearFromMeaning(p, r, 0);
  }

  /** `r` is `r0` with nothing but collectable objects pushed onto
      `collisionObjects`, and every object of `r0` unchanged. */
  predicate OnlyGemsAdded(r0: Registry, r: Registry) {
    && |r0.objs| <= |r.objs|
    && (forall k :: 0 <= k < |r0.objs| ==> r.objs[k] == r0.objs[k])
    && (forall id :: id in r0.ents ==> id in r.ents && r.ents[id] == r0.ents[id])
    && (forall k :: |r0.objs| <= k < |r.objs| ==> r.objs[k] in r.ents && IsCollectable(r.ents[r.objs[k]]))
  }

  /** Placing gems never changes where the next gem may go: the test skips
      collectables, so it gives the same answer before and after. */
  lemma OnlyGemsAddedValidity(p: Vec3, r0: Registry, r: Registry)
    requires Known(r0) && Known(r) && OnlyGemsAdded(r0, r)
    ensures IsValidGemPosition(p, r) == IsValidGemPosition(p, r0)
  {
    IsValidGemPositionMeaning(p, r);
    IsValidGemPositionMeaning(p, r0);
    forall j | 0 <= j < |r0.objs| ensures r.objs[j] == r0.objs[j] && r.ents[r.objs[j]] == r0.ents[r0.objs[j]] {
      assert r0.objs[j] in r0.objs;
    }
  }

  /** Registering a fresh gem keeps `OnlyGemsAdded`. */
  lemma OnlyGemsAddedRegister(r0: Registry, r: Registry, next: nat, e: Entity)
    requires Fresh(r, next) && OnlyGemsAdded(r0, r) && IsCollectable(e)
    ensures OnlyGemsAdded(r0, Register(r, next, e))
  {
    var r' := Register(r, next, e);
    forall id | id in r0.ents ensures id in r'.ents && r'.ents[id] == r0.ents[id] {
      assert id in r.ents;
    }
  }

  // ---------------------------------------------------------------------
  // The hit test of `updateBullets`.

  /** A bullet at `p` hits `e`: `e` is not a gem and the bullet is closer than
      `collisionRadius || 1`, in three dimensions. */
  predicate Hits(p: Vec3, e: Entity) {
    !IsCollectable(e) && Closer(DistSq(p, e.pos), OrDefault(e.radius, 1.0))
  }

  /** The index in `collisionObjects`, from `k` on, of the first object the
      bullet hits; the `break` makes it the only one. */
  function FirstHitFrom(p: Vec3, r: Registry, k: nat): (h: Option<nat>)
    requires Known(r)
    decreases |r.objs| - k
    ensures h.Some? ==> k <= h.value < |r.objs| && Hits(p, r.ents[r.objs[h.value]])
    ensures h.Some? ==> forall j :: k <= j < h.value ==> !Hits(p, r.ents[r.objs[j]])
    ensures h.None? ==> forall j :: k <= j < |r.objs| ==> !Hits(p, r.ents[r.objs[j]])
  {
    if k >= |r.objs| then None
    else if Hits(p, r.ents[r.objs[k]]) then Some(k)
    else FirstHitFrom(p, r, k + 1)
  }

  function FirstHit(p: Vec3, r: Registry): (h: Option<nat>)
    requires Known(r)
    ensures h.Some? ==> h.value < |r.objs| && Hits(p, r.ents[r.objs[h.value]])
    ensures h.Some? ==> forall j :: 0 <= j < h.value ==> !Hits(p, r.ents[r.objs[j]])
    ensures h.None? ==> forall j :: 0 <= j < |r.objs| ==> !Hits(p, r.ents[r.objs[j]])
  {
    FirstHitFrom(p, r, 0)
  }

  /** The `for (const obj of collisionObjects)` loop of `updateBullets`, which
      `break`s at the first object the bullet at `p` hits. */
  method FindHit(p: Vec3, r: Registry) returns (h: Option<nat>)
    requires Known(r)
    ensures h == FirstHit(p, r)
  {
    var k := 0;
    while k < |r.objs|
      invariant 0 <= k <= |r.objs|
      invariant FirstHit(p, r) == FirstHitFrom(p, r, k)
    {
      var e := r.ents[r.objs[k]];
      if !IsCollectable(e) && Closer(DistSq(p, e.pos), OrDefault(e.radius, 1.0)) {
        return Some(k);
      }
      k := k + 1;
    }
    return None;
  }
}
