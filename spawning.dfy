/** `spawnGems` as a function of the registry and of the spots its random
    draws produce: `sample(i, a)` is the ground point of attempt `a` for gem
    `i`. */
module Spawning {
  import opened Geometry
  import opened Entities

  /** `numberOfGems` and `maxAttempts`. */
  const GemsPerSpawn: nat := 20
  const MaxAttempts: nat := 100
  /** Gems float at height 3. */
  const GemHeight: real := 3.0

  /** The position of a gem placed at the ground point `spot`. */
  function GemPos(spot: Point2): Vec3 {
    Vec3(spot.x, GemHeight, spot.z)
  }

  function NewGem(spot: Point2): (e: Entity)
    ensures IsCollectable(e) && e.radius == GemRadius && e.pos == GemPos(spot)
  {
    Entity(Gem, GemPos(spot), GemRadius, 0)
  }

  /** How the attempt loop for one gem ended: after how many attempts, and
      whether the last one found a valid spot. */
  datatype Attempt = Attempt(attempts: nat, placed: bool)

  /** The `while (!validPosition && attempts < maxAttempts)` loop for gem
      `i`, from attempt `a` on, judged against the registry `r`. */
  function TryGem(sample: (nat, nat) -> Point2, r: Registry, i: nat, a: nat): (t: Attempt)
    requires Known(r)
    decreases MaxAttempts - a
  {
    if a >= MaxAttempts then Attempt(a, false)
    else if IsValidGemPosition(GemPos(sample(i, a)), r) then Attempt(a + 1, true)
    else TryGem(sample, r, i, a + 1)
  }

  /** The index of the last attempt made (the loop always makes at least one). */
  function LastTry(t: Attempt): nat {
    if t.attempts == 0 then 0 else t.attempts - 1
  }

  /** The gem object the attempt loop `t` created, at the last spot `g` it
      tried: one gem if it placed, nothing otherwise. */
  function Created(t: Attempt, g: Point2): (es: seq<Entity>)
    ensures |es| == if t.placed then 1 else 0
  {
    if t.placed then [NewGem(g)] else []
  }

  /** The gem objects the `for` loop created for gems `0` to `n - 1`, in
      order. Gem `i` runs its attempt loop against `r` with the gems created
      before it registered, under the identities from `next` on. */
  function Added(sample: (nat, nat) -> Point2, r: Registry, next: nat, n: nat): seq<Entity>
    requires Known(r)
    decreases n, 1
  {
    if n == 0 then []
    else
      var t := Outcome(sample, r, next, n - 1);
      Added(sample, r, next, n - 1) + Created(t, sample(n - 1, LastTry(t)))
  }

  /** How the attempt loop for gem `i` ended, run against the registry the
      gems before it left. */
  function Outcome(sample: (nat, nat) -> Point2, r: Registry, next: nat, i: nat): Attempt
    requires Known(r)
    decreases i, 3
  {
    var s := SpawnUpTo(sample, r, next, i);
    TryGem(sample, s.reg, i, 0)
  }

  /** The registry and the next identity after the `for` loop has handled some gems. */
  datatype Spawned = Spawned(reg: Registry, next: nat)

  /** The state after gems `0` to `n - 1`: the gems created so far
      registered in order under consecutive identities from `next`. */
  function SpawnUpTo(sample: (nat, nat) -> Point2, r: Registry, next: nat, n: nat): (s: Spawned)
    requires Known(r)
    ensures Known(s.reg) && next <= s.next
    decreases n, 2
  {
    var es := Added(sample, r, next, n);
    RegisterAllKnown(r, next, es);
    Spawned(RegisterAll(r, next, es), next + |es|)
  }

  /** `spawnGems()`. */
  function SpawnGems(sample: (nat, nat) -> Point2, r: Registry, next: nat): Spawned
    requires Known(r)
  {
    SpawnUpTo(sample, r, next, GemsPerSpawn)
  }

  /** The `while (!validPosition && attempts < maxAttempts)` loop for gem
      `i`, trying the spots `sample(i, 0)`, `sample(i, 1)`, ... against `r`;
      a valid spot is pushed onto `gems` and `collisionObjects` under the
      identity `next`. */
  method PlaceGem(sample: (nat, nat) -> Point2, r: Registry, next: nat, i: nat) returns (t: Attempt, r': Registry, next': nat)
    requires Known(r)
    ensures t == TryGem(sample, r, i, 0)
    ensures t.placed ==> r' == Register(r, next, NewGem(sample(i, LastTry(t)))) && next' == next + 1
    ensures !t.placed ==> r' == r && next' == next
  {
    var valid := false;
    var a := 0;
    r', next' := r, next;
    while !valid && a < MaxAttempts
      invariant 0 <= a <= MaxAttempts
      invariant !valid ==> r' == r && next' == next && TryGem(sample, r, i, 0) == TryGem(sample, r, i, a)
      invariant valid ==> TryGem(sample, r, i, 0) == Attempt(a, true) && a >= 1
      invariant valid ==> r' == Register(r, next, NewGem(sample(i, a - 1))) && next' == next + 1
    {
      var spot := sample(i, a);
      var ok := GemSpotFree(GemPos(spot), r);
      if ok {
        r', next' := Register(r, next, NewGem(spot)), next + 1;
        valid := true;
      }
      a := a + 1;
    }
    t := Attempt(a, valid);
  }

  /** The `for` loop of `spawnGems` over gems 0 to 19. */
  method PlaceGems(sample: (nat, nat) -> Point2, r: Registry, next: nat) returns (r': Registry, next': nat)
    requires Known(r)
    ensures var s := SpawnGems(sample, r, next); r' == s.reg && next' == s.next
  {
    r', next' := r, next;
    for i := 0 to GemsPerSpawn
      invariant var s := SpawnUpTo(sample, r, next, i); r' == s.reg && next' == s.next
    {
      var t;
      ghost var r0, n0 := r', next';
      t, r', next' := PlaceGem(sample, r', next', i);
      PlaceStep(sample, r, next, i, r0, n0, t, r', next');
    }
  }

  // ---------------------------------------------------------------------
  // What the attempt loop does for one gem.

  /** How gem `i` fared: `a` attempts, at most 100, all 100 when it was not
      placed; the last attempt of a placed gem was a valid spot and every
      other attempt was not, all judged against the registry `r`. */
  ghost predicate Judged(sample: (nat, nat) -> Point2, r: Registry, i: nat, a: nat, valid: bool)
    requires Known(r)
  {
    && 1 <= a <= MaxAttempts
    && (!valid ==> a == MaxAttempts)
    && (valid ==> IsValidGemPosition(GemPos(sample(i, a - 1)), r))
    && (forall b :: 0 <= b < a - (if valid then 1 else 0) ==> !IsValidGemPosition(GemPos(sample(i, b)), r))
  }

  /** The attempt loop stops at the first valid spot and gives up after 100 invalid ones. */
  lemma {:induction false} TryGemJudged(sample: (nat, nat) -> Point2, r: Registry, i: nat, a: nat)
    requires Known(r) && a <= MaxAttempts
    requires forall b :: 0 <= b < a ==> !IsValidGemPosition(GemPos(sample(i, b)), r)
    ensures var t := TryGem(sample, r, i, a); Judged(sample, r, i, t.attempts, t.placed)
    decreases MaxAttempts - a
  {
    if a < MaxAttempts && !IsValidGemPosition(GemPos(sample(i, a)), r) {
      TryGemJudged(sample, r, i, a + 1);
    }
  }

  /** Gem `i` fared the same against `r` as against `r0` when `r` only adds gems to `r0`. */
  lemma JudgedIgnoresGems(sample: (nat, nat) -> Point2, r0: Registry, r: Registry, i: nat, a: nat, valid: bool)
    requires Known(r0) && Known(r) && OnlyGemsAdded(r0, r)
    requires Judged(sample, r, i, a, valid)
    ensures Judged(sample, r0, i, a, valid)
  {
    forall b | 0 <= b < a
      ensures IsValidGemPosition(GemPos(sample(i, b)), r) == IsValidGemPosition(GemPos(sample(i, b)), r0)
    {
      OnlyGemsAddedValidity(GemPos(sample(i, b)), r0, r);
    }
  }

  // ---------------------------------------------------------------------
  // What the whole of `spawnGems` does.

  /** Gems of radius 0.5 floating at height 3. */
  predicate AllGems(es: seq<Entity>) {
    forall k :: 0 <= k < |es| ==> IsCollectable(es[k]) && Registrable(es[k]) && es[k].pos.y == GemHeight
  }

  /** It creates at most one object per gem, and every one is a gem of
      radius 0.5 at height 3. */
  lemma {:induction false} AddedGems(sample: (nat, nat) -> Point2, r: Registry, next: nat, n: nat)
    requires Known(r)
    ensures var es := Added(sample, r, next, n); |es| <= n && AllGems(es)
    decreases n
  {
    if n > 0 {
      AddedGems(sample, r, next, n - 1);
      var t := Outcome(sample, r, next, n - 1);
      CreatedGems(Added(sample, r, next, n - 1), t, sample(n - 1, LastTry(t)));
    }
  }

  lemma CreatedGems(es: seq<Entity>, t: Attempt, g: Point2)
    ensures AllGems(es) ==> AllGems(es + Created(t, g))
  {
  }

  /** One pass of the `for` loop, as `PlaceGem` performs it, takes the
      state after gem `i - 1` to the state after gem `i`. */
  lemma PlaceStep(sample: (nat, nat) -> Point2, r: Registry, next: nat, i: nat,
                  r1: Registry, n1: nat, t: Attempt, r2: Registry, n2: nat)
    requires Known(r)
    requires var s := SpawnUpTo(sample, r, next, i); r1 == s.reg && n1 == s.next
    requires t == TryGem(sample, r1, i, 0)
    requires t.placed ==> r2 == Register(r1, n1, NewGem(sample(i, LastTry(t)))) && n2 == n1 + 1
    requires !t.placed ==> r2 == r1 && n2 == n1
    ensures var s := SpawnUpTo(sample, r, next, i + 1); r2 == s.reg && n2 == s.next
  {
    AddedStep(sample, r, next, i);
    RegisterCreated(r, next, Added(sample, r, next, i), t, sample(i, LastTry(t)));
  }

  /** Gem `i` appends what its attempt loop created to the gems before it. */
  lemma AddedStep(sample: (nat, nat) -> Point2, r: Registry, next: nat, i: nat)
    requires Known(r)
    ensures var t := Outcome(sample, r, next, i);
      Added(sample, r, next, i + 1) == Added(sample, r, next, i) + Created(t, sample(i, LastTry(t)))
  {
  }

  /** Registering the output of one more attempt loop is registering it
      after the objects before it. */
  lemma RegisterCreated(r: Registry, next: nat, es: seq<Entity>, t: Attempt, g: Point2)
    ensures t.placed ==> RegisterAll(r, next, es + Created(t, g)) == Register(RegisterAll(r, next, es), next + |es|, NewGem(g))
    ensures !t.placed ==> RegisterAll(r, next, es + Created(t, g)) == RegisterAll(r, next, es)
  {
    if t.placed {
      RegisterAllSnoc(r, next, es, NewGem(g));
    } else {
      assert es + [] == es;
    }
  }

  /** Registering gems keeps the registry well formed, adds nothing but
      gems, and leaves the zombies alone. */
  lemma GemsShape(r: Registry, next: nat, es: seq<Entity>)
    requires WF(r, next)
    requires AllGems(es)
    ensures var r' := RegisterAll(r, next, es);
      && WF(r', next + |es|) && OnlyGemsAdded(r, r') && r'.zombies == r.zombies
  {
    RegisterAllWF(r, next, es);
    RegisterAllOnlyGems(r, next, es);
    RegisterAllLists(r, next, es);
    IdsOfKindNone(next, es, Zombie);
    assert r.zombies + [] == r.zombies;
  }

  /** Registered gems go, under consecutive fresh identities, to the end of
      both `collisionObjects` and `gems`. */
  lemma GemsLayout(r: Registry, next: nat, es: seq<Entity>)
    requires AllGems(es)
    ensures var r' := RegisterAll(r, next, es);
      && r'.objs == r.objs + Ids(next, next + |es|) && r'.gems == r.gems + Ids(next, next + |es|)
      && (forall id :: next <= id < next + |es| ==> id in r'.ents && r'.ents[id] == es[id - next])
  {
    RegisterAllObjs(r, next, es);
    RegisterAllLists(r, next, es);
    IdsOfKindAll(next, es, Gem);
    RegisterAllEnts(r, next, es);
  }

  /** Each gem used between 1 and 100 attempts and got its first valid
      spot, judged as against the starting registry: gems never block gems. */
  lemma SpawnUpToJudged(sample: (nat, nat) -> Point2, r: Registry, next: nat, n: nat)
    requires WF(r, next)
    ensures forall j :: 0 <= j < n ==>
      var t := Outcome(sample, r, next, j); Judged(sample, r, j, t.attempts, t.placed)
  {
    forall j | 0 <= j < n
      ensures var t := Outcome(sample, r, next, j); Judged(sample, r, j, t.attempts, t.placed)
    {
      var s := SpawnUpTo(sample, r, next, j);
      AddedGems(sample, r, next, j);
      GemsShape(r, next, Added(sample, r, next, j));
      TryGemJudged(sample, s.reg, j, 0);
      var t := TryGem(sample, s.reg, j, 0);
      JudgedIgnoresGems(sample, r, s.reg, j, t.attempts, t.placed);
    }
  }

  /** `spawnGems` keeps the registry well formed and every zombie's health,
      and lengthens `gems` by exactly the identities it used: it creates
      nothing but gems. */
  lemma SpawnGemsWF(sample: (nat, nat) -> Point2, r: Registry, next: nat)
    requires WF(r, next) && ZombieHealthOk(r)
    ensures var s := SpawnGems(sample, r, next);
      && WF(s.reg, s.next) && ZombieHealthOk(s.reg)
      && |s.reg.gems| == |r.gems| + (s.next - next)
  {
    var s := SpawnGems(sample, r, next);
    var es := Added(sample, r, next, GemsPerSpawn);
    AddedGems(sample, r, next, GemsPerSpawn);
    GemsShape(r, next, es);
    GemsLayout(r, next, es);
    forall id | id in s.reg.zombies ensures s.reg.ents[id] == r.ents[id] {
      assert id in r.ents;
    }
  }
}
