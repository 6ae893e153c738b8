/** Gem collection (`checkGemCollection`) as a function of the registry and
    the player's position: which gems go, which stay, and how the counter moves. */
module Pickups {
  import opened Geometry
  import opened Entities

  /** A gem is collected when the player is closer than 1.5 (in three dimensions). */
  const CollectRadius: real := 1.5
  /** Gems placed by `spawnGems` and needed for a win. */
  const GemTarget: nat := 20

  predicate InReach(p: Vec3, e: Entity) {
    IsCollectable(e) && Closer(DistSq(p, e.pos), CollectRadius)
  }

  predicate AllKnown(ids: seq<nat>, ents: map<nat, Entity>) {
    forall id :: id in ids ==> id in ents
  }

  /** The gems that stay, in their order. */
  function Kept(p: Vec3, gems: seq<nat>, ents: map<nat, Entity>): (r: seq<nat>)
    requires AllKnown(gems, ents)
    ensures |r| <= |gems|
    ensures forall id :: id in r ==> id in gems
  {
    if gems == [] then []
    else (if InReach(p, ents[gems[0]]) then [] else [gems[0]]) + Kept(p, gems[1..], ents)
  }

  /** The gems that are collected. */
  function Taken(p: Vec3, gems: seq<nat>, ents: map<nat, Entity>): (t: set<nat>)
    requires AllKnown(gems, ents)
  {
    if gems == [] then {}
    else (if InReach(p, ents[gems[0]]) then {gems[0]} else {}) + Taken(p, gems[1..], ents)
  }

  /** A gem stays exactly when it is out of reach, and is collected exactly
      when it is within reach. */
  lemma {:induction false} KeptTakenMembers(p: Vec3, gems: seq<nat>, ents: map<nat, Entity>)
    requires AllKnown(gems, ents)
    ensures forall id :: id in Kept(p, gems, ents) <==> id in gems && !InReach(p, ents[id])
    ensures forall id :: id in Taken(p, gems, ents) <==> id in gems && InReach(p, ents[id])
  {
    if gems != [] {
      KeptTakenMembers(p, gems[1..], ents);
      assert gems == [gems[0]] + gems[1..];
    }
  }

  lemma {:induction false} KeptNoDup(p: Vec3, gems: seq<nat>, ents: map<nat, Entity>)
    requires AllKnown(gems, ents) && NoDup(gems)
    ensures NoDup(Kept(p, gems, ents))
  {
    if gems != [] {
      NoDupTail(gems);
      KeptNoDup(p, gems[1..], ents);
      var rest := Kept(p, gems[1..], ents);
      if !InReach(p, ents[gems[0]]) {
        assert gems[0] !in rest by { KeptTakenMembers(p, gems[1..], ents); }
        var k := [gems[0]] + rest;
        forall i, j | 0 <= i < j < |k| ensures k[i] != k[j] {
          assert k[j] == rest[j - 1];
          if 0 < i { assert k[i] == rest[i - 1]; }
        }
      }
    }
  }

  /** Each gem of a duplicate-free list is either kept or collected, never both,
      so the counter grows by exactly the number of gems that leave the list. */
  lemma {:induction false} KeptTakenSplit(p: Vec3, gems: seq<nat>, ents: map<nat, Entity>)
    requires AllKnown(gems, ents) && NoDup(gems)
    ensures |Kept(p, gems, ents)| + |Taken(p, gems, ents)| == |gems|
  {
    if gems != [] {
      NoDupTail(gems);
      KeptTakenSplit(p, gems[1..], ents);
      var g := gems[0];
      var t := Taken(p, gems[1..], ents);
      assert g !in t by { KeptTakenMembers(p, gems[1..], ents); }
      if InReach(p, ents[g]) {
        assert Taken(p, gems, ents) == {g} + t;
        assert |{g} + t| == 1 + |t|;
      }
    }
  }

  /** Gem `j` is kept or taken on its own, ahead of the gems after it. */
  lemma KeptTakenAt(p: Vec3, gems: seq<nat>, ents: map<nat, Entity>, j: nat)
    requires AllKnown(gems, ents) && j < |gems|
    ensures Kept(p, gems[j..], ents) == (if InReach(p, ents[gems[j]]) then [] else [gems[j]]) + Kept(p, gems[j + 1..], ents)
    ensures Taken(p, gems[j..], ents) == (if InReach(p, ents[gems[j]]) then {gems[j]} else {}) + Taken(p, gems[j + 1..], ents)
  {
    assert gems[j..][1..] == gems[j + 1..];
  }

  /** The state of the backwards loop of `checkGemCollection` once gems
      `i..` of `r.gems` are handled: those in reach are spliced out of the
      gems and removed from `collisionObjects`, the earlier ones untouched. */
  ghost predicate Handled(p: Vec3, r: Registry, i: nat, gems: seq<nat>, objs: seq<nat>)
    requires AllKnown(r.gems, r.ents) && i <= |r.gems|
  {
    && gems == r.gems[..i] + Kept(p, r.gems[i..], r.ents)
    && objs == Without(r.objs, Taken(p, r.gems[i..], r.ents))
  }

  /** With gems `i..` handled, gem `i - 1` still sits at index `i - 1`. */
  lemma HandledIndex(p: Vec3, r: Registry, i: nat, gems: seq<nat>, objs: seq<nat>)
    requires AllKnown(r.gems, r.ents) && 0 < i <= |r.gems|
    requires Handled(p, r, i, gems, objs)
    ensures i - 1 < |gems| && gems[i - 1] == r.gems[i - 1] && gems[i - 1] in r.ents
  {
    assert gems[i - 1] == r.gems[..i][i - 1];
    assert r.gems[i - 1] in r.gems;
  }

  /** Taking gem `i - 1` (splicing it out of the gems and removing it from
      `collisionObjects` by `indexOf`/`splice`) hands it exactly as filtering
      would, and the counter grows by one. */
  lemma CollectTake(p: Vec3, r: Registry, i: nat, gems: seq<nat>, objs: seq<nat>)
    requires AllKnown(r.gems, r.ents) && NoDup(r.gems) && NoDup(r.objs)
    requires 0 < i <= |r.gems| && r.gems[i - 1] in r.objs
    requires Handled(p, r, i, gems, objs)
    requires InReach(p, r.ents[r.gems[i - 1]])
    ensures Handled(p, r, i - 1, Splice(gems, i - 1), RemoveFirst(objs, r.gems[i - 1]))
    ensures |Taken(p, r.gems[i - 1..], r.ents)| == |Taken(p, r.gems[i..], r.ents)| + 1
  {
    var g := r.gems[i - 1];
    var k := Kept(p, r.gems[i..], r.ents);
    var t := Taken(p, r.gems[i..], r.ents);
    KeptTakenAt(p, r.gems, r.ents, i - 1);
    assert g !in t by {
      assert g !in r.gems[i..] by {
        forall m | i <= m < |r.gems| ensures r.gems[m] != g {}
      }
      KeptTakenMembers(p, r.gems[i..], r.ents);
    }
    RemoveFirstWithout(r.objs, t, g);
    assert gems[..i - 1] == r.gems[..i - 1];
    assert gems[i..] == k;
    assert [] + k == k;
    assert t + {g} == {g} + t;
  }

  /** Leaving gem `i - 1` in place hands it too, and the counter stays. */
  lemma CollectKeep(p: Vec3, r: Registry, i: nat, gems: seq<nat>, objs: seq<nat>)
    requires AllKnown(r.gems, r.ents) && 0 < i <= |r.gems|
    requires Handled(p, r, i, gems, objs)
    requires !InReach(p, r.ents[r.gems[i - 1]])
    ensures Handled(p, r, i - 1, gems, objs)
    ensures |Taken(p, r.gems[i - 1..], r.ents)| == |Taken(p, r.gems[i..], r.ents)|
  {
    KeptTakenAt(p, r.gems, r.ents, i - 1);
    assert r.gems[..i] == r.gems[..i - 1] + [r.gems[i - 1]];
    assert {} + Taken(p, r.gems[i..], r.ents) == Taken(p, r.gems[i..], r.ents);
  }

  /** The registry and counter after `checkGemCollection` with the player at `p`. */
  function Collect(p: Vec3, r: Registry, count: nat): (Registry, nat)
    requires AllKnown(r.gems, r.ents)
  {
    var taken := Taken(p, r.gems, r.ents);
    (r.(gems := Kept(p, r.gems, r.ents), objs := Without(r.objs, taken)), count + |taken|)
  }

  /** What collection does: exactly the gems within reach leave both `gems`
      and `collisionObjects`; every other gem and object stays; the counter
      grows by exactly the number of gems removed; nothing else changes. */
  lemma CollectEffect(p: Vec3, r: Registry, next: nat, count: nat)
    requires WF(r, next)
    ensures var (r', count') := Collect(p, r, count);
      && r'.ents == r.ents && r'.zombies == r.zombies
      && (forall id :: id in r'.gems <==> id in r.gems && !InReach(p, r.ents[id]))
      && (forall id :: id in r'.objs <==> id in r.objs && !(id in r.gems && InReach(p, r.ents[id])))
      && count' == count + (|r.gems| - |r'.gems|)
      && WF(r', next)
  {
    var (r', count') := Collect(p, r, count);
    KeptTakenMembers(p, r.gems, r.ents);
    KeptTakenSplit(p, r.gems, r.ents);
    KeptNoDup(p, r.gems, r.ents);
    WithoutNoDup(r.objs, Taken(p, r.gems, r.ents));
    forall id | id in r'.objs && r'.ents[id].kind == Gem ensures id in r'.gems {
      assert id in r.gems;
    }
  }

  /** Once the backwards loop has handled every gem, the registry and the
      counter are those `Collect` describes. */
  lemma CollectDone(p: Vec3, r: Registry, count: nat, gems: seq<nat>, objs: seq<nat>, c: nat)
    requires AllKnown(r.gems, r.ents)
    requires Handled(p, r, 0, gems, objs)
    requires c == count + |Taken(p, r.gems[0..], r.ents)|
    ensures (r.(gems := gems, objs := objs), c) == Collect(p, r, count)
  {
    assert r.gems[0..] == r.gems && r.gems[..0] == [];
    assert gems == Kept(p, r.gems, r.ents);
  }

  /** The backwards loop of `checkGemCollection` over `gemState.gems`: each
      gem closer than 1.5 to the player at `p` is counted, spliced out of the
      gem list and removed from `collisionObjects` by `indexOf`/`splice`. */
  method CollectLoop(p: Vec3, r: Registry, count: nat) returns (gems: seq<nat>, objs: seq<nat>, c: nat)
    requires AllKnown(r.gems, r.ents) && NoDup(r.gems) && NoDup(r.objs)
    requires forall id :: id in r.gems ==> id in r.objs
    ensures (r.(gems := gems, objs := objs), c) == Collect(p, r, count)
  {
    gems, objs, c := r.gems, r.objs, count;
    var i := |gems|;
    WithoutEmpty(r.objs);
    assert r.gems[i..] == [] && r.gems[..i] == r.gems;
    while i > 0
      invariant 0 <= i <= |r.gems|
      invariant Handled(p, r, i, gems, objs)
      invariant c == count + |Taken(p, r.gems[i..], r.ents)|
    {
      HandledIndex(p, r, i, gems, objs);
      var g := gems[i - 1];
      var e := r.ents[g];
      if IsCollectable(e) && Closer(DistSq(p, e.pos), CollectRadius) {
        CollectTake(p, r, i, gems, objs);
        c := c + 1;
        gems := Splice(gems, i - 1);
        objs := RemoveFirst(objs, g);
      } else {
        CollectKeep(p, r, i, gems, objs);
      }
      i := i - 1;
    }
    CollectDone(p, r, count, gems, objs, c);
  }

  /** No gem is counted twice: collecting again from the same spot finds
      nothing more, and the counter stays where it is. */
  lemma CollectIdempotent(p: Vec3, r: Registry, count: nat, r1: Registry, c1: nat)
    requires AllKnown(r.gems, r.ents)
    requires (r1, c1) == Collect(p, r, count)
    ensures Collect(p, r1, c1) == (r1, c1)
  {
    var kept := Kept(p, r.gems, r.ents);
    assert r1.gems == kept && r1.ents == r.ents;
    KeptTakenMembers(p, r.gems, r.ents);
    KeptTakenMembers(p, kept, r.ents);
    assert Taken(p, kept, r.ents) == {};
    WithoutEmpty(r1.objs);
    KeptAll(p, kept, r.ents);
  }

  lemma {:induction false} KeptAll(p: Vec3, gems: seq<nat>, ents: map<nat, Entity>)
    requires AllKnown(gems, ents)
    requires forall id :: id in gems ==> !InReach(p, ents[id])
    ensures Kept(p, gems, ents) == gems
  {
    if gems != [] {
      assert gems[0] in gems;
      KeptAll(p, gems[1..], ents);
      assert gems == [gems[0]] + gems[1..];
    }
  }
}
