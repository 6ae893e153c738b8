# Island zombie hunter: the gameplay core

The game puts a player on a round island of radius 145. There are three
rings of rocks (21 in all), a spiral of 100 trees, 20 gems and waves of five
zombies. Each animation frame does five things in order:

1. Steers the player with the `w`/`s` keys or the touch joystick.
2. Blends the crouch.
3. Collects the gems within 1.5.
4. Advances the bullets fired with `f`. A bullet resolves at most one hit:
   25 damage to a zombie, and a zombie at 0 or below is removed.
5. Moves the zombies toward the player. A zombie within 1 takes 10 health.

The player wins with no zombie left and at least 20 gems collected. Every 15
seconds a new wave arrives while fewer than 20 gems are collected.

The model has the following parts:

- **`Entities`**: the shared collision registry. `collisionObjects` and the
  gem and zombie lists are held as lists of identities over one map of
  objects, so a gem or zombie listed twice has one state. The module also
  holds the two read-only scans over the registry:
  - `checkCollisions`: may the player stand here?
  - `isValidGemPosition`: may a gem go here?
- **Specification modules**: `Player`, `Pickups`, `Combat`, `Horde`,
  `Spawning` and `Placement`. Each gives a procedure of `loadGame` as a
  function of the values it reads, with the lemmas about what the procedure
  does. Where the procedure is a loop that updates variables (collection,
  the bullet loop, the zombie loop, gem placement), the module also holds
  that loop as a method proved equal to the function. `Placement` only
  computes the rock and tree layout and has no such method.
- **`Game.World`**: the class whose fields are the game's mutable state.
  Its methods update that state in place and keep the invariant `Valid`:
  - the registry is well formed;
  - every live zombie has 50 or 25 health;
  - `moveSpeed` matches the crouch key;
  - the crouch blend stays in [0, 1];
  - collected gems plus remaining gems equal the gems ever placed;
  - no live bullet has travelled more than 200;
  - the player stands at height 2.4.

Square roots are never taken. `sqrt(d2) < r` is modelled as a comparison of
`d2` with `r * r`. `Geometry.SquaredComparisonsExact` proves the two
comparisons give the same answer.

The model follows the code, and the code behaves as follows:

- The player's health is not clamped. It goes negative under further hits
  (`Horde.TenTicksKill`).
- Frames keep running after a loss or a win.
- A zombie attacks if it was within range before its step, not after.
- Gems block the player like any other obstacle (`Entities.GemsBlock`).
- The tree spiral divides by the last weight (29), not the largest (36), so
  three trees in every fourteen stand beyond radius 100
  (`Placement.TreesBeyondOuterRadius`).
- A bullet that hits something on the tick it passes 200 is spliced out
  twice. The second splice drops the bullet after it
  (`Combat.HitAtRangeDropsNextBullet`).

## Model

| member | source | states |
|---|---|---|
| Geometry.SquaredComparisonsExact | main.js:786-806 | comparing squared distances with squared radii gives exactly the answers of `sqrt(d2) < r` and `sqrt(d2) <= r` |
| Entities.Splice | main.js:1105 | `splice(i, 1)` removes exactly the element at `i`: one shorter, the earlier elements in place, the later ones shifted down; an index past the end changes nothing |
| Entities.IndexOf | main.js:1108 | `indexOf` is -1 exactly when the element is absent, and otherwise the position of its first occurrence |
| Entities.RemoveFirstMembers | main.js:1108-1111 | the `indexOf`/`splice` pair on a duplicate-free list removes exactly that element, shortens the list by one exactly when it was present, and keeps it duplicate-free |
| Entities.RegisterWF | main.js:1061-1062 | pushing a fresh object onto `collisionObjects` (and a gem or zombie onto its own list) keeps the registry well formed |
| Entities.RegisterAllWF | main.js:1573-1574 | pushing a sequence of objects one after another keeps the registry well formed |
| Entities.CheckCollisions | main.js:784-810 | a spot is allowed exactly when it lies on the island and no registered non-zombie object is closer in the ground plane than its radius (default 2) |
| Entities.CollisionFree | main.js:784-810 | the boundary test followed by the loop over `collisionObjects` returns exactly `CheckCollisions` |
| Entities.ZombiesNeverBlock | main.js:796-798 | moving or changing a zombie never changes whether the player may stand anywhere |
| Entities.GemsBlock | main.js:795-806 | a registered gem (radius 0.5) blocks every spot closer than 0.5 to it |
| Entities.GemSpotFree | main.js:1013-1032 | the loop returns exactly `IsValidGemPosition` |
| Entities.IsValidGemPositionMeaning | main.js:1013-1032 | a gem spot is valid exactly when every registered non-collectable object is at least its radius plus 2 away in the ground plane; there is no island test |
| Entities.OnlyGemsAddedValidity | main.js:1017 | adding gems never changes whether a spot is valid for a gem |
| Entities.FirstHit | main.js:1286-1321 | the hit is the first object in `collisionObjects` that the bullet hits (not a gem, 3D distance below its radius, default 1); no earlier object is hit; no hit means no object is hit |
| Entities.FindHit | main.js:1286-1321 | the `for … break` loop finds exactly `FirstHit` |
| Placement.SlotsOf | main.js:758-782 | the ring loops yield as many rocks as the counts add up to, each on one of the rings with an index below that ring's count |
| Placement.RockLayout | main.js:748-782 | there are 21 rocks, each on the circle of radius 120, 80 or 40 |
| Placement.TreeDistance | main.js:831-841 | every tree stands between `20 + 80*2/29` and `20 + 80*36/29` from the centre |
| Placement.TreesBeyondOuterRadius | main.js:831-841 | a tree stands beyond radius 100 exactly when `i % 14` is 4, 7 or 8, and exactly on it when `i % 14` is 13 |
| Placement.FourthTreeOutside | main.js:831-841 | tree 4 stands at `20 + 80*36/29`, beyond radius 100 |
| Placement.OnCircleDistance | main.js:763-765 | the point `radius` along a unit direction, as `cos`/`sin` give it, is at ground distance `radius` from the centre |
| Player.StepLengths | main.js:664-666 | with the speeds the key handlers set, a frame's step is 0.4 standing and 0.15 crouching |
| Player.RawDirection | main.js:645-660 | no held control gives the zero direction; `w` and `s` together cancel; `w` alone gives the camera's forward vector |
| Player.Direction | main.js:645-660 | the sequence of `add`/`sub` calls on the direction computes exactly `RawDirection` |
| Player.Move | main.js:662-686 | a zero direction stays put; otherwise the player takes the one-step candidate exactly when `checkCollisions` allows it and stays put otherwise; a new position is always allowed and at the same height |
| Player.Steer | main.js:636-688 | the new position is `Move` of the summed direction at the crouch-adjusted speed, and the facing turns to `atan2` of the unit direction only when the direction is not zero |
| Player.MoveBounded | main.js:669-675 | with a unit direction, a frame moves the player at most one step length across the ground |
| Player.MoveStaysOnIsland | main.js:784-792 | a player on the island stays on it, whatever the input |
| Player.BoundaryStepRejected | main.js:784-792 | a step from 144.6 that would end at 145.01 is rejected and the player stays put |
| Player.CrouchStep | main.js:520-537 | each frame the blend moves by at most 0.1, up while crouching (capped at 1) and down otherwise (floored at 0), and stays in [0, 1] |
| Player.CrouchRamp | main.js:520-537 | after `n` frames of crouching the blend is `min(c + 0.1 n, 1)` |
| Player.StandRamp | main.js:520-537 | after `n` frames of standing the blend is `max(c - 0.1 n, 0)` |
| Player.TenFramesSaturate | main.js:520-537 | in exact arithmetic, ten frames take any blend to fully crouched or fully standing |
| Pickups.KeptTakenMembers | main.js:1081-1114 | a gem stays exactly when it is out of reach (not collectable, or not closer than 1.5), and is collected exactly when it is in reach |
| Pickups.KeptTakenSplit | main.js:1089-1105 | on a duplicate-free gem list, the gems kept plus the gems collected are all the gems |
| Pickups.CollectTake | main.js:1089-1112 | collecting gem `i - 1` by `splice` and `indexOf`/`splice` agrees with filtering, and the counter grows by one |
| Pickups.CollectKeep | main.js:1082-1089 | passing over a gem out of reach leaves both lists and the counter as filtering does |
| Pickups.CollectLoop | main.js:1081-1114 | the backwards loop leaves exactly the lists and the counter that `Collect` describes |
| Pickups.CollectEffect | main.js:1081-1114 | exactly the gems in reach leave both the gem list and `collisionObjects`; no other object leaves; the counter grows by exactly the number removed; the registry stays well formed |
| Pickups.CollectIdempotent | main.js:1081-1114 | a second collection from the same spot removes nothing and leaves the counter alone, so no gem is counted twice |
| Combat.Advance | main.js:1276-1283 | a bullet keeps its direction and its travelled distance grows by one |
| Combat.ResolveBullet | main.js:1273-1329 | one iteration never touches the bullets before index `i` |
| Combat.ResolveOne | main.js:1274-1329 | the body of the bullet loop computes exactly `ResolveBullet` |
| Combat.RunBulletLoop | main.js:1272-1330 | the backwards bullet loop computes exactly `UpdateBullets` |
| Combat.BulletFate | main.js:1316-1328 | a bullet that neither hits nor passes 200 stays, advanced; one that does exactly one of the two is removed alone |
| Combat.HitAtRangeDropsNextBullet | main.js:1316-1328 | a bullet that hits on the tick it passes 200 takes the bullet after it with it |
| Combat.ObstacleHitChangesNothing | main.js:1286-1320 | a bullet that hits nothing, or hits a rock or a tree, leaves the registry unchanged |
| Combat.ZombieHitEffect | main.js:1298-1315 | a zombie hit takes exactly 25 from that zombie; it leaves both the zombie list and `collisionObjects` exactly when its health reaches 0 or below; no other object changes or leaves |
| Combat.HitZombieWF | main.js:1298-1315 | a zombie hit keeps the registry well formed and every live zombie at 50 or 25 health |
| Combat.ResolveBulletWF | main.js:1273-1329 | one iteration keeps the registry well formed and never touches the gems |
| Combat.ZombieDiesOnSecondHit | main.js:1298-1315 | a fresh zombie (health 50) survives the first hit with 25 and is removed by the second |
| Combat.ResolveInRange | main.js:1325-1328 | after an iteration no bullet has travelled more than 200 |
| Combat.RunInRange | main.js:1272-1330 | after the whole loop no bullet has travelled more than 200 |
| Combat.RunWF | main.js:1272-1330 | the whole loop keeps the registry well formed and never touches the gems |
| Horde.StepZombie | main.js:1593-1603 | a zombie moves only within 200 of the player, and only its position changes |
| Horde.MoveAllShape | main.js:1581-1620 | the `forEach` changes no object outside the zombie list, and no kind, radius or health |
| Horde.MoveStep | main.js:1581-1620 | each zombie is judged at its position before its own step, and only its own entry changes |
| Horde.MoveZombies | main.js:1580-1621 | the `forEach` moves every zombie as `MoveAll` says; health drops by 10 per zombie that stood within 1; `isAlive` is cleared exactly when some hit leaves health at or below 0 |
| Horde.AttackersWitness | main.js:1608-1611 | at least one hit lands exactly when some zombie stands within the attack radius |
| Horde.AllAttack | main.js:1608-1611 | when every zombie is within range, every one of them hits |
| Horde.HealthAfter | main.js:1610 | hits never raise health, and any hit lowers it |
| Horde.UnderAttackHealth | main.js:1608-1617 | after `n` ticks under one zombie, health is `h - 10 n` and the player is alive exactly while that stays above 0 |
| Horde.TenTicksKill | main.js:1608-1617 | from 100, one zombie in range leaves 10 after nine ticks, kills on the tenth, and the eleventh takes health to -10 (no clamp) |
| Horde.MoveAllWF | main.js:1580-1621 | moving the horde keeps the registry well formed and every zombie's health |
| Horde.NewZombie | main.js:1563-1571 | a new zombie has health 50 and radius 1.5 |
| Horde.Wave | main.js:1552-1577 | a wave has five zombies, zombie `i` at its drawn spot |
| Horde.WaveLayout | main.js:1552-1577 | a wave appends five fresh identities, in order, to both the zombie list and `collisionObjects`, and leaves the gems and every earlier object alone |
| Spawning.NewGem | main.js:1042-1058 | a gem is collectable, has radius 0.5 and sits at height 3 over its spot |
| Spawning.Created | main.js:1052-1069 | one attempt loop creates one gem when it placed and nothing otherwise |
| Spawning.PlaceGem | main.js:1035-1069 | the attempt loop for one gem ends as `TryGem` says; a placed gem is registered at the last spot tried under the next identity, otherwise nothing changes |
| Spawning.PlaceGems | main.js:1034-1077 | the `for` loop over 20 gems leaves exactly the registry and next identity of `SpawnGems` |
| Spawning.TryGemJudged | main.js:1038-1069 | the attempt loop uses between 1 and 100 attempts; a placed gem's last attempt was valid and every earlier one invalid; an unplaced gem used all 100 |
| Spawning.JudgedIgnoresGems | main.js:1017 | how a gem fared is the same when judged against the registry without the gems placed before it |
| Spawning.AddedGems | main.js:1034-1077 | the loop creates at most one object per gem, and every one is a gem of radius 0.5 at height 3 |
| Spawning.PlaceStep | main.js:1034-1077 | one pass of the `for` loop, as `PlaceGem` performs it, takes the state after gem `i - 1` to the state after gem `i` |
| Spawning.GemsShape | main.js:1061-1062 | registering gems keeps the registry well formed, adds nothing but gems and leaves the zombies alone |
| Spawning.GemsLayout | main.js:1061-1062 | registered gems go to the end of both `collisionObjects` and the gem list, in order, under consecutive fresh identities |
| Spawning.SpawnUpToJudged | main.js:1007-1078 | every gem got the first valid spot among its attempts, judged as against the registry before spawning: gems never block gems |
| Spawning.SpawnGemsWF | main.js:1007-1078 | spawning keeps the registry well formed and every zombie's health, and lengthens the gem list by exactly the identities it used |
| Game.NewRock | main.js:763-776 | a rock has radius 2 |
| Game.NewTree | main.js:850-855 | a tree has radius 1 |
| Game.Rocks | main.js:758-782 | one rock per ring slot, in order, rock `k` at its ring's radius along the direction of its slot |
| Game.Trees | main.js:833-858 | 100 trees, tree `i` at `TreeDistance(i)` along its own direction |
| Game.RocksOnRings | main.js:758-782 | with unit directions, each registered rock stands on the circle of its ring: its squared ground distance from the centre is the ring's radius squared |
| Game.TreeAtDistance | main.js:843-855 | with a unit direction, tree `i` is a tree at squared ground distance `TreeDistance(i)²` |
| Game.TreesOnSpiral | main.js:833-858 | with unit directions, the tree registered under identity `next + i` stands at ground distance `TreeDistance(i)` from the centre |
| Game.FrameKeeps | main.js:1944-1968 | a frame keeps the registry well formed, every zombie at 50 or 25 health and every bullet within 200; it creates no object, never lowers the gem count, keeps collected plus remaining gems constant, never heals and never revives |
| Game.ObstaclesLayout | main.js:758-782 | rocks or trees go to the end of `collisionObjects`, in order, under fresh identities, and leave the gems, the zombies and every earlier object alone |
| Game.World.constructor | main.js:439-466 | the game starts with the player at (0, 2.4, 0), standing, at speed 0.4, with 100 health, alive, with nothing registered and no gems counted |
| Game.World.Add | main.js:1573-1574 | pushes one object under the next identity and keeps the invariant |
| Game.World.AddAll | main.js:758-782 | pushes a sequence of objects in order and keeps the invariant |
| Game.World.PlaceRocks | main.js:758-782 | registers the 21 rocks of the three rings, each on the circle of its ring |
| Game.World.PlaceTrees | main.js:814-860 | registers the 100 trees, tree `i` at ground distance `TreeDistance(i)` |
| Game.World.SpawnGems | main.js:1007-1078 | the registry becomes `SpawnGems` of the old one, and the gems placed grow by the identities used |
| Game.World.SpawnZombies | main.js:1552-1577 | registers one wave of five zombies |
| Game.World.WaveTimer | main.js:1631-1635 | spawns a wave exactly while fewer than 20 gems are collected, and changes nothing otherwise; while fewer than 20 gems were ever placed it always spawns |
| Game.World.SetCrouch | main.js:474-501 | the crouch key sets crouching and speed 0.3 when pressed, and clears crouching with speed 0.4 when released |
| Game.World.Shoot | main.js:1217-1269 | turns to the camera's ground direction when it is not zero, and appends exactly one bullet at the muzzle along the new facing, with distance 0 |
| Game.World.UpdateCharacter | main.js:636-688 | the position becomes `Move` of the summed controls, and the facing turns exactly when the direction is not zero; the state becomes `CharacterStep` of the old one |
| Game.World.AnimateCharacter | main.js:507-580 | the crouch blend takes one `CrouchStep`, and the player's position, height included, does not change; the state becomes `AnimateStep` of the old one |
| Game.World.CheckGemCollection | main.js:1081-1114 | the registry and counter become `Collect` of the old ones; the state becomes `CollectStep` of the old one |
| Game.World.UpdateBullets | main.js:1272-1330 | the registry and bullets become `UpdateBullets` of the old ones, with the invariant kept; the state becomes `BulletStep` of the old one |
| Game.World.UpdateZombies | main.js:1580-1621 | zombie positions become `MoveAll` of the old ones; health and liveness fall by the pre-move attackers; the state becomes `ZombieStep` of the old one |
| Game.World.CheckWinCondition | main.js:1623-1627 | a win is an empty horde with at least 20 gems counted, and needs at least 20 gems ever placed |
| Game.World.NoWinBeforeTwentyPlaced | main.js:1623-1627 | while fewer than 20 gems were ever placed, the win test fails, whatever was collected or killed |
| Game.World.Tick | main.js:1944-1968 | the new state is `Frame` of the old one: `updateCharacter`, `animateCharacter`, `checkGemCollection`, `updateBullets` and `updateZombies` in that order, each on the state the one before left; a frame creates no object, never lowers the gem count, never heals and never revives, keeps the invariant, and reports the win test on the new state |

## Left out

- Rendering, audio, the UI, particles, the camera, the sun, moon and water, gem spin, and the limb animations are left out. They only display the state.
- `Math.random`, `cos`/`sin`, `normalize`, `atan2` and the muzzle position and quaternion are not computed. They become parameters: gem spots `sample(i, a)`, zombie spots, ring and tree points, and `normalize`/`atan2`/`heading` functions. The model proves what holds for every choice of them.
- The tree loader runs asynchronously. `Game.World.PlaceTrees` is a separate operation, so a caller chooses when the trees arrive relative to gem placement.
- The commented-out wave gesture is left out. `isWaving` is never set, so the movement branch is always taken.
- `Vector3.length() > 0` is tested as "not the zero vector". `Vector3.normalize()` is the `normalize` parameter.
- The joystick's own clamping and scaling of `moveX`/`moveY` are not part of this model. The values arrive in `Player.Controls` as given.
- `Game.World.Shoot` does not model `shoot()` writing the camera direction into `characterState.direction`. `updateCharacter` resets that vector before reading it.
- The frame loops run on local values and are written back once. An entity is a value in a map from identity to object, not a heap object.
- Floating-point rounding is not modelled. Positions and distances are reals, and health and counters are unbounded integers.
- `Game.World.Tick` does not model the `setInterval` timer running between frames, since the model has no clock. `Game.World.WaveTimer` is the timer's body, called by the environment.
- Game over and the restart are not modelled: the code keeps ticking after either.
- Console output is left out because it changes no game state: the warning when a gem finds no valid spot in 100 attempts (main.js:1072-1076), the bullet-hit logging (main.js:1296-1301) and the tree loader's error message (main.js:863).
