/** The player controller of `updateCharacter` and the crouch blend of
    `animateCharacter`, as functions of the current state and the frame's input. */
module Player {
  import opened Geometry
  import opened Entities

  /** `moveSpeed` while the crouch key is up, and while it is held. */
  const WalkSpeed: real := 0.4
  const CrouchKeySpeed: real := 0.3
  /** `crouchTransitionSpeed`. */
  const CrouchRate: real := 0.1
  /** `character.position.y` after `animateCharacter`: standing and crouched heights are both 2.4. */
  const PlayerHeight: real := 2.4
  const MaxHealth: int := 100

  /** The value the key and touch handlers store in `moveSpeed`. */
  function SpeedSetting(crouching: bool): real {
    if crouching then CrouchKeySpeed else WalkSpeed
  }

  /** `currentMoveSpeed`: `moveSpeed`, halved while crouching. */
  function StepLength(crouching: bool, moveSpeed: real): real {
    if crouching then moveSpeed * 0.5 else moveSpeed
  }

  /** A frame moves the player 0.4 standing and 0.15 crouching: the handlers
      lower `moveSpeed` to 0.3 and `updateCharacter` halves it again. */
  lemma StepLengths()
    ensures StepLength(false, SpeedSetting(false)) == 0.4
    ensures StepLength(true, SpeedSetting(true)) == 0.15
  {}

  /** The held movement controls of one frame: the `w` and `s` keys and the
      joystick (`isMobile && joystickState.active`, `moveX`, `moveY`). */
  datatype Controls = Controls(forward: bool, back: bool, joystick: bool, moveX: real, moveY: real)

  /** True when no control asks for movement. */
  predicate Idle(c: Controls) {
    !c.forward && !c.back && (!c.joystick || (c.moveX == 0.0 && c.moveY == 0.0))
  }

  /** `characterState.direction` before normalisation: the camera's ground
      forward vector for `w`, minus it for `s`, and the joystick's axes along
      the forward and right vectors. */
  function RawDirection(c: Controls, forward: Vec3, right: Vec3): (d: Vec3)
    ensures Idle(c) ==> d == Origin
    ensures c.forward && c.back && !c.joystick ==> d == Origin
    ensures c.forward && !c.back && !c.joystick ==> d == forward
  {
    var d0 := Origin;
    var d1 := if c.forward then d0.Plus(forward) else d0;
    var d2 := if c.back then d1.Minus(forward) else d1;
    var d3 := if c.joystick && c.moveY != 0.0 then d2.Plus(forward.Scaled(c.moveY)) else d2;
    if c.joystick && c.moveX != 0.0 then d3.Plus(right.Scaled(c.moveX)) else d3
  }

  /** `newPosition`: one step of length `step` along the normalised direction `unit`, at the same height. */
  function Candidate(p: Vec3, unit: Vec3, step: real): Vec3 {
    Vec3(p.x + unit.x * step, p.y, p.z + unit.z * step)
  }

  lemma CandidateDistance(p: Vec3, unit: Vec3, step: real)
    ensures unit.x * unit.x + unit.z * unit.z <= 1.0 ==> DistSqXZ(p, Candidate(p, unit, step)) <= step * step
  {
    var q := Candidate(p, unit, step);
    assert (p.x - q.x) * (p.x - q.x) == (unit.x * unit.x) * (step * step);
    assert (p.z - q.z) * (p.z - q.z) == (unit.z * unit.z) * (step * step);
    assert DistSqXZ(p, q) == (unit.x * unit.x + unit.z * unit.z) * (step * step);
    assert 0.0 <= step * step;
  }

  /** The position after `updateCharacter`: a zero direction stays put;
      otherwise the candidate is taken when `checkCollisions` allows it and
      the player stays put when it does not (a hard stop, no sliding). */
  function Move(p: Vec3, d: Vec3, unit: Vec3, step: real, r: Registry): (q: Vec3)
    requires Known(r)
    ensures d == Origin ==> q == p
    ensures q == p || q == Candidate(p, unit, step)
    ensures q != p ==> CheckCollisions(q, r) && q.y == p.y
    ensures d != Origin && CheckCollisions(Candidate(p, unit, step), r) ==> q == Candidate(p, unit, step)
  {
    if d != Origin && CheckCollisions(Candidate(p, unit, step), r) then Candidate(p, unit, step) else p
  }

  /** The direction `updateCharacter()` sums from the held controls. */
  method Direction(c: Controls, forward: Vec3, right: Vec3) returns (d: Vec3)
    ensures d == RawDirection(c, forward, right)
  {
    d := Origin;
    if c.forward { d := d.Plus(forward); }
    if c.back { d := d.Minus(forward); }
    if c.joystick {
      if c.moveY != 0.0 { d := d.Plus(forward.Scaled(c.moveY)); }
      if c.moveX != 0.0 { d := d.Plus(right.Scaled(c.moveX)); }
    }
  }

  /** The body of `updateCharacter()` on the values it reads: the held
      controls are summed into a direction and, when it is not zero, the
      player steps along `normalize(d)` by `moveSpeed` (halved while
      crouching) if `checkCollisions` allows it, and turns to face it. */
  method Steer(c: Controls, forward: Vec3, right: Vec3, normalize: Vec3 -> Vec3, atan2: (real, real) -> real,
               p: Vec3, facing: real, crouching: bool, moveSpeed: real, r: Registry) returns (q: Vec3, f: real)
    requires Known(r)
    ensures var d := RawDirection(c, forward, right);
      && q == Move(p, d, normalize(d), StepLength(crouching, moveSpeed), r)
      && f == if d != Origin then atan2(normalize(d).x, normalize(d).z) else facing
  {
    q, f := p, facing;
    var d := Direction(c, forward, right);
    if d != Origin {
      var unit := normalize(d);
      var candidate := Candidate(p, unit, StepLength(crouching, moveSpeed));
      var ok := CollisionFree(candidate, r);
      if ok {
        q := candidate;
      }
      f := atan2(unit.x, unit.z);
    }
  }

  /** With a unit (or shorter) direction, a frame moves the player at most
      `step` across the ground. */
  lemma MoveBounded(p: Vec3, d: Vec3, unit: Vec3, step: real, r: Registry)
    requires Known(r)
    requires unit.x * unit.x + unit.z * unit.z <= 1.0
    ensures DistSqXZ(p, Move(p, d, unit, step, r)) <= step * step
  {
    CandidateDistance(p, unit, step);
  }

  /** A committed move never leaves the island: whatever the input, the new
      position is the old one or one within the boundary radius. */
  lemma MoveStaysOnIsland(p: Vec3, d: Vec3, unit: Vec3, step: real, r: Registry)
    requires Known(r)
    requires !OffIsland(p)
    ensures !OffIsland(Move(p, d, unit, step, r))
  {}

  /** A step that would end just past the boundary is rejected: from
      (144.6, y, 0) moving along +x by 0.41 the candidate lies at 145.01. */
  lemma BoundaryStepRejected(r: Registry, y: real)
    requires Known(r)
    ensures Move(Vec3(144.6, y, 0.0), Vec3(1.0, 0.0, 0.0), Vec3(1.0, 0.0, 0.0), 0.41, r) == Vec3(144.6, y, 0.0)
  {
    assert OffIsland(Candidate(Vec3(144.6, y, 0.0), Vec3(1.0, 0.0, 0.0), 0.41));
  }

  /** One frame of `crouchAmount`: up by 0.1 capped at 1 while crouching, down
      by 0.1 floored at 0 otherwise. */
  function CrouchStep(c: real, crouching: bool): (r: real)
    ensures crouching ==> c <= r || r == 1.0
    ensures !crouching ==> r <= c || r == 0.0
    ensures 0.0 <= c <= 1.0 ==> 0.0 <= r <= 1.0
    ensures -CrouchRate <= r - c <= CrouchRate || (crouching && r == 1.0) || (!crouching && r == 0.0)
  {
    if crouching then (if c + CrouchRate < 1.0 then c + CrouchRate else 1.0)
    else (if c - CrouchRate > 0.0 then c - CrouchRate else 0.0)
  }

  /** `crouchAmount` after `n` frames with the crouch control held (or not). */
  function CrouchAfter(c: real, crouching: bool, n: nat): real
    decreases n
  {
    if n == 0 then c else CrouchAfter(CrouchStep(c, crouching), crouching, n - 1)
  }

  /** Held crouch raises the blend linearly until it saturates at 1. */
  lemma {:induction false} CrouchRamp(c: real, n: nat)
    requires 0.0 <= c <= 1.0
    ensures CrouchAfter(c, true, n) == if c + CrouchRate * (n as real) < 1.0 then c + CrouchRate * (n as real) else 1.0
    decreases n
  {
    if n > 0 {
      CrouchRamp(CrouchStep(c, true), n - 1);
    }
  }

  /** Released crouch lowers the blend linearly until it reaches 0. */
  lemma {:induction false} StandRamp(c: real, n: nat)
    requires 0.0 <= c <= 1.0
    ensures CrouchAfter(c, false, n) == if c - CrouchRate * (n as real) > 0.0 then c - CrouchRate * (n as real) else 0.0
    decreases n
  {
    if n > 0 {
      StandRamp(CrouchStep(c, false), n - 1);
    }
  }

  /** In exact arithmetic, ten frames suffice to go from any blend to fully
      crouched or fully standing. (With the game's double-precision steps of
      0.1, going from 0 to 1 or from 1 to 0 takes eleven frames, because ten
      rounded steps stop just short of the bound.) */
  lemma TenFramesSaturate(c: real)
    requires 0.0 <= c <= 1.0
    ensures CrouchAfter(c, true, 10) == 1.0
    ensures CrouchAfter(c, false, 10) == 0.0
  {
    CrouchRamp(c, 10);
    StandRamp(c, 10);
  }
}
