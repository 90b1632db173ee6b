/** The free-flying camera: a position, yaw and pitch in degrees, the
    direction basis derived from them, and the view built from that basis.
    One update reads the keyboard (movement along the basis, faster with
    Shift) and then the mouse (rotation while the right button is held), and
    rebuilds the view only when either changed something.

    The trigonometry and normalisation that turn yaw and pitch into the basis
    are not modelled: they are the parameter `orient`. The view and the
    projection are framework matrices; the view is kept as the arguments of
    its look-at construction. Input devices are sampled by the caller and
    passed in. */
module FreeCamera {
  import opened Geometry

  /** Front, right and up directions of the camera. */
  datatype Frame = Frame(front: Vec3, right: Vec3, up: Vec3)

  /** A look-at view: the eye, the point looked at and the up direction. */
  datatype View = LookAt(eye: Vec3, target: Vec3, up: Vec3)

  datatype Camera = Camera(
    position: Vec3,
    yaw: real,
    pitch: real,
    frame: Frame,
    view: View,
    pastMousePosition: Vec2,
    movementSpeed: real,
    mouseSensitivity: real)

  /** The keys the camera reads in one update: Shift, and each movement
      direction with its letter key and its arrow key. */
  datatype Keys = Keys(
    leftShift: bool,
    a: bool, left: bool,
    d: bool, right: bool,
    w: bool, up: bool,
    s: bool, down: bool)

  datatype MouseState = MouseState(position: Vec2, rightButtonPressed: bool)

  /** The camera after a step, and whether the step moved or turned it. */
  datatype Stepped = Stepped(camera: Camera, changed: bool)

  const InitialYaw: real := -90.0
  const MaxPitch: real := 89.0
  const DefaultMovementSpeed: real := 100.0
  const DefaultMouseSensitivity: real := 2.5
  const ShiftFactor: real := 5.0

  // ------------------------------------------------------------------ pitch

  /** Pitch kept strictly short of straight up or down: first capped at 89,
      then floored at -89. */
  function ClampPitch(pitch: real): (r: real)
    ensures -MaxPitch <= r <= MaxPitch
    ensures -MaxPitch <= pitch <= MaxPitch ==> r == pitch
    ensures pitch > MaxPitch ==> r == MaxPitch
    ensures pitch < -MaxPitch ==> r == -MaxPitch
  {
    var capped := if pitch > MaxPitch then MaxPitch else pitch;
    if capped < -MaxPitch then -MaxPitch else capped
  }

  /** Clamping twice is clamping once. */
  lemma ClampIdempotent(pitch: real)
    ensures ClampPitch(ClampPitch(pitch)) == ClampPitch(pitch)
  {
  }

  /** The clamped pitch is the point of [-89, 89] nearest to the input. */
  lemma ClampIsNearest(pitch: real, q: real)
    requires -MaxPitch <= q <= MaxPitch
    ensures Abs(ClampPitch(pitch) - pitch) <= Abs(q - pitch)
  {
  }

  /** Clamping preserves order. */
  lemma ClampMonotone(p: real, q: real)
    requires p <= q
    ensures ClampPitch(p) <= ClampPitch(q)
  {
  }

  function Abs(x: real): real {
    if x < 0.0 then -x else x
  }

  predicate PitchInRange(c: Camera) {
    -MaxPitch <= c.pitch <= MaxPitch
  }

  // ------------------------------------------------------ basis and view

  /** Clamps the pitch and derives the basis from yaw and the clamped pitch;
      nothing else changes. */
  function UpdateCameraVectors(c: Camera, orient: (real, real) -> Frame): (r: Camera)
    ensures PitchInRange(r)
    ensures r.pitch == ClampPitch(c.pitch)
    ensures r.frame == orient(r.yaw, r.pitch)
    ensures r == c.(pitch := r.pitch, frame := r.frame)
  {
    var pitch := ClampPitch(c.pitch);
    c.(pitch := pitch, frame := orient(c.yaw, pitch))
  }

  /** The view a camera at `position` with basis `frame` looks through: from
      the position towards one step along the front direction, with the
      basis's up direction. */
  function ViewOf(position: Vec3, frame: Frame): View {
    LookAt(position, Add(position, frame.front), frame.up)
  }

  /** The stored view is the one the current position and basis give. */
  predicate ViewCurrent(c: Camera) {
    c.view == ViewOf(c.position, c.frame)
  }

  /** Rebuilds the view from the current position and basis; nothing else
      changes. */
  function CalculateView(c: Camera): (r: Camera)
    ensures ViewCurrent(r)
    ensures r == c.(view := r.view)
  {
    c.(view := ViewOf(c.position, c.frame))
  }

  /** Construction: the property initialisers give yaw -90, pitch 0, speed
      100 and sensitivity 2.5; the constructor stores the position and the
      current mouse position, derives the basis and builds the view. */
  function Create(position: Vec3, mousePosition: Vec2, orient: (real, real) -> Frame): (c: Camera)
    ensures c.position == position && c.pastMousePosition == mousePosition
    ensures c.yaw == InitialYaw && c.pitch == 0.0
    ensures c.movementSpeed == DefaultMovementSpeed && c.mouseSensitivity == DefaultMouseSensitivity
    ensures c.frame == orient(InitialYaw, 0.0)
    ensures ViewCurrent(c) && PitchInRange(c)
  {
    var unset := Camera(position, InitialYaw, 0.0, Frame(Zero3, Zero3, Zero3), LookAt(Zero3, Zero3, Zero3),
                        mousePosition, DefaultMovementSpeed, DefaultMouseSensitivity);
    CalculateView(UpdateCameraVectors(unset, orient))
  }

  // --------------------------------------------------------------- keyboard

  predicate MovesLeft(keys: Keys) { keys.a || keys.left }
  predicate MovesRight(keys: Keys) { keys.d || keys.right }
  predicate MovesForward(keys: Keys) { keys.w || keys.up }
  predicate MovesBack(keys: Keys) { keys.s || keys.down }

  predicate AnyMovementKey(keys: Keys) {
    MovesLeft(keys) || MovesRight(keys) || MovesForward(keys) || MovesBack(keys)
  }

  /** The speed of this update: five times the movement speed while Shift is
      held. */
  function CurrentMovementSpeed(c: Camera, keys: Keys): real {
    if keys.leftShift then c.movementSpeed * ShiftFactor else c.movementSpeed
  }

  /** For a moving camera, the speed is multiplied exactly when Shift is
      held. */
  lemma ShiftMultipliesSpeed(c: Camera, keys: Keys)
    requires c.movementSpeed != 0.0
    ensures CurrentMovementSpeed(c, keys) == c.movementSpeed * ShiftFactor <==> keys.leftShift
    ensures !keys.leftShift ==> CurrentMovementSpeed(c, keys) == c.movementSpeed
  {
  }

  /** One movement key's contribution: a step of `speed * elapsedTime` along
      `direction` when pressed. */
  function Move(position: Vec3, pressed: bool, direction: Vec3, speed: real, elapsedTime: real): Vec3 {
    if pressed then Add(position, Scale(Scale(direction, speed), elapsedTime)) else position
  }

  /** 1 for a pressed key, 0 otherwise. */
  function Count(pressed: bool): real {
    if pressed then 1.0 else 0.0
  }

  /** The net movement of one update, independent of the order of the key
      checks: `distance` along right for right minus left, and along front
      for forward minus back. Opposite keys cancel. */
  function Displacement(frame: Frame, keys: Keys, distance: real): Vec3 {
    Add(Scale(frame.right, distance * (Count(MovesRight(keys)) - Count(MovesLeft(keys)))),
        Scale(frame.front, distance * (Count(MovesForward(keys)) - Count(MovesBack(keys)))))
  }

  /** The four key checks in order: left, right, forward, back. */
  function MoveByKeys(p: Vec3, frame: Frame, keys: Keys, speed: real, elapsedTime: real): Vec3 {
    var p1 := Move(p, MovesLeft(keys), Neg(frame.right), speed, elapsedTime);
    var p2 := Move(p1, MovesRight(keys), frame.right, speed, elapsedTime);
    var p3 := Move(p2, MovesForward(keys), frame.front, speed, elapsedTime);
    Move(p3, MovesBack(keys), Neg(frame.front), speed, elapsedTime)
  }

  /** Left, right, forward, back in that order, each moving the position when
      its letter or arrow key is down. */
  function ProcessKeyboard(c: Camera, keys: Keys, elapsedTime: real): (r: Stepped)
    ensures r.changed <==> AnyMovementKey(keys)
    ensures r.camera == c.(position := r.camera.position)
  {
    var speed := CurrentMovementSpeed(c, keys);
    Stepped(c.(position := MoveByKeys(c.position, c.frame, keys, speed, elapsedTime)), AnyMovementKey(keys))
  }

  /** Whatever the order of the key checks, the keyboard moves the camera by
      the net displacement at the current speed, along the basis it had. */
  lemma KeyboardMovesByDisplacement(c: Camera, keys: Keys, elapsedTime: real)
    ensures ProcessKeyboard(c, keys, elapsedTime).camera.position
         == Add(c.position, Displacement(c.frame, keys, CurrentMovementSpeed(c, keys) * elapsedTime))
  {
    var speed := CurrentMovementSpeed(c, keys);
    KeyboardChecksInOrder(c, keys, elapsedTime);
    forall p, frame, k | k == speed * elapsedTime
      ensures MoveByKeys(p, frame, keys, speed, elapsedTime) == Add(p, Displacement(frame, keys, k))
    {
      KeyboardDisplacement(p, frame, keys, speed, elapsedTime, k);
    }
  }

  /** The keyboard step is the sequence of key checks at the current speed. */
  lemma KeyboardChecksInOrder(c: Camera, keys: Keys, elapsedTime: real)
    ensures ProcessKeyboard(c, keys, elapsedTime).camera.position
         == MoveByKeys(c.position, c.frame, keys, CurrentMovementSpeed(c, keys), elapsedTime)
  {
  }

  /** The four sequential moves add up to the net displacement. */
  lemma KeyboardDisplacement(p: Vec3, frame: Frame, keys: Keys, speed: real, elapsedTime: real, distance: real)
    requires distance == speed * elapsedTime
    ensures MoveByKeys(p, frame, keys, speed, elapsedTime) == Add(p, Displacement(frame, keys, distance))
  {
    var k := distance;
    var right, front := Scale(frame.right, k), Scale(frame.front, k);
    var l, r, f, b := MovesLeft(keys), MovesRight(keys), MovesForward(keys), MovesBack(keys);
    var p1 := Move(p, l, Neg(frame.right), speed, elapsedTime);
    var p2 := Move(p1, r, frame.right, speed, elapsedTime);
    var p3 := Move(p2, f, frame.front, speed, elapsedTime);
    var p4 := Move(p3, b, Neg(frame.front), speed, elapsedTime);
    assert p1 == StepIf(p, l, Neg(right)) by {
      MoveStep(p, l, Neg(frame.right), speed, elapsedTime);
      NegStep(frame.right, k);
    }
    assert p2 == StepIf(p1, r, right) by {
      MoveStep(p1, r, frame.right, speed, elapsedTime);
    }
    assert p3 == StepIf(p2, f, front) by {
      MoveStep(p2, f, frame.front, speed, elapsedTime);
    }
    assert p4 == StepIf(p3, b, Neg(front)) by {
      MoveStep(p3, b, Neg(frame.front), speed, elapsedTime);
      NegStep(frame.front, k);
    }
    DisplacementBySteps(frame, keys, k);
    StepsCommute(p, right, front, l, r, f, b);
  }

  /** The net displacement as the sum of the steps of the pressed keys. */
  lemma DisplacementBySteps(frame: Frame, keys: Keys, k: real)
    ensures Displacement(frame, keys, k)
         == Add(Add(if MovesRight(keys) then Scale(frame.right, k) else Zero3,
                    if MovesLeft(keys) then Neg(Scale(frame.right, k)) else Zero3),
                Add(if MovesForward(keys) then Scale(frame.front, k) else Zero3,
                    if MovesBack(keys) then Neg(Scale(frame.front, k)) else Zero3))
  {
    SignedStep(frame.right, k, MovesRight(keys), MovesLeft(keys));
    SignedStep(frame.front, k, MovesForward(keys), MovesBack(keys));
  }

  function StepIf(p: Vec3, pressed: bool, step: Vec3): Vec3 {
    if pressed then Add(p, step) else p
  }

  /** Steps taken one after another add up to their sum. */
  lemma StepsCommute(p: Vec3, right: Vec3, front: Vec3, l: bool, r: bool, f: bool, b: bool)
    ensures StepIf(StepIf(StepIf(StepIf(p, l, Neg(right)), r, right), f, front), b, Neg(front))
         == Add(p, Add(Add(if r then right else Zero3, if l then Neg(right) else Zero3),
                       Add(if f then front else Zero3, if b then Neg(front) else Zero3)))
  {
  }

  /** One move is a step of `speed * elapsedTime` along the direction. */
  lemma MoveStep(p: Vec3, pressed: bool, direction: Vec3, speed: real, elapsedTime: real)
    ensures Move(p, pressed, direction, speed, elapsedTime)
         == if pressed then Add(p, Scale(direction, speed * elapsedTime)) else p
  {
    if pressed {
      MulAssoc(direction.x, speed, elapsedTime);
      MulAssoc(direction.y, speed, elapsedTime);
      MulAssoc(direction.z, speed, elapsedTime);
    }
  }

  lemma MulAssoc(a: real, b: real, c: real)
    ensures (a * b) * c == a * (b * c)
  {
  }

  lemma NegStep(direction: Vec3, k: real)
    ensures Scale(Neg(direction), k) == Neg(Scale(direction, k))
  {
  }

  /** A step scaled by plus-count minus minus-count is the plus step, the
      minus step, both (cancelling) or neither. */
  lemma SignedStep(direction: Vec3, k: real, plus: bool, minus: bool)
    ensures Scale(direction, k * (Count(plus) - Count(minus)))
         == Add(if plus then Scale(direction, k) else Zero3,
                if minus then Neg(Scale(direction, k)) else Zero3)
  {
  }

  // ------------------------------------------------------------------ mouse

  /** While the right button is held, the mouse movement since the last
      sample, scaled by sensitivity and elapsed time, turns the camera: right
      decreases yaw, down increases pitch, and the basis is derived again.
      Either way the last sample becomes the position read after the step
      (after re-centring, when the mouse is locked). */
  function ProcessMouseMovement(c: Camera, mouse: MouseState, mouseAfter: Vec2, elapsedTime: real,
                                orient: (real, real) -> Frame): (r: Stepped)
    ensures r.changed <==> mouse.rightButtonPressed
    ensures r.camera.pastMousePosition == mouseAfter
    ensures !mouse.rightButtonPressed ==> r.camera == c.(pastMousePosition := mouseAfter)
    ensures mouse.rightButtonPressed ==>
      && r.camera.yaw == c.yaw - (mouse.position.x - c.pastMousePosition.x) * (c.mouseSensitivity * elapsedTime)
      && r.camera.pitch == ClampPitch(c.pitch + (mouse.position.y - c.pastMousePosition.y) * (c.mouseSensitivity * elapsedTime))
      && r.camera.frame == orient(r.camera.yaw, r.camera.pitch)
      && r.camera == c.(yaw := r.camera.yaw, pitch := r.camera.pitch, frame := r.camera.frame,
                        pastMousePosition := mouseAfter)
  {
    if mouse.rightButtonPressed then
      var mouseDelta := Scale2(Sub2(mouse.position, c.pastMousePosition), c.mouseSensitivity * elapsedTime);
      var turned := c.(yaw := c.yaw + -mouseDelta.x, pitch := c.pitch + mouseDelta.y);
      assert turned.pitch == c.pitch + (mouse.position.y - c.pastMousePosition.y) * (c.mouseSensitivity * elapsedTime);
      Stepped(UpdateCameraVectors(turned, orient).(pastMousePosition := mouseAfter), true)
    else
      Stepped(c.(pastMousePosition := mouseAfter), false)
  }

  // ----------------------------------------------------------------- update

  /** Whether an update with these inputs moves or turns the camera. */
  predicate Changes(keys: Keys, mouse: MouseState) {
    AnyMovementKey(keys) || mouse.rightButtonPressed
  }

  /** One frame: keyboard, then mouse, then the view is rebuilt when either
      changed the camera. The movement uses the basis from before the turn. */
  function Update(c: Camera, keys: Keys, mouse: MouseState, mouseAfter: Vec2, elapsedTime: real,
                  orient: (real, real) -> Frame): (r: Camera)
    ensures r.position == Add(c.position, Displacement(c.frame, keys, CurrentMovementSpeed(c, keys) * elapsedTime))
    ensures r.pastMousePosition == mouseAfter
    ensures Changes(keys, mouse) ==> r.view == ViewOf(r.position, r.frame)
    ensures !Changes(keys, mouse) ==> r == c.(pastMousePosition := mouseAfter)
    ensures r.movementSpeed == c.movementSpeed && r.mouseSensitivity == c.mouseSensitivity
    ensures !mouse.rightButtonPressed ==> r.yaw == c.yaw && r.pitch == c.pitch && r.frame == c.frame
    ensures mouse.rightButtonPressed ==>
      && r.yaw == c.yaw - (mouse.position.x - c.pastMousePosition.x) * (c.mouseSensitivity * elapsedTime)
      && r.pitch == ClampPitch(c.pitch + (mouse.position.y - c.pastMousePosition.y) * (c.mouseSensitivity * elapsedTime))
      && r.frame == orient(r.yaw, r.pitch)
  {
    var keyboard := ProcessKeyboard(c, keys, elapsedTime);
    KeyboardMovesByDisplacement(c, keys, elapsedTime);
    assert keyboard.camera.yaw == c.yaw && keyboard.camera.pitch == c.pitch;
    assert keyboard.camera.pastMousePosition == c.pastMousePosition;
    assert keyboard.camera.mouseSensitivity == c.mouseSensitivity;
    var turned := ProcessMouseMovement(keyboard.camera, mouse, mouseAfter, elapsedTime, orient);
    if keyboard.changed || turned.changed then CalculateView(turned.camera) else turned.camera
  }

  /** The view is rebuilt exactly when needed: a camera whose view matches
      its position and basis still does after any update, whether or not the
      update rebuilt it. */
  lemma UpdateKeepsViewCurrent(c: Camera, keys: Keys, mouse: MouseState, mouseAfter: Vec2, elapsedTime: real,
                               orient: (real, real) -> Frame)
    requires ViewCurrent(c)
    ensures ViewCurrent(Update(c, keys, mouse, mouseAfter, elapsedTime, orient))
  {
  }

  /** Observed from a camera whose view is out of date: the update leaves it
      with a current view exactly when the inputs move or turn it, so the
      view is rebuilt on a change and only then. */
  lemma ViewRebuiltExactlyOnChange(c: Camera, keys: Keys, mouse: MouseState, mouseAfter: Vec2, elapsedTime: real,
                                   orient: (real, real) -> Frame)
    requires !ViewCurrent(c)
    ensures ViewCurrent(Update(c, keys, mouse, mouseAfter, elapsedTime, orient)) <==> Changes(keys, mouse)
  {
  }

  /** Pitch stays within [-89, 89] over any update. */
  lemma UpdateKeepsPitchInRange(c: Camera, keys: Keys, mouse: MouseState, mouseAfter: Vec2, elapsedTime: real,
                                orient: (real, real) -> Frame)
    requires PitchInRange(c)
    ensures PitchInRange(Update(c, keys, mouse, mouseAfter, elapsedTime, orient))
  {
  }
}
