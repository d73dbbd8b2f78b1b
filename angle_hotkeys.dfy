/** The keyboard stepping rule of the dial: a key and the current signed
    angle decide which setter calls the handler makes and whether it
    suppresses the browser's default action. */
module AngleHotkeys {
  import opened Angles

  /** What one key press does: the values passed to the signed-angle
      setter, in order, and whether `preventDefault` is called. */
  datatype KeyEffect = KeyEffect(calls: seq<real>, preventDefault: bool)

  /** The arrow keys and their steps, in degrees of the signed angle. */
  function ArrowStep(key: string): (step: real)
    ensures key == "ArrowLeft" ==> step == -1.0
    ensures key == "ArrowRight" ==> step == 1.0
    ensures key == "ArrowUp" ==> step == -10.0
    ensures key == "ArrowDown" ==> step == 10.0
    ensures step != 0.0 <==> key in {"ArrowLeft", "ArrowRight", "ArrowUp", "ArrowDown"}
  {
    var step := if key == "ArrowLeft" then -1.0 else 0.0;
    var step := if key == "ArrowRight" then 1.0 else step;
    var step := if key == "ArrowUp" then -10.0 else step;
    if key == "ArrowDown" then 10.0 else step
  }

  /** The keys the handler reacts to. */
  predicate Recognised(key: string)
  {
    key in {"ArrowLeft", "ArrowRight", "ArrowUp", "ArrowDown", "Home", "End"}
  }

  /** The keydown handler; `current` is what the signed-angle getter
      returns, read only when an arrow key was pressed. */
  function HandleKey(key: string, current: real): (e: KeyEffect)
    ensures key == "Home" ==> e == KeyEffect([-90.0], true)
    ensures key == "End" ==> e == KeyEffect([90.0], true)
    ensures key == "ArrowLeft" ==> e == KeyEffect([Clamp(current - 1.0, -90.0, 90.0)], true)
    ensures key == "ArrowRight" ==> e == KeyEffect([Clamp(current + 1.0, -90.0, 90.0)], true)
    ensures key == "ArrowUp" ==> e == KeyEffect([Clamp(current - 10.0, -90.0, 90.0)], true)
    ensures key == "ArrowDown" ==> e == KeyEffect([Clamp(current + 10.0, -90.0, 90.0)], true)
    ensures !Recognised(key) ==> e == KeyEffect([], false)
    ensures Recognised(key) <==> |e.calls| == 1
    ensures e.preventDefault <==> |e.calls| == 1
    ensures forall k :: 0 <= k < |e.calls| ==> -90.0 <= e.calls[k] <= 90.0
  {
    var step := ArrowStep(key);
    if key == "Home" then KeyEffect([-90.0], true)
    else if key == "End" then KeyEffect([90.0], true)
    else if step != 0.0 then KeyEffect([Clamp(current + step, -90.0, 90.0)], true)
    else KeyEffect([], false)
  }

  // ---------------------------------------------------------------------
  // Laws of the stepping rule

  /** From an angle already in [-90, 90], an arrow moves by its step
      exactly unless that would leave the range, in which case it stops at
      the nearer end. */
  lemma ArrowMovesBy(key: string, current: real)
    requires -90.0 <= current <= 90.0
    requires ArrowStep(key) != 0.0
    ensures var next := HandleKey(key, current).calls[0];
      (next == current + ArrowStep(key) || next == -90.0 || next == 90.0) &&
      (-90.0 <= current + ArrowStep(key) <= 90.0 ==> next == current + ArrowStep(key)) &&
      (ArrowStep(key) < 0.0 ==> next <= current) &&
      (ArrowStep(key) > 0.0 ==> next >= current)
  {
  }

  /** The ends of the range are fixed points of the arrows pointing past
      them: Right and Down stay at 90, Left and Up stay at -90. */
  lemma ArrowsSaturate(current: real)
    ensures current >= 89.0 ==> HandleKey("ArrowRight", current).calls == [90.0]
    ensures current >= 80.0 ==> HandleKey("ArrowDown", current).calls == [90.0]
    ensures current <= -89.0 ==> HandleKey("ArrowLeft", current).calls == [-90.0]
    ensures current <= -80.0 ==> HandleKey("ArrowUp", current).calls == [-90.0]
  {
  }

  /** Opposite arrows undo each other away from the ends of the range. */
  lemma OppositeArrowsCancel(current: real)
    requires -89.0 <= current <= 89.0
    ensures HandleKey("ArrowLeft", HandleKey("ArrowRight", current).calls[0]).calls[0] == current
    ensures HandleKey("ArrowRight", HandleKey("ArrowLeft", current).calls[0]).calls[0] == current
  {
  }
}
