/** The program's global state as an explicit record, and the mouse and key handlers as
    transitions on it. */
module Session {
  import opened Wrappers
  import opened Images
  import opened Points
  import opened Masking

  /** The read-only original image, the working image shown on screen, and the registry. */
  datatype State = State(origin: Image, work: Image, registry: Registry)

  /** What every reachable session satisfies. */
  predicate Valid(s: State)
  {
    && SameShape(s.work, s.origin)
    && Find(s.registry, Background).Some?
    && DistinctNames(s.registry)
    && RegistryInside(s.registry, s.origin)
  }

  /** Start-up after the image is loaded: the presets are painted onto a copy of the
      original, and the registry holds an empty background list. */
  function Start(origin: Image): (s: State)
    ensures Valid(s)
    ensures s.origin == origin && s.registry == InitialRegistry
    ensures forall y, x :: InImage(origin, x, y) ==>
      s.work[y][x] == (if InSomePreset(origin[y][x], Presets) then White else origin[y][x])
  {
    var work := ApplyPresets(origin, origin, Presets);
    assert forall y, x :: InImage(origin, x, y) ==>
      work[y][x] == (if InSomePreset(origin[y][x], Presets) then White else origin[y][x]) by {
      forall y, x | InImage(origin, x, y)
        ensures work[y][x] == (if InSomePreset(origin[y][x], Presets) then White else origin[y][x])
      {
        ApplyPresetsPixel(origin, origin, Presets, x, y);
      }
    }
    State(origin, work, InitialRegistry)
  }

  /** Left button: append (x, y) to the background list; the images and every other
      category stay as they were. */
  function LeftClick(s: State, x: int, y: int): (r: State)
    requires Valid(s)
    requires InImage(s.origin, x, y)
    ensures Valid(r)
    ensures r.origin == s.origin && r.work == s.work
    ensures SameNames(r.registry, s.registry)
    ensures var i := Find(s.registry, Background).value;
      r.registry[i].points == s.registry[i].points + [Point(x, y)]
    ensures forall k :: 0 <= k < |s.registry| && s.registry[k].name != Background ==>
      r.registry[k] == s.registry[k]
  {
    var reg := AddPoint(s.registry, Background, Point(x, y));
    assert Find(reg, Background).Some?;
    State(s.origin, s.work, reg)
  }

  /** What a right click has done before `mask_img` runs: the first background point near
      (x, y) is gone, and the working image is a fresh copy of the original with the presets
      painted on it. */
  function ResetAfterRemoval(s: State, x: int, y: int): (r: State)
    requires Valid(s)
    ensures Valid(r)
    ensures r.origin == s.origin
    ensures r.registry == RemoveNearIn(s.registry, Background, x, y)
    ensures forall py, px :: InImage(s.origin, px, py) ==>
      r.work[py][px] == (if InSomePreset(s.origin[py][px], Presets) then White else s.origin[py][px])
  {
    var reg := RemoveNearIn(s.registry, Background, x, y);
    assert Find(reg, Background).Some?;
    var reset := ApplyPresets(s.origin, s.origin, Presets);
    assert forall py, px :: InImage(s.origin, px, py) ==>
      reset[py][px] == (if InSomePreset(s.origin[py][px], Presets) then White else s.origin[py][px]) by {
      forall py, px | InImage(s.origin, px, py)
        ensures reset[py][px] == (if InSomePreset(s.origin[py][px], Presets) then White else s.origin[py][px])
      {
        ApplyPresetsPixel(s.origin, s.origin, Presets, px, py);
      }
    }
    State(s.origin, reset, reg)
  }

  /** Right button: drop the first background point near (x, y), reset the working image
      to the original, paint the presets, then the range of the remaining points. The range
      computation raises exactly when no point is left to sample. */
  function RightClick(s: State, x: int, y: int): (r: Result<State, MaskError>)
    requires Valid(s)
    ensures r.Failure? <==> AllPoints(RemoveNearIn(s.registry, Background, x, y)) == []
    ensures r.Success? ==> Valid(r.value)
    ensures r.Success? ==> r.value.origin == s.origin
    ensures r.Success? ==> r.value.registry == RemoveNearIn(s.registry, Background, x, y)
  {
    var t := ResetAfterRemoval(s, x, y);
    match MaskImg(t.work, t.origin, t.registry)
    case Failure(e) => Failure(e)
    case Success(work) => Success(State(t.origin, work, t.registry))
  }

  /** The image after a right click depends only on the original, the presets and the
      updated registry, never on the previous working image. */
  lemma RightClickIgnoresWork(s: State, t: State, x: int, y: int)
    requires Valid(s) && Valid(t)
    requires s.origin == t.origin && s.registry == t.registry
    ensures RightClick(s, x, y) == RightClick(t, x, y)
  {
  }

  /** Pixel law of a successful right click: white where the original colour lies in a
      preset box or in the box of the remaining samples, the original colour elsewhere. */
  lemma RightClickPixel(s: State, x: int, y: int, px: int, py: int)
    requires Valid(s)
    requires AllPoints(RemoveNearIn(s.registry, Background, x, y)) != []
    requires InImage(s.origin, px, py)
    ensures RightClick(s, x, y).Success?
    ensures var reg := RemoveNearIn(s.registry, Background, x, y);
      var c := s.origin[py][px];
      RightClick(s, x, y).value.work[py][px] ==
        if InSomePreset(c, Presets) || InRange(c, Bounds(Samples(reg, s.origin))) then White else c
  {
    var reg := RemoveNearIn(s.registry, Background, x, y);
    var reset := ApplyPresets(s.origin, s.origin, Presets);
    ApplyPresetsPixel(s.origin, s.origin, Presets, px, py);
    MaskImgPixel(reset, s.origin, reg, px, py);
  }

  /** A right click that picks up the only registered point leaves nothing to sample, so
      the range computation fails. */
  lemma RemoveLastPointFails(origin: Image, work: Image, p: Point, x: int, y: int)
    requires Valid(State(origin, work, [Category(Background, [p])]))
    requires Near(p, x, y)
    ensures RightClick(State(origin, work, [Category(Background, [p])]), x, y).Failure?
  {
    var reg := [Category(Background, [p])];
    assert Find(reg, Background) == Some(0);
    assert FirstNear([p], x, y) == Some(0);
    var left := RemoveNearIn(reg, Background, x, y);
    assert left[0].points == [];
  }

  /** Key `m`: paint the presets and then the range of the registered points on top of the
      CURRENT working image (no reset); fails exactly when no point is registered. */
  function Recompute(s: State): (r: Result<State, MaskError>)
    requires Valid(s)
    ensures r.Failure? <==> AllPoints(s.registry) == []
    ensures r.Success? ==> Valid(r.value)
    ensures r.Success? ==> r.value.origin == s.origin && r.value.registry == s.registry
  {
    match MaskImg(ApplyPresets(s.work, s.origin, Presets), s.origin, s.registry)
    case Failure(e) => Failure(e)
    case Success(work) => Success(State(s.origin, work, s.registry))
  }

  /** Pixel law of a successful recompute: white where the original colour lies in a preset
      box or in the sampled box, the previous working pixel elsewhere. */
  lemma RecomputePixel(s: State, px: int, py: int)
    requires Valid(s)
    requires AllPoints(s.registry) != []
    requires InImage(s.origin, px, py)
    ensures Recompute(s).Success?
    ensures var c := s.origin[py][px];
      Recompute(s).value.work[py][px] ==
        if InSomePreset(c, Presets) || InRange(c, Bounds(Samples(s.registry, s.origin))) then White
        else s.work[py][px]
  {
    var painted := ApplyPresets(s.work, s.origin, Presets);
    ApplyPresetsPixel(s.work, s.origin, Presets, px, py);
    MaskImgPixel(painted, s.origin, s.registry, px, py);
  }

  /** Mouse events the handler distinguishes. */
  datatype MouseEvent = LeftButtonDown | RightButtonDown | OtherMouseEvent

  /** Where the event loop stands after handling one event. */
  datatype Step = Running(session: State) | Exited | Crashed(error: MaskError)

  /** Key codes read by the event loop: `ord('m')` and escape. */
  const KeyRecompute: int := 109
  const KeyEscape: int := 27

  /** `mark_mouse_coords`: left clicks add, right clicks remove and repaint, other events
      leave the state alone. When `mask_img` raises inside the callback, OpenCV's wrapper
      prints the exception and returns, so the program keeps the state the right click had
      reached before the raise. */
  function OnMouse(s: State, event: MouseEvent, x: int, y: int): (r: Step)
    requires Valid(s)
    requires event == LeftButtonDown ==> InImage(s.origin, x, y)
    ensures r.Running? && Valid(r.session) && r.session.origin == s.origin
    ensures event == LeftButtonDown ==> r == Running(LeftClick(s, x, y))
    ensures event == RightButtonDown && RightClick(s, x, y).Success? ==>
      r == Running(RightClick(s, x, y).value)
    ensures event == RightButtonDown && RightClick(s, x, y).Failure? ==>
      r == Running(ResetAfterRemoval(s, x, y))
    ensures event == OtherMouseEvent ==> r == Running(s)
  {
    match event
    case LeftButtonDown => Running(LeftClick(s, x, y))
    case RightButtonDown =>
      (match RightClick(s, x, y)
       case Failure(_) => Running(ResetAfterRemoval(s, x, y))
       case Success(t) => Running(t))
    case OtherMouseEvent => Running(s)
  }

  /** A right click before any point is registered raises inside the callback, and the
      program carries on exactly in its start-up state. */
  lemma RightClickAtStart(origin: Image, x: int, y: int)
    ensures OnMouse(Start(origin), RightButtonDown, x, y) == Running(Start(origin))
  {
    var s := Start(origin);
    assert Find(s.registry, Background) == Some(0);
    assert RemoveNear([], x, y) == [];
    assert RemoveNearIn(s.registry, Background, x, y) == s.registry;
    assert RightClick(s, x, y).Failure?;
  }

  /** One turn of the key loop: `m` recomputes, escape exits, any other key does nothing.
      An exception raised by `m` leaves the loop and ends the program. */
  function OnKey(s: State, key: int): (r: Step)
    requires Valid(s)
    ensures r.Running? ==> Valid(r.session) && r.session.origin == s.origin
    ensures r.Exited? <==> key == KeyEscape
    ensures r.Crashed? <==> key == KeyRecompute && AllPoints(s.registry) == []
    ensures key == KeyRecompute && AllPoints(s.registry) != [] ==> r == Running(Recompute(s).value)
    ensures key != KeyEscape && key != KeyRecompute ==> r == Running(s)
  {
    if key == KeyRecompute then
      match Recompute(s)
      case Failure(e) => Crashed(e)
      case Success(t) => Running(t)
    else if key == KeyEscape then Exited
    else Running(s)
  }
}
