/**
 The drag gesture under every pattern of command failures. Each command may fail, each wait
 may time out and the action may be aborted; whatever happens, the pointer and the drag
 interception are cleaned up.
 */
module DragGesture {

  datatype Point = Point(x: int, y: int)

  const PATH_STEPS := 8

  // ---------------------------------------------------------------- the path

  /** `Math.round(s + (t - s) * (i + 1) / 8)`. */
  function Along(s: int, t: int, i: nat): int
  {
    (8 * s + (t - s) * (i + 1) + 4) / 8
  }

  function PathPoint(source: Point, target: Point, i: nat): Point
  {
    Point(Along(source.x, target.x, i), Along(source.y, target.y, i))
  }

  /** The coordinates move monotonically from the source and arrive exactly at the target. */
  lemma PathIsMonotone(s: int, t: int, i: nat, j: nat)
    requires i <= j < PATH_STEPS
    ensures s <= t ==> s <= Along(s, t, i) <= Along(s, t, j) <= t
    ensures s >= t ==> s >= Along(s, t, i) >= Along(s, t, j) >= t
    ensures Along(s, t, PATH_STEPS - 1) == t
  {
    var d := t - s;
    Scaled(d, i + 1, j + 1);
    assert Along(s, t, i) == s + (d * (i + 1) + 4) / 8;
    assert Along(s, t, j) == s + (d * (j + 1) + 4) / 8;
  }

  lemma Scaled(d: int, i: nat, j: nat)
    requires 1 <= i <= j <= 8
    ensures d >= 0 ==> 0 <= d * i <= d * j <= 8 * d
    ensures d <= 0 ==> 8 * d <= d * j <= d * i <= 0
  {
  }

  // ---------------------------------------------------------------- commands and their log

  datatype Command =
    | MouseMoved(at: Point, pressed: bool)
    | MousePressed(at: Point)
    | MouseReleased(at: Point)
    | SetIntercept(enabled: bool)
    | InstallProbe
    | FinishProbe
    | DragEnter(at: Point)
    | DragOver(at: Point)
    | Drop(at: Point)
    | DragCancel(at: Point)

  datatype Attempt = Attempt(command: Command, acked: bool)

  /**
   The environment: which of the attempted commands succeed, what the page reports, and when
   the action is aborted.
   */
  datatype Env = Env(
    acks: nat -> bool,
    probeInterrupted: bool,
    dragStarted: bool,
    dataArrives: bool,
    abortedBefore: bool,
    abortedAfterProbe: bool)

  predicate IsHtml(c: Command)
  {
    c.DragEnter? || c.DragOver? || c.Drop? || c.DragCancel?
  }

  /** The commands that end a press: a release, a drop or a cancelled drag. */
  predicate EndsPress(c: Command)
  {
    c.MouseReleased? || c.Drop? || c.DragCancel?
  }

  /** Some attempt opened something that no later attempt has closed. */
  predicate Open(log: seq<Attempt>, opens: Attempt -> bool, closes: Attempt -> bool)
  {
    if log == [] then false
    else
      var a := log[|log| - 1];
      if closes(a) then false else opens(a) || Open(log[..|log| - 1], opens, closes)
  }

  predicate IsAckedPress(a: Attempt) { a.command.MousePressed? && a.acked }

  predicate IsEnd(a: Attempt) { EndsPress(a.command) }

  predicate IsAckedEnable(a: Attempt) { a.command == SetIntercept(true) && a.acked }

  predicate IsDisable(a: Attempt) { a.command == SetIntercept(false) }

  /** An acknowledged press that nothing has ended yet. */
  predicate PressOpen(log: seq<Attempt>)
  {
    Open(log, IsAckedPress, IsEnd)
  }

  /** An acknowledged interception that nobody has tried to switch off yet. */
  predicate InterceptOpen(log: seq<Attempt>)
  {
    Open(log, IsAckedEnable, IsDisable)
  }

  ghost predicate Never(log: seq<Attempt>, p: Attempt -> bool)
  {
    forall i :: 0 <= i < |log| ==> !p(log[i])
  }

  predicate IsRelease(a: Attempt) { a.command.MouseReleased? }

  predicate IsAckedRelease(a: Attempt) { a.command.MouseReleased? && a.acked }

  predicate IsHtmlEvent(a: Attempt) { IsHtml(a.command) }

  predicate IsAckedDisable(a: Attempt) { a.command == SetIntercept(false) && a.acked }

  /** Nothing is open exactly when every opening attempt has a later closing one. */
  lemma {:induction false} OpenMeaning(log: seq<Attempt>, opens: Attempt -> bool, closes: Attempt -> bool)
    requires forall a :: !(opens(a) && closes(a))
    ensures !Open(log, opens, closes) <==>
            forall i :: 0 <= i < |log| && opens(log[i]) ==> exists j :: i < j < |log| && closes(log[j])
  {
    if log != [] {
      var init, n := log[..|log| - 1], |log| - 1;
      OpenMeaning(init, opens, closes);
      assert forall i :: 0 <= i < n ==> init[i] == log[i];
      if closes(log[n]) {
        assert forall i :: 0 <= i < |log| && opens(log[i]) ==> i < n;
      } else if Open(init, opens, closes) {
        var i :| 0 <= i < |init| && opens(init[i]) && !exists j :: i < j < |init| && closes(init[j]);
        assert opens(log[i]);
        forall j | i < j < |log|
          ensures !closes(log[j])
        {
          if j < n {
            assert init[j] == log[j];
          }
        }
      } else {
        forall i | 0 <= i < n && opens(log[i])
          ensures exists j :: i < j < |log| && closes(log[j])
        {
          assert opens(init[i]);
          var j :| i < j < |init| && closes(init[j]);
          assert closes(log[j]);
        }
      }
    }
  }

  // ---------------------------------------------------------------- gesture state

  datatype Probe = NoProbe | Installed | Finished

  /** `html` is set once the drag has been taken over by HTML5 drag events. */
  datatype Drag = Drag(
    log: seq<Attempt>,
    pointerDown: bool,
    interceptEnabled: bool,
    html: bool,
    probe: Probe,
    lastPoint: Point)

  datatype Mode = Html5 | Pointer

  datatype Result = Threw | Done(mode: Mode)

  ghost predicate Inv(d: Drag)
  {
    && (PressOpen(d.log) ==> d.pointerDown || d.html)
    && (InterceptOpen(d.log) ==> d.interceptEnabled)
    && (d.html ==> !d.pointerDown && Never(d.log, IsRelease))
    && (!d.html ==> Never(d.log, IsHtmlEvent))
    && (d.pointerDown ==> Never(d.log, IsAckedRelease))
    && (d.interceptEnabled ==> Never(d.log, IsAckedDisable))
  }

  function Log(d: Drag, c: Command, acked: bool): Drag
  {
    d.(log := d.log + [Attempt(c, acked)])
  }

  lemma LogAppends(d: Drag, c: Command, acked: bool)
    ensures var d' := Log(d, c, acked);
            && d'.log[..|d'.log| - 1] == d.log
            && PressOpen(d'.log) == (!EndsPress(c) && ((c.MousePressed? && acked) || PressOpen(d.log)))
            && InterceptOpen(d'.log) ==
               (c != SetIntercept(false) && ((c == SetIntercept(true) && acked) || InterceptOpen(d.log)))
  {
    assert (d.log + [Attempt(c, acked)])[..|d.log|] == d.log;
  }

  lemma NeverAppends(d: Drag, c: Command, acked: bool, p: Attempt -> bool)
    ensures Never(Log(d, c, acked).log, p) <==> Never(d.log, p) && !p(Attempt(c, acked))
  {
    var log := Log(d, c, acked).log;
    assert log[|d.log|] == Attempt(c, acked);
    assert forall i :: 0 <= i < |d.log| ==> log[i] == d.log[i];
  }

  /** The points the gesture has travelled to with the button held or the drag under way. */
  function Travelled(log: seq<Attempt>): seq<Point>
  {
    if log == [] then []
    else
      var c := log[|log| - 1].command;
      Travelled(log[..|log| - 1]) + if (c.MouseMoved? && c.pressed) || c.DragOver? then [c.at] else []
  }

  function Path(source: Point, target: Point): seq<Point>
  {
    seq(PATH_STEPS, i requires i >= 0 => PathPoint(source, target, i))
  }

  lemma TravelledAppends(d: Drag, c: Command, acked: bool)
    ensures Travelled(Log(d, c, acked).log) ==
            Travelled(d.log) + if (c.MouseMoved? && c.pressed) || c.DragOver? then [c.at] else []
  {
    assert (d.log + [Attempt(c, acked)])[..|d.log|] == d.log;
  }

  lemma NextPoint(source: Point, target: Point, i: nat)
    requires i < PATH_STEPS
    ensures Path(source, target)[..i] + [PathPoint(source, target, i)] == Path(source, target)[..i + 1]
  {
  }

  // ---------------------------------------------------------------- scripts

  function Commands(log: seq<Attempt>): seq<Command>
  {
    if log == [] then [] else Commands(log[..|log| - 1]) + [log[|log| - 1].command]
  }

  /** All commands but those of the probe were acknowledged. */
  predicate Answered(log: seq<Attempt>)
  {
    log == [] ||
    (Answered(log[..|log| - 1]) &&
     var a := log[|log| - 1]; a.acked || a.command.InstallProbe? || a.command.FinishProbe?)
  }

  /** Where the button was pressed. */
  function Presses(log: seq<Attempt>): seq<Point>
  {
    if log == [] then []
    else
      var c := log[|log| - 1].command;
      Presses(log[..|log| - 1]) + if c.MousePressed? then [c.at] else []
  }

  lemma CommandsAppends(d: Drag, c: Command, acked: bool)
    ensures var log := Log(d, c, acked).log;
            && Commands(log) == Commands(d.log) + [c]
            && (Answered(log) <==> Answered(d.log) && (acked || c.InstallProbe? || c.FinishProbe?))
            && Presses(log) == Presses(d.log) + if c.MousePressed? then [c.at] else []
  {
    assert (d.log + [Attempt(c, acked)])[..|d.log|] == d.log;
  }

  /** The points after the first one, up to the `n`-th. */
  function DragOvers(source: Point, target: Point, n: nat): seq<Command>
  {
    seq(n, i requires i >= 0 => DragOver(PathPoint(source, target, i + 1)))
  }

  function HeldMoves(source: Point, target: Point, n: nat): seq<Command>
  {
    seq(n, i requires i >= 0 => MouseMoved(PathPoint(source, target, i + 1), true))
  }

  lemma NextDragOver(source: Point, target: Point, i: nat, enter: seq<Command>)
    requires i > 0
    ensures enter + DragOvers(source, target, i - 1) + [DragOver(PathPoint(source, target, i))] ==
            enter + DragOvers(source, target, i)
  {
  }

  lemma NextHeldMove(source: Point, target: Point, i: nat)
    requires i > 0
    ensures HeldMoves(source, target, i - 1) + [MouseMoved(PathPoint(source, target, i), true)] ==
            HeldMoves(source, target, i)
  {
  }

  function Opening(source: Point, first: Point, probed: bool): seq<Command>
  {
    [MouseMoved(source, false), MousePressed(source), InstallProbe] + [SetIntercept(true)] +
    ([MouseMoved(first, true)] + if probed then [FinishProbe] else []) + [SetIntercept(false)]
  }

  function Closing(source: Point, target: Point, mode: Mode): seq<Command>
  {
    match mode
    case Html5 => [DragEnter(PathPoint(source, target, 0))] + DragOvers(source, target, 7) + [Drop(target)]
    case Pointer => HeldMoves(source, target, 7) + [MouseReleased(target)]
  }

  /**
   The commands of a gesture that succeeds: move to the source and press there, watch the first held
   move under interception, then enter, drag over and drop, or move on and release, at the target.
   */
  function Script(source: Point, target: Point, mode: Mode, probed: bool): seq<Command>
  {
    Opening(source, PathPoint(source, target, 0), probed) + Closing(source, target, mode)
  }

  /** The commands sent between `d` and `d'`, all answered if the ones before were. */
  ghost predicate Sends(d: Drag, script: seq<Command>, d': Drag)
  {
    Commands(d'.log) == Commands(d.log) + script && (Answered(d.log) ==> Answered(d'.log))
  }

  lemma SendsBoth(a: Drag, first: seq<Command>, b: Drag, second: seq<Command>, c: Drag)
    requires Sends(a, first, b) && Sends(b, second, c)
    ensures Sends(a, first + second, c)
  {
    assert Commands(a.log) + (first + second) == (Commands(a.log) + first) + second;
  }

  /** A command that neither presses, releases, intercepts nor drags. */
  method SendPlain(env: Env, d: Drag, c: Command) returns (d': Drag, ok: bool)
    requires Inv(d) && (c.MouseMoved? || c.InstallProbe? || c.FinishProbe?)
    ensures Inv(d') && d'.(log := d.log) == d && PressOpen(d'.log) == PressOpen(d.log)
    ensures Travelled(d'.log) == Travelled(d.log) + if c.MouseMoved? && c.pressed then [c.at] else []
    ensures Presses(d'.log) == Presses(d.log) && (ok || c.InstallProbe? || c.FinishProbe? ==> Sends(d, [c], d'))
    ensures Never(d.log, IsRelease) ==> Never(d'.log, IsRelease)
    ensures Never(d.log, IsAckedDisable) ==> Never(d'.log, IsAckedDisable)
  {
    ok := env.acks(|d.log|);
    CommandsAppends(d, c, ok);
    TravelledAppends(d, c, ok);
    LogAppends(d, c, ok);
    d' := Log(d, c, ok);
    PlainNever(d, c, ok);
  }

  lemma PlainNever(d: Drag, c: Command, acked: bool)
    requires c.MouseMoved? || c.InstallProbe? || c.FinishProbe?
    ensures var log := Log(d, c, acked).log;
            && (Never(d.log, IsRelease) ==> Never(log, IsRelease))
            && (Never(d.log, IsAckedRelease) ==> Never(log, IsAckedRelease))
            && (Never(d.log, IsHtmlEvent) ==> Never(log, IsHtmlEvent))
            && (Never(d.log, IsAckedDisable) ==> Never(log, IsAckedDisable))
  {
    NeverAppends(d, c, acked, IsRelease);
    NeverAppends(d, c, acked, IsAckedRelease);
    NeverAppends(d, c, acked, IsHtmlEvent);
    NeverAppends(d, c, acked, IsAckedDisable);
  }

  method Press(env: Env, d: Drag, at: Point) returns (d': Drag, ok: bool)
    requires Inv(d) && !d.html && !d.pointerDown && Never(d.log, IsRelease)
    ensures Inv(d') && d'.(log := d.log, pointerDown := d.pointerDown) == d && d'.pointerDown == ok
    ensures Travelled(d'.log) == Travelled(d.log)
    ensures Presses(d'.log) == Presses(d.log) + [at] && (ok ==> Sends(d, [MousePressed(at)], d'))
    ensures Never(d'.log, IsRelease) && (Never(d.log, IsAckedDisable) ==> Never(d'.log, IsAckedDisable))
  {
    ok := env.acks(|d.log|);
    CommandsAppends(d, MousePressed(at), ok);
    TravelledAppends(d, MousePressed(at), ok);
    LogAppends(d, MousePressed(at), ok);
    PressNever(d, at, ok);
    d' := Log(d, MousePressed(at), ok).(pointerDown := ok);
  }

  lemma PressNever(d: Drag, at: Point, acked: bool)
    ensures var log := Log(d, MousePressed(at), acked).log;
            && (Never(d.log, IsRelease) ==> Never(log, IsRelease) && Never(log, IsAckedRelease))
            && (Never(d.log, IsHtmlEvent) ==> Never(log, IsHtmlEvent))
            && (Never(d.log, IsAckedDisable) ==> Never(log, IsAckedDisable))
  {
    NeverAppends(d, MousePressed(at), acked, IsRelease);
    NeverAppends(d, MousePressed(at), acked, IsHtmlEvent);
    NeverAppends(d, MousePressed(at), acked, IsAckedDisable);
    var log := Log(d, MousePressed(at), acked).log;
    assert forall i :: 0 <= i < |log| && !IsRelease(log[i]) ==> !IsAckedRelease(log[i]);
  }

  method EnableInterception(env: Env, d: Drag) returns (d': Drag, ok: bool)
    requires Inv(d) && !d.interceptEnabled && Never(d.log, IsAckedDisable)
    ensures Inv(d') && d' == Log(d, SetIntercept(true), ok).(interceptEnabled := ok)
    ensures Travelled(d'.log) == Travelled(d.log)
    ensures Presses(d'.log) == Presses(d.log) && (ok ==> Sends(d, [SetIntercept(true)], d'))
  {
    ok := env.acks(|d.log|);
    CommandsAppends(d, SetIntercept(true), ok);
    TravelledAppends(d, SetIntercept(true), ok);
    LogAppends(d, SetIntercept(true), ok);
    NeverAppends(d, SetIntercept(true), ok, IsRelease);
    NeverAppends(d, SetIntercept(true), ok, IsHtmlEvent);
    NeverAppends(d, SetIntercept(true), ok, IsAckedRelease);
    NeverAppends(d, SetIntercept(true), ok, IsAckedDisable);
    d' := Log(d, SetIntercept(true), ok).(interceptEnabled := ok);
  }

  method StopInterception(env: Env, d: Drag) returns (d': Drag, ok: bool)
    requires Inv(d)
    ensures Inv(d') && !InterceptOpen(d'.log)
    ensures d'.(log := d.log, interceptEnabled := d.interceptEnabled) == d && PressOpen(d'.log) == PressOpen(d.log)
    ensures ok <==> !d'.interceptEnabled
    ensures Travelled(d'.log) == Travelled(d.log)
    ensures !d.interceptEnabled ==> d' == d
    ensures Never(d.log, IsRelease) ==> Never(d'.log, IsRelease)
    ensures Presses(d'.log) == Presses(d.log)
    ensures d.interceptEnabled && ok ==> Sends(d, [SetIntercept(false)], d')
  {
    if !d.interceptEnabled {
      return d, true;
    }
    ok := env.acks(|d.log|);
    CommandsAppends(d, SetIntercept(false), ok);
    LogAppends(d, SetIntercept(false), ok);
    TravelledAppends(d, SetIntercept(false), ok);
    d' := Log(d, SetIntercept(false), ok).(interceptEnabled := !ok);
  }

  method ReleasePointer(env: Env, d: Drag) returns (d': Drag, ok: bool)
    requires Inv(d)
    ensures Inv(d') && (PressOpen(d'.log) ==> d'.html)
    ensures d'.(log := d.log, pointerDown := d.pointerDown) == d
    ensures ok <==> !d'.pointerDown
    ensures Travelled(d'.log) == Travelled(d.log)
    ensures !d.pointerDown ==> d' == d
    ensures d.pointerDown ==> d' == Log(d, MouseReleased(d.lastPoint), ok).(pointerDown := !ok)
    ensures Presses(d'.log) == Presses(d.log)
    ensures d.pointerDown && ok ==> Sends(d, [MouseReleased(d.lastPoint)], d')
  {
    if !d.pointerDown {
      return d, true;
    }
    ok := env.acks(|d.log|);
    CommandsAppends(d, MouseReleased(d.lastPoint), ok);
    LogAppends(d, MouseReleased(d.lastPoint), ok);
    TravelledAppends(d, MouseReleased(d.lastPoint), ok);
    d' := Log(d, MouseReleased(d.lastPoint), ok).(pointerDown := !ok);
  }

  /** Calling the probe's finish function a second time sends nothing. */
  method FinishProbeOnce(env: Env, d: Drag) returns (d': Drag, ok: bool)
    requires Inv(d)
    ensures Inv(d') && d'.(log := d.log, probe := d.probe) == d && PressOpen(d'.log) == PressOpen(d.log)
    ensures Never(d.log, IsRelease) ==> Never(d'.log, IsRelease)
    ensures !d'.probe.Installed? && (d.probe.NoProbe? ==> d'.probe.NoProbe?)
    ensures Travelled(d'.log) == Travelled(d.log)
    ensures Presses(d'.log) == Presses(d.log)
    ensures Sends(d, if d.probe.Installed? then [FinishProbe] else [], d')
  {
    if !d.probe.Installed? {
      return d, true;
    }
    d', ok := SendPlain(env, d, FinishProbe);
    d' := d'.(probe := Finished);
  }

  // ---------------------------------------------------------------- the phases

  /** A probe that could not be installed for another reason than an interruption reports that no drag started. */
  method InstallDragProbe(env: Env, d0: Drag) returns (d: Drag, ok: bool)
    requires Inv(d0) && Never(d0.log, IsRelease) && Never(d0.log, IsAckedDisable)
    ensures Inv(d) && d.(log := d0.log, probe := d0.probe) == d0
    ensures Never(d.log, IsRelease) && Never(d.log, IsAckedDisable)
    ensures Travelled(d.log) == Travelled(d0.log) && Presses(d.log) == Presses(d0.log)
    ensures ok ==> Sends(d0, [InstallProbe], d)
  {
    d, ok := SendPlain(env, d0, InstallProbe);
    if !ok && env.probeInterrupted {
      return;
    }
    d := d.(probe := if ok then Installed else Finished);
    ok := true;
  }

  /** Move to the source, press and install the probe. */
  method PressAtSource(env: Env, source: Point) returns (d: Drag, ok: bool)
    ensures Inv(d) && !d.html && !d.interceptEnabled && Never(d.log, IsRelease) && Never(d.log, IsAckedDisable)
    ensures ok ==> d.pointerDown
    ensures Travelled(d.log) == [] && Presses(d.log) <= [source]
    ensures ok ==>
              Answered(d.log) && Commands(d.log) == [MouseMoved(source, false), MousePressed(source), InstallProbe]
  {
    d := Drag([], false, false, false, NoProbe, source);
    ok := !env.abortedBefore;
    if !ok {
      return;
    }
    d, ok := SendPlain(env, d, MouseMoved(source, false));
    if !ok {
      return;
    }
    d, ok := Press(env, d, source);
    if !ok {
      return;
    }
    d, ok := InstallDragProbe(env, d);
  }

  /** The first pressed move under interception, and what the probe says about it. */
  method ProbeFirstMove(env: Env, d0: Drag, first: Point) returns (d: Drag, ok: bool, expectingDrag: bool)
    requires Inv(d0) && !d0.html && d0.pointerDown && Never(d0.log, IsRelease)
    ensures Inv(d) && !d.html && Never(d.log, IsRelease) && d.pointerDown
    ensures ok ==> d.lastPoint == first && d.probe.NoProbe?
    ensures Travelled(d.log) == Travelled(d0.log) + [first]
    ensures d.interceptEnabled == d0.interceptEnabled && Presses(d.log) == Presses(d0.log)
    ensures ok ==> Sends(d0, [MouseMoved(first, true)] + (if d0.probe.Installed? then [FinishProbe] else []), d)
  {
    d, expectingDrag := d0.(lastPoint := first), false;
    d, ok := SendPlain(env, d, MouseMoved(first, true));
    if !ok {
      return;
    }
    var installed := d.probe.Installed?;
    ghost var moved := d;
    d, ok := FinishProbeOnce(env, d);
    SendsBoth(d0, [MouseMoved(first, true)], moved, if installed then [FinishProbe] else [], d);
    expectingDrag := installed && ok && env.dragStarted;
    ok := (ok || !env.probeInterrupted) && !env.abortedAfterProbe;
    if ok {
      d := d.(probe := NoProbe);
    }
  }

  method Begin(env: Env, source: Point, first: Point) returns (d: Drag, ok: bool, expectingDrag: bool)
    ensures Inv(d) && !d.html && Never(d.log, IsRelease)
    ensures ok ==> d.pointerDown && !d.interceptEnabled && d.lastPoint == first && d.probe.NoProbe?
    ensures Travelled(d.log) <= [first] && (ok ==> Travelled(d.log) == [first])
    ensures Presses(d.log) <= [source]
    ensures ok ==> Answered(d.log) && exists probed :: Commands(d.log) == Opening(source, first, probed)
  {
    expectingDrag := false;
    d, ok := PressAtSource(env, source);
    if !ok {
      return;
    }
    ghost var pressed := d;
    d, ok := EnableInterception(env, d);
    if !ok {
      return;
    }
    ghost var enabled := d;
    d, ok, expectingDrag := ProbeFirstMove(env, d, first);
    ghost var moved := d;
    var stopped;
    d, stopped := StopInterception(env, d);
    ok := ok && stopped;
    if ok {
      OpeningIsSent(pressed, enabled, moved, d, source, first);
    }
  }

  lemma OpeningIsSent(pressed: Drag, enabled: Drag, moved: Drag, d: Drag, source: Point, first: Point)
    requires Answered(pressed.log)
    requires Commands(pressed.log) == [MouseMoved(source, false), MousePressed(source), InstallProbe]
    requires Sends(pressed, [SetIntercept(true)], enabled) && enabled.probe == pressed.probe
    requires Sends(enabled, [MouseMoved(first, true)] + (if enabled.probe.Installed? then [FinishProbe] else []), moved)
    requires Sends(moved, [SetIntercept(false)], d)
    ensures Answered(d.log) && Commands(d.log) == Opening(source, first, pressed.probe.Installed?)
  {
  }

  /** One more move of the HTML5 drag. */
  method DragTo(env: Env, d0: Drag, at: Point) returns (d: Drag, ok: bool)
    requires Inv(d0) && d0.html
    ensures Inv(d) && d.(log := d0.log) == d0.(lastPoint := at)
    ensures Travelled(d.log) == Travelled(d0.log) + [at] && Presses(d.log) == Presses(d0.log)
    ensures ok ==> Sends(d0, [DragOver(at)], d)
  {
    d, ok := SendHtml(env, d0.(lastPoint := at), DragOver(at));
  }

  /** The HTML5 branch: enter, seven moves and the drop; any failure is answered by a cancel. */
  method DropHtml(env: Env, d0: Drag, source: Point, target: Point) returns (d: Drag, ok: bool)
    requires Inv(d0) && !d0.html && d0.pointerDown && !d0.interceptEnabled && Never(d0.log, IsRelease)
    requires Travelled(d0.log) == Path(source, target)[..1]
    ensures Travelled(d.log) <= Path(source, target) && (ok ==> Travelled(d.log) == Path(source, target))
    ensures Inv(d) && d.html && !PressOpen(d.log) && !d.interceptEnabled && d.probe == d0.probe
    ensures ok ==> d.log != [] && d.log[|d.log| - 1] == Attempt(Drop(target), true)
    ensures !ok ==> d.log != [] && d.log[|d.log| - 1].command == DragCancel(d.lastPoint)
    ensures Presses(d.log) == Presses(d0.log)
    ensures ok && d0.lastPoint == PathPoint(source, target, 0) ==> Sends(d0, Closing(source, target, Html5), d)
  {
    d := d0.(pointerDown := false, html := true);
    d, ok := SendHtml(env, d, DragEnter(d.lastPoint));
    var i := 1;
    ghost var enter := [DragEnter(d0.lastPoint)];
    assert enter + DragOvers(source, target, 0) == enter;
    while ok && i < PATH_STEPS
      invariant 1 <= i <= PATH_STEPS && Inv(d) && d.html && !d.interceptEnabled && d.probe == d0.probe
      invariant Travelled(d.log) == Path(source, target)[..i]
      invariant Presses(d.log) == Presses(d0.log)
      invariant ok ==> Sends(d0, enter + DragOvers(source, target, i - 1), d)
    {
      ghost var before := d;
      NextPoint(source, target, i);
      d, ok := DragTo(env, d, PathPoint(source, target, i));
      if ok {
        SendsBoth(d0, enter + DragOvers(source, target, i - 1), before, [DragOver(PathPoint(source, target, i))], d);
        NextDragOver(source, target, i, enter);
      }
      i := i + 1;
    }
    if ok {
      ghost var before := d;
      d, ok := SendHtml(env, d, Drop(target));
      if ok {
        SendsBoth(d0, enter + DragOvers(source, target, 7), before, [Drop(target)], d);
      }
    }
    if !ok {
      var cancelled;
      d, cancelled := SendHtml(env, d, DragCancel(d.lastPoint));
    }
  }

  method SendHtml(env: Env, d: Drag, c: Command) returns (d': Drag, ok: bool)
    requires Inv(d) && d.html && IsHtml(c)
    ensures Inv(d') && d' == Log(d, c, ok)
    ensures PressOpen(d'.log) == (!EndsPress(c) && PressOpen(d.log))
    ensures Travelled(d'.log) == Travelled(d.log) + if c.DragOver? then [c.at] else []
    ensures Presses(d'.log) == Presses(d.log) && (ok ==> Sends(d, [c], d'))
  {
    ok := env.acks(|d.log|);
    CommandsAppends(d, c, ok);
    LogAppends(d, c, ok);
    TravelledAppends(d, c, ok);
    d' := Log(d, c, ok);
  }

  /** One more move with the button held. */
  method MoveHeld(env: Env, d0: Drag, at: Point) returns (d: Drag, ok: bool)
    requires Inv(d0) && !d0.html && d0.pointerDown
    ensures Inv(d) && d.(log := d0.log) == d0.(lastPoint := at)
    ensures Travelled(d.log) == Travelled(d0.log) + [at] && Presses(d.log) == Presses(d0.log)
    ensures ok ==> Sends(d0, [MouseMoved(at, true)], d)
  {
    d := d0.(lastPoint := at);
    d, ok := SendPlain(env, d, MouseMoved(at, true));
  }

  /** The pointer branch: the remaining moves with the button held, then the release. */
  method DropPointer(env: Env, d0: Drag, source: Point, target: Point) returns (d: Drag, ok: bool)
    requires Inv(d0) && !d0.html && d0.pointerDown && !d0.interceptEnabled
    requires Travelled(d0.log) == Path(source, target)[..1]
    ensures Travelled(d.log) <= Path(source, target) && (ok ==> Travelled(d.log) == Path(source, target))
    ensures Inv(d) && !d.html && !d.interceptEnabled && d.probe == d0.probe
    ensures ok ==>
              && !d.pointerDown && !PressOpen(d.log)
              && d.log != [] && d.log[|d.log| - 1] == Attempt(MouseReleased(target), true)
              && Sends(d0, Closing(source, target, Pointer), d)
    ensures Presses(d.log) == Presses(d0.log)
  {
    d, ok := d0, true;
    var i := 1;
    assert HeldMoves(source, target, 0) == [] && Commands(d0.log) + [] == Commands(d0.log);
    while ok && i < PATH_STEPS
      invariant 1 <= i <= PATH_STEPS && Inv(d) && !d.html && d.pointerDown && !d.interceptEnabled && d.probe == d0.probe
      invariant Travelled(d.log) == Path(source, target)[..i]
      invariant Presses(d.log) == Presses(d0.log)
      invariant ok ==> Sends(d0, HeldMoves(source, target, i - 1), d)
    {
      ghost var before := d;
      NextPoint(source, target, i);
      d, ok := MoveHeld(env, d, PathPoint(source, target, i));
      if ok {
        SendsBoth(d0, HeldMoves(source, target, i - 1), before, [MouseMoved(PathPoint(source, target, i), true)], d);
        NextHeldMove(source, target, i);
      }
      i := i + 1;
    }
    if ok {
      ghost var before := d;
      d := d.(lastPoint := target);
      d, ok := ReleasePointer(env, d);
      if ok {
        SendsBoth(d0, HeldMoves(source, target, 7), before, [MouseReleased(target)], d);
      }
    }
  }

  /** The gesture up to its first failure. */
  method Attempted(env: Env, source: Point, target: Point) returns (d: Drag, ok: bool, mode: Mode)
    ensures Inv(d) && (PressOpen(d.log) ==> d.pointerDown)
    ensures Travelled(d.log) <= Path(source, target) && (ok ==> Travelled(d.log) == Path(source, target))
    ensures ok ==> !d.pointerDown && !d.interceptEnabled && d.probe.NoProbe? && d.log != [] &&
                   d.log[|d.log| - 1] == Attempt(if mode.Html5? then Drop(target) else MouseReleased(target), true)
    ensures Presses(d.log) <= [source]
    ensures ok ==> Answered(d.log) && exists probed :: Commands(d.log) == Script(source, target, mode, probed)
  {
    var first := PathPoint(source, target, 0);
    assert Path(source, target)[..1] == [first];
    var expectingDrag;
    d, ok, expectingDrag := Begin(env, source, first);
    mode := Pointer;
    ghost var begun := d;
    if ok && expectingDrag {
      if env.dataArrives {
        mode := Html5;
        d, ok := DropHtml(env, d, source, target);
      } else {
        ok := false;
      }
    } else if ok {
      d, ok := DropPointer(env, d, source, target);
    }
    if ok {
      ghost var probed :| Commands(begun.log) == Opening(source, first, probed);
      assert Commands(d.log) == Script(source, target, mode, probed);
    }
  }

  /**
   The whole gesture. On every path: an acknowledged press is followed by an attempted release,
   drop or drag cancel, never by both a release and HTML5 drag events; an acknowledged
   interception is followed by an attempt to switch it off; and the pointer (the interception)
   is left active only if every attempt to release (disable) it failed. The gesture travels an
   initial part of its path. A reported success travelled all of it and sent exactly the commands
   of the script, acknowledged but for the probe's: the press at the source, the path, and the drop,
   or release, at the target. The button is never pressed anywhere else.
   */
  method DispatchDragGesture(env: Env, source: Point, target: Point) returns (d: Drag, result: Result)
    ensures !PressOpen(d.log) && !InterceptOpen(d.log)
    ensures Never(d.log, IsRelease) || Never(d.log, IsHtmlEvent)
    ensures d.pointerDown ==> Never(d.log, IsAckedRelease)
    ensures d.interceptEnabled ==> Never(d.log, IsAckedDisable)
    ensures !d.probe.Installed?
    ensures Travelled(d.log) <= Path(source, target) && (result.Done? ==> Travelled(d.log) == Path(source, target))
    ensures result.Done? ==> !d.pointerDown && !d.interceptEnabled && d.log != []
    ensures result == Done(Html5) ==> d.log[|d.log| - 1] == Attempt(Drop(target), true)
    ensures result == Done(Pointer) ==> d.log[|d.log| - 1] == Attempt(MouseReleased(target), true)
    ensures result.Done? ==>
              Answered(d.log) && exists probed :: Commands(d.log) == Script(source, target, result.mode, probed)
    ensures Presses(d.log) <= [source]
  {
    var ok, mode;
    d, ok, mode := Attempted(env, source, target);
    result := if ok then Done(mode) else Threw;
    var ignored;
    if !ok {
      d, ignored := ReleasePointer(env, d);
    }
    if d.probe.Installed? {
      d, ignored := FinishProbeOnce(env, d);
    }
    var stopped;
    d, stopped := StopInterception(env, d);
    if !stopped {
      result := Threw;
    }
  }
}
