/**
 The deadline of one action, computed before the session is claimed. Times are milliseconds;
 `None` stands for a missing or non-finite number.
 */
module ActionDeadline {
  import opened Wrappers

  const MAX_ACTION_MS := 120_000
  const MAX_WITH_BUFFER_MS := 125_000
  const NAVIGATION_MS := 35_000
  const TEXT_BUFFER_MS := 30_000
  const KEY_EVENT_MS := 20
  const COMPLETION_BUFFER_MS := 1_000

  datatype Action = TextInput | ClickAndWait | Upload | Navigation | Wait | Plain

  /** Text that is typed with a delay or key by key: its length, key events and delay per character. */
  datatype Typing = Typing(characters: nat, keyEvents: nat, delay: real)

  datatype Deadline = Rejected(required: int) | Granted(ms: int)

  function PositiveDeadline(value: Option<real>, fallback: nat): nat
  {
    if value.Some? && value.value > 0.0 then value.value.Floor else fallback
  }

  /** Despite its name the result can be zero: exactly for fractions below one, or a zero fallback. */
  lemma ZeroDeadline(value: Option<real>, fallback: nat)
    ensures PositiveDeadline(value, fallback) == 0 <==>
            if value.Some? && value.value > 0.0 then value.value < 1.0 else fallback == 0
  {
  }

  function Min(a: int, b: int): int { if a <= b then a else b }

  function Max(a: int, b: int): int { if a >= b then a else b }

  function Ceil(x: real): int { -((-x).Floor) }

  /** Time that typing needs, plus the completion buffer. */
  function Required(t: Typing): int
  {
    var delay := if t.delay > 0.0 then t.delay else 0.0;
    Ceil(t.characters as real * delay + (t.keyEvents * KEY_EVENT_MS) as real) + TEXT_BUFFER_MS
  }

  function ActionDeadlineOf(action: Action, typing: Option<Typing>, requestedMs: Option<real>, fallback: nat): Deadline
  {
    var requested := Min(MAX_ACTION_MS, PositiveDeadline(requestedMs, fallback));
    match action
    case TextInput =>
      if typing.None? then Granted(requested)
      else
        var required := Required(typing.value);
        if required > MAX_ACTION_MS then Rejected(required) else Granted(Max(requested, required))
    case ClickAndWait => Granted(Min(MAX_ACTION_MS, requested + COMPLETION_BUFFER_MS))
    case Upload => Granted(Min(MAX_WITH_BUFFER_MS, requested + COMPLETION_BUFFER_MS))
    case Navigation => Granted(Max(requested, NAVIGATION_MS))
    case Wait => Granted(Min(MAX_ACTION_MS, requested + COMPLETION_BUFFER_MS))
    case Plain => Granted(requested)
  }

  /**
   Only typing that cannot fit is rejected. A granted deadline never exceeds the absolute
   bound, never shortens what was asked for, leaves typing the time it needs, and is zero only
   for an action without a floor of its own whose requested time already rounded to zero.
   */
  lemma DeadlineIsSafe(action: Action, typing: Option<Typing>, requestedMs: Option<real>, fallback: nat)
    ensures var d := ActionDeadlineOf(action, typing, requestedMs, fallback);
            var requested := Min(MAX_ACTION_MS, PositiveDeadline(requestedMs, fallback));
            && (d.Rejected? <==> action.TextInput? && typing.Some? && Required(typing.value) > MAX_ACTION_MS)
            && (d.Granted? ==>
                  && requested <= d.ms <= MAX_WITH_BUFFER_MS
                  && (action.TextInput? && typing.Some? ==> Required(typing.value) <= d.ms)
                  && (d.ms == 0 <==>
                        && PositiveDeadline(requestedMs, fallback) == 0
                        && (action.Plain? || (action.TextInput? && typing.None?))))
  {
    if action.TextInput? && typing.Some? {
      RequiredHasBuffer(typing.value);
    }
  }

  // ---------------------------------------------------------------- in numbers

  /** A positive time is rounded down to whole milliseconds; anything else falls back. */
  lemma RoundsDown(value: Option<real>, fallback: nat)
    ensures var ms := PositiveDeadline(value, fallback);
            if value.Some? && value.value > 0.0 then ms as real <= value.value < ms as real + 1.0 else ms == fallback
  {
  }

  /**
   What an action that asks for `n` milliseconds gets: at most two minutes; navigations at least
   35 seconds; waits and clicks one second more within the two minutes, and uploads one second more
   even beyond them, so that their own bound of 125 seconds is never reached.
   */
  lemma DeadlineInNumbers(action: Action, n: nat, fallback: nat)
    requires n >= 1
    ensures var asked := if n <= 120_000 then n else 120_000;
            match ActionDeadlineOf(action, None, Some(n as real), fallback)
            case Rejected(_) => false
            case Granted(ms) =>
              match action
              case Plain | TextInput => ms == asked
              case Navigation => ms == if asked < 35_000 then 35_000 else asked
              case ClickAndWait | Wait => ms == if asked <= 119_000 then asked + 1_000 else 120_000
              case Upload => ms == asked + 1_000 < 125_000
  {
    RoundsDown(Some(n as real), fallback);
  }

  /** Milliseconds that typing needs: the delays, 20 for each key event, and 30 seconds to complete. */
  function Needed(t: Typing): real
  {
    t.characters as real * (if t.delay > 0.0 then t.delay else 0.0) + 20.0 * t.keyEvents as real + 30_000.0
  }

  /**
   Typing is rejected exactly if it needs more than two minutes. Otherwise it gets what was asked
   for, or the first whole millisecond that is enough for it.
   */
  lemma TypingInNumbers(t: Typing, requestedMs: Option<real>, fallback: nat)
    ensures var asked := Min(120_000, PositiveDeadline(requestedMs, fallback));
            match ActionDeadlineOf(TextInput, Some(t), requestedMs, fallback)
            case Rejected(required) => Needed(t) > 120_000.0 && required as real - 1.0 < Needed(t) <= required as real
            case Granted(ms) =>
              && Needed(t) <= 120_000.0 && asked <= ms && Needed(t) <= ms as real
              && (ms == asked || ms as real - 1.0 < Needed(t))
  {
    var delay := if t.delay > 0.0 then t.delay else 0.0;
    var x := t.characters as real * delay + (t.keyEvents * KEY_EVENT_MS) as real;
    assert Needed(t) == x + 30_000.0;
    CeilBounds(x);
  }

  lemma CeilBounds(x: real)
    ensures x <= Ceil(x) as real < x + 1.0
  {
  }

  lemma RequiredHasBuffer(t: Typing)
    ensures Required(t) >= TEXT_BUFFER_MS
  {
    var delay := if t.delay > 0.0 then t.delay else 0.0;
    NonNegativeProduct(t.characters as real, delay);
  }

  lemma NonNegativeProduct(a: real, b: real)
    requires a >= 0.0 && b >= 0.0
    ensures a * b >= 0.0
  {
  }
}
