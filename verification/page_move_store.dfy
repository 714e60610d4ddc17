/** The page-move store of `pageMoveStore.js`: a pending navigation target,
    a refresh flag and a "go back" flag guarded by a one-second cooldown and
    a two-second safety reset.

    The two `setTimeout` callbacks are modelled as explicit timers: the store
    carries the current time and the absolute firing times of the pending
    timers, and `Tick` advances the clock and fires every timer that is due. */
module PageMoveStore {
  import opened Optional

  /** How long `setGoBack` ignores further calls, in milliseconds. */
  const CooldownMs: nat := 1000
  /** After how long a pending `goBack` is cleared by the safety timer. */
  const SafetyResetMs: nat := 2000

  /** The store. `cooldownUntil` is the firing time of the pending timer that
      ends the cooldown: it is present exactly while the module-level
      `goBackCooldown` flag is set. `resets` holds the firing times of the
      pending safety-reset timers, one per accepted `setGoBack`. */
  datatype Store = Store(
    moveTo: Option<string>,
    refresh: bool,
    goBack: bool,
    cooldownUntil: Option<nat>,
    resets: seq<nat>,
    now: nat)

  /** The events the store reacts to: its six actions and the passing of
      time. */
  datatype Event =
    | SetMoveToEvent(to: string)
    | ResetMoveToEvent
    | SetRefreshEvent
    | ResetRefreshEvent
    | SetGoBackEvent
    | ResetGoBackEvent
    | TickEvent(ms: nat)

  predicate InCooldown(s: Store) {
    s.cooldownUntil.Some?
  }

  /** Every pending timer fires in the future and no later than its delay
      after now, and a raised `goBack` always has a safety timer pending. */
  predicate Inv(s: Store) {
    (forall i :: 0 <= i < |s.resets| ==> s.now < s.resets[i] <= s.now + SafetyResetMs)
    && (s.cooldownUntil.Some? ==> s.now < s.cooldownUntil.value <= s.now + CooldownMs)
    && (s.goBack ==> |s.resets| > 0)
  }

  /** The store as created at time `now`: no target, both flags down, no
      cooldown, no timers. */
  function Initial(now: nat): (s: Store)
    ensures Inv(s) && !InCooldown(s)
    ensures s.moveTo.None? && !s.refresh && !s.goBack && s.now == now
  {
    Store(None, false, false, None, [], now)
  }

  /** `setMoveTo(to)`: only the target changes. */
  function SetMoveTo(s: Store, to: string): (r: Store)
    ensures r.moveTo == Some(to)
    ensures r.(moveTo := s.moveTo) == s
  {
    s.(moveTo := Some(to))
  }

  /** `resetMoveTo()`: only the target changes, back to null. */
  function ResetMoveTo(s: Store): (r: Store)
    ensures r.moveTo.None?
    ensures r.(moveTo := s.moveTo) == s
  {
    s.(moveTo := None)
  }

  /** Resetting after setting leaves no trace of the target that was set. */
  lemma ResetMoveToForgets(s: Store, to: string)
    ensures ResetMoveTo(SetMoveTo(s, to)) == ResetMoveTo(s)
    ensures SetMoveTo(SetMoveTo(s, to), to) == SetMoveTo(s, to)
  {
  }

  /** `setRefresh()`: raises the flag when it is down and does nothing when
      it is already up. */
  function SetRefresh(s: Store): (r: Store)
    ensures r.refresh
    ensures s.refresh ==> r == s
    ensures r.(refresh := s.refresh) == s
  {
    if !s.refresh then s.(refresh := true) else s
  }

  /** `resetRefresh()`: lowers the flag and nothing else. */
  function ResetRefresh(s: Store): (r: Store)
    ensures !r.refresh
    ensures r.(refresh := s.refresh) == s
  {
    s.(refresh := false)
  }

  /** Setting the refresh flag twice is setting it once, and a reset undoes
      a set made from a lowered flag. */
  lemma SetRefreshIdempotent(s: Store)
    ensures SetRefresh(SetRefresh(s)) == SetRefresh(s)
    ensures !s.refresh ==> ResetRefresh(SetRefresh(s)) == s
  {
  }

  /** `setGoBack()`. During the cooldown it does nothing. Otherwise, when
      `goBack` is down, it raises it, starts the cooldown and schedules the
      safety reset; when `goBack` is already up it does nothing. */
  function SetGoBack(s: Store): (r: Store)
    ensures InCooldown(s) ==> r == s
    ensures !InCooldown(s) && !s.goBack ==> (
      r.goBack && InCooldown(r)
      && r.cooldownUntil.value == s.now + CooldownMs
      && r.resets == s.resets + [s.now + SafetyResetMs])
    ensures s.goBack ==> r == s
    ensures r.moveTo == s.moveTo && r.refresh == s.refresh && r.now == s.now
  {
    if InCooldown(s) then s
    else if !s.goBack then
      s.(goBack := true, cooldownUntil := Some(s.now + CooldownMs), resets := s.resets + [s.now + SafetyResetMs])
    else s
  }

  /** `resetGoBack()`: lowers `goBack` and leaves the cooldown and the
      pending timers alone. */
  function ResetGoBack(s: Store): (r: Store)
    ensures !r.goBack
    ensures r.(goBack := s.goBack) == s
    ensures InCooldown(r) == InCooldown(s)
  {
    s.(goBack := false)
  }

  /** The timers of `rs` still pending at time `t`, in order. */
  function Pending(rs: seq<nat>, t: nat): (r: seq<nat>)
    ensures forall i :: 0 <= i < |r| ==> r[i] > t && r[i] in rs
    ensures forall i :: 0 <= i < |rs| && rs[i] > t ==> rs[i] in r
    ensures |r| <= |rs|
  {
    if rs == [] then []
    else (if rs[0] > t then [rs[0]] else []) + Pending(rs[1..], t)
  }

  /** Some timer of `rs` is due at time `t`. */
  predicate Fires(rs: seq<nat>, t: nat) {
    exists i :: 0 <= i < |rs| && rs[i] <= t
  }

  /** The passing of `ms` milliseconds: the clock advances, a due cooldown
      timer ends the cooldown, and a due safety timer lowers `goBack`. A
      safety timer that finds `goBack` already down changes nothing. */
  function Tick(s: Store, ms: nat): (r: Store)
    ensures r.now == s.now + ms
    ensures InCooldown(r) <==> InCooldown(s) && s.cooldownUntil.value > s.now + ms
    ensures r.goBack <==> s.goBack && !Fires(s.resets, s.now + ms)
    ensures forall i :: 0 <= i < |r.resets| ==> r.resets[i] > r.now && r.resets[i] in s.resets
    ensures r.moveTo == s.moveTo && r.refresh == s.refresh
  {
    var t := s.now + ms;
    Store(
      s.moveTo,
      s.refresh,
      s.goBack && !Fires(s.resets, t),
      if s.cooldownUntil.Some? && s.cooldownUntil.value <= t then None else s.cooldownUntil,
      Pending(s.resets, t),
      t)
  }

  /** One event. */
  function Apply(s: Store, e: Event): Store {
    match e
    case SetMoveToEvent(to) => SetMoveTo(s, to)
    case ResetMoveToEvent => ResetMoveTo(s)
    case SetRefreshEvent => SetRefresh(s)
    case ResetRefreshEvent => ResetRefresh(s)
    case SetGoBackEvent => SetGoBack(s)
    case ResetGoBackEvent => ResetGoBack(s)
    case TickEvent(ms) => Tick(s, ms)
  }

  /** A run of events, in order. */
  function Run(s: Store, es: seq<Event>): Store
    decreases |es|
  {
    if es == [] then s else Run(Apply(s, es[0]), es[1..])
  }

  /** A tick keeps the invariant: the timers that stay pending are the ones
      that lie in the future, and a `goBack` that survives had a timer that
      did not fire. */
  lemma TickKeepsInv(s: Store, ms: nat)
    requires Inv(s)
    ensures Inv(Tick(s, ms))
  {
    var r := Tick(s, ms);
    forall i | 0 <= i < |r.resets| ensures r.now < r.resets[i] <= r.now + SafetyResetMs {
      var j :| 0 <= j < |s.resets| && s.resets[j] == r.resets[i];
    }
    if r.goBack {
      assert s.resets[0] > r.now;
      assert s.resets[0] in r.resets;
    }
  }

  /** Every event keeps the invariant. */
  lemma ApplyKeepsInv(s: Store, e: Event)
    requires Inv(s)
    ensures Inv(Apply(s, e))
  {
    if e.TickEvent? {
      TickKeepsInv(s, e.ms);
    }
  }

  /** Every store reachable from a fresh one satisfies the invariant. */
  lemma {:induction false} RunKeepsInv(s: Store, es: seq<Event>)
    requires Inv(s)
    ensures Inv(Run(s, es))
    decreases |es|
  {
    if es != [] {
      ApplyKeepsInv(s, es[0]);
      RunKeepsInv(Apply(s, es[0]), es[1..]);
    }
  }

  /** Whatever happened before, the cooldown is over one second later and
      `goBack` is down two seconds later. */
  lemma TimersBoundFlags(s: Store)
    requires Inv(s)
    ensures !InCooldown(Tick(s, CooldownMs))
    ensures !Tick(s, SafetyResetMs).goBack
  {
    if s.goBack {
      assert s.resets[0] <= s.now + SafetyResetMs;
    }
  }

  /** A press accepted from a quiet store: a second press during the
      cooldown is ignored, the cooldown lasts exactly one second, and the
      safety timer lowers `goBack` two seconds after the press. */
  lemma GoBackPress(s: Store)
    requires Inv(s) && !InCooldown(s) && !s.goBack && s.resets == []
    ensures var p := SetGoBack(s);
      p.goBack && SetGoBack(p) == p
      && InCooldown(Tick(p, CooldownMs - 1)) && !InCooldown(Tick(p, CooldownMs))
      && Tick(p, SafetyResetMs - 1).goBack && !Tick(p, SafetyResetMs).goBack
  {
    var p := SetGoBack(s);
    assert p.resets == [s.now + SafetyResetMs];
    assert !Fires(p.resets, p.now + SafetyResetMs - 1);
    assert Fires(p.resets, p.now + SafetyResetMs) by {
      assert p.resets[0] <= p.now + SafetyResetMs;
    }
  }

  /** The safety timer of an earlier press is not cancelled by
      `resetGoBack`, so it can lower the flag of a later press early: a press
      at 0 ms, a reset and a new press at 1100 ms, and the flag of the second
      press is already down at 2000 ms, 900 ms after it was raised. */
  lemma StaleSafetyTimer()
    ensures var s1 := ResetGoBack(Tick(SetGoBack(Initial(0)), 1100));
      var s2 := SetGoBack(s1);
      s2.goBack && s2.now == 1100 && !Tick(s2, 900).goBack
  {
    var s1 := ResetGoBack(Tick(SetGoBack(Initial(0)), 1100));
    assert s1.resets == [2000];
    var s2 := SetGoBack(s1);
    assert s2.resets[0] == 2000;
  }
}
