/**
 * The server-side fire gate and the authority-gated debug counters of the
 * player character (AMultiplayerCharacter).
 *
 * The engine's timer manager is modelled by an integer millisecond clock
 * `now` and the deadline of the one-shot `FireTimer`: the timer is active
 * exactly while `now < fireDeadline`. The remote calls the server makes
 * (the "no ammo" sound sent to the requesting client and the fire
 * broadcast to every client) are recorded as counters.
 */
module MultiplayerCharacter {

  /** Duration of the fire cooldown: the 1.5 seconds passed to SetTimer, in milliseconds. */
  const FireCooldownMs: int := 1500

  /**
   * The observable state of one copy of a character: the authority's copy
   * when `hasAuthority` holds, a replica's otherwise.
   */
  datatype CharState = CharState(
    ammo: int,
    a: int,
    b: int,
    hasAuthority: bool,
    now: int,                // timer manager clock, in milliseconds
    fireDeadline: int,       // FireTimer is active while now < fireDeadline
    fireRequests: nat,       // ServerFire calls issued from this copy
    noAmmoCues: nat,         // ClientPlaySound2D(NoAmmoSound) calls
    fireBroadcasts: nat      // MulticastFire calls
  )

  /** What the engine and the player can make happen to a character. */
  datatype Event =
    | PressFire              // the fire input on this copy
    | FireRequestArrives     // a ServerFire call from a remote client reaches this copy
    | TimePasses(ms: nat)
    | Frame                  // one Tick

  /** GetWorldTimerManager().IsTimerActive(FireTimer). */
  predicate FireTimerActive(s: CharState) {
    s.now < s.fireDeadline
  }

  /** ServerFire_Implementation: cooldown check, then ammo check, then fire. */
  function AfterServerFire(s: CharState): (t: CharState) {
    if FireTimerActive(s) then s
    else if s.ammo == 0 then s.(noAmmoCues := s.noAmmoCues + 1)
    else s.(ammo := s.ammo - 1,
            fireDeadline := s.now + FireCooldownMs,
            fireBroadcasts := s.fireBroadcasts + 1)
  }

  /** ServerFire_Validate: the server accepts every fire request. */
  function RequestAccepted(s: CharState): (ok: bool)
    ensures ok
  {
    true
  }

  /**
   * A ServerFire call reaching this copy: only the authority executes it,
   * once the validator has accepted it. Replicas never run the server's code.
   */
  function AfterFireRequest(s: CharState): (t: CharState) {
    if s.hasAuthority && RequestAccepted(s) then AfterServerFire(s) else s
  }

  /**
   * OnPressedFire: issue one ServerFire call. On the authority the call runs
   * on this very copy; from a replica it only leaves, and the authority's copy
   * handles it later as a `FireRequestArrives` event.
   */
  function AfterPressFire(s: CharState): (t: CharState) {
    AfterFireRequest(s.(fireRequests := s.fireRequests + 1))
  }

  /** The authority branch of Tick: A++ and B++ on the authority only. */
  function AfterTick(s: CharState): (t: CharState) {
    if s.hasAuthority then s.(a := s.a + 1, b := s.b + 1) else s
  }

  /** The engine clock advances; a pending FireTimer expires once its deadline is reached. */
  function AfterElapse(s: CharState, ms: nat): (t: CharState) {
    s.(now := s.now + ms)
  }

  function Step(s: CharState, e: Event): (t: CharState) {
    match e
    case PressFire => AfterPressFire(s)
    case FireRequestArrives => AfterFireRequest(s)
    case TimePasses(ms) => AfterElapse(s, ms)
    case Frame => AfterTick(s)
  }

  /** The state after a sequence of events, applied in order. */
  function Run(s: CharState, es: seq<Event>): (t: CharState)
    decreases |es|
  {
    if es == [] then s else Run(Step(s, es[0]), es[1..])
  }

  // ---------------------------------------------------------------------
  // One request at a time

  /** While the cooldown runs, a fire request changes nothing the server owns and sends nothing. */
  lemma FireDuringCooldownIsNoop(s: CharState)
    requires FireTimerActive(s)
    ensures AfterServerFire(s) == s
  {
  }

  /** The cooldown is checked before the ammo: no "no ammo" cue while cooling down. */
  lemma CooldownCheckedBeforeAmmo(s: CharState)
    requires FireTimerActive(s) && s.ammo == 0
    ensures AfterServerFire(s).noAmmoCues == s.noAmmoCues
  {
  }

  /** With no cooldown and no ammo: exactly one cue, nothing else changes. */
  lemma FireWithoutAmmo(s: CharState)
    requires !FireTimerActive(s) && s.ammo == 0
    ensures AfterServerFire(s).noAmmoCues == s.noAmmoCues + 1
    ensures AfterServerFire(s).(noAmmoCues := s.noAmmoCues) == s
    ensures !FireTimerActive(AfterServerFire(s))
  {
  }

  /**
   * With no cooldown and ammo left: ammo drops by one, a 1.5 s one-shot
   * cooldown starts now, exactly one broadcast goes out, and no cue is sent.
   */
  lemma FireWithAmmo(s: CharState)
    requires !FireTimerActive(s) && s.ammo != 0
    ensures AfterServerFire(s).ammo == s.ammo - 1
    ensures AfterServerFire(s).fireDeadline == s.now + FireCooldownMs
    ensures AfterServerFire(s).fireBroadcasts == s.fireBroadcasts + 1
    ensures AfterServerFire(s).noAmmoCues == s.noAmmoCues
    ensures AfterServerFire(s).now == s.now && AfterServerFire(s).a == s.a && AfterServerFire(s).b == s.b
  {
  }

  /** A fire request never drives a non-negative ammo count negative. */
  lemma FireKeepsAmmoNonNegative(s: CharState)
    requires s.ammo >= 0
    ensures AfterServerFire(s).ammo >= 0
  {
  }

  /**
   * After a successful fire, every further request within the next 1.5 s
   * (in particular one with no time passing at all) is a no-op.
   */
  lemma FireBlockedUntilCooldownEnds(s: CharState, ms: nat)
    requires AfterServerFire(s).fireBroadcasts == s.fireBroadcasts + 1
    requires ms < FireCooldownMs
    ensures AfterServerFire(AfterElapse(AfterServerFire(s), ms)) == AfterElapse(AfterServerFire(s), ms)
  {
  }

  /** The cooldown is one-shot and lasts exactly 1.5 s: from then on the timer is inactive. */
  lemma CooldownExpiresAfterDuration(s: CharState, ms: nat)
    requires AfterServerFire(s).fireBroadcasts == s.fireBroadcasts + 1
    requires ms >= FireCooldownMs
    ensures !FireTimerActive(AfterElapse(AfterServerFire(s), ms))
  {
  }

  /**
   * Pressing fire always issues exactly one ServerFire call. On the authority
   * it is validated and executed at once; on a replica nothing else changes.
   */
  lemma PressFireForwardsToServer(s: CharState)
    ensures AfterPressFire(s).fireRequests == s.fireRequests + 1
    ensures s.hasAuthority ==> AfterPressFire(s) == AfterServerFire(s.(fireRequests := s.fireRequests + 1))
    ensures !s.hasAuthority ==> AfterPressFire(s) == s.(fireRequests := s.fireRequests + 1)
  {
  }

  /** A fire request runs the gate on the authority's copy and is ignored by a replica. */
  lemma FireRequestHandledByAuthority(s: CharState)
    ensures s.hasAuthority ==> AfterFireRequest(s) == AfterServerFire(s)
    ensures !s.hasAuthority ==> AfterFireRequest(s) == s
  {
  }

  /** Tick bumps A and B by one on the authority, leaves them alone elsewhere, and never touches the ammo. */
  lemma TickCounters(s: CharState)
    ensures AfterTick(s).a == (if s.hasAuthority then s.a + 1 else s.a)
    ensures AfterTick(s).b == (if s.hasAuthority then s.b + 1 else s.b)
    ensures AfterTick(s).(a := s.a, b := s.b) == s
  {
  }

  // ---------------------------------------------------------------------
  // Whole runs

  /** Starting from a non-negative ammo count, no sequence of events makes it negative. */
  lemma {:induction false} AmmoNeverNegative(s: CharState, es: seq<Event>)
    requires s.ammo >= 0
    ensures Run(s, es).ammo >= 0
    decreases |es|
  {
    if es != [] {
      FireKeepsAmmoNonNegative(s);
      FireKeepsAmmoNonNegative(s.(fireRequests := s.fireRequests + 1));
      AmmoNeverNegative(Step(s, es[0]), es[1..]);
    }
  }

  /** Every round of ammo spent is matched by exactly one fire broadcast, and nothing else changes the ammo. */
  lemma {:induction false} AmmoSpentEqualsBroadcasts(s: CharState, es: seq<Event>)
    ensures Run(s, es).ammo + Run(s, es).fireBroadcasts == s.ammo + s.fireBroadcasts
    decreases |es|
  {
    if es != [] {
      AmmoSpentEqualsBroadcasts(Step(s, es[0]), es[1..]);
    }
  }

  /** A character holding `n >= 0` rounds fires at most `n` times, whatever happens. */
  lemma FiresBoundedByAmmo(s: CharState, es: seq<Event>)
    requires s.ammo >= 0
    ensures Run(s, es).fireBroadcasts - s.fireBroadcasts <= s.ammo
  {
    AmmoNeverNegative(s, es);
    AmmoSpentEqualsBroadcasts(s, es);
  }

  function Max(x: int, y: int): (m: int) { if x < y then y else x }

  /** Timing facts about a run that the rate limit rests on. */
  lemma {:induction false} RunTiming(s: CharState, es: seq<Event>)
    ensures Run(s, es).now >= s.now
    ensures Run(s, es).fireBroadcasts >= s.fireBroadcasts
    ensures Run(s, es).fireDeadline >= s.fireDeadline
    ensures Run(s, es).fireBroadcasts == s.fireBroadcasts ==> Run(s, es).fireDeadline == s.fireDeadline
    ensures Run(s, es).fireBroadcasts > s.fireBroadcasts ==>
              Run(s, es).fireDeadline <= Run(s, es).now + FireCooldownMs
    ensures Run(s, es).fireBroadcasts > s.fireBroadcasts ==>
              (Run(s, es).fireBroadcasts - s.fireBroadcasts) * FireCooldownMs
                <= Run(s, es).fireDeadline - Max(s.now, s.fireDeadline)
    decreases |es|
  {
    if es != [] {
      RunTiming(Step(s, es[0]), es[1..]);
    }
  }

  /**
   * Rate limit: over any run, k fire broadcasts need at least (k - 1) * 1.5 s
   * of elapsed time, however many requests arrive.
   */
  lemma FireRateLimited(s: CharState, es: seq<Event>)
    ensures (Run(s, es).fireBroadcasts - s.fireBroadcasts) * FireCooldownMs
              <= Run(s, es).now - s.now + FireCooldownMs
  {
    RunTiming(s, es);
  }

  /**
   * A replica's own copy never fires, never cues, never starts the timer and
   * never changes its ammo or counters, whatever the player does: those
   * fields change only on the authority.
   */
  lemma {:induction false} ReplicaNeverChangesServerState(s: CharState, es: seq<Event>)
    requires !s.hasAuthority
    ensures Run(s, es).(fireRequests := s.fireRequests, now := s.now) == s
    decreases |es|
  {
    if es != [] {
      var s1 := Step(s, es[0]);
      assert s1.(fireRequests := s.fireRequests, now := s.now) == s;
      ReplicaNeverChangesServerState(s1, es[1..]);
    }
  }

  // ---------------------------------------------------------------------
  // The character object

  class Character {
    var ammo: int
    var a: int
    var b: int
    var hasAuthority: bool
    var now: int
    var fireDeadline: int
    ghost var fireRequests: nat
    ghost var noAmmoCues: nat
    ghost var fireBroadcasts: nat

    ghost function State(): (s: CharState)
      reads this
    {
      CharState(ammo, a, b, hasAuthority, now, fireDeadline,
                fireRequests, noAmmoCues, fireBroadcasts)
    }

    /** A fresh character: no cooldown pending, nothing sent yet. */
    constructor (initialAmmo: int, authority: bool)
      ensures State() == CharState(initialAmmo, 0, 0, authority, 0, 0, 0, 0, 0)
      ensures !FireTimerActive(State())
    {
      ammo, a, b, hasAuthority := initialAmmo, 0, 0, authority;
      now, fireDeadline := 0, 0;
      fireRequests, noAmmoCues, fireBroadcasts := 0, 0, 0;
    }

    /** Fire input: issue the ServerFire call. */
    method OnPressedFire()
      modifies this
      ensures State() == AfterPressFire(old(State()))
    {
      fireRequests := fireRequests + 1;
      ServerFire();
    }

    /** The ServerFire call as it reaches this copy: validated and executed on the authority only. */
    method ServerFire()
      modifies this
      ensures State() == AfterFireRequest(old(State()))
    {
      if hasAuthority {
        var ok := ServerFireValidate();
        if ok {
          ServerFireImplementation();
        }
      }
    }

    /** The validator of the ServerFire request. */
    method ServerFireValidate() returns (ok: bool)
      ensures ok == RequestAccepted(State())
    {
      ok := true;
    }

    /** The server's handling of a fire request. */
    method ServerFireImplementation()
      modifies this
      ensures State() == AfterServerFire(old(State()))
    {
      if now < fireDeadline {
        return;
      }
      if ammo == 0 {
        noAmmoCues := noAmmoCues + 1;
        return;
      }
      ammo := ammo - 1;
      fireDeadline := now + FireCooldownMs;
      fireBroadcasts := fireBroadcasts + 1;
    }

    /** The counter updates of Tick. */
    method Tick()
      modifies this
      ensures State() == AfterTick(old(State()))
    {
      if hasAuthority {
        a := a + 1;
        b := b + 1;
      }
    }

    /** Stands in for the engine timer manager: time passes and a due FireTimer expires. */
    method AdvanceClock(ms: nat)
      modifies this
      ensures State() == AfterElapse(old(State()), ms)
    {
      now := now + ms;
    }
  }
}
