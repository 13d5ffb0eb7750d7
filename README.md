# Multiplayer character: fire gate and proximity ownership

A Dafny model of the two pieces of sequential decision logic in this
Unreal Engine multiplayer sample:

- **The server-side fire gate of `AMultiplayerCharacter`.** A fire request
  reaches the server, which drops it while the fire cooldown timer is
  active. With zero ammo it sends a "no ammo" sound to the requesting client
  and stops. Otherwise it decrements `Ammo`, starts a 1.5 s one-shot
  `FireTimer` and broadcasts the fire to all clients. Alongside it, `Tick`
  increments the replicated debug counters `A` and `B`, on the authority
  only.
- **`AOwnershipActor::UpdateOwnership`.** On the authority only, the actor
  scans every character and keeps the first one whose distance is strictly
  smaller than the best so far. The best starts at `OwnershipRadius`
  (default 400). The actor calls `SetOwner` only when the result differs
  from its current owner.

Modelling choices:

- The engine's timer manager is an integer millisecond clock `now` plus
  the deadline of `FireTimer`. The timer is active exactly while
  `now < fireDeadline`. `SetTimer(FireTimer, 1.5f, false)` sets the
  deadline to `now + 1500`. `Character.AdvanceClock` stands in for the
  engine letting time pass, and so for the timer expiring.
- The remote calls are recorded as ghost counters: `fireRequests` for the
  `ServerFire` calls a copy issues, `noAmmoCues` for
  `ClientPlaySound2D(NoAmmoSound)` and `fireBroadcasts` for `MulticastFire`.
- A `CharState` is one copy of a character: the authority's copy when
  `hasAuthority` holds, a replica's otherwise. Pressing fire on the
  authority runs the server's code on that copy at once. Pressing fire on a
  replica only issues the call. The authority's copy then handles it as a
  separate `FireRequestArrives` event. A replica never runs the fire gate,
  and `hasAuthority` also gates `Tick`.
- `GetAllActorsOfClass` and `GetDistanceTo` become a sequence of
  `Candidate(actor, distance)` pairs in enumeration order. An `ActorId`
  stands for an actor pointer, and an owner is `None` (null) or an
  `ActorId`. So the guard before `SetOwner` compares actors, not positions
  in the list.
- Each class (`Character`, `OwnershipActor`) has a value-level mirror
  (`CharState`, `OwnerState`). Each method's postcondition equates the new
  state with a function of the old state (`AfterServerFire`, `AfterTick`,
  `AfterUpdateOwnership`, ...). The properties are lemmas about those
  functions, including lemmas over whole event sequences (`Run`).

Files: `wrappers.dfy` (the `Option` type), `character.dfy` (module
`MultiplayerCharacter`) and `ownership.dfy` (module `Ownership`).

## Model

| member | source | states |
|---|---|---|
| MultiplayerCharacter.FireDuringCooldownIsNoop | Source/Multiplayer/MultiplayerCharacter.cpp:128-131 | While the fire timer is active, a request leaves the whole state unchanged: same ammo, no cue, no broadcast, the timer is not restarted |
| MultiplayerCharacter.CooldownCheckedBeforeAmmo | Source/Multiplayer/MultiplayerCharacter.cpp:128-136 | With the timer active and zero ammo, no "no ammo" cue is sent, because the cooldown is checked first |
| MultiplayerCharacter.FireWithoutAmmo | Source/Multiplayer/MultiplayerCharacter.cpp:132-136 | With no cooldown and zero ammo: exactly one cue is sent and nothing else changes (ammo, timer, broadcasts); no cooldown is running afterwards |
| MultiplayerCharacter.FireWithAmmo | Source/Multiplayer/MultiplayerCharacter.cpp:137-139 | With no cooldown and ammo left: ammo drops by exactly one, the timer's deadline becomes now + 1500 ms, exactly one broadcast goes out, no cue is sent, and the clock and A/B are untouched |
| MultiplayerCharacter.FireKeepsAmmoNonNegative | Source/Multiplayer/MultiplayerCharacter.cpp:132-137 | A request never takes a non-negative ammo count below zero |
| MultiplayerCharacter.FireBlockedUntilCooldownEnds | Source/Multiplayer/MultiplayerCharacter.cpp:128-138 | After a successful fire, any request made less than 1.5 s later, with no wait at all included, is a no-op |
| MultiplayerCharacter.CooldownExpiresAfterDuration | Source/Multiplayer/MultiplayerCharacter.cpp:138 | The cooldown is one-shot: 1.5 s or more after a successful fire the timer is no longer active |
| MultiplayerCharacter.PressFireForwardsToServer | Source/Multiplayer/MultiplayerCharacter.cpp:121-124 | Pressing fire always issues exactly one ServerFire call. On the authority the call is executed on the spot; on a replica nothing else changes |
| MultiplayerCharacter.FireRequestHandledByAuthority | Source/Multiplayer/MultiplayerCharacter.cpp:126-145 | An arriving fire request runs the validated fire gate on the authority's copy and is ignored by a replica |
| MultiplayerCharacter.RequestAccepted | Source/Multiplayer/MultiplayerCharacter.cpp:142-145 | The validator accepts every fire request |
| MultiplayerCharacter.TickCounters | Source/Multiplayer/MultiplayerCharacter.cpp:90-94 | Tick adds exactly one to A and to B on the authority and leaves them alone elsewhere; every other field, Ammo included, is unchanged |
| MultiplayerCharacter.AmmoNeverNegative | Source/Multiplayer/MultiplayerCharacter.cpp:126-140 | From non-negative ammo, no sequence of presses, arriving requests, frames and elapsed time makes ammo negative |
| MultiplayerCharacter.AmmoSpentEqualsBroadcasts | Source/Multiplayer/MultiplayerCharacter.cpp:132-139 | Over any run, ammo plus fire broadcasts stays constant: each round spent is exactly one broadcast, and nothing else changes ammo |
| MultiplayerCharacter.FiresBoundedByAmmo | Source/Multiplayer/MultiplayerCharacter.cpp:132-139 | A character starting with n >= 0 rounds fires at most n times in any run |
| MultiplayerCharacter.RunTiming | Source/Multiplayer/MultiplayerCharacter.cpp:128-139 | Over any run, the clock, the broadcast count and the deadline never decrease, and the deadline moves only when a broadcast happens. After k >= 1 fires the deadline is at most now + 1.5 s and at least k * 1.5 s past the start |
| MultiplayerCharacter.ReplicaNeverChangesServerState | Source/Multiplayer/MultiplayerCharacter.cpp:86-140 | From a replica's state, no sequence of events changes anything but its issued requests and its clock: ammo, A, B, the timer deadline, cues and broadcasts stay as they are |
| MultiplayerCharacter.FireRateLimited | Source/Multiplayer/MultiplayerCharacter.cpp:128-139 | Rate limit: k broadcasts in a run need at least (k - 1) * 1.5 s of elapsed time, however many requests arrive |
| MultiplayerCharacter.Character.OnPressedFire | Source/Multiplayer/MultiplayerCharacter.cpp:121-124 | The object's new state is one issued request, handled at once if this copy is the authority |
| MultiplayerCharacter.Character.ServerFire | Source/Multiplayer/MultiplayerCharacter.cpp:126-145 | The object's new state is that of a request arriving: validated and run through the fire gate on the authority, ignored on a replica |
| MultiplayerCharacter.Character.ServerFireValidate | Source/Multiplayer/MultiplayerCharacter.cpp:142-145 | Returns the validator's verdict, which is always true |
| MultiplayerCharacter.Character.ServerFireImplementation | Source/Multiplayer/MultiplayerCharacter.cpp:126-140 | The object's new state is that of the fire gate (cooldown check, then ammo check, then fire) applied to the old one |
| MultiplayerCharacter.Character.Tick | Source/Multiplayer/MultiplayerCharacter.cpp:86-97 | The object's new state is the authority-gated counter update applied to the old one |
| MultiplayerCharacter.Character.AdvanceClock | Source/Multiplayer/MultiplayerCharacter.cpp:138 | Only the timer manager's clock moves, by the given milliseconds; this is how the 1.5 s timer expires |
| Ownership.Nearest | Source/Multiplayer/Private/OwnershipActor.cpp:38-50 | The position the scan chooses. If it chooses a character, that one is strictly inside the radius, no farther than any enumerated character, and strictly nearer than every earlier one. If it chooses none, no character is strictly inside the radius; this includes the empty list |
| Ownership.NearestCharacterised | Source/Multiplayer/Private/OwnershipActor.cpp:42-49 | Both directions: the scan returns k exactly when k is the earliest character at the minimum distance below the radius. It returns null exactly when nobody is strictly inside the radius |
| Ownership.NextOwner | Source/Multiplayer/Private/OwnershipActor.cpp:38-50 | NextOwner after the scan is an actor at a position meeting that specification, and it is null exactly when no character is strictly inside the radius |
| Ownership.SelectNextOwner | Source/Multiplayer/Private/OwnershipActor.cpp:38-50 | The loop, with MinDistance starting at the radius and a strict `<` comparison, computes that actor |
| Ownership.ReplicaLeavesOwner | Source/Multiplayer/Private/OwnershipActor.cpp:36 | Without authority, the update changes neither the owner nor anything else, and makes no SetOwner call |
| Ownership.AuthorityOwnerIsNearest | Source/Multiplayer/Private/OwnershipActor.cpp:34-56 | On the authority, the new owner is the nearest character strictly inside the radius, or null if none is. SetOwner is called exactly once when that differs from the old owner, and not at all otherwise |
| Ownership.AbsentOwnerReplaced | Source/Multiplayer/Private/OwnershipActor.cpp:51-54 | On the authority, an owner that is no longer among the enumerated characters is always replaced, with exactly one SetOwner call |
| Ownership.UpdateOwnershipIdempotent | Source/Multiplayer/Private/OwnershipActor.cpp:38-54 | A second update with the same characters and distances leaves the owner as it is and makes no SetOwner call |
| Ownership.OwnershipActor.constructor | Source/Multiplayer/Public/OwnershipActor.h:24 | A new actor has the default radius of 400 and no owner |
| Ownership.OwnershipActor.UpdateOwnership | Source/Multiplayer/Private/OwnershipActor.cpp:34-56 | The object's new owner and SetOwner count are those of the value-level update; the radius and the authority flag do not change |
| Ownership.OwnershipActor.SetOwner | Source/Multiplayer/Private/OwnershipActor.cpp:53 | The owner becomes the given one, and the write is counted |

## Left out

- `MultiplayerCharacter.h` is not part of this model. The declared widths and initial values of `Ammo`, `A` and `B` are therefore unknown. All three are unbounded integers. The character's constructor takes the initial ammo as a parameter and starts `A` and `B` at 0.
- MultiplayerCharacter.Character.constructor: the default state it sets up (clock 0, no pending timer, no calls recorded) is a modelling convention, not something the C++ constructor states.
- `A` is an integer here. A commented-out debug format in the source suggests it may be a float in the header; only its "+1 per authority tick" behaviour is modelled.
- Fixed-width arithmetic is not modelled. The model never wraps `Ammo`, and `AmmoNeverNegative` shows that it never goes below 0 from a non-negative start.
- Replication is not modelled: nothing copies `Ammo`, `A`, `B` or the owner from the authority's copy to a replica, and `GetLifetimeReplicatedProps` is left out. A replica's state changes only in the fields the model says it does (its issued requests and its clock).
- Delivery of a replica's ServerFire call to the authority is not modelled. The request and its arrival are two separate events on two separate copies, and the model does not tie them together.
- The RPC transport (reliability, ordering, what happens if the validator rejects) is not modelled; the validator always accepts.
- The bodies of `MulticastFire` and `ClientPlaySound2D` are not modelled: animation montage and sound playback are cosmetic. Each call is recorded as a counter only.
- The constructors' component setup, input binding, touch, VR reset, movement and turn handlers, and `ModifyHealth` are not modelled. They are engine calls and float vector math with no decision logic.
- Debug drawing and on-screen messages are not modelled: `DrawDebugInfo`, `OnRepNotify_B`, `DrawDebugSphere`.
- The engine clock's float seconds, `GetAllActorsOfClass` ordering and `GetDistanceTo` geometry are inputs. Time is whole milliseconds, and the enumeration is a given sequence of real distances. NaN distances and float rounding are not represented.
- Ownership.OwnershipActor.UpdateOwnership: an `ActorId` is assumed to name the same actor in every call, as a pointer does. An owner set by other code to an actor that is not a character is just an identifier that never appears among the candidates.
- Ownership.OwnershipActor.SetOwner: the engine's SetOwner is assumed to always take effect, and the owner's own bookkeeping (its list of owned actors, the net connection) is not modelled.
