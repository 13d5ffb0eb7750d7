/**
 * Proximity ownership (AOwnershipActor::UpdateOwnership).
 *
 * Actors are named by identifiers, which stand for the engine's actor
 * pointers. Each call receives the characters GetAllActorsOfClass returns,
 * in its order, each paired with the value GetDistanceTo gives for it. The
 * actor's owner is `None` (null) or an actor identifier, so the guard
 * before SetOwner compares actors, not positions in one enumeration.
 */
module Ownership {
  import opened Wrappers

  /** The default value of OwnershipRadius. */
  const DefaultOwnershipRadius: real := 400.0

  /** Stands for an actor pointer. */
  type ActorId = nat

  /** One enumerated character and its distance to the ownership actor. */
  datatype Candidate = Candidate(actor: ActorId, distance: real)

  /**
   * The character at position `k` is the one the scan must pick: strictly
   * inside the radius, no farther than any other character, and strictly
   * nearer than every character enumerated before it (the earliest of a tie wins).
   */
  ghost predicate IsNearestWithin(cs: seq<Candidate>, radius: real, k: nat) {
    k < |cs| &&
    cs[k].distance < radius &&
    (forall j :: 0 <= j < |cs| ==> cs[k].distance <= cs[j].distance) &&
    (forall j :: 0 <= j < k ==> cs[k].distance < cs[j].distance)
  }

  /** No character is strictly inside the radius (this includes the empty enumeration). */
  ghost predicate NoneWithin(cs: seq<Candidate>, radius: real) {
    forall j :: 0 <= j < |cs| ==> radius <= cs[j].distance
  }

  /**
   * The position chosen after scanning `cs` in order, starting from no
   * choice and a best distance equal to the radius, and replacing the best
   * only on a strictly smaller distance.
   */
  function Nearest(cs: seq<Candidate>, radius: real): (r: Option<nat>)
    ensures r.Some? ==> IsNearestWithin(cs, radius, r.value)
    ensures r.None? ==> NoneWithin(cs, radius)
    decreases |cs|
  {
    if |cs| == 0 then None
    else
      var n := |cs| - 1;
      var prev := Nearest(cs[..n], radius);
      if cs[n].distance < BestDistance(cs[..n], radius, prev) then Some(n) else prev
  }

  /** The value of MinDistance for a scan that has chosen position `best` so far. */
  function BestDistance(cs: seq<Candidate>, radius: real, best: Option<nat>): (d: real)
    requires best.Some? ==> best.value < |cs|
    ensures best.None? ==> d == radius
    ensures best.Some? ==> d == cs[best.value].distance
  {
    if best.Some? then cs[best.value].distance else radius
  }

  /** The scan's choice is the only position satisfying the specification, both ways. */
  lemma NearestCharacterised(cs: seq<Candidate>, radius: real)
    ensures forall k: nat :: Nearest(cs, radius) == Some(k) <==> IsNearestWithin(cs, radius, k)
    ensures Nearest(cs, radius) == None <==> NoneWithin(cs, radius)
  {
  }

  /** The actor at a chosen position, or null. */
  function ActorAt(cs: seq<Candidate>, pos: Option<nat>): (r: Option<ActorId>)
    requires pos.Some? ==> pos.value < |cs|
    ensures r.Some? <==> pos.Some?
    ensures r.Some? ==> r.value == cs[pos.value].actor
  {
    if pos.Some? then Some(cs[pos.value].actor) else None
  }

  /**
   * NextOwner once the scan is over: the nearest enumerated character
   * strictly inside the radius, or null when there is none.
   */
  function NextOwner(cs: seq<Candidate>, radius: real): (r: Option<ActorId>)
    ensures r.Some? ==> exists k: nat :: IsNearestWithin(cs, radius, k) && cs[k].actor == r.value
    ensures r.None? <==> NoneWithin(cs, radius)
  {
    var pos := Nearest(cs, radius);
    NearestCharacterised(cs, radius);
    ActorAt(cs, pos)
  }

  /**
   * The loop of UpdateOwnership: scan the characters in enumeration order,
   * keeping the first one at a strictly smaller distance than the best so far.
   */
  method SelectNextOwner(cs: seq<Candidate>, radius: real) returns (next: Option<ActorId>)
    ensures next == NextOwner(cs, radius)
  {
    next := None;
    var minDistance := radius;
    ghost var best: Option<nat> := None;
    var i := 0;
    while i < |cs|
      invariant 0 <= i <= |cs|
      invariant best == Nearest(cs[..i], radius)
      invariant next == ActorAt(cs[..i], best)
      invariant minDistance == BestDistance(cs[..i], radius, best)
    {
      assert cs[..i + 1][..i] == cs[..i];
      var distance := cs[i].distance;
      if distance < minDistance {
        minDistance := distance;
        next := Some(cs[i].actor);
        best := Some(i);
      }
      i := i + 1;
    }
    assert cs[..i] == cs;
  }

  /** The ownership-relevant state of the actor. */
  datatype OwnerState = OwnerState(
    hasAuthority: bool,
    radius: real,            // OwnershipRadius
    owner: Option<ActorId>,  // GetOwner()
    setOwnerCalls: nat       // SetOwner calls made so far
  )

  /**
   * UpdateOwnership: on the authority, compute the nearest character within
   * the radius and call SetOwner only when it differs from the current owner.
   */
  function AfterUpdateOwnership(s: OwnerState, cs: seq<Candidate>): (t: OwnerState) {
    if !s.hasAuthority then s
    else
      var next := NextOwner(cs, s.radius);
      if s.owner != next then s.(owner := next, setOwnerCalls := s.setOwnerCalls + 1) else s
  }

  /** A replica never changes its owner and never calls SetOwner. */
  lemma ReplicaLeavesOwner(s: OwnerState, cs: seq<Candidate>)
    requires !s.hasAuthority
    ensures AfterUpdateOwnership(s, cs) == s
  {
  }

  /**
   * On the authority the owner afterwards is the nearest character strictly
   * inside the radius, or none; SetOwner is called exactly when that differs
   * from the previous owner.
   */
  lemma AuthorityOwnerIsNearest(s: OwnerState, cs: seq<Candidate>)
    requires s.hasAuthority
    ensures var t := AfterUpdateOwnership(s, cs);
      (t.owner.Some? ==> exists k: nat :: IsNearestWithin(cs, s.radius, k) && cs[k].actor == t.owner.value) &&
      (t.owner.None? <==> NoneWithin(cs, s.radius)) &&
      t.setOwnerCalls == s.setOwnerCalls + (if s.owner == t.owner then 0 else 1) &&
      t.radius == s.radius && t.hasAuthority
  {
  }

  /**
   * An owner that is no longer among the enumerated characters is always
   * replaced on the authority: by the nearest one within the radius, or by null.
   */
  lemma AbsentOwnerReplaced(s: OwnerState, cs: seq<Candidate>)
    requires s.hasAuthority && s.owner.Some?
    requires forall j :: 0 <= j < |cs| ==> cs[j].actor != s.owner.value
    ensures AfterUpdateOwnership(s, cs).owner != s.owner
    ensures AfterUpdateOwnership(s, cs).setOwnerCalls == s.setOwnerCalls + 1
  {
    var next := NextOwner(cs, s.radius);
    if next.Some? {
      var k: nat :| IsNearestWithin(cs, s.radius, k) && cs[k].actor == next.value;
      assert cs[k].actor != s.owner.value;
    }
  }

  /** Running the update a second time with the same characters changes nothing and writes nothing. */
  lemma UpdateOwnershipIdempotent(s: OwnerState, cs: seq<Candidate>)
    ensures var t := AfterUpdateOwnership(s, cs);
      AfterUpdateOwnership(t, cs) == t
  {
  }

  class OwnershipActor {
    var hasAuthority: bool
    var ownershipRadius: real
    var owner: Option<ActorId>
    ghost var setOwnerCalls: nat

    ghost function State(): (s: OwnerState)
      reads this
    {
      OwnerState(hasAuthority, ownershipRadius, owner, setOwnerCalls)
    }

    /** A new actor has no owner and the default radius. */
    constructor (authority: bool)
      ensures State() == OwnerState(authority, DefaultOwnershipRadius, None, 0)
    {
      hasAuthority := authority;
      ownershipRadius := DefaultOwnershipRadius;
      owner := None;
      setOwnerCalls := 0;
    }

    /** `cs` are the characters GetAllActorsOfClass returns, in its order, with their GetDistanceTo values. */
    method UpdateOwnership(cs: seq<Candidate>)
      modifies this`owner, this`setOwnerCalls
      ensures State() == AfterUpdateOwnership(old(State()), cs)
    {
      if hasAuthority {
        var next := SelectNextOwner(cs, ownershipRadius);
        if owner != next {
          SetOwner(next);
        }
      }
    }

    method SetOwner(newOwner: Option<ActorId>)
      modifies this`owner, this`setOwnerCalls
      ensures owner == newOwner && setOwnerCalls == old(setOwnerCalls) + 1
    {
      owner := newOwner;
      setOwnerCalls := setOwnerCalls + 1;
    }
  }
}
