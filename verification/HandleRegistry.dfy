/** The handle registry and its operations (crates/ephemera-social/src/handle.rs). */
module HandleRegistry {
  import opened Wrappers
  import opened ByteOrder
  import opened HandleFormat

  type IdentityKey = k: Bytes | |k| == 32 witness seq(32, _ => 0)

  const HANDLE_TTL_SECS: nat := 90 * 24 * 60 * 60
  const HANDLE_RELEASE_COOLDOWN_SECS: nat := 24 * 60 * 60
  const HANDLE_REGISTRATION_COOLDOWN_SECS: nat := 24 * 60 * 60
  const POW_DIFFICULTY_RENEWAL: nat := 5

  /** What a proof-of-work stamp or a signature is bound to. */
  datatype Claim = Claim(name: string, owner: IdentityKey, time: nat)

  /** Work of `bits` bits done for `challenge`. */
  datatype PowStamp = PowStamp(challenge: Claim, bits: nat)

  datatype Handle = Handle(
    name: string,
    owner: IdentityKey,
    registeredAt: nat,
    expiresAt: nat,
    powProof: PowStamp,
    signature: Claim)
  {
    predicate IsExpiredAt(now: nat) { now >= expiresAt }
  }

  datatype HandleError =
    | InvalidFormat(why: FormatError)
    | AlreadyTaken(name: string)
    | IdentityAlreadyHasHandle(existing: string)
    | RegistrationRateLimited(remainingSecs: nat)
    | InCooldown(name: string, availableAt: nat)
    | InvalidPow
    | InvalidSignature
    | NotOwner(name: string)
    | Expired(name: string)

  datatype ConflictResult = Accept | IncomingWins | ExistingWins

  datatype InsertOutcome = Inserted | Replaced(displacedOwner: IdentityKey) | Rejected

  datatype Registry = Registry(
    handles: map<string, Handle>,
    ownerToHandle: map<IdentityKey, string>,
    lastRegistration: map<IdentityKey, nat>,
    cooldowns: map<string, nat>)

  const EMPTY_REGISTRY := Registry(map[], map[], map[], map[])

  // Validation -----------------------------------------------------------------

  function RequiredBits(name: string): nat {
    if Utf8Len(name) <= 5 then 11 else if Utf8Len(name) <= 10 then 9 else 7
  }

  function Validate(h: Handle, now: nat): Result<(), HandleError> {
    if FormatProblem(h.name).Some? then Err(InvalidFormat(FormatProblem(h.name).value))
    else if h.IsExpiredAt(now) then Err(Expired(h.name))
    else if h.expiresAt != h.registeredAt + HANDLE_TTL_SECS then Err(InvalidPow)
    else if h.signature != Claim(h.name, h.owner, h.registeredAt) then Err(InvalidSignature)
    else if h.powProof.challenge != Claim(h.name, h.owner, h.registeredAt) then Err(InvalidPow)
    else if h.powProof.bits < RequiredBits(h.name) then Err(InvalidPow)
    else Ok(())
  }

  function NewHandle(name: string, owner: IdentityKey, bits: nat, now: nat): Handle {
    var claim := Claim(name, owner, now);
    Handle(name, owner, now, now + HANDLE_TTL_SECS, PowStamp(claim, bits), claim)
  }

  // Specification of the operations ----------------------------------------------

  /** Drop a record and a reverse entry. */
  function Forget(r: Registry, name: string, owner: IdentityKey): Registry {
    r.(handles := r.handles - {name}, ownerToHandle := r.ownerToHandle - {owner})
  }

  function Register(r: Registry, name: string, owner: IdentityKey, bits: nat, signs: bool, now: nat)
    : (Registry, Result<Handle, HandleError>)
  {
    if FormatProblem(name).Some? then (r, Err(InvalidFormat(FormatProblem(name).value))) else
    var holds := owner in r.ownerToHandle && r.ownerToHandle[owner] in r.handles;
    if holds && !r.handles[r.ownerToHandle[owner]].IsExpiredAt(now) then
      (r, Err(IdentityAlreadyHasHandle(r.ownerToHandle[owner])))
    else
    var r1 := if holds then Forget(r, r.ownerToHandle[owner], owner) else r;
    if owner in r1.lastRegistration && now < r1.lastRegistration[owner] + HANDLE_REGISTRATION_COOLDOWN_SECS then
      var elapsed := if now < r1.lastRegistration[owner] then 0 else now - r1.lastRegistration[owner];
      (r1, Err(RegistrationRateLimited(HANDLE_REGISTRATION_COOLDOWN_SECS - elapsed)))
    else if name in r1.handles && !r1.handles[name].IsExpiredAt(now) then
      (r1, Err(AlreadyTaken(name)))
    else
    var r2 := if name in r1.handles then Forget(r1, name, r1.handles[name].owner) else r1;
    if name in r2.cooldowns && now < r2.cooldowns[name] then
      (r2, Err(InCooldown(name, r2.cooldowns[name])))
    else
    var r3 := r2.(cooldowns := r2.cooldowns - {name});
    if !signs then (r3, Err(InvalidSignature))
    else
      var h := NewHandle(name, owner, bits, now);
      (r3.(handles := r3.handles[name := h], ownerToHandle := r3.ownerToHandle[owner := name],
           lastRegistration := r3.lastRegistration[owner := now]),
       Ok(h))
  }

  function Renew(r: Registry, name: string, owner: IdentityKey, signs: bool, now: nat): (Registry, Result<(), HandleError>) {
    if name !in r.handles then (r, Err(Expired(name)))
    else if r.handles[name].owner != owner then (r, Err(NotOwner(name)))
    else if r.handles[name].IsExpiredAt(now) then (r, Err(Expired(name)))
    else if !signs then (r, Err(InvalidSignature))
    else
      var fields := NewHandle(name, owner, POW_DIFFICULTY_RENEWAL, now);
      var h := r.handles[name].(registeredAt := fields.registeredAt, expiresAt := fields.expiresAt,
                                powProof := fields.powProof, signature := fields.signature);
      (r.(handles := r.handles[name := h]), Ok(()))
  }

  function Release(r: Registry, name: string, owner: IdentityKey, now: nat): (Registry, Result<(), HandleError>) {
    if name !in r.handles || r.handles[name].owner != owner then (r, Err(NotOwner(name)))
    else
      (Forget(r, name, owner).(cooldowns := r.cooldowns[name := now + HANDLE_RELEASE_COOLDOWN_SECS]), Ok(()))
  }

  /** The incoming record comes first: earlier, or equally early with lower owner bytes. */
  predicate Precedes(time: nat, owner: IdentityKey, time': nat, owner': IdentityKey) {
    time < time' || (time == time' && LexLess(owner, owner'))
  }

  function ResolveConflict(r: Registry, incoming: Handle, now: nat): ConflictResult {
    if incoming.name !in r.handles then Accept
    else
      var existing := r.handles[incoming.name];
      if existing.IsExpiredAt(now) then Accept
      else if Precedes(incoming.registeredAt, incoming.owner, existing.registeredAt, existing.owner) then IncomingWins
      else ExistingWins
  }

  /** Storing a record drops the reverse mapping of the name's previous owner. */
  function Store(r: Registry, h: Handle): Registry {
    var owners := if h.name in r.handles then r.ownerToHandle - {r.handles[h.name].owner} else r.ownerToHandle;
    r.(handles := r.handles[h.name := h], ownerToHandle := owners[h.owner := h.name])
  }

  function InsertValidated(r: Registry, h: Handle, now: nat): (Registry, InsertOutcome) {
    match ResolveConflict(r, h, now)
    case ExistingWins => (r, Rejected)
    case Accept => (Store(r, h), Inserted)
    case IncomingWins => (Store(r, h), Replaced(r.handles[h.name].owner))
  }

  function ExpiredNames(r: Registry, now: nat): set<string> {
    set n | n in r.handles && r.handles[n].IsExpiredAt(now)
  }

  function OwnersOf(r: Registry, names: set<string>): set<IdentityKey> {
    set n | n in names && n in r.handles :: r.handles[n].owner
  }

  function Collect(r: Registry, now: nat): Registry {
    r.(handles := r.handles - ExpiredNames(r, now),
       ownerToHandle := r.ownerToHandle - OwnersOf(r, ExpiredNames(r, now)),
       cooldowns := map n | n in r.cooldowns && now < r.cooldowns[n] :: r.cooldowns[n])
  }

  function LookupByOwner(r: Registry, owner: IdentityKey): Option<Handle> {
    if owner in r.ownerToHandle && r.ownerToHandle[owner] in r.handles then Some(r.handles[r.ownerToHandle[owner]]) else None
  }

  // The mutable registry -----------------------------------------------------------

  class LocalRegistry {
    var handles: map<string, Handle>
    var ownerToHandle: map<IdentityKey, string>
    var lastRegistration: map<IdentityKey, nat>
    var cooldowns: map<string, nat>

    ghost function Value(): Registry
      reads this
    {
      Registry(handles, ownerToHandle, lastRegistration, cooldowns)
    }

    constructor ()
      ensures Value() == EMPTY_REGISTRY
    {
      handles, ownerToHandle, lastRegistration, cooldowns := map[], map[], map[], map[];
    }

    /** `signs` says whether the identity's signing operation succeeds. */
    method RegisterWithDifficulty(name: string, owner: IdentityKey, bits: nat, signs: bool, now: nat)
      returns (result: Result<Handle, HandleError>)
      modifies this
      ensures (Value(), result) == Register(old(Value()), name, owner, bits, signs, now)
    {
      hide FormatProblem;
      var format := ValidateHandleFormat(name);
      if format.Err? {
        return Err(InvalidFormat(format.error));
      }
      if owner in ownerToHandle {
        var existing := ownerToHandle[owner];
        if existing in handles {
          if !handles[existing].IsExpiredAt(now) {
            return Err(IdentityAlreadyHasHandle(existing));
          }
          handles := handles - {existing};
          ownerToHandle := ownerToHandle - {owner};
        }
      }
      if owner in lastRegistration {
        var last := lastRegistration[owner];
        var elapsed := if now < last then 0 else now - last;
        if elapsed < HANDLE_REGISTRATION_COOLDOWN_SECS {
          return Err(RegistrationRateLimited(HANDLE_REGISTRATION_COOLDOWN_SECS - elapsed));
        }
      }
      if name in handles {
        if !handles[name].IsExpiredAt(now) {
          return Err(AlreadyTaken(name));
        }
        var oldOwner := handles[name].owner;
        handles := handles - {name};
        ownerToHandle := ownerToHandle - {oldOwner};
      }
      if name in cooldowns {
        if now < cooldowns[name] {
          return Err(InCooldown(name, cooldowns[name]));
        }
        cooldowns := cooldowns - {name};
      } else {
        assert cooldowns - {name} == cooldowns;
      }
      if !signs {
        return Err(InvalidSignature);
      }
      var claim := Claim(name, owner, now);
      var handle := Handle(name, owner, now, now + HANDLE_TTL_SECS, PowStamp(claim, bits), claim);
      handles := handles[name := handle];
      ownerToHandle := ownerToHandle[owner := name];
      lastRegistration := lastRegistration[owner := now];
      result := Ok(handle);
    }

    method RenewHandle(name: string, owner: IdentityKey, signs: bool, now: nat) returns (result: Result<(), HandleError>)
      modifies this
      ensures (Value(), result) == Renew(old(Value()), name, owner, signs, now)
    {
      if name !in handles {
        return Err(Expired(name));
      }
      var handle := handles[name];
      if handle.owner != owner {
        return Err(NotOwner(name));
      }
      if handle.IsExpiredAt(now) {
        return Err(Expired(name));
      }
      if !signs {
        return Err(InvalidSignature);
      }
      var claim := Claim(name, owner, now);
      handles := handles[name := handle.(registeredAt := now, expiresAt := now + HANDLE_TTL_SECS,
                                         powProof := PowStamp(claim, POW_DIFFICULTY_RENEWAL), signature := claim)];
      result := Ok(());
    }

    method ReleaseHandle(name: string, owner: IdentityKey, now: nat) returns (result: Result<(), HandleError>)
      modifies this
      ensures (Value(), result) == Release(old(Value()), name, owner, now)
    {
      if name !in handles || handles[name].owner != owner {
        return Err(NotOwner(name));
      }
      handles := handles - {name};
      ownerToHandle := ownerToHandle - {owner};
      cooldowns := cooldowns[name := now + HANDLE_RELEASE_COOLDOWN_SECS];
      result := Ok(());
    }

    method Insert(handle: Handle, now: nat) returns (outcome: InsertOutcome)
      modifies this
      ensures (Value(), outcome) == InsertValidated(old(Value()), handle, now)
    {
      var conflict := if handle.name !in handles || handles[handle.name].IsExpiredAt(now) then Accept
                      else if handle.registeredAt < handles[handle.name].registeredAt then IncomingWins
                      else if handle.registeredAt == handles[handle.name].registeredAt
                              && LexLess(handle.owner, handles[handle.name].owner) then IncomingWins
                      else ExistingWins;
      if conflict == ExistingWins {
        return Rejected;
      }
      outcome := Inserted;
      if handle.name in handles {
        var displaced := handles[handle.name].owner;
        ownerToHandle := ownerToHandle - {displaced};
        if conflict == IncomingWins {
          outcome := Replaced(displaced);
        }
      }
      handles := handles[handle.name := handle];
      ownerToHandle := ownerToHandle[handle.owner := handle.name];
    }

    method CollectGarbage(now: nat)
      modifies this
      ensures Value() == Collect(old(Value()), now)
    {
      ghost var start := Value();
      var expired := set n | n in handles && handles[n].IsExpiredAt(now);
      ghost var done: set<string> := {};
      while expired != {}
        invariant expired !! done && expired + done == ExpiredNames(start, now)
        invariant handles == start.handles - done
        invariant ownerToHandle == start.ownerToHandle - OwnersOf(start, done)
        invariant lastRegistration == start.lastRegistration && cooldowns == start.cooldowns
        decreases expired
      {
        var name :| name in expired;
        var owner := handles[name].owner;
        assert OwnersOf(start, done + {name}) == OwnersOf(start, done) + {owner};
        handles := handles - {name};
        ownerToHandle := ownerToHandle - {owner};
        expired, done := expired - {name}, done + {name};
      }
      cooldowns := map n | n in cooldowns && now < cooldowns[n] :: cooldowns[n];
    }

    method ReverseLookup(owner: IdentityKey) returns (handle: Option<Handle>)
      ensures handle == LookupByOwner(Value(), owner)
    {
      handle := None;
      if owner in ownerToHandle && ownerToHandle[owner] in handles {
        handle := Some(handles[ownerToHandle[owner]]);
      }
    }
  }
}
