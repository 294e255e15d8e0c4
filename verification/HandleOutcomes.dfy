/** Which outcome each registry operation reports, judged on the registry before the call. */
module HandleOutcomes {
  import opened Wrappers
  import opened ByteOrder
  import opened HandleFormat
  import opened HandleRegistry
  import opened HandleRuns
  import opened HandleLife
  import opened HandleOwnership

  // Registration ---------------------------------------------------------------------

  /** The checks before the name itself is looked at. */
  predicate MayRegister(r: Registry, name: string, owner: IdentityKey, now: nat) {
    FormatProblem(name).None? && !HasLiveHandle(r, owner, now) && !IsRateLimited(r, owner, now)
  }

  /** Each error has its own condition. */
  lemma RegisterErrors(r: Registry, name: string, owner: IdentityKey, bits: nat, signs: bool, now: nat)
    ensures var result := Register(r, name, owner, bits, signs, now).1;
            && (forall why :: result == Err(InvalidFormat(why)) <==> FormatProblem(name) == Some(why))
            && (forall existing :: result == Err(IdentityAlreadyHasHandle(existing)) <==>
                  FormatProblem(name).None? && HasLiveHandle(r, owner, now) && r.ownerToHandle[owner] == existing)
            && (result == Err(AlreadyTaken(name)) <==> MayRegister(r, name, owner, now) && IsTaken(r, name, now))
            && (forall at :: result == Err(InCooldown(name, at)) <==>
                  MayRegister(r, name, owner, now) && !IsTaken(r, name, now) && IsCoolingDown(r, name, now) && r.cooldowns[name] == at)
            && (result == Err(InvalidSignature) <==>
                  MayRegister(r, name, owner, now) && !IsTaken(r, name, now) && !IsCoolingDown(r, name, now) && !signs)
  {
    hide FormatProblem;
  }

  /** A rate-limited identity is told how long to wait: waiting that long is just enough. */
  lemma RateLimitTells(r: Registry, name: string, owner: IdentityKey, bits: nat, signs: bool, now: nat, wait: nat)
    ensures Register(r, name, owner, bits, signs, now).1 == Err(RegistrationRateLimited(wait)) <==>
            && FormatProblem(name).None? && !HasLiveHandle(r, owner, now)
            && owner in r.lastRegistration && now < r.lastRegistration[owner] + 86_400
            && wait == if now < r.lastRegistration[owner] then 86_400 else r.lastRegistration[owner] + 86_400 - now
  {
    hide FormatProblem;
  }

  // Network records ----------------------------------------------------------------------

  /** A live record with the same name that comes no later. */
  predicate IsBeaten(r: Registry, h: Handle, now: nat) {
    IsTaken(r, h.name, now) && !ComesBefore(h, r.handles[h.name])
  }

  lemma InsertOutcomes(r: Registry, h: Handle, now: nat)
    ensures var (r', outcome) := InsertValidated(r, h, now);
            && (outcome == Rejected <==> IsBeaten(r, h, now))
            && (outcome == Inserted <==> !IsTaken(r, h.name, now))
            && (forall o :: outcome == Replaced(o) <==>
                  IsTaken(r, h.name, now) && ComesBefore(h, r.handles[h.name]) && r.handles[h.name].owner == o)
            && (outcome == Rejected ==> r' == r)
            && (outcome != Rejected ==> r'.handles == r.handles[h.name := h] && LookupByOwner(r', h.owner) == Some(h))
            && r'.lastRegistration == r.lastRegistration && r'.cooldowns == r.cooldowns
  {}

  // Collection -----------------------------------------------------------------------------

  /** Exactly the expired records and the finished cooldowns go. */
  lemma CollectKeepsExactly(r: Registry, now: nat, name: string)
    ensures var r' := Collect(r, now);
            && (name in r'.handles <==> IsTaken(r, name, now)) && (name in r'.handles ==> r'.handles[name] == r.handles[name])
            && (name in r'.cooldowns <==> IsCoolingDown(r, name, now))
            && (name in r'.cooldowns ==> r'.cooldowns[name] == r.cooldowns[name])
            && r'.lastRegistration == r.lastRegistration
  {}

  // Validation -----------------------------------------------------------------------------------

  lemma WorkByLength(name: string)
    requires ValidFormat(name)
    ensures RequiredBits(name) == if |name| <= 5 then 11 else if |name| <= 10 then 9 else 7
  {
    AllowedIsAscii(name);
  }

  /** A record validates exactly when it is unexpired, lasts 90 days, and owner signature and work are for this very claim. */
  lemma ValidatesExactly(h: Handle, now: nat)
    ensures Validate(h, now).Ok? <==>
            && ValidFormat(h.name) && now < h.expiresAt && h.expiresAt == h.registeredAt + 7_776_000
            && h.signature == Claim(h.name, h.owner, h.registeredAt)
            && h.powProof.challenge == Claim(h.name, h.owner, h.registeredAt)
            && h.powProof.bits >= if |h.name| <= 5 then 11 else if |h.name| <= 10 then 9 else 7
  {
    hide FormatProblem, ValidFormat, RequiredBits;
    FormatProblemExact(h.name);
    if ValidFormat(h.name) { WorkByLength(h.name); }
  }

  lemma ValidateErrors(h: Handle, now: nat)
    ensures var result := Validate(h, now);
            && (forall why :: result == Err(InvalidFormat(why)) <==> FormatProblem(h.name) == Some(why))
            && (result == Err(Expired(h.name)) <==> FormatProblem(h.name).None? && h.expiresAt <= now)
            && (result == Err(InvalidSignature) <==>
                  && FormatProblem(h.name).None? && now < h.expiresAt && h.expiresAt == h.registeredAt + 7_776_000
                  && h.signature != Claim(h.name, h.owner, h.registeredAt))
  {
    hide FormatProblem;
  }

  /** A renewed record lacks nothing but work. */
  lemma RenewalLacksOnlyWork(r: Registry, name: string, owner: IdentityKey, signs: bool, now: nat, later: nat)
    requires ReverseOk(r) && Renew(r, name, owner, signs, now).1.Ok? && ValidFormat(name) && later < now + 7_776_000
    ensures var renewed := Renew(r, name, owner, signs, now).0.handles[name];
            && Validate(renewed, later) == Err(InvalidPow)
            && Validate(renewed.(powProof := PowStamp(Claim(name, owner, now), 11)), later).Ok?
  {
    hide FormatProblem, ValidFormat, RequiredBits;
    FormatProblemExact(name);
    WorkByLength(name);
  }
}
