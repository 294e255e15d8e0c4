/** When registrations succeed, which records survive, and what renewals and collection do to lookups. */
module HandleLife {
  import opened Wrappers
  import opened ByteOrder
  import opened HandleFormat
  import opened HandleRegistry
  import opened HandleRuns

  /** The identity has a handle that has not expired. */
  predicate HasLiveHandle(r: Registry, owner: IdentityKey, now: nat) {
    LookupByOwner(r, owner).Some? && !LookupByOwner(r, owner).value.IsExpiredAt(now)
  }

  predicate IsTaken(r: Registry, name: string, now: nat) {
    name in r.handles && !r.handles[name].IsExpiredAt(now)
  }

  predicate IsRateLimited(r: Registry, owner: IdentityKey, now: nat) {
    owner in r.lastRegistration && now < r.lastRegistration[owner] + HANDLE_REGISTRATION_COOLDOWN_SECS
  }

  predicate IsCoolingDown(r: Registry, name: string, now: nat) {
    name in r.cooldowns && now < r.cooldowns[name]
  }

  /** The evictions on the way do not matter: success is decided by the registry before the call. */
  lemma RegisterSucceedsExactly(r: Registry, name: string, owner: IdentityKey, bits: nat, signs: bool, now: nat)
    ensures Register(r, name, owner, bits, signs, now).1.Ok? <==>
            && ValidFormat(name) && signs
            && !HasLiveHandle(r, owner, now) && !IsRateLimited(r, owner, now)
            && !IsTaken(r, name, now) && !IsCoolingDown(r, name, now)
  {
    hide FormatProblem, ValidFormat;
    FormatProblemExact(name);
  }

  // The same over runs --------------------------------------------------------------

  /** The identity registered a handle less than 24 hours before `now`. */
  ghost predicate RegisteredRecently(ops: seq<Op>, owner: IdentityKey, now: nat) {
    exists i | 0 <= i < |Registered(ops)| ::
      Registered(ops)[i].owner == owner && now < Registered(ops)[i].registeredAt + 86_400
  }

  /** The name was released less than 24 hours before `now`. */
  ghost predicate ReleasedRecently(ops: seq<Op>, name: string, now: nat) {
    exists i | 0 <= i < |Released(ops)| ::
      Released(ops)[i].0 == name && now < Released(ops)[i].1 + 86_400
  }

  /** The rate limiter holds the time of one of the owner's registrations. */
  lemma {:induction false} LimiterIsHistory(ops: seq<Op>, owner: IdentityKey)
    requires owner in Run(ops).lastRegistration
    ensures exists i | 0 <= i < |Registered(ops)| ::
              Registered(ops)[i].owner == owner && Registered(ops)[i].registeredAt == Run(ops).lastRegistration[owner]
    decreases |ops|
  {
    hide Apply, Register;
    var before, op := ops[..|ops| - 1], ops[|ops| - 1];
    LastRegistrationMoves(Run(before), op);
    if Registered(ops) != Registered(before) && op.owner == owner {
      assert Registered(ops)[|Registered(before)|] == NewHandle(op.name, op.owner, op.bits, op.now);
    } else {
      LimiterIsHistory(before, owner);
      var i :| 0 <= i < |Registered(before)| && Registered(before)[i].owner == owner
               && Registered(before)[i].registeredAt == Run(before).lastRegistration[owner];
      assert Registered(ops)[i] == Registered(before)[i];
    }
  }

  lemma RateLimitIsHistory(ops: seq<Op>, owner: IdentityKey, now: nat)
    ensures IsRateLimited(Run(ops), owner, now) <==> RegisteredRecently(ops, owner, now)
  {
    hide Run, Registered;
    RegistrationsAreSpaced(ops);
    if owner in Run(ops).lastRegistration {
      LimiterIsHistory(ops, owner);
    }
  }

  /** A cooldown is started by a release and never prolonged. */
  lemma CooldownMoves(r: Registry, op: Op, name: string)
    requires name in Apply(r, op).cooldowns
    ensures || (name in r.cooldowns && r.cooldowns[name] == Apply(r, op).cooldowns[name])
            || (op.ReleaseOp? && op.name == name && Release(r, op.name, op.owner, op.now).1.Ok?
                && Apply(r, op).cooldowns[name] == op.now + HANDLE_RELEASE_COOLDOWN_SECS)
  {
    hide Register;
    if op.RegisterOp? {
      RegisterStartsNoCooldown(r, op, name);
    }
  }

  lemma RegisterStartsNoCooldown(r: Registry, op: Op, name: string)
    requires op.RegisterOp? && name in Apply(r, op).cooldowns
    ensures name in r.cooldowns && r.cooldowns[name] == Apply(r, op).cooldowns[name]
  {
    hide FormatProblem;
  }

  lemma {:induction false} CooldownIsHistory(ops: seq<Op>, name: string)
    requires name in Run(ops).cooldowns
    ensures exists i | 0 <= i < |Released(ops)| ::
              Released(ops)[i].0 == name && Released(ops)[i].1 + HANDLE_RELEASE_COOLDOWN_SECS == Run(ops).cooldowns[name]
    decreases |ops|
  {
    hide Apply, Release;
    var before, op := ops[..|ops| - 1], ops[|ops| - 1];
    CooldownMoves(Run(before), op, name);
    if name in Run(before).cooldowns && Run(before).cooldowns[name] == Run(ops).cooldowns[name] {
      CooldownIsHistory(before, name);
      var i :| 0 <= i < |Released(before)| && Released(before)[i].0 == name
               && Released(before)[i].1 + HANDLE_RELEASE_COOLDOWN_SECS == Run(before).cooldowns[name];
      assert Released(ops)[i] == Released(before)[i];
    } else {
      assert Released(ops)[|Released(before)|] == (name, op.now);
    }
  }

  lemma CoolingDownIsHistory(ops: seq<Op>, name: string, now: nat)
    requires NonDecreasing(ops) && forall i | 0 <= i < |ops| :: ops[i].now <= now
    ensures IsCoolingDown(Run(ops), name, now) <==> ReleasedRecently(ops, name, now)
  {
    hide Run, Released;
    ReleasesStayGuarded(ops, now);
    if name in Run(ops).cooldowns {
      CooldownIsHistory(ops, name);
    }
  }

  /**
    In every run with a clock that does not go back, a registration succeeds
    exactly when the name is well formed and free, signing works, the identity
    has no live handle, and there was no registration by the identity and no
    release of the name in the last 24 hours.
   */
  lemma RegistrationRule(ops: seq<Op>, op: Op)
    requires op.RegisterOp? && NonDecreasing(ops + [op])
    ensures Register(Run(ops), op.name, op.owner, op.bits, op.signs, op.now).1.Ok? <==>
            && ValidFormat(op.name) && op.signs
            && !HasLiveHandle(Run(ops), op.owner, op.now) && !IsTaken(Run(ops), op.name, op.now)
            && !RegisteredRecently(ops, op.owner, op.now) && !ReleasedRecently(ops, op.name, op.now)
  {
    hide Run, Register, ValidFormat, RegisteredRecently, ReleasedRecently, HasLiveHandle, IsTaken;
    var all := ops + [op];
    assert forall k | 0 <= k < |ops| :: all[k] == ops[k];
    assert all[|ops|] == op;
    RateLimitIsHistory(ops, op.owner, op.now);
    CoolingDownIsHistory(ops, op.name, op.now);
    RegisterSucceedsExactly(Run(ops), op.name, op.owner, op.bits, op.signs, op.now);
  }

  // What survives ------------------------------------------------------------------------

  /** Whatever its outcome, a registration removes and changes no record that is still live. */
  lemma RegisterKeepsLive(r: Registry, name: string, owner: IdentityKey, bits: nat, signs: bool, now: nat, other: string)
    requires IsTaken(r, other, now)
    ensures var r' := Register(r, name, owner, bits, signs, now).0;
            other in r'.handles && r'.handles[other] == r.handles[other]
  {
    hide FormatProblem;
  }

  /** A successful registration is what both lookups find. */
  lemma RegisteredIsFound(r: Registry, name: string, owner: IdentityKey, bits: nat, signs: bool, now: nat)
    requires Register(r, name, owner, bits, signs, now).1.Ok?
    ensures var (r', h) := Register(r, name, owner, bits, signs, now);
            && LookupByOwner(r', owner) == Some(h.value) && name in r'.handles && r'.handles[name] == h.value
            && h.value.owner == owner && h.value.name == name && !h.value.IsExpiredAt(now)
            && name !in r'.cooldowns && r'.lastRegistration == r.lastRegistration[owner := now]
  {
    hide FormatProblem;
  }

  /**
    Collection keeps an identity's live handle findable exactly when none of its
    other names has expired.
   */
  lemma CollectKeepsLookup(r: Registry, owner: IdentityKey, now: nat)
    requires ReverseOk(r) && HasLiveHandle(r, owner, now)
    ensures LookupByOwner(Collect(r, now), owner) == LookupByOwner(r, owner) || LookupByOwner(Collect(r, now), owner) == None
    ensures LookupByOwner(Collect(r, now), owner) == LookupByOwner(r, owner)
            <==> forall n | n in r.handles && r.handles[n].owner == owner :: !r.handles[n].IsExpiredAt(now)
  {
    var r' := Collect(r, now);
    if n :| n in r.handles && r.handles[n].owner == owner && r.handles[n].IsExpiredAt(now) {
      assert n in ExpiredNames(r, now) && owner in OwnersOf(r, ExpiredNames(r, now));
      assert owner !in r'.ownerToHandle;
    } else {
      assert owner !in OwnersOf(r, ExpiredNames(r, now));
    }
  }

  /** With one handle per identity, collection changes no live lookup and clears all expired ones. */
  lemma CollectIsExact(r: Registry, owner: IdentityKey, now: nat)
    requires Inverse(r)
    ensures LookupByOwner(Collect(r, now), owner) == if HasLiveHandle(r, owner, now) then LookupByOwner(r, owner) else None
  {
    if HasLiveHandle(r, owner, now) {
      CollectKeepsLookup(r, owner, now);
    } else if owner in r.ownerToHandle {
      assert r.ownerToHandle[owner] in ExpiredNames(r, now);
    }
  }

  /** So collection can hide a live handle from its owner's lookup. */
  lemma CollectCanHideLiveHandle(owner: IdentityKey)
    ensures exists ops, now ::
              OnlyValidated(ops) && HasLiveHandle(Run(ops), owner, now) && LookupByOwner(Apply(Run(ops), CollectOp(now)), owner).None?
  {
    hide Register, Collect, ReverseOk, Run, FormatProblem, RequiredBits;
    NamesAreValid();
    var a, b := NewHandle("alice", owner, 11, 0), NewHandle("bobby", owner, 11, 100);
    assert a.name[0] != b.name[0];
    var ops := [InsertOp(a, 200), InsertOp(b, 200)];
    assert OnlyValidated(ops);
    TwoRecords(a, b, 200);
    RunsKeepReverseOk(ops);
    var r := Run(ops);
    assert HasLiveHandle(r, owner, HANDLE_TTL_SECS);
    CollectKeepsLookup(r, owner, HANDLE_TTL_SECS);
    assert a.name in r.handles && r.handles[a.name].owner == owner && r.handles[a.name].IsExpiredAt(HANDLE_TTL_SECS);
    assert LookupByOwner(Apply(r, CollectOp(HANDLE_TTL_SECS)), owner).None?;
  }

  /** Where the original record is held, its renewal is rejected exactly while the original is live and not from the future. */
  lemma RenewalLosesToOriginal(r: Registry, name: string, owner: IdentityKey, signs: bool, now: nat, later: nat)
    requires ReverseOk(r) && Renew(r, name, owner, signs, now).1.Ok?
    ensures var renewed := Renew(r, name, owner, signs, now).0.handles[name];
            && renewed.name == name && renewed.owner == owner && renewed.expiresAt == now + 7_776_000
            && (InsertValidated(r, renewed, later).1 == Rejected
                <==> !r.handles[name].IsExpiredAt(later) && r.handles[name].registeredAt <= now)
  {
    if LexLess(owner, owner) {
      LexAsymmetric(owner, owner);
    }
  }
}
