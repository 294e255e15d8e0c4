/** What every run of registry operations keeps, including registrations that fail halfway. */
module HandleRuns {
  import opened Wrappers
  import opened ByteOrder
  import opened HandleFormat
  import opened HandleRegistry

  datatype Op =
    | RegisterOp(name: string, owner: IdentityKey, bits: nat, signs: bool, now: nat)
    | RenewOp(name: string, owner: IdentityKey, signs: bool, now: nat)
    | ReleaseOp(name: string, owner: IdentityKey, now: nat)
    | InsertOp(handle: Handle, now: nat)
    | CollectOp(now: nat)

  function Apply(r: Registry, op: Op): Registry {
    match op
    case RegisterOp(name, owner, bits, signs, now) => Register(r, name, owner, bits, signs, now).0
    case RenewOp(name, owner, signs, now) => Renew(r, name, owner, signs, now).0
    case ReleaseOp(name, owner, now) => Release(r, name, owner, now).0
    case InsertOp(handle, now) => InsertValidated(r, handle, now).0
    case CollectOp(now) => Collect(r, now)
  }

  function Run(ops: seq<Op>): Registry {
    if ops == [] then EMPTY_REGISTRY else Apply(Run(ops[..|ops| - 1]), ops[|ops| - 1])
  }

  // One owner per name, and the name is that owner's ---------------------------------

  /** Records sit under their own name, and every reverse entry points at a record of its owner. */
  ghost predicate ReverseMaps(handles: map<string, Handle>, owners: map<IdentityKey, string>) {
    && (forall n | n in handles :: handles[n].name == n)
    && (forall o | o in owners :: owners[o] in handles && handles[owners[o]].owner == o)
  }

  ghost predicate ReverseOk(r: Registry) {
    ReverseMaps(r.handles, r.ownerToHandle)
  }

  lemma ForgetKeepsReverseOk(r: Registry, name: string)
    requires ReverseOk(r) && name in r.handles
    ensures ReverseOk(Forget(r, name, r.handles[name].owner))
  {}

  lemma RegisterKeepsReverseOk(r: Registry, op: Op)
    requires ReverseOk(r) && op.RegisterOp?
    ensures ReverseOk(Apply(r, op))
  {
    hide FormatProblem, ReverseMaps;
    var holds := op.owner in r.ownerToHandle && r.ownerToHandle[op.owner] in r.handles;
    var r1 := if holds then Forget(r, r.ownerToHandle[op.owner], op.owner) else r;
    EntriesPointAtRecords(r, op.owner);
    if holds {
      ForgetKeepsReverseOk(r, r.ownerToHandle[op.owner]);
    }
    if op.name in r1.handles {
      ForgetKeepsReverseOk(r1, op.name);
    }
    var r2 := if op.name in r1.handles then Forget(r1, op.name, r1.handles[op.name].owner) else r1;
    AddKeepsReverseOk(r2, NewHandle(op.name, op.owner, op.bits, op.now));
  }

  lemma EntriesPointAtRecords(r: Registry, owner: IdentityKey)
    requires ReverseOk(r)
    ensures owner in r.ownerToHandle ==>
              r.ownerToHandle[owner] in r.handles && r.handles[r.ownerToHandle[owner]].owner == owner
  {}

  lemma AddKeepsReverseOk(r: Registry, h: Handle)
    requires ReverseOk(r) && h.name !in r.handles
    ensures ReverseMaps(r.handles[h.name := h], r.ownerToHandle[h.owner := h.name])
  {}

  lemma CollectKeepsReverseOk(r: Registry, now: nat)
    requires ReverseOk(r)
    ensures ReverseOk(Collect(r, now))
  {}

  lemma InsertKeepsReverseOk(r: Registry, h: Handle, now: nat)
    requires ReverseOk(r)
    ensures ReverseOk(InsertValidated(r, h, now).0)
  {}

  lemma ApplyKeepsReverseOk(r: Registry, op: Op)
    requires ReverseOk(r)
    ensures ReverseOk(Apply(r, op))
  {
    hide Register, Collect, InsertValidated;
    match op {
      case RegisterOp(_, _, _, _, _) => RegisterKeepsReverseOk(r, op);
      case CollectOp(now) => CollectKeepsReverseOk(r, now);
      case InsertOp(h, now) => InsertKeepsReverseOk(r, h, now);
      case RenewOp(_, _, _, _) =>
      case ReleaseOp(_, _, _) =>
    }
  }

  lemma {:induction false} RunsKeepReverseOk(ops: seq<Op>)
    ensures ReverseOk(Run(ops))
    decreases |ops|
  {
    hide ReverseOk, Apply;
    if ops == [] {
      EmptyIsOk();
    } else {
      RunsKeepReverseOk(ops[..|ops| - 1]);
      ApplyKeepsReverseOk(Run(ops[..|ops| - 1]), ops[|ops| - 1]);
    }
  }

  lemma EmptyIsOk()
    ensures ReverseOk(EMPTY_REGISTRY) && Inverse(EMPTY_REGISTRY)
  {}

  /**
    In every run a reverse lookup only ever returns a handle of the owner it was
    asked about, and no two owners map to one name.
   */
  lemma ReverseLookupIsSound(ops: seq<Op>, o: IdentityKey, o': IdentityKey)
    ensures var r := Run(ops);
            && (LookupByOwner(r, o).Some? <==> o in r.ownerToHandle)
            && (LookupByOwner(r, o).Some? ==> LookupByOwner(r, o).value.owner == o)
            && (o in r.ownerToHandle && o' in r.ownerToHandle && r.ownerToHandle[o] == r.ownerToHandle[o'] ==> o == o')
  {
    RunsKeepReverseOk(ops);
  }

  // One handle per identity -------------------------------------------------------------

  /** The two maps are exact inverses. */
  ghost predicate InverseMaps(handles: map<string, Handle>, owners: map<IdentityKey, string>) {
    && ReverseMaps(handles, owners)
    && forall n | n in handles :: handles[n].owner in owners && owners[handles[n].owner] == n
  }

  ghost predicate Inverse(r: Registry) {
    InverseMaps(r.handles, r.ownerToHandle)
  }

  /** The record's owner holds no other name. */
  predicate HoldsNoOther(r: Registry, h: Handle) {
    h.owner in r.ownerToHandle ==> r.ownerToHandle[h.owner] == h.name
  }

  /** A live record holds the name and comes no later than `h`. */
  predicate HeldAgainst(r: Registry, h: Handle, now: nat) {
    && h.name in r.handles && !r.handles[h.name].IsExpiredAt(now)
    && var held := r.handles[h.name];
       h.registeredAt > held.registeredAt || (h.registeredAt == held.registeredAt && !LexLess(h.owner, held.owner))
  }

  /**
    A network record keeps the maps inverse exactly when its name is held against
    it or its owner holds no other name.
   */
  lemma InsertKeepsInverse(r: Registry, h: Handle, now: nat)
    requires Inverse(r)
    ensures Inverse(InsertValidated(r, h, now).0) <==> HeldAgainst(r, h, now) || HoldsNoOther(r, h)
  {
    var r' := InsertValidated(r, h, now).0;
    if !HeldAgainst(r, h, now) && !HoldsNoOther(r, h) {
      var other := r.ownerToHandle[h.owner];
      assert other in r'.handles && r'.handles[other].owner == h.owner;
    }
  }

  /** Every network record is held against or comes from an owner holding no other name. */
  ghost predicate Disciplined(ops: seq<Op>) {
    forall i | 0 <= i < |ops| :: Careful(Run(ops[..i]), ops[i])
  }

  predicate Careful(r: Registry, op: Op) {
    op.InsertOp? ==> HeldAgainst(r, op.handle, op.now) || HoldsNoOther(r, op.handle)
  }

  ghost predicate InverseThroughout(ops: seq<Op>) {
    forall i | 0 <= i <= |ops| :: Inverse(Run(ops[..i]))
  }

  lemma ForgetKeepsInverse(r: Registry, name: string)
    requires Inverse(r) && name in r.handles
    ensures Inverse(Forget(r, name, r.handles[name].owner))
  {}

  lemma RegisterKeepsInverse(r: Registry, op: Op)
    requires Inverse(r) && op.RegisterOp?
    ensures Inverse(Apply(r, op))
  {
    hide FormatProblem, InverseMaps;
    var holds := op.owner in r.ownerToHandle && r.ownerToHandle[op.owner] in r.handles;
    InverseIsReverseOk(r);
    EntriesPointAtRecords(r, op.owner);
    var r1 := if holds then Forget(r, r.ownerToHandle[op.owner], op.owner) else r;
    if holds {
      ForgetKeepsInverse(r, r.ownerToHandle[op.owner]);
    }
    if op.name in r1.handles {
      ForgetKeepsInverse(r1, op.name);
    }
    var r2 := if op.name in r1.handles then Forget(r1, op.name, r1.handles[op.name].owner) else r1;
    AddKeepsInverse(r2, NewHandle(op.name, op.owner, op.bits, op.now));
  }

  lemma InverseIsReverseOk(r: Registry)
    requires Inverse(r)
    ensures ReverseOk(r)
  {}

  lemma AddKeepsInverse(r: Registry, h: Handle)
    requires Inverse(r) && h.name !in r.handles && h.owner !in r.ownerToHandle
    ensures InverseMaps(r.handles[h.name := h], r.ownerToHandle[h.owner := h.name])
  {}

  lemma CollectKeepsInverse(r: Registry, now: nat)
    requires Inverse(r)
    ensures Inverse(Collect(r, now))
  {}

  lemma LocalOpKeepsInverse(r: Registry, op: Op)
    requires Inverse(r) && !op.InsertOp?
    ensures Inverse(Apply(r, op))
  {
    hide Register, Collect;
    match op {
      case RegisterOp(_, _, _, _, _) => RegisterKeepsInverse(r, op);
      case CollectOp(now) => CollectKeepsInverse(r, now);
      case RenewOp(_, _, _, _) =>
      case ReleaseOp(name, _, _) =>
        if name in r.handles {
          ForgetKeepsInverse(r, name);
        }
    }
  }

  /** Every identity has at most one handle and finds it throughout a run exactly under that discipline. */
  lemma {:induction false} OneHandlePerIdentity(ops: seq<Op>)
    ensures InverseThroughout(ops) <==> Disciplined(ops)
    decreases |ops|
  {
    hide Inverse, Careful, Apply;
    if ops == [] {
      EmptyIsOk();
    } else {
      var shorter, op := ops[..|ops| - 1], ops[|ops| - 1];
      assert forall i | 0 <= i <= |shorter| :: shorter[..i] == ops[..i];
      assert ops[..|ops|] == ops && ops[..|shorter|] == shorter;
      OneHandlePerIdentity(shorter);
      if InverseThroughout(shorter) {
        assert Inverse(Run(shorter[..|shorter|]));
        OpKeepsInverse(Run(shorter), op);
      }
      SplitLast(ops);
    }
  }

  lemma OpKeepsInverse(r: Registry, op: Op)
    requires Inverse(r)
    ensures Inverse(Apply(r, op)) <==> Careful(r, op)
  {
    hide Inverse, HeldAgainst, HoldsNoOther;
    if op.InsertOp? {
      InsertKeepsInverse(r, op.handle, op.now);
    } else {
      LocalOpKeepsInverse(r, op);
    }
  }

  /** Both conditions, split into the last operation and the others. */
  lemma SplitLast(ops: seq<Op>)
    requires ops != []
    ensures var shorter, op := ops[..|ops| - 1], ops[|ops| - 1];
            && (InverseThroughout(ops) <==> InverseThroughout(shorter) && Inverse(Run(ops)))
            && (Disciplined(ops) <==> Disciplined(shorter) && Careful(Run(shorter), op))
  {
    hide Inverse, Careful, Run;
    var n := |ops| - 1;
    var shorter := ops[..n];
    assert ops[..n + 1] == ops;
    assert forall i | 0 <= i <= n :: shorter[..i] == ops[..i];
    if InverseThroughout(ops) {
      forall i | 0 <= i <= n ensures Inverse(Run(shorter[..i])) { assert Inverse(Run(ops[..i])); }
    }
    if InverseThroughout(shorter) && Inverse(Run(ops)) {
      forall i | 0 <= i <= |ops| ensures Inverse(Run(ops[..i])) {
        if i <= n { assert Inverse(Run(shorter[..i])); }
      }
    }
    if Disciplined(ops) {
      assert Careful(Run(ops[..n]), ops[n]);
    }
  }

  /** Every network record in the run validates when it is inserted. */
  ghost predicate OnlyValidated(ops: seq<Op>) {
    forall i | 0 <= i < |ops| && ops[i].InsertOp? :: Validate(ops[i].handle, ops[i].now).Ok?
  }

  /** Without the discipline any identity can end up with two names, from validated records alone. */
  lemma TwoNamesForOneOwner(owner: IdentityKey)
    ensures exists ops, a, b :: OnlyValidated(ops) && HoldsBoth(Run(ops), owner, a, b)
  {
    var x, y := NewHandle("alice", owner, 11, 0), NewHandle("bobby", owner, 11, 0);
    var ops := [InsertOp(x, 1), InsertOp(y, 1)];
    assert "alice"[0] != "bobby"[0];
    NamesAreValid();
    TwoRecords(x, y, 1);
    assert OnlyValidated(ops) && HoldsBoth(Run(ops), owner, x.name, y.name);
  }

  predicate HoldsBoth(r: Registry, owner: IdentityKey, a: string, b: string) {
    a != b && a in r.handles && r.handles[a].owner == owner && b in r.handles && r.handles[b].owner == owner
  }

  lemma NamesAreValid()
    ensures FormatProblem("alice").None? && FormatProblem("bobby").None?
    ensures RequiredBits("alice") == 11 && RequiredBits("bobby") == 11
  {
    hide FormatProblem, Utf8Len;
    FormatProblemExact("alice");
    FormatProblemExact("bobby");
    AllowedIsAscii("alice");
    AllowedIsAscii("bobby");
  }

  /** Two records of one owner, as they may arrive from the network. */
  lemma TwoRecords(a: Handle, b: Handle, now: nat)
    requires a.name != b.name && a.owner == b.owner
    ensures var r := Run([InsertOp(a, now), InsertOp(b, now)]);
            r.handles == map[a.name := a, b.name := b] && r.ownerToHandle == map[a.owner := b.name]
  {
    var ops := [InsertOp(a, now), InsertOp(b, now)];
    assert ops[..1][..0] == [];
    assert Run(ops[..1]) == Apply(EMPTY_REGISTRY, ops[0]);
  }

  // Rate limit and cooldown --------------------------------------------------------------

  /** The handles registered locally and the names released, in order, with their times. */
  function Registered(ops: seq<Op>): seq<Handle> {
    if ops == [] then []
    else
      var before, op := ops[..|ops| - 1], ops[|ops| - 1];
      if op.RegisterOp? then
        var result := Register(Run(before), op.name, op.owner, op.bits, op.signs, op.now).1;
        if result.Ok? then Registered(before) + [result.value] else Registered(before)
      else Registered(before)
  }

  function Released(ops: seq<Op>): seq<(string, nat)> {
    if ops == [] then []
    else
      var before, op := ops[..|ops| - 1], ops[|ops| - 1];
      if op.ReleaseOp? && Release(Run(before), op.name, op.owner, op.now).1.Ok?
      then Released(before) + [(op.name, op.now)]
      else Released(before)
  }

  ghost predicate LastKnown(registered: seq<Handle>, r: Registry) {
    forall i | 0 <= i < |registered| ::
      registered[i].owner in r.lastRegistration && registered[i].registeredAt <= r.lastRegistration[registered[i].owner]
  }

  ghost predicate SpacedOut(registered: seq<Handle>) {
    forall i, j | 0 <= i < j < |registered| && registered[i].owner == registered[j].owner ::
      registered[i].registeredAt + 86_400 <= registered[j].registeredAt
  }

  /** A registration that succeeds moves the rate limiter on by 24 hours or more; one that fails leaves it. */
  lemma RegisterMovesLimiter(r: Registry, name: string, owner: IdentityKey, bits: nat, signs: bool, now: nat)
    ensures var (r', result) := Register(r, name, owner, bits, signs, now);
            if result.Ok? then
              && result.value == NewHandle(name, owner, bits, now)
              && r'.lastRegistration == r.lastRegistration[owner := now]
              && (owner in r.lastRegistration ==> r.lastRegistration[owner] + HANDLE_REGISTRATION_COOLDOWN_SECS <= now)
            else
              r'.lastRegistration == r.lastRegistration
  {
    hide FormatProblem, NewHandle;
  }

  /** Nothing else touches it. */
  lemma LastRegistrationMoves(r: Registry, op: Op)
    ensures var r' := Apply(r, op);
            if op.RegisterOp? && Register(r, op.name, op.owner, op.bits, op.signs, op.now).1.Ok? then
              && Register(r, op.name, op.owner, op.bits, op.signs, op.now).1.value == NewHandle(op.name, op.owner, op.bits, op.now)
              && r'.lastRegistration == r.lastRegistration[op.owner := op.now]
              && (op.owner in r.lastRegistration ==>
                    r.lastRegistration[op.owner] + HANDLE_REGISTRATION_COOLDOWN_SECS <= op.now)
            else
              r'.lastRegistration == r.lastRegistration
  {
    hide Register, NewHandle;
    if op.RegisterOp? {
      RegisterMovesLimiter(r, op.name, op.owner, op.bits, op.signs, op.now);
    }
  }

  /** Whatever the clock does, one identity's registrations are at least 24 hours apart. */
  lemma {:induction false} RegistrationsAreSpaced(ops: seq<Op>)
    ensures SpacedOut(Registered(ops)) && LastKnown(Registered(ops), Run(ops))
    decreases |ops|
  {
    hide Apply, Register;
    if ops != [] {
      var before, op := ops[..|ops| - 1], ops[|ops| - 1];
      RegistrationsAreSpaced(before);
      LastRegistrationMoves(Run(before), op);
    }
  }

  ghost predicate NonDecreasing(ops: seq<Op>) {
    forall i, j | 0 <= i < j < |ops| :: ops[i].now <= ops[j].now
  }

  /** At time `clock`, a release is over or still guarded by a cooldown that is long enough. */
  predicate Guarded(release: (string, nat), r: Registry, clock: nat) {
    || release.1 + HANDLE_RELEASE_COOLDOWN_SECS <= clock
    || (release.0 in r.cooldowns && release.1 + HANDLE_RELEASE_COOLDOWN_SECS <= r.cooldowns[release.0])
  }

  lemma ApplyKeepsGuard(r: Registry, op: Op, release: (string, nat), clock: nat)
    requires Guarded(release, r, clock) && clock <= op.now && release.1 <= op.now
    ensures Guarded(release, Apply(r, op), op.now)
  {
    hide FormatProblem;
  }

  lemma {:induction false} ReleasesStayGuarded(ops: seq<Op>, clock: nat)
    requires NonDecreasing(ops) && forall i | 0 <= i < |ops| :: ops[i].now <= clock
    ensures forall i | 0 <= i < |Released(ops)| :: Released(ops)[i].1 <= clock && Guarded(Released(ops)[i], Run(ops), clock)
    decreases |ops|
  {
    if ops != [] {
      var before, op := ops[..|ops| - 1], ops[|ops| - 1];
      ReleasesStayGuarded(before, op.now);
      var r := Run(before);
      forall i | 0 <= i < |Released(before)|
        ensures Guarded(Released(before)[i], Apply(r, op), op.now)
      {
        ApplyKeepsGuard(r, op, Released(before)[i], op.now);
      }
    }
  }

  /**
    With a clock that does not go back, no local registration of a released name
    succeeds within 24 hours of its release, whatever happens in between.
   */
  lemma ReleasedNamesCoolDown(ops: seq<Op>, op: Op, i: nat)
    requires op.RegisterOp? && NonDecreasing(ops + [op]) && i < |Released(ops)| && Released(ops)[i].0 == op.name
    requires Register(Run(ops), op.name, op.owner, op.bits, op.signs, op.now).1.Ok?
    ensures Released(ops)[i].1 + 86_400 <= op.now
  {
    var all := ops + [op];
    assert forall k | 0 <= k < |ops| :: all[k] == ops[k];
    assert all[|ops|] == op;
    ReleasesStayGuarded(ops, op.now);
  }

  // What travels -----------------------------------------------------------------------------

  /** A handle registered with its required work validates everywhere until it expires. */
  lemma RegisteredHandlesValidate(r: Registry, name: string, owner: IdentityKey, bits: nat, signs: bool, now: nat, later: nat)
    requires Register(r, name, owner, bits, signs, now).1.Ok?
    ensures Validate(Register(r, name, owner, bits, signs, now).1.value, later).Ok?
            <==> RequiredBits(name) <= bits && later < now + 7_776_000
  {}

  /** A renewed record carries too little work to validate anywhere, at any time. */
  lemma RenewedHandlesNeverValidate(r: Registry, name: string, owner: IdentityKey, signs: bool, now: nat, later: nat)
    requires Renew(r, name, owner, signs, now).1.Ok?
    ensures Validate(Renew(r, name, owner, signs, now).0.handles[name], later).Err?
  {}
}
