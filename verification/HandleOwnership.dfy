/** Who can change a handle record, and where records come from. */
module HandleOwnership {
  import opened Wrappers
  import opened ByteOrder
  import opened HandleFormat
  import opened HandleRegistry
  import opened HandleRuns
  import opened HandleLife

  // Release and renewal ----------------------------------------------------------------

  /** Exactly the owner can release a name; then the name is gone and nothing else changed. */
  lemma ReleaseExactly(r: Registry, name: string, owner: IdentityKey, now: nat)
    ensures var (r', result) := Release(r, name, owner, now);
            && (result.Ok? <==> name in r.handles && r.handles[name].owner == owner)
            && (result.Err? ==> result.error == NotOwner(name) && r' == r)
            && (result.Ok? ==>
                  && r'.handles == r.handles - {name} && r'.ownerToHandle == r.ownerToHandle - {owner}
                  && r'.lastRegistration == r.lastRegistration
                  && name in r'.cooldowns && r'.cooldowns[name] == now + 86_400
                  && r'.cooldowns - {name} == r.cooldowns - {name})
  {}

  /** Exactly the owner can renew a live record; then only its times, work and signature change. */
  lemma RenewExactly(r: Registry, name: string, owner: IdentityKey, signs: bool, now: nat)
    ensures var (r', result) := Renew(r, name, owner, signs, now);
            && (result.Ok? <==> signs && name in r.handles && r.handles[name].owner == owner && now < r.handles[name].expiresAt)
            && (result.Err? ==> r' == r)
            && (result.Ok? ==>
                  && r'.handles.Keys == r.handles.Keys && r'.handles - {name} == r.handles - {name}
                  && r'.handles[name].name == r.handles[name].name && r'.handles[name].owner == owner
                  && r'.handles[name].registeredAt == now && r'.handles[name].expiresAt == now + 7_776_000
                  && r'.handles[name].powProof == PowStamp(Claim(name, owner, now), 5)
                  && r'.handles[name].signature == Claim(name, owner, now)
                  && r'.(handles := r.handles) == r)
  {
    assert Renew(r, name, owner, signs, now).1.Ok? ==>
      Renew(r, name, owner, signs, now).0.handles - {name} == r.handles - {name};
  }

  /** Which error a failing renewal gives. */
  lemma RenewErrors(r: Registry, name: string, owner: IdentityKey, signs: bool, now: nat)
    ensures var result := Renew(r, name, owner, signs, now).1;
            && (result == Err(NotOwner(name)) <==> name in r.handles && r.handles[name].owner != owner)
            && (result == Err(Expired(name)) <==>
                  name !in r.handles || (r.handles[name].owner == owner && r.handles[name].expiresAt <= now))
            && (result == Err(InvalidSignature) <==>
                  !signs && name in r.handles && r.handles[name].owner == owner && now < r.handles[name].expiresAt)
  {}

  // What can happen to a live record ------------------------------------------------------

  /** Earlier, or equally early with lower owner bytes. */
  predicate ComesBefore(h: Handle, h': Handle) {
    h.registeredAt < h'.registeredAt || (h.registeredAt == h'.registeredAt && LexLess(h.owner, h'.owner))
  }

  /** A live record is only renewed or released by its owner, or replaced by a network record that comes before it. */
  lemma LiveRecordFate(r: Registry, op: Op, name: string)
    requires name in r.handles && op.now < r.handles[name].expiresAt
    ensures var r', h := Apply(r, op), r.handles[name];
            || (name in r'.handles && r'.handles[name] == h)
            || (op.RenewOp? && op.name == name && op.owner == h.owner && name in r'.handles && r'.handles[name].owner == h.owner)
            || (op.ReleaseOp? && op.name == name && op.owner == h.owner && name !in r'.handles)
            || (op.InsertOp? && op.handle.name == name && ComesBefore(op.handle, h) && name in r'.handles && r'.handles[name] == op.handle)
  {
    hide Register;
    if op.RegisterOp? {
      RegisterKeepsLive(r, op.name, op.owner, op.bits, op.signs, op.now, name);
    }
  }

  predicate HeldBy(r: Registry, name: string, owner: IdentityKey) {
    name in r.handles && r.handles[name].owner == owner
  }

  /** The owner releases the name, its record has expired, or a network record of another owner comes before it. */
  predicate EndsHolding(r: Registry, op: Op, name: string, owner: IdentityKey)
    requires HeldBy(r, name, owner)
  {
    || (op.ReleaseOp? && op.name == name && op.owner == owner)
    || r.handles[name].expiresAt <= op.now
    || (op.InsertOp? && op.handle.name == name && op.handle.owner != owner && ComesBefore(op.handle, r.handles[name]))
  }

  /** Until one of those happens, an owner keeps its name over every run. */
  lemma {:induction false} OwnershipLasts(ops: seq<Op>, i: nat, j: nat, name: string, owner: IdentityKey)
    requires i <= j <= |ops| && HeldBy(Run(ops[..i]), name, owner)
    requires forall k | i <= k < j && HeldBy(Run(ops[..k]), name, owner) :: !EndsHolding(Run(ops[..k]), ops[k], name, owner)
    ensures HeldBy(Run(ops[..j]), name, owner)
    decreases j
  {
    hide Apply;
    if i < j {
      OwnershipLasts(ops, i, j - 1, name, owner);
      assert ops[..j][..j - 1] == ops[..j - 1];
      assert Run(ops[..j]) == Apply(Run(ops[..j - 1]), ops[j - 1]);
      LiveRecordFate(Run(ops[..j - 1]), ops[j - 1], name);
    }
  }

  // Where records come from -------------------------------------------------------------------

  /** The operation registers the name for the owner, or takes in such a record from the network. */
  predicate Brings(op: Op, name: string, owner: IdentityKey) {
    || (op.RegisterOp? && op.name == name && op.owner == owner && op.signs)
    || (op.InsertOp? && op.handle.name == name && op.handle.owner == owner)
  }

  lemma NewHolderIsBrought(r: Registry, op: Op, name: string, owner: IdentityKey)
    requires HeldBy(Apply(r, op), name, owner)
    ensures HeldBy(r, name, owner) || Brings(op, name, owner)
  {
    hide Register;
    if op.RegisterOp? { RegisterBringsOwn(r, op, name, owner); }
  }

  lemma RegisterBringsOwn(r: Registry, op: Op, name: string, owner: IdentityKey)
    requires op.RegisterOp? && HeldBy(Apply(r, op), name, owner)
    ensures HeldBy(r, name, owner) || Brings(op, name, owner)
  {
    hide FormatProblem;
  }

  /** In every run whoever holds a name registered it, signing for it, or came with a network record. */
  lemma {:induction false} HoldersWereBrought(ops: seq<Op>, name: string, owner: IdentityKey)
    requires HeldBy(Run(ops), name, owner)
    ensures exists k | 0 <= k < |ops| :: Brings(ops[k], name, owner)
    decreases |ops|
  {
    hide Apply;
    var shorter, op := ops[..|ops| - 1], ops[|ops| - 1];
    NewHolderIsBrought(Run(shorter), op, name, owner);
    if !Brings(op, name, owner) {
      HoldersWereBrought(shorter, name, owner);
      var k :| 0 <= k < |shorter| && Brings(shorter[k], name, owner);
      assert Brings(ops[k], name, owner);
    }
  }
}
