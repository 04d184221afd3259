/** What commands that fail leave behind. */
module Failures {
  import opened Basics
  import opened Hex
  import opened Blocks
  import opened Messages
  import opened Crypto
  import opened KeyLists
  import opened Ledger
  import opened Invariants
  import opened Replay

  /** No interface call behind hashing and signing a block fails. */
  predicate SealCallsSucceed(slot: Option<KeyPair>, h: HashCalls, s: SignCalls) {
    && h.allocate == Success && h.digest == Success
    && ((slot.Some? && s.load.open == Success)
        || (s.load.allocate == Success && s.load.generate == Success && s.load.create == Success))
    && s.allocate == Success && s.setKey == Success && s.sign == Success
  }

  lemma SealSucceedsIff(c: Crypto, slot: Option<KeyPair>, block: Block, h: HashCalls, s: SignCalls)
    ensures Seal(c, slot, block, h, s).result.Ok? <==> SealCallsSucceed(slot, h, s)
  {
  }

  lemma {:induction false} RemoveFirstLength(s: seq<KeyText>, key: KeyText)
    ensures |RemoveFirst(s, key)| == |s| - (if key in s then 1 else 0)
    ensures key !in s ==> RemoveFirst(s, key) == s
  {
    if s != [] {
      assert s == [s[0]] + s[1..];
      if s[0] != key {
        RemoveFirstLength(s[1..], key);
      }
    }
  }

  /** An administrator signed the request, and the signature could be checked. */
  predicate Accepted(c: Crypto, r: Repo, m: AccessMessage, o: AccessCalls) {
    m.sigkey in r.admins && UserCallsSucceed(o.verify) && AccessSigned(c, m)
  }

  /** The request asks for a change of the key lists that makes sense. */
  predicate Applicable(r: Repo, m: AccessMessage) {
    if m.op == OP_ADD && m.role == ROLE_ADMIN then m.pubkey !in r.admins
    else if m.op == OP_ADD && m.role == ROLE_WRITER then m.pubkey !in r.admins && m.pubkey !in r.writers
    else if m.op == OP_DELETE && m.role == ROLE_ADMIN then m.pubkey in r.admins
    else if m.op == OP_DELETE && m.role == ROLE_WRITER then m.pubkey in r.writers
    else false
  }

  /** When an attempt to change the lists succeeds, and when it changes anything. */
  lemma ChangeEffects(r: Repo, m: AccessMessage, o: AccessCalls)
    requires m.op == OP_ADD || m.op == OP_DELETE
    ensures var ch, room := AccessChange(r, m, o), o.node.node && o.node.key;
            && (ch.admins != r.admins || ch.writers != r.writers
                <==> Applicable(r, m) && (m.op == OP_ADD && !room ==> m.role == ROLE_ADMIN && m.pubkey in r.writers))
            && (ch.result == Success && (m.role == ROLE_ADMIN || m.role == ROLE_WRITER)
                <==> Applicable(r, m) && (m.op == OP_ADD ==> room))
            && (m.role != ROLE_ADMIN && m.role != ROLE_WRITER ==> ch == Change(r.admins, r.writers, Success))
  {
    RemoveFirstLength(r.admins, m.pubkey);
    RemoveFirstLength(r.writers, m.pubkey);
  }

  /** How an accepted request ends. */
  lemma AcceptedOutcome(c: Crypto, r: Repo, slot: Option<KeyPair>, m: AccessMessage, o: AccessCalls)
    requires Accepted(c, r, m, o)
    ensures var out, ch := AccessStep(c, r, slot, m, o), AccessChange(r, m, o);
            && out.repo.admins == ch.admins && out.repo.writers == ch.writers
            && (out.reply.Failed? <==> ch.result != Success || !SealCallsSucceed(slot, o.hash, o.sign))
  {
    SealSucceedsIff(c, slot, AccessBlock(r, m, o.time), o.hash, o.sign);
  }

  /**
   * A failing `access_control` changes the key lists in exactly two cases: the promotion of a writer
   * runs out of memory for the new node, or hashing or signing fails after an applicable change.
   */
  lemma LateFailureIff(c: Crypto, r: Repo, slot: Option<KeyPair>, m: AccessMessage, o: AccessCalls)
    requires m.op == OP_ADD || m.op == OP_DELETE
    ensures LateFailure(c, r, slot, m, o)
            <==> && Accepted(c, r, m, o)
                 && Applicable(r, m)
                 && if m.op == OP_ADD && !(o.node.node && o.node.key)
                    then m.role == ROLE_ADMIN && m.pubkey in r.writers
                    else !SealCallsSucceed(slot, o.hash, o.sign)
  {
    ChangeEffects(r, m, o);
    if Accepted(c, r, m, o) {
      AcceptedOutcome(c, r, slot, m, o);
    } else {
      assert AccessStep(c, r, slot, m, o).repo == r;
    }
  }

  /**
   * A run that gets there: a repository is founded, and its administrator validly asks for a new writer,
   * but the operation for hashing the block cannot be allocated. The command fails, the writer stays,
   * and the chain says nothing of it.
   */
  lemma LateFailureIsReachable(c: Crypto, slot: Option<KeyPair>, founder: KeyText, o: InitCalls, m: AccessMessage,
      a: AccessCalls)
    requires Step(c, Start(slot), InitRepo(founder, o)).1.Created?
    requires m.repId == 0 && m.op == OP_ADD && m.role == ROLE_WRITER && m.sigkey == founder && m.pubkey != founder
    requires AccessSigned(c, m) && UserCallsSucceed(a.verify)
    requires a.node.node && a.node.key && a.hash.allocate != Success
    ensures |Run(c, Start(slot), [InitRepo(founder, o)] + [AccessControl(m, a)]).repos| == 1
    ensures var cmds := [InitRepo(founder, o)] + [AccessControl(m, a)];
            var r := Run(c, Start(slot), cmds).repos[0];
            && Replies(c, Start(slot), cmds)[1] == Failed(a.hash.allocate)
            && r.writers == [m.pubkey]
            && Replayed(c, 0, r.chain) == Some(Authority([founder], []))
            && !AgreesThroughout(c, slot, cmds)
  {
    var first, second := InitRepo(founder, o), AccessControl(m, a);
    var s1 := Step(c, Start(slot), first).0;
    FirstSteps(c, Start(slot), first, second);
    assert s1.repos == [NewRepo(c, founder, Step(c, Start(slot), first).1.genesis)];
    LateFailureIff(c, s1.repos[0], s1.slot, m, a);
    var cmds := [first] + [second];
    RunAgreesIff(c, slot, cmds);
    assert cmds[..1] == [first] && cmds[1] == second;
    assert !Clean(c, Run(c, Start(slot), cmds[..1]), cmds[1]);
    NewRepoAgrees(c, 0, slot, founder, o);
  }

  /** The first two steps of a run. */
  lemma FirstSteps(c: Crypto, s: State, first: Command, second: Command)
    ensures Run(c, s, [first]) == Step(c, s, first).0
    ensures Run(c, s, [first] + [second]) == Step(c, Step(c, s, first).0, second).0
    ensures Replies(c, s, [first] + [second])[1] == Step(c, Step(c, s, first).0, second).1
  {
    RunOne(c, s, first);
    RunExtend(c, s, [first], second);
    RepliesExtend(c, s, [first], second);
  }

  // ---------------------------------------------------------------- when commands succeed

  /** `init_repo` succeeds exactly when there is room in the table and no call fails. */
  lemma InitSucceedsIff(c: Crypto, s: State, adminKey: KeyText, o: InitCalls)
    ensures Step(c, s, InitRepo(adminKey, o)).1.Created?
            <==> |s.repos| < MAX_REPO_ID && InitAllocates(o) && SealCallsSucceed(s.slot, o.hash, o.sign)
  {
    SealSucceedsIff(c, s.slot, GenesisBlock(adminKey, o.time), o.hash, o.sign);
  }

  /**
   * `access_control` succeeds exactly when it is an addition or a deletion on an existing repository, an
   * administrator validly signed it, it asks for an applicable change with room for it or for a role that
   * means nothing, and no call fails.
   */
  lemma AccessSucceedsIff(c: Crypto, s: State, m: AccessMessage, o: AccessCalls)
    ensures Step(c, s, AccessControl(m, o)).1.Appended?
            <==> && (m.op == OP_ADD || m.op == OP_DELETE)
                 && m.repId < |s.repos|
                 && Accepted(c, s.repos[m.repId], m, o)
                 && (if m.role == ROLE_ADMIN || m.role == ROLE_WRITER
                     then Applicable(s.repos[m.repId], m) && (m.op == OP_ADD ==> o.node.node && o.node.key)
                     else true)
                 && SealCallsSucceed(s.slot, o.hash, o.sign)
  {
    if m.repId < |s.repos| && (m.op == OP_ADD || m.op == OP_DELETE) {
      var r := s.repos[m.repId];
      ChangeEffects(r, m, o);
      if Accepted(c, r, m, o) {
        AcceptedOutcome(c, r, s.slot, m, o);
      }
    }
  }

  /**
   * A request bears nothing that wears out. One that succeeded once succeeds again, in any state, exactly
   * when its repository exists, its signer is an administrator there, what it asks for is applicable, and
   * no call fails: its old signature is as good as a new one.
   */
  lemma OldRequestSucceedsIff(c: Crypto, s: State, s': State, m: AccessMessage, o: AccessCalls, o': AccessCalls)
    requires Step(c, s, AccessControl(m, o)).1.Appended?
    ensures Step(c, s', AccessControl(m, o')).1.Appended?
            <==> && m.repId < |s'.repos|
                 && m.sigkey in s'.repos[m.repId].admins
                 && (if m.role == ROLE_ADMIN || m.role == ROLE_WRITER
                     then Applicable(s'.repos[m.repId], m) && (m.op == OP_ADD ==> o'.node.node && o'.node.key)
                     else true)
                 && UserCallsSucceed(o'.verify) && SealCallsSucceed(s'.slot, o'.hash, o'.sign)
  {
    AccessSucceedsIff(c, s, m, o);
    AccessSucceedsIff(c, s', m, o');
  }

  lemma AppendedLists(c: Crypto, s: State, m: AccessMessage, o: AccessCalls)
    requires Step(c, s, AccessControl(m, o)).1.Appended?
    ensures m.repId < |s.repos| && m.repId < |Step(c, s, AccessControl(m, o)).0.repos|
    ensures var r, r' := s.repos[m.repId], Step(c, s, AccessControl(m, o)).0.repos[m.repId];
            var ch := AccessChange(r, m, o);
            r'.admins == ch.admins && r'.writers == ch.writers && ch.result == Success
  {
    AppendedBlock(c, s.repos[m.repId], s.slot, m, o);
  }

  /**
   * So deleting a key does not end its grant: after a writer was granted in any reachable state, and then
   * deleted, handing in the old grant once more brings the writer back if no call fails.
   */
  lemma {:induction false} DeletedWriterComesBack(c: Crypto, s: State, grant: AccessMessage, o: AccessCalls,
      deletion: AccessMessage, o': AccessCalls, o'': AccessCalls)
    requires Invariant(c, s)
    requires grant.op == OP_ADD && grant.role == ROLE_WRITER
    requires deletion.repId == grant.repId && deletion.pubkey == grant.pubkey
    requires deletion.op == OP_DELETE && deletion.role == ROLE_WRITER
    requires Step(c, s, AccessControl(grant, o)).1.Appended?
    requires Step(c, Step(c, s, AccessControl(grant, o)).0, AccessControl(deletion, o')).1.Appended?
    requires o''.node.node && o''.node.key && UserCallsSucceed(o''.verify)
    requires SealCallsSucceed(Step(c, Step(c, s, AccessControl(grant, o)).0, AccessControl(deletion, o')).0.slot,
               o''.hash, o''.sign)
    ensures var s2 := Step(c, Step(c, s, AccessControl(grant, o)).0, AccessControl(deletion, o')).0;
            var (s3, reply) := Step(c, s2, AccessControl(grant, o''));
            && grant.repId < |s2.repos| && grant.pubkey !in s2.repos[grant.repId].writers
            && reply.Appended?
            && grant.repId < |s3.repos| && grant.pubkey in s3.repos[grant.repId].writers
  {
    var id := grant.repId;
    var s1 := Step(c, s, AccessControl(grant, o)).0;
    var s2 := Step(c, s1, AccessControl(deletion, o')).0;
    AccessSucceedsIff(c, s, grant, o);
    StepKeepsInvariant(c, s, AccessControl(grant, o));
    AppendedLists(c, s, grant, o);
    AppendedLists(c, s1, deletion, o');
    assert RepoInvariant(c, id, s1.repos[id]);
    RemoveFirstExact(s1.repos[id].writers, grant.pubkey);
    OldRequestSucceedsIff(c, s, s2, grant, o, o'');
    AppendedLists(c, s2, grant, o'');
  }

  /** An administrator or a writer signed the request, and the signature could be checked. */
  predicate CommitAccepted(c: Crypto, r: Repo, m: CommitMessage, o: CommitCalls) {
    (m.sigkey in r.admins || m.sigkey in r.writers) && UserCallsSucceed(o.verify) && CommitSigned(c, m)
  }

  /** No call behind decrypting with a stored key fails. */
  predicate DecryptCallsSucceed(o: DecryptCalls) {
    && (o.load.open == Success || (o.load.allocate == Success && o.load.generate == Success
        && o.load.create == Success))
    && o.allocate == Success && o.setKey == Success && o.decrypt == Success
  }

  /** `commit` succeeds exactly when it is accepted, its attached key is hexadecimal, and no call fails. */
  lemma CommitSucceedsIff(c: Crypto, s: State, m: CommitMessage, e: CipherText, o: CommitCalls)
    ensures Step(c, s, Commit(m, e, o)).1.Committed?
            <==> && (m.op == OP_PUSH || m.op == OP_PR)
                 && m.repId < |s.repos|
                 && CommitAccepted(c, s.repos[m.repId], m, o)
                 && SealCallsSucceed(s.slot, o.hash, o.sign)
                 && FromHex(e).Some? && DecryptCallsSucceed(o.decrypt)
  {
    if m.repId < |s.repos| {
      var block := ContributionBlock(s.repos[m.repId], m, o.time);
      SealSucceedsIff(c, s.slot, block, o.hash, o.sign);
      SignedDigest(c, s.slot, Serialise(block), o.sign);
    }
  }

  /**
   * `get_tee_public_key` never succeeds: it tells the conversion that the buffer has no room. If nothing
   * else fails, that is what it reports.
   */
  lemma PublicKeyIsNeverGiven(c: Crypto, s: State, o: PublicKeyCalls)
    ensures var (s', reply) := Step(c, s, GetTeePublicKey(o));
            && s' == s && reply.Failed? && reply.error != Success
            && (o.bufferSize > 0 && o.open == Success && s.slot.Some?
                && o.conversion.modulus == Success && o.conversion.exponent == Success
                && o.conversion.build && o.conversion.der != []
                ==> reply.error == ShortBuffer)
  {
  }

  // ---------------------------------------------------------------- what failures leave alone

  /** Two repositories that differ at most in their key lists. */
  predicate SameButKeys(r: Repo, r': Repo) {
    r' == r.(admins := r'.admins, writers := r'.writers)
  }

  /** The command may change repository `i`. */
  predicate Names(cmd: Command, i: nat) {
    (cmd.AccessControl? && cmd.access.repId == i) || (cmd.Commit? && cmd.commit.repId == i)
  }

  /**
   * A failing command never touches a chain, a hash or a height, and only `access_control`, on the
   * repository it names, can leave changed key lists behind.
   */
  lemma FailureLeavesChains(c: Crypto, s: State, cmd: Command)
    requires Step(c, s, cmd).1.Failed?
    ensures var s' := Step(c, s, cmd).0;
            && |s'.repos| == |s.repos|
            && (forall i :: 0 <= i < |s.repos| ==> SameButKeys(s.repos[i], s'.repos[i]))
            && (forall i | 0 <= i < |s.repos| && !Names(cmd, i) :: s'.repos[i] == s.repos[i])
            && (!cmd.AccessControl? ==> s'.repos == s.repos)
  {
  }

  /** Whatever a run does, it leaves the repositories it does not name as they were. */
  lemma {:induction false} OthersUntouched(c: Crypto, s: State, cmds: seq<Command>, i: nat)
    requires i < |s.repos| && forall t :: 0 <= t < |cmds| ==> !Names(cmds[t], i)
    ensures i < |Run(c, s, cmds).repos| && Run(c, s, cmds).repos[i] == s.repos[i]
  {
    if cmds != [] {
      OthersUntouched(c, s, cmds[..|cmds| - 1], i);
    }
  }
}
