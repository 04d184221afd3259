/**
 * An offline check of an emitted chain. It replays the blocks from the first one on, keeps the two key
 * lists they add up to, and accepts a block only if the blocks before it justify it.
 */
module Replay {
  import opened Basics
  import opened Blocks
  import opened Messages
  import opened Crypto
  import opened KeyLists
  import opened Ledger
  import opened Invariants

  datatype Authority = Authority(admins: seq<KeyText>, writers: seq<KeyText>)

  /** The sequence without any occurrence of `key`. */
  function Without(s: seq<KeyText>, key: KeyText): seq<KeyText> {
    if s == [] then []
    else if s[0] == key then Without(s[1..], key)
    else [s[0]] + Without(s[1..], key)
  }

  /** A block that founds a repository makes its signer the only administrator. */
  function Founding(b: Block): Option<Authority> {
    if b.Access? && b.Unsigned() == GenesisBlock(b.pubkey, b.base.time)
    then Some(Authority([b.pubkey], []))
    else None
  }

  /** What an access block makes of the two lists, when it makes sense at all. */
  function Applied(a: Authority, op: uint32, role: uint32, key: KeyText): Option<Authority> {
    if op == OP_ADD && role == ROLE_ADMIN then
      if key in a.admins then None else Some(Authority([key] + a.admins, Without(a.writers, key)))
    else if op == OP_ADD && role == ROLE_WRITER then
      if key in a.admins || key in a.writers then None else Some(Authority(a.admins, [key] + a.writers))
    else if op == OP_DELETE && role == ROLE_ADMIN then
      if key in a.admins then Some(Authority(Without(a.admins, key), a.writers)) else None
    else if op == OP_DELETE && role == ROLE_WRITER then
      if key in a.writers then Some(Authority(a.admins, Without(a.writers, key))) else None
    else if op == OP_ADD || op == OP_DELETE then Some(a)
    else None
  }

  /** The block is in its place: its height and its parent fit the blocks before it. */
  predicate InPlace(c: Crypto, before: seq<Block>, b: Block)
    requires |before| > 0
  {
    b.base.height == |before| % WORD && b.base.parent == BlockHash(c, before[|before| - 1])
  }

  /** The signer had the right to sign this block, and the signature says what the block says. */
  predicate Signed(c: Crypto, repId: uint32, a: Authority, b: Block) {
    && RequestSigned(c, repId, b)
    && (b.base.sigkey in a.admins || (b.Contribution? && b.base.sigkey in a.writers))
    && (b.Contribution? ==> b.base.op == OP_PUSH || b.base.op == OP_PR)
  }

  /** The authority after one more block, or nothing if the block is not justified. */
  function Next(c: Crypto, repId: uint32, before: seq<Block>, a: Authority, b: Block): Option<Authority>
    requires |before| > 0
  {
    if !InPlace(c, before, b) || !Signed(c, repId, a, b) then None
    else if b.Access? then Applied(a, b.base.op, b.role, b.pubkey)
    else Some(a)
  }

  function Replayed(c: Crypto, repId: uint32, chain: seq<Block>): Option<Authority> {
    if |chain| == 0 then None
    else if |chain| == 1 then Founding(chain[0])
    else
      var before, b := chain[..|chain| - 1], chain[|chain| - 1];
      match Replayed(c, repId, before)
      case None => None
      case Some(a) => Next(c, repId, before, a, b)
  }

  lemma ReplayExtend(c: Crypto, repId: uint32, chain: seq<Block>, b: Block)
    requires |chain| > 0 && Replayed(c, repId, chain).Some?
    ensures Replayed(c, repId, chain + [b]) == Next(c, repId, chain, Replayed(c, repId, chain).value, b)
  {
  }

  // ---------------------------------------------------------------- every emitted chain is accepted

  lemma {:induction false} WithoutIsRemoveFirst(s: seq<KeyText>, key: KeyText)
    requires NoDuplicates(s)
    ensures Without(s, key) == RemoveFirst(s, key)
  {
    if s != [] {
      var head, tail := s[0], s[1..];
      assert forall i :: 0 <= i < |tail| ==> tail[i] == s[i + 1];
      if head == key {
        WithoutAbsent(tail, key);
      } else {
        WithoutIsRemoveFirst(tail, key);
      }
    }
  }

  lemma {:induction false} WithoutAbsent(s: seq<KeyText>, key: KeyText)
    requires key !in s
    ensures Without(s, key) == s
  {
    if s != [] {
      WithoutAbsent(s[1..], key);
      assert s == [s[0]] + s[1..];
    }
  }

  /** What the lists in memory do and what the checker makes of the block are the same. */
  lemma AppliedIsChange(a: Authority, op: uint32, role: uint32, key: KeyText)
    requires Exclusive(a.admins, a.writers) && (op == OP_ADD || op == OP_DELETE)
    ensures var ch := ChangeKeys(a.admins, a.writers, op, role, key, true);
            Applied(a, op, role, key) == if ch.result == Success then Some(Authority(ch.admins, ch.writers)) else None
  {
    WithoutIsRemoveFirst(a.admins, key);
    WithoutIsRemoveFirst(a.writers, key);
  }

  /** The chain of the repository, replayed, gives its two lists in order. */
  ghost predicate Agrees(c: Crypto, repId: uint32, r: Repo) {
    Replayed(c, repId, r.chain) == Some(Authority(r.admins, r.writers))
  }

  /**
   * A failure that comes too late: the command failed, but its change of the key lists stays.
   */
  predicate LateFailure(c: Crypto, r: Repo, slot: Option<KeyPair>, m: AccessMessage, o: AccessCalls) {
    var out := AccessStep(c, r, slot, m, o);
    out.reply.Failed? && (out.repo.admins != r.admins || out.repo.writers != r.writers)
  }

  /** Height and latest hash are those of the chain. */
  ghost predicate AtTip(c: Crypto, r: Repo) {
    && |r.chain| > 0
    && r.latestHash == BlockHash(c, r.chain[|r.chain| - 1])
    && r.height == (|r.chain| - 1) % WORD
  }

  function WithTeeSig(b: Block, sig: SignatureText): Block {
    b.(base := b.base.(teeSig := sig))
  }

  lemma SealedBlock(c: Crypto, slot: Option<KeyPair>, block: Block, h: HashCalls, s: SignCalls)
    ensures var k := Seal(c, slot, block, h, s);
            k.result.Ok? ==> k.result.value == WithTeeSig(block, k.result.value.base.teeSig)
  {
  }

  lemma AccessBlockIsNext(c: Crypto, r: Repo, m: AccessMessage, time: Time, sig: SignatureText)
    requires AtTip(c, r) && m.sigkey in r.admins && AccessSigned(c, m)
    ensures Next(c, m.repId, r.chain, Authority(r.admins, r.writers), WithTeeSig(AccessBlock(r, m, time), sig))
         == Applied(Authority(r.admins, r.writers), m.op, m.role, m.pubkey)
  {
    HeightStep(|r.chain|);
  }

  lemma {:induction false} ContributionBlockIsNext(c: Crypto, r: Repo, m: CommitMessage, time: Time, sig: SignatureText)
    requires AtTip(c, r) && (m.sigkey in r.admins || m.sigkey in r.writers) && CommitSigned(c, m)
    requires m.op == OP_PUSH || m.op == OP_PR
    ensures Next(c, m.repId, r.chain, Authority(r.admins, r.writers), WithTeeSig(ContributionBlock(r, m, time), sig))
         == Some(Authority(r.admins, r.writers))
  {
    HeightStep(|r.chain|);
  }

  /** What a successful `access_control` has done. */
  lemma AppendedBlock(c: Crypto, r: Repo, slot: Option<KeyPair>, m: AccessMessage, o: AccessCalls)
    requires AccessStep(c, r, slot, m, o).reply.Appended?
    ensures var out, ch := AccessStep(c, r, slot, m, o), AccessChange(r, m, o);
            && m.sigkey in r.admins && AccessSigned(c, m)
            && ch.result == Success
            && out.reply.block == WithTeeSig(AccessBlock(r, m, o.time), out.reply.block.base.teeSig)
            && out.repo == Append(c, WithKeys(r, ch), out.reply.block)
  {
    FinishedBlock(c, WithKeys(r, AccessChange(r, m, o)), slot, m, o);
  }

  lemma FinishedBlock(c: Crypto, r: Repo, slot: Option<KeyPair>, m: AccessMessage, o: AccessCalls)
    requires AccessFinish(c, r, slot, m, o).reply.Appended?
    ensures var out := AccessFinish(c, r, slot, m, o);
            && out.reply.block == WithTeeSig(AccessBlock(r, m, o.time), out.reply.block.base.teeSig)
            && out.repo == Append(c, r, out.reply.block)
  {
  }

  lemma {:induction false} AcceptedChange(c: Crypto, r: Repo, m: AccessMessage, time: Time, sig: SignatureText,
      room: bool)
    requires AtTip(c, r) && Exclusive(r.admins, r.writers) && Agrees(c, m.repId, r)
    requires m.op == OP_ADD || m.op == OP_DELETE
    requires m.sigkey in r.admins && AccessSigned(c, m)
    requires ChangeKeys(r.admins, r.writers, m.op, m.role, m.pubkey, room).result == Success
    ensures var ch := ChangeKeys(r.admins, r.writers, m.op, m.role, m.pubkey, room);
            Replayed(c, m.repId, r.chain + [WithTeeSig(AccessBlock(r, m, time), sig)]) == Some(Authority(ch.admins,
                ch.writers))
  {
    AppliedIsChange(Authority(r.admins, r.writers), m.op, m.role, m.pubkey);
    AccessBlockIsNext(c, r, m, time, sig);
    ReplayExtend(c, m.repId, r.chain, WithTeeSig(AccessBlock(r, m, time), sig));
  }

  lemma {:induction false} AccessAppends(c: Crypto, r: Repo, slot: Option<KeyPair>, m: AccessMessage, o: AccessCalls)
    requires AtTip(c, r) && Exclusive(r.admins, r.writers) && Agrees(c, m.repId, r)
    requires m.op == OP_ADD || m.op == OP_DELETE
    requires AccessStep(c, r, slot, m, o).reply.Appended?
    ensures Agrees(c, m.repId, AccessStep(c, r, slot, m, o).repo)
  {
    AppendedBlock(c, r, slot, m, o);
    AcceptedChange(c, r, m, o.time, AccessStep(c, r, slot, m, o).reply.block.base.teeSig, o.node.node && o.node.key);
  }

  lemma NothingAppended(c: Crypto, r: Repo, slot: Option<KeyPair>, m: AccessMessage, o: AccessCalls)
    requires !AccessStep(c, r, slot, m, o).reply.Appended?
    ensures AccessStep(c, r, slot, m, o).reply.Failed? && AccessStep(c, r, slot, m, o).repo.chain == r.chain
  {
  }

  /** A command keeps the chain and the lists in agreement exactly when it does not fail late. */
  lemma {:induction false} AccessAgreesIff(c: Crypto, repId: uint32, r: Repo, slot: Option<KeyPair>,
      m: AccessMessage, o: AccessCalls)
    requires AtTip(c, r) && Exclusive(r.admins, r.writers) && Agrees(c, repId, r)
    requires m.repId == repId && (m.op == OP_ADD || m.op == OP_DELETE)
    ensures Agrees(c, repId, AccessStep(c, r, slot, m, o).repo) <==> !LateFailure(c, r, slot, m, o)
  {
    if AccessStep(c, r, slot, m, o).reply.Appended? {
      AccessAppends(c, r, slot, m, o);
    } else {
      NothingAppended(c, r, slot, m, o);
    }
  }

  lemma {:induction false} CommitAgrees(c: Crypto, repId: uint32, r: Repo, slot: Option<KeyPair>, m: CommitMessage,
      e: CipherText, o: CommitCalls)
    requires AtTip(c, r) && Agrees(c, repId, r) && m.repId == repId && (m.op == OP_PUSH || m.op == OP_PR)
    ensures Agrees(c, repId, CommitStep(c, r, slot, m, e, o).repo)
  {
    var out := CommitStep(c, r, slot, m, e, o);
    if out.reply.Committed? {
      var b := out.reply.contribution;
      assert b == CommitSealed(c, r, slot, m, o).result.value;
      SealedBlock(c, slot, ContributionBlock(r, m, o.time), o.hash, o.sign);
      ContributionBlockIsNext(c, r, m, o.time, b.base.teeSig);
      ReplayExtend(c, repId, r.chain, b);
    }
  }

  lemma NewRepoAgrees(c: Crypto, repId: uint32, slot: Option<KeyPair>, adminKey: KeyText, o: InitCalls)
    requires InitSealed(c, slot, adminKey, o).result.Ok?
    ensures Agrees(c, repId, NewRepo(c, adminKey, InitSealed(c, slot, adminKey, o).result.value))
  {
  }

  /** The step is not a late failure on any repository. */
  predicate Clean(c: Crypto, s: State, cmd: Command) {
    cmd.AccessControl? && cmd.access.repId < |s.repos| && (cmd.access.op == OP_ADD || cmd.access.op == OP_DELETE)
    ==> !LateFailure(c, s.repos[cmd.access.repId], s.slot, cmd.access, cmd.accessCalls)
  }

  predicate CleanRun(c: Crypto, s: State, cmds: seq<Command>) {
    forall t :: 0 <= t < |cmds| ==> Clean(c, Run(c, s, cmds[..t]), cmds[t])
  }

  ghost predicate AllAgree(c: Crypto, s: State) {
    forall i: uint32 :: i < |s.repos| ==> Agrees(c, i, s.repos[i])
  }

  lemma UpdateAgreesIff(c: Crypto, s: State, i: uint32, o: Outcome)
    requires AllAgree(c, s) && i < |s.repos|
    ensures AllAgree(c, Update(s, i, o).0) <==> Agrees(c, i, o.repo)
  {
    var s' := Update(s, i, o).0;
    assert s'.repos[i] == o.repo;
  }

  lemma AddedAgrees(c: Crypto, s: State, s': State, r: Repo)
    requires AllAgree(c, s) && |s.repos| < WORD && s'.repos == s.repos + [r] && Agrees(c, |s.repos|, r)
    ensures AllAgree(c, s')
  {
  }

  lemma {:induction false} StepAgreesIff(c: Crypto, s: State, cmd: Command)
    requires Invariant(c, s) && AllAgree(c, s)
    ensures AllAgree(c, Step(c, s, cmd).0) <==> Clean(c, s, cmd)
  {
    match cmd
    case InitRepo(adminKey, o) =>
      if Step(c, s, cmd).1.Created? {
        NewRepoAgrees(c, |s.repos|, s.slot, adminKey, o);
        AddedAgrees(c, s, Step(c, s, cmd).0, NewRepo(c, adminKey, InitSealed(c, s.slot, adminKey, o).result.value));
      }
    case AccessControl(m, o) =>
      if m.repId < |s.repos| && (m.op == OP_ADD || m.op == OP_DELETE) {
        AccessAgreesIff(c, m.repId, s.repos[m.repId], s.slot, m, o);
        UpdateAgreesIff(c, s, m.repId, AccessStep(c, s.repos[m.repId], s.slot, m, o));
      }
    case GetLatestHash(id, nonce, o) =>
    case Commit(m, e, o) =>
      if m.repId < |s.repos| && (m.op == OP_PUSH || m.op == OP_PR) {
        CommitAgrees(c, m.repId, s.repos[m.repId], s.slot, m, e, o);
        UpdateAgreesIff(c, s, m.repId, CommitStep(c, s.repos[m.repId], s.slot, m, e, o));
      }
    case GetTeePublicKey(_) =>
    case Malformed(_) =>
  }

  /** At every moment of the run, all lists are those that the chains add up to. */
  ghost predicate AgreesThroughout(c: Crypto, slot: Option<KeyPair>, cmds: seq<Command>) {
    forall n :: 0 <= n <= |cmds| ==> AllAgree(c, Run(c, Start(slot), cmds[..n]))
  }

  /** One step of a run. */
  lemma StepInRun(c: Crypto, slot: Option<KeyPair>, cmds: seq<Command>, t: nat)
    requires t < |cmds| && AllAgree(c, Run(c, Start(slot), cmds[..t]))
    ensures AllAgree(c, Run(c, Start(slot), cmds[..t + 1])) <==> Clean(c, Run(c, Start(slot), cmds[..t]), cmds[t])
  {
    assert cmds[..t + 1] == cmds[..t] + [cmds[t]];
    RunExtend(c, Start(slot), cmds[..t], cmds[t]);
    RunKeepsInvariant(c, Start(slot), cmds[..t]);
    StepAgreesIff(c, Run(c, Start(slot), cmds[..t]), cmds[t]);
  }

  lemma {:induction false} CleanRunAgrees(c: Crypto, slot: Option<KeyPair>, cmds: seq<Command>, n: nat)
    requires CleanRun(c, Start(slot), cmds) && n <= |cmds|
    ensures AllAgree(c, Run(c, Start(slot), cmds[..n]))
  {
    if n == 0 {
      assert cmds[..0] == [];
    } else {
      CleanRunAgrees(c, slot, cmds, n - 1);
      StepInRun(c, slot, cmds, n - 1);
    }
  }

  /** Lists and chains agree at every moment of a run exactly when no command of it fails late. */
  lemma {:induction false} RunAgreesIff(c: Crypto, slot: Option<KeyPair>, cmds: seq<Command>)
    ensures AgreesThroughout(c, slot, cmds) <==> CleanRun(c, Start(slot), cmds)
  {
    if AgreesThroughout(c, slot, cmds) {
      forall t | 0 <= t < |cmds| ensures Clean(c, Run(c, Start(slot), cmds[..t]), cmds[t]) {
        StepInRun(c, slot, cmds, t);
      }
    }
    if CleanRun(c, Start(slot), cmds) {
      forall n | 0 <= n <= |cmds| ensures AllAgree(c, Run(c, Start(slot), cmds[..n])) {
        CleanRunAgrees(c, slot, cmds, n);
      }
    }
  }

  /**
   * The chain certifies itself and determines authority. After any run without a late failure, replaying
   * the blocks of each repository accepts every one of them and yields its administrators and writers,
   * in the order of the linked lists.
   */
  lemma {:induction false} ChainDeterminesAuthority(c: Crypto, slot: Option<KeyPair>, cmds: seq<Command>, i: uint32)
    requires CleanRun(c, Start(slot), cmds)
    requires i < |Run(c, Start(slot), cmds).repos|
    ensures var r := Run(c, Start(slot), cmds).repos[i];
            Replayed(c, i, r.chain) == Some(Authority(r.admins, r.writers))
  {
    CleanRunAgrees(c, slot, cmds, |cmds|);
    assert cmds[..|cmds|] == cmds;
    assert Agrees(c, i, Run(c, Start(slot), cmds).repos[i]);
  }
}
