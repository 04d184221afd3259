/** What every repository satisfies in every reachable state of the ledger. */
module Invariants {
  import opened Basics
  import opened Blocks
  import opened Messages
  import opened Crypto
  import opened KeyLists
  import opened Ledger

  /** A freshly started application: no repositories, and whatever key the storage holds. */
  function Start(slot: Option<KeyPair>): State {
    State([], slot)
  }

  // ---------------------------------------------------------------- the hash chain

  /** Every block names its predecessor by hash, and the first one names nothing. */
  ghost predicate WellLinked(c: Crypto, chain: seq<Block>) {
    && |chain| > 0
    && chain[0].base.parent == ZERO_HASH
    && forall i :: 1 <= i < |chain| ==> chain[i].base.parent == BlockHash(c, chain[i - 1])
  }

  /** The signature in the block verifies over the request that the block's own fields spell out. */
  predicate RequestSigned(c: Crypto, repId: uint32, b: Block) {
    match b
    case Access(base, role, pubkey) =>
      SignedBy(c, AccessText(repId, base.op, role, pubkey), base.sigkey, base.signature)
    case Contribution(base, commitHash) =>
      SignedBy(c, CommitText(repId, base.op, commitHash), base.sigkey, base.signature)
  }

  /** The block at position `i` is of the form the ledger emits there. */
  ghost predicate WellFormed(c: Crypto, repId: uint32, founder: KeyText, i: nat, b: Block) {
    if i == 0 then b.Unsigned() == GenesisBlock(founder, b.base.time)
    else b.base.height == i % WORD && b.KindMatchesOp() && RequestSigned(c, repId, b)
  }

  ghost predicate ChainInvariant(c: Crypto, repId: uint32, r: Repo) {
    && WellLinked(c, r.chain)
    && r.latestHash == BlockHash(c, r.chain[|r.chain| - 1])
    && r.height == (|r.chain| - 1) % WORD
    && forall i :: 0 <= i < |r.chain| ==> WellFormed(c, repId, r.founder, i, r.chain[i])
  }

  // ---------------------------------------------------------------- the key lists

  /** No key occurs twice, within one list or across the two. */
  ghost predicate Exclusive(admins: seq<KeyText>, writers: seq<KeyText>) {
    && NoDuplicates(admins)
    && NoDuplicates(writers)
    && forall k :: k in admins ==> k !in writers
  }

  ghost predicate NoDuplicates(s: seq<KeyText>) {
    forall i, j :: 0 <= i < j < |s| ==> s[i] != s[j]
  }

  /** Without duplicates, removing the first occurrence of a key removes the key. */
  lemma {:induction false} RemoveFirstExact(s: seq<KeyText>, key: KeyText)
    requires NoDuplicates(s)
    ensures NoDuplicates(RemoveFirst(s, key))
    ensures forall k :: k in RemoveFirst(s, key) <==> k in s && k != key
  {
    if s != [] {
      var head, tail := s[0], s[1..];
      assert s == [head] + tail;
      assert forall i :: 0 <= i < |tail| ==> tail[i] == s[i + 1];
      RemoveFirstExact(tail, key);
      assert head !in tail;
      var rest := RemoveFirst(tail, key);
      assert head !in rest && NoDuplicates([head] + rest);
    }
  }

  lemma ChangeKeepsExclusive(admins: seq<KeyText>, writers: seq<KeyText>, op: uint32, role: uint32, key: KeyText,
      room: bool)
    requires Exclusive(admins, writers)
    ensures var ch := ChangeKeys(admins, writers, op, role, key, room);
            Exclusive(ch.admins, ch.writers)
  {
    RemoveFirstExact(admins, key);
    RemoveFirstExact(writers, key);
  }

  // ---------------------------------------------------------------- one repository

  ghost predicate RepoInvariant(c: Crypto, repId: uint32, r: Repo) {
    ChainInvariant(c, repId, r) && Exclusive(r.admins, r.writers)
  }

  lemma HashIgnoresTeeSig(c: Crypto, b: Block)
    ensures BlockHash(c, b) == BlockHash(c, b.Unsigned())
    ensures Serialise(b) == Serialise(b.Unsigned())
  {
  }

  /** A sealed block is the given block with the TEE signature filled in. */
  lemma SealedIsSigned(c: Crypto, slot: Option<KeyPair>, block: Block, h: HashCalls, s: SignCalls)
    requires block == block.Unsigned()
    ensures var k := Seal(c, slot, block, h, s);
            k.result.Ok? ==> k.result.value.Unsigned() == block && BlockHash(c, k.result.value) == BlockHash(c, block)
  {
  }

  /** A block in its place extends the chain. */
  predicate Fits(c: Crypto, repId: uint32, r: Repo, b: Block) {
    && b.base.height == NextHeight(r) && b.base.parent == r.latestHash
    && b.KindMatchesOp() && RequestSigned(c, repId, b)
  }

  lemma WellFormedExtend(c: Crypto, repId: uint32, founder: KeyText, chain: seq<Block>, b: Block)
    requires |chain| > 0 && WellFormed(c, repId, founder, |chain|, b)
    requires forall i :: 0 <= i < |chain| ==> WellFormed(c, repId, founder, i, chain[i])
    ensures forall i :: 0 <= i < |chain + [b]| ==> WellFormed(c, repId, founder, i, (chain + [b])[i])
  {
  }

  lemma AppendKeepsChain(c: Crypto, repId: uint32, r: Repo, b: Block)
    requires ChainInvariant(c, repId, r) && Fits(c, repId, r, b)
    ensures ChainInvariant(c, repId, Append(c, r, b))
  {
    HeightStep(|r.chain|);
    WellLinkedExtend(c, r.chain, b);
    WellFormedExtend(c, repId, r.founder, r.chain, b);
  }

  lemma HeightStep(n: nat)
    requires n > 0
    ensures ((n - 1) % WORD + 1) % WORD == n % WORD
  {
  }

  lemma WellLinkedExtend(c: Crypto, chain: seq<Block>, b: Block)
    requires WellLinked(c, chain) && b.base.parent == BlockHash(c, chain[|chain| - 1])
    ensures WellLinked(c, chain + [b])
  {
  }

  lemma AppendKeepsInvariant(c: Crypto, repId: uint32, r: Repo, block: Block, b: Block)
    requires RepoInvariant(c, repId, r) && Fits(c, repId, r, block) && b.Unsigned() == block.Unsigned()
    ensures RepoInvariant(c, repId, Append(c, r, b))
  {
    assert b.base.height == b.Unsigned().base.height && b.base.parent == b.Unsigned().base.parent;
    AppendKeepsChain(c, repId, r, b);
  }

  /** Once the request is accepted and the lists are changed. */
  lemma {:induction false} FinishKeepsInvariant(c: Crypto, r: Repo, slot: Option<KeyPair>, m: AccessMessage,
      o: AccessCalls)
    requires RepoInvariant(c, m.repId, r) && (m.op == OP_ADD || m.op == OP_DELETE) && AccessSigned(c, m)
    ensures RepoInvariant(c, m.repId, AccessFinish(c, r, slot, m, o).repo)
  {
    var block := AccessBlock(r, m, o.time);
    var sealed := AccessSealed(c, r, slot, m, o);
    if sealed.result.Ok? {
      SealedIsSigned(c, slot, block, o.hash, o.sign);
      AppendKeepsInvariant(c, m.repId, r, block, sealed.result.value);
    }
  }

  lemma ListsKeepInvariant(c: Crypto, repId: uint32, r: Repo, change: Change)
    requires RepoInvariant(c, repId, r) && Exclusive(change.admins, change.writers)
    ensures RepoInvariant(c, repId, WithKeys(r, change))
  {
  }

  /** The repository as it was, with the lists changed, or with the block appended as well. */
  lemma AccessOutcomes(c: Crypto, r: Repo, slot: Option<KeyPair>, m: AccessMessage, o: AccessCalls)
    ensures var r', r'' := WithKeys(r, AccessChange(r, m, o)), AccessStep(c, r, slot, m, o).repo;
            || r'' == r
            || (AccessSigned(c, m) && (r'' == r' || r'' == AccessFinish(c, r', slot, m, o).repo))
  {
  }

  lemma {:induction false} AccessKeepsInvariant(c: Crypto, r: Repo, slot: Option<KeyPair>, m: AccessMessage,
      o: AccessCalls)
    requires RepoInvariant(c, m.repId, r) && (m.op == OP_ADD || m.op == OP_DELETE)
    ensures RepoInvariant(c, m.repId, AccessStep(c, r, slot, m, o).repo)
  {
    AccessOutcomes(c, r, slot, m, o);
    ChangeKeepsExclusive(r.admins, r.writers, m.op, m.role, m.pubkey, o.node.node && o.node.key);
    ListsKeepInvariant(c, m.repId, r, AccessChange(r, m, o));
    if AccessSigned(c, m) {
      FinishKeepsInvariant(c, WithKeys(r, AccessChange(r, m, o)), slot, m, o);
    }
  }

  /** The repository as it was, or with the block appended. */
  lemma CommitOutcomes(c: Crypto, r: Repo, slot: Option<KeyPair>, m: CommitMessage, e: CipherText, o: CommitCalls)
    ensures var r', sealed := CommitStep(c, r, slot, m, e, o).repo, CommitSealed(c, r, slot, m, o);
            r' == r || (CommitSigned(c, m) && sealed.result.Ok? && r' == Append(c, r, sealed.result.value))
  {
  }

  lemma {:induction false} CommitKeepsInvariant(c: Crypto, r: Repo, slot: Option<KeyPair>, m: CommitMessage,
      e: CipherText, o: CommitCalls)
    requires RepoInvariant(c, m.repId, r) && (m.op == OP_PUSH || m.op == OP_PR)
    ensures RepoInvariant(c, m.repId, CommitStep(c, r, slot, m, e, o).repo)
  {
    CommitOutcomes(c, r, slot, m, e, o);
    var sealed := CommitSealed(c, r, slot, m, o);
    if sealed.result.Ok? && CommitSigned(c, m) {
      ContributionFits(c, r, slot, m, o);
    }
  }

  lemma ContributionFits(c: Crypto, r: Repo, slot: Option<KeyPair>, m: CommitMessage, o: CommitCalls)
    requires RepoInvariant(c, m.repId, r) && (m.op == OP_PUSH || m.op == OP_PR) && CommitSigned(c, m)
    requires CommitSealed(c, r, slot, m, o).result.Ok?
    ensures RepoInvariant(c, m.repId, Append(c, r, CommitSealed(c, r, slot, m, o).result.value))
  {
    var block := ContributionBlock(r, m, o.time);
    SealedIsSigned(c, slot, block, o.hash, o.sign);
    AppendKeepsInvariant(c, m.repId, r, block, CommitSealed(c, r, slot, m, o).result.value);
  }

  lemma NewRepoHasInvariant(c: Crypto, repId: uint32, slot: Option<KeyPair>, adminKey: KeyText, o: InitCalls)
    requires InitSealed(c, slot, adminKey, o).result.Ok?
    ensures RepoInvariant(c, repId, NewRepo(c, adminKey, InitSealed(c, slot, adminKey, o).result.value))
  {
  }

  // ---------------------------------------------------------------- every run

  ghost predicate Invariant(c: Crypto, s: State) {
    && |s.repos| <= MAX_REPO_ID
    && forall i :: 0 <= i < |s.repos| ==> RepoInvariant(c, i, s.repos[i])
  }

  lemma UpdateKeepsInvariant(c: Crypto, s: State, i: uint32, o: Outcome)
    requires Invariant(c, s) && i < |s.repos| && RepoInvariant(c, i, o.repo)
    ensures Invariant(c, Update(s, i, o).0)
  {
  }

  lemma {:induction false} StepKeepsInvariant(c: Crypto, s: State, cmd: Command)
    requires Invariant(c, s)
    ensures Invariant(c, Step(c, s, cmd).0)
  {
    match cmd
    case InitRepo(adminKey, o) =>
      var sealed := InitSealed(c, s.slot, adminKey, o);
      if sealed.result.Ok? && |s.repos| < MAX_REPO_ID {
        NewRepoHasInvariant(c, |s.repos|, s.slot, adminKey, o);
      }
    case AccessControl(m, o) =>
      if m.repId < |s.repos| && (m.op == OP_ADD || m.op == OP_DELETE) {
        AccessKeepsInvariant(c, s.repos[m.repId], s.slot, m, o);
        UpdateKeepsInvariant(c, s, m.repId, AccessStep(c, s.repos[m.repId], s.slot, m, o));
      }
    case GetLatestHash(id, nonce, o) =>
    case Commit(m, e, o) =>
      if m.repId < |s.repos| && (m.op == OP_PUSH || m.op == OP_PR) {
        CommitKeepsInvariant(c, s.repos[m.repId], s.slot, m, e, o);
        UpdateKeepsInvariant(c, s, m.repId, CommitStep(c, s.repos[m.repId], s.slot, m, e, o));
      }
    case GetTeePublicKey(_) =>
    case Malformed(_) =>
  }

  lemma {:induction false} RunKeepsInvariant(c: Crypto, s: State, cmds: seq<Command>)
    requires Invariant(c, s)
    ensures Invariant(c, Run(c, s, cmds))
  {
    if cmds != [] {
      var n := |cmds| - 1;
      RunKeepsInvariant(c, s, cmds[..n]);
      StepKeepsInvariant(c, Run(c, s, cmds[..n]), cmds[n]);
    }
  }

  /**
   * In every reachable state, whatever failed on the way: each repository's blocks form a hash chain
   * ending in its latest hash, its height counts the blocks after the first modulo 2^32, and block i
   * carries height i modulo 2^32, except that the first block carries 1 as the second one does.
   */
  lemma {:induction false} HashChain(c: Crypto, slot: Option<KeyPair>, cmds: seq<Command>, i: nat)
    requires i < |Run(c, Start(slot), cmds).repos|
    ensures var r := Run(c, Start(slot), cmds).repos[i];
            && |r.chain| > 0
            && r.chain[0].base.parent == ZERO_HASH
            && (forall k :: 1 <= k < |r.chain| ==> r.chain[k].base.parent == BlockHash(c, r.chain[k - 1]))
            && r.latestHash == BlockHash(c, r.chain[|r.chain| - 1])
            && r.height == (|r.chain| - 1) % WORD
            && r.chain[0].base.height == 1
            && (forall k :: 1 <= k < |r.chain| ==> r.chain[k].base.height == k % WORD)
  {
    RunKeepsInvariant(c, Start(slot), cmds);
    var r := Run(c, Start(slot), cmds).repos[i];
    assert RepoInvariant(c, i, r);
    assert WellFormed(c, i, r.founder, 0, r.chain[0]);
    assert r.chain[0].Unsigned().base.height == 1;
    forall k | 1 <= k < |r.chain| ensures r.chain[k].base.height == k % WORD {
      assert WellFormed(c, i, r.founder, k, r.chain[k]);
    }
  }

  /**
   * In every reachable state, whatever failed on the way, each block after the first carries a signature
   * that verifies, under its signing key, over the request rebuilt from the block's own fields and the
   * identifier of its repository. With RSA as it is, the signature fills its field.
   */
  lemma {:induction false} EveryBlockIsSigned(c: Crypto, slot: Option<KeyPair>, cmds: seq<Command>, i: uint32, k: nat)
    requires i < |Run(c, Start(slot), cmds).repos|
    requires 1 <= k < |Run(c, Start(slot), cmds).repos[i].chain|
    ensures var b := Run(c, Start(slot), cmds).repos[i].chain[k];
            && b.KindMatchesOp()
            && RequestSigned(c, i, b)
            && (AcceptsFullLengthOnly(c) ==> |b.base.signature| == MAX_SIGNATURE_LENGTH)
  {
    RunKeepsInvariant(c, Start(slot), cmds);
    var r := Run(c, Start(slot), cmds).repos[i];
    assert RepoInvariant(c, i, r);
    assert WellFormed(c, i, r.founder, k, r.chain[k]);
    RequestFillsSignature(c, i, r.chain[k]);
  }

  lemma RequestFillsSignature(c: Crypto, repId: uint32, b: Block)
    requires RequestSigned(c, repId, b)
    ensures ':' !in b.base.signature
    ensures AcceptsFullLengthOnly(c) ==> |b.base.signature| == MAX_SIGNATURE_LENGTH
  {
    match b
    case Access(base, role, pubkey) =>
      SignedIsHex(c, AccessText(repId, base.op, role, pubkey), base.sigkey, base.signature);
    case Contribution(base, commitHash) =>
      SignedIsHex(c, CommitText(repId, base.op, commitHash), base.sigkey, base.signature);
  }

  /** In every reachable state no key is listed twice, and none is both administrator and writer. */
  lemma {:induction false} RolesAreExclusive(c: Crypto, slot: Option<KeyPair>, cmds: seq<Command>, i: nat)
    requires i < |Run(c, Start(slot), cmds).repos|
    ensures var r := Run(c, Start(slot), cmds).repos[i];
            forall p,
                q :: 0 <= p < q < |r.admins + r.writers| ==> (r.admins + r.writers)[p] != (r.admins + r.writers)[q]
  {
    RunKeepsInvariant(c, Start(slot), cmds);
    var r := Run(c, Start(slot), cmds).repos[i];
    assert RepoInvariant(c, i, r);
    var all := r.admins + r.writers;
    forall p, q | 0 <= p < q < |all| ensures all[p] != all[q] {
      if p < |r.admins| <= q {
        assert all[p] in r.admins && all[q] in r.writers;
      }
    }
  }

  /** The block handed to the caller is the one added to the chain, and no other reply adds one. */
  lemma ReplyIsNewestBlock(c: Crypto, s: State, cmd: Command)
    ensures var (s', reply) := Step(c, s, cmd);
            match reply
            case Created(id, b) =>
              id == |s.repos| && s'.repos == s.repos + [s'.repos[id]] && s'.repos[id].chain == [b]
            case Appended(b) =>
              cmd.AccessControl? && s'.repos[cmd.access.repId].chain == s.repos[cmd.access.repId].chain + [b]
            case Committed(b, _) =>
              cmd.Commit? && s'.repos[cmd.commit.repId].chain == s.repos[cmd.commit.repId].chain + [b]
            case Latest(_, hash, _) =>
              cmd.GetLatestHash? && s'.repos == s.repos && hash == s.repos[cmd.repId].latestHash
            case Failed(_) =>
              |s'.repos| == |s.repos| && forall i :: 0 <= i < |s.repos| ==> s'.repos[i].chain == s.repos[i].chain
  {
    if cmd.GetLatestHash? && cmd.repId < |s.repos| {
      assert s.repos[cmd.repId := s.repos[cmd.repId]] == s.repos;
    }
  }

  lemma StepGrowsChains(c: Crypto, s: State, cmd: Command, i: nat)
    requires i < |s.repos|
    ensures i < |Step(c, s, cmd).0.repos| && s.repos[i].chain <= Step(c, s, cmd).0.repos[i].chain
  {
    ReplyIsNewestBlock(c, s, cmd);
  }

  /** Chains only grow: no run removes or alters a block that was emitted. */
  lemma {:induction false} ChainsOnlyGrow(c: Crypto, s: State, cmds: seq<Command>, i: nat)
    requires i < |s.repos|
    ensures i < |Run(c, s, cmds).repos| && s.repos[i].chain <= Run(c, s, cmds).repos[i].chain
  {
    if cmds != [] {
      var n := |cmds| - 1;
      ChainsOnlyGrow(c, s, cmds[..n], i);
      StepGrowsChains(c, Run(c, s, cmds[..n]), cmds[n], i);
    }
  }

  // ---------------------------------------------------------------- identifiers

  function CountCreated(replies: seq<Reply>): nat {
    if replies == [] then 0
    else CountCreated(replies[..|replies| - 1]) + (if replies[|replies| - 1].Created? then 1 else 0)
  }

  lemma StepCounts(c: Crypto, s: State, cmd: Command)
    requires |s.repos| <= MAX_REPO_ID
    ensures var (s', reply) := Step(c, s, cmd);
            && |s'.repos| == |s.repos| + (if reply.Created? then 1 else 0) <= MAX_REPO_ID
            && (reply.Created? ==> reply.repId == |s.repos|)
  {
  }

  lemma CountExtend(replies: seq<Reply>, reply: Reply)
    ensures CountCreated(replies + [reply]) == CountCreated(replies) + (if reply.Created? then 1 else 0)
  {
  }

  /** The reply at each position is an identifier only if it is the number of those issued before. */
  ghost predicate InOrder(replies: seq<Reply>) {
    forall t :: 0 <= t < |replies| && replies[t].Created? ==> replies[t].repId == CountCreated(replies[..t])
  }

  lemma InOrderExtend(replies: seq<Reply>, reply: Reply)
    requires InOrder(replies) && (reply.Created? ==> reply.repId == CountCreated(replies))
    ensures InOrder(replies + [reply])
  {
    var all := replies + [reply];
    forall t | 0 <= t < |all| && all[t].Created? ensures all[t].repId == CountCreated(all[..t]) {
      assert all[..t] == replies[..t];
      assert replies[..|replies|] == replies;
    }
  }

  /** One more command keeps the account. */
  lemma IdsExtend(c: Crypto, s: State, cmds: seq<Command>, cmd: Command)
    requires |Run(c, s, cmds).repos| == CountCreated(Replies(c, s, cmds)) <= MAX_REPO_ID
    requires InOrder(Replies(c, s, cmds))
    ensures |Run(c, s, cmds + [cmd]).repos| == CountCreated(Replies(c, s, cmds + [cmd])) <= MAX_REPO_ID
    ensures InOrder(Replies(c, s, cmds + [cmd]))
  {
    var now, replies := Run(c, s, cmds), Replies(c, s, cmds);
    var reply := Step(c, now, cmd).1;
    StepCounts(c, now, cmd);
    RunExtend(c, s, cmds, cmd);
    RepliesExtend(c, s, cmds, cmd);
    CountExtend(replies, reply);
    InOrderExtend(replies, reply);
  }

  /** Identifiers are issued 0, 1, 2, ... once each, and there are never more than 1000. */
  lemma {:induction false} IdsIssuedInOrder(c: Crypto, slot: Option<KeyPair>, cmds: seq<Command>)
    ensures |Run(c, Start(slot), cmds).repos| == CountCreated(Replies(c, Start(slot), cmds)) <= MAX_REPO_ID
    ensures InOrder(Replies(c, Start(slot), cmds))
  {
    if cmds != [] {
      var n := |cmds| - 1;
      LastOfSum([], cmds);
      IdsIssuedInOrder(c, slot, cmds[..n]);
      IdsExtend(c, Start(slot), cmds[..n], cmds[n]);
    }
  }
}
