/** The converse of the offline check: every chain that it accepts can be emitted. */
module Emission {
  import opened Basics
  import opened Hex
  import opened Blocks
  import opened Messages
  import opened Crypto
  import opened KeyLists
  import opened Ledger
  import opened Invariants
  import opened Replay

  // ---------------------------------------------------------------- commands of which nothing fails

  const GOOD_HASH: HashCalls := HashCalls(Success, Success)
  const GOOD_VERIFY: UserVerifyCalls := UserVerifyCalls(Success, VerifyCalls(GOOD_HASH, Success, Success, Success))

  /** What the run is given: the key pair that is made if none is stored, and the text attached to commits. */
  datatype Given = Given(newKey: KeyPair, cipher: CipherText)

  function GoodLoad(g: Given): LoadCalls {
    LoadCalls(Success, Success, Success, Success, g.newKey)
  }

  function GoodSign(g: Given): SignCalls {
    SignCalls(GoodLoad(g), Success, Success, Success)
  }

  function GoodDecrypt(g: Given): DecryptCalls {
    DecryptCalls(GoodLoad(g), Success, Success, Success)
  }

  function Found(g: Given, b: Block): Command
    requires b.Access?
  {
    InitRepo(b.pubkey, InitCalls(true, true, true, NodeCalls(true, true), b.base.time, GOOD_HASH, GoodSign(g)))
  }

  /** The request that asks for a given block. */
  function Request(g: Given, repId: uint32, b: Block): Command {
    match b
    case Access(base, role, pubkey) =>
      AccessControl(
        AccessMessage(repId, base.op, role, pubkey, base.sigkey, base.signature),
        AccessCalls(GOOD_VERIFY, NodeCalls(true, true), base.time, GOOD_HASH, GoodSign(g)))
    case Contribution(base, commitHash) =>
      Commit(
        CommitMessage(repId, base.op, commitHash, base.sigkey, base.signature), g.cipher,
        CommitCalls(GOOD_VERIFY, base.time, GOOD_HASH, GoodSign(g), GoodDecrypt(g)))
  }

  // ---------------------------------------------------------------- one block

  /** The chains are equal but for the signatures of the TEE. */
  ghost predicate Same(a: seq<Block>, b: seq<Block>) {
    |a| == |b| && forall i :: 0 <= i < |a| ==> a[i].Unsigned() == b[i].Unsigned()
  }

  lemma GoodSeal(c: Crypto, g: Given, slot: Option<KeyPair>, block: Block)
    ensures var k := Seal(c, slot, block, GOOD_HASH, GoodSign(g));
            k.result.Ok? && k.slot.Some? && k.result.value == WithTeeSig(block, k.result.value.base.teeSig)
  {
  }

  /** A repository that holds a copy of an accepted chain. */
  ghost predicate Copies(c: Crypto, repId: uint32, r: Repo, chain: seq<Block>) {
    && |chain| > 0
    && Same(r.chain, chain)
    && AtTip(c, r)
    && Exclusive(r.admins, r.writers)
    && Replayed(c, repId, chain) == Some(Authority(r.admins, r.writers))
  }

  lemma TipHash(c: Crypto, r: Repo, chain: seq<Block>)
    requires Same(r.chain, chain) && AtTip(c, r)
    ensures r.latestHash == BlockHash(c, chain[|chain| - 1]) && NextHeight(r) == |chain| % WORD
  {
    var n := |chain| - 1;
    HashIgnoresTeeSig(c, r.chain[n]);
    HashIgnoresTeeSig(c, chain[n]);
    HeightStep(|chain|);
  }

  lemma SameExtend(a: seq<Block>, b: seq<Block>, x: Block, y: Block)
    requires Same(a, b) && x.Unsigned() == y.Unsigned()
    ensures Same(a + [x], b + [y])
  {
  }

  lemma AppendAtTip(c: Crypto, r: Repo, b: Block)
    requires AtTip(c, r)
    ensures AtTip(c, Append(c, r, b))
  {
    HeightStep(|r.chain|);
  }

  lemma {:induction false} AccessEmits(c: Crypto, g: Given, repId: uint32, r: Repo, slot: Option<KeyPair>,
      chain: seq<Block>, b: Block)
    requires Copies(c, repId, r, chain) && b.Access?
    requires Replayed(c, repId, chain + [b]).Some?
    ensures var cmd := Request(g, repId, b);
            && (cmd.access.op == OP_ADD || cmd.access.op == OP_DELETE)
            && Copies(c, repId, AccessStep(c, r, slot, cmd.access, cmd.accessCalls).repo, chain + [b])
  {
    var m, o := Request(g, repId, b).access, Request(g, repId, b).accessCalls;
    var a := Authority(r.admins, r.writers);
    ReplayExtend(c, repId, chain, b);
    AppliedIsChange(a, m.op, m.role, m.pubkey);
    ChangeKeepsExclusive(r.admins, r.writers, m.op, m.role, m.pubkey, true);
    TipHash(c, r, chain);
    GoodSeal(c, g, slot, AccessBlock(r, m, o.time));
    var sealed := AccessSealed(c, r, slot, m, o).result.value;
    AccessEmitted(c, r, slot, m, o);
    assert sealed.Unsigned() == b.Unsigned();
    SameExtend(r.chain, chain, sealed, b);
    AppendAtTip(c, WithKeys(r, AccessChange(r, m, o)), sealed);
  }

  /** With nothing failing, an acceptable request appends its block. */
  lemma AccessEmitted(c: Crypto, r: Repo, slot: Option<KeyPair>, m: AccessMessage, o: AccessCalls)
    requires m.sigkey in r.admins && UserCallsSucceed(o.verify) && AccessSigned(c, m)
    requires AccessChange(r, m, o).result == Success && AccessSealed(c, r, slot, m, o).result.Ok?
    ensures AccessStep(c, r, slot, m, o).repo
         == Append(c, WithKeys(r, AccessChange(r, m, o)), AccessSealed(c, r, slot, m, o).result.value)
  {
    var r' := WithKeys(r, AccessChange(r, m, o));
    assert AccessBlock(r', m, o.time) == AccessBlock(r, m, o.time);
    AccessFinished(c, r', slot, m, o);
  }

  lemma AccessFinished(c: Crypto, r: Repo, slot: Option<KeyPair>, m: AccessMessage, o: AccessCalls)
    requires AccessSealed(c, r, slot, m, o).result.Ok?
    ensures AccessFinish(c, r, slot, m, o).repo == Append(c, r, AccessSealed(c, r, slot, m, o).result.value)
  {
  }

  lemma {:induction false} CommitEmits(c: Crypto, g: Given, repId: uint32, r: Repo, slot: Option<KeyPair>,
      chain: seq<Block>, b: Block)
    requires FromHex(g.cipher).Some?
    requires Copies(c, repId, r, chain) && b.Contribution?
    requires Replayed(c, repId, chain + [b]).Some?
    ensures var cmd := Request(g, repId, b);
            && (cmd.commit.op == OP_PUSH || cmd.commit.op == OP_PR)
            && Copies(c, repId, CommitStep(c, r, slot, cmd.commit, cmd.encryptedKey, cmd.commitCalls).repo, chain + [b])
  {
    var m, o := Request(g, repId, b).commit, Request(g, repId, b).commitCalls;
    ReplayExtend(c, repId, chain, b);
    TipHash(c, r, chain);
    GoodSeal(c, g, slot, ContributionBlock(r, m, o.time));
    var sealed := CommitSealed(c, r, slot, m, o).result.value;
    CommitEmitted(c, g, r, slot, m, o);
    assert sealed.Unsigned() == b.Unsigned();
    SameExtend(r.chain, chain, sealed, b);
    AppendAtTip(c, r, sealed);
  }

  lemma CommitEmitted(c: Crypto, g: Given, r: Repo, slot: Option<KeyPair>, m: CommitMessage, o: CommitCalls)
    requires FromHex(g.cipher).Some?
    requires (m.sigkey in r.admins || m.sigkey in r.writers) && UserCallsSucceed(o.verify) && CommitSigned(c, m)
    requires CommitSealed(c, r, slot, m, o).result.Ok? && CommitSealed(c, r, slot, m, o).slot.Some?
    requires o.decrypt == GoodDecrypt(g)
    ensures CommitStep(c, r, slot, m, g.cipher, o).repo == Append(c, r, CommitSealed(c, r, slot, m, o).result.value)
  {
  }

  /** A request on the last repository puts the outcome in its place. */
  lemma RequestStep(c: Crypto, g: Given, s: State, n: uint32, b: Block, out: Outcome)
    requires |s.repos| == n + 1
    requires b.Access? ==>
               var cmd := Request(g, n, b);
               (cmd.access.op == OP_ADD || cmd.access.op == OP_DELETE)
                   && out == AccessStep(c, s.repos[n], s.slot, cmd.access, cmd.accessCalls)
    requires b.Contribution? ==>
               var cmd := Request(g, n, b);
               (cmd.commit.op == OP_PUSH || cmd.commit.op == OP_PR)
               && out == CommitStep(c, s.repos[n], s.slot, cmd.commit, cmd.encryptedKey, cmd.commitCalls)
    ensures Step(c, s, Request(g, n, b)).0 == State(s.repos[..n] + [out.repo], out.slot)
  {
  }

  lemma {:induction false} RequestEmits(c: Crypto, g: Given, s: State, n: uint32, chain: seq<Block>, b: Block)
    requires FromHex(g.cipher).Some?
    requires |s.repos| == n + 1 && Copies(c, n, s.repos[n], chain) && Replayed(c, n, chain + [b]).Some?
    ensures var s' := Step(c, s, Request(g, n, b)).0;
            |s'.repos| == n + 1 && s'.repos[..n] == s.repos[..n] && Copies(c, n, s'.repos[n], chain + [b])
  {
    var cmd := Request(g, n, b);
    if b.Access? {
      AccessEmits(c, g, n, s.repos[n], s.slot, chain, b);
      RequestStep(c, g, s, n, b, AccessStep(c, s.repos[n], s.slot, cmd.access, cmd.accessCalls));
    } else {
      CommitEmits(c, g, n, s.repos[n], s.slot, chain, b);
      RequestStep(c, g, s, n, b, CommitStep(c, s.repos[n], s.slot, cmd.commit, cmd.encryptedKey, cmd.commitCalls));
    }
  }

  lemma FoundingEmits(c: Crypto, g: Given, s: State, b: Block)
    requires |s.repos| < MAX_REPO_ID && Founding(b).Some?
    ensures var s' := Step(c, s, Found(g, b)).0;
            |s'.repos| == |s.repos| + 1 && s'.repos[..|s.repos|] == s.repos
                && Copies(c, |s.repos|, s'.repos[|s.repos|], [b])
  {
    GoodSeal(c, g, s.slot, GenesisBlock(b.pubkey, b.base.time));
  }

  // ---------------------------------------------------------------- whole chains

  /** The run adds one repository, holding the chain, and leaves all others alone. */
  ghost predicate Emits(c: Crypto, s: State, cmds: seq<Command>, chain: seq<Block>)
    requires |s.repos| < MAX_REPO_ID
  {
    var s', n := Run(c, s, cmds), |s.repos|;
    |s'.repos| == n + 1 && s'.repos[..n] == s.repos && Copies(c, n, s'.repos[n], chain)
  }

  lemma EmitsFirst(c: Crypto, g: Given, s: State, b: Block)
    requires |s.repos| < MAX_REPO_ID && Founding(b).Some?
    ensures Emits(c, s, [] + [Found(g, b)], [b])
  {
    FoundingEmits(c, g, s, b);
    RunExtend(c, s, [], Found(g, b));
  }

  lemma EmitsOneMore(c: Crypto, g: Given, s: State, cmds: seq<Command>, chain: seq<Block>, b: Block)
    requires FromHex(g.cipher).Some?
    requires |s.repos| < MAX_REPO_ID && Emits(c, s, cmds, chain) && Replayed(c, |s.repos|, chain + [b]).Some?
    ensures Emits(c, s, cmds + [Request(g, |s.repos|, b)], chain + [b])
  {
    RequestEmits(c, g, Run(c, s, cmds), |s.repos|, chain, b);
    RunExtend(c, s, cmds, Request(g, |s.repos|, b));
  }

  /** The commands that ask for the blocks of a chain, one by one. */
  function Requests(g: Given, repId: uint32, chain: seq<Block>): seq<Command>
    requires |chain| > 0 && chain[0].Access?
  {
    if |chain| == 1 then [Found(g, chain[0])]
    else Requests(g, repId, chain[..|chain| - 1]) + [Request(g, repId, chain[|chain| - 1])]
  }

  lemma {:induction false} AcceptedStartsWithAccess(c: Crypto, repId: uint32, chain: seq<Block>)
    requires Replayed(c, repId, chain).Some?
    ensures |chain| > 0 && chain[0].Access?
  {
    if |chain| > 1 {
      AcceptedStartsWithAccess(c, repId, chain[..|chain| - 1]);
    }
  }

  /**
   * From any state with room for a repository, every chain that the offline check accepts for the next
   * identifier is emitted, block by block in all fields but the signatures of the TEE, by asking for its
   * blocks one after the other. This leaves all other repositories alone and ends with the key lists that
   * replaying the chain yields. Whatever decodable text is attached to the commits, and whatever key the
   * TEE makes, will do.
   */
  lemma {:induction false} AcceptedChainsAreEmitted(c: Crypto, g: Given, s: State, chain: seq<Block>)
    requires FromHex(g.cipher).Some?
    requires |s.repos| < MAX_REPO_ID && Replayed(c, |s.repos|, chain).Some?
    ensures |chain| > 0 && chain[0].Access?
    ensures var n := |s.repos|;
            var s' := Run(c, s, Requests(g, n, chain));
            && |s'.repos| == n + 1
            && s'.repos[..n] == s.repos
            && Same(s'.repos[n].chain, chain)
            && Replayed(c, n, chain) == Some(Authority(s'.repos[n].admins, s'.repos[n].writers))
  {
    AcceptedStartsWithAccess(c, |s.repos|, chain);
    Emitted(c, g, s, chain);
  }

  lemma LastBlock(chain: seq<Block>)
    requires |chain| > 0
    ensures chain == chain[..|chain| - 1] + [chain[|chain| - 1]]
  {
  }

  lemma {:induction false} Emitted(c: Crypto, g: Given, s: State, chain: seq<Block>)
    requires FromHex(g.cipher).Some?
    requires |s.repos| < MAX_REPO_ID && Replayed(c, |s.repos|, chain).Some? && chain[0].Access?
    ensures Emits(c, s, Requests(g, |s.repos|, chain), chain)
    decreases |chain|
  {
    if |chain| == 1 {
      assert chain == [chain[0]];
      assert [Found(g, chain[0])] == [] + [Found(g, chain[0])];
      EmitsFirst(c, g, s, chain[0]);
    } else {
      var before, b := chain[..|chain| - 1], chain[|chain| - 1];
      LastBlock(chain);
      Emitted(c, g, s, before);
      EmitsOneMore(c, g, s, Requests(g, |s.repos|, before), before, b);
    }
  }
}
