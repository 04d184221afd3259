/** The signatures of the TEE on the blocks, and on the answer of `get_latest_hash`. */
module TeeSignatures {
  import opened Basics
  import opened Hex
  import opened Blocks
  import opened Messages
  import opened Crypto
  import opened Ledger
  import opened Invariants

  // ---------------------------------------------------------------- the key and the blocks

  /** Opening the stored key, if there is one, works throughout the command. */
  predicate OpensFaithfully(cmd: Command) {
    match cmd
    case InitRepo(_, o) => o.sign.load.open == Success
    case AccessControl(_, o) => o.sign.load.open == Success
    case GetLatestHash(_, _, o) => o.sign.load.open == Success
    case Commit(_, _, o) => o.sign.load.open == Success && o.decrypt.load.open == Success
    case GetTeePublicKey(_) => true
    case Malformed(_) => true
  }

  /** Every block of every repository carries the signature of the stored key on its hashed text. */
  ghost predicate AllSigned(c: Crypto, s: State) {
    forall i :: 0 <= i < |s.repos| ==> s.slot.Some? && ChainSigned(c, s.slot.value, s.repos[i].chain)
  }

  ghost predicate ChainSigned(c: Crypto, key: KeyPair, chain: seq<Block>) {
    forall k :: 0 <= k < |chain| ==> BlockSigned(c, key, chain[k])
  }

  predicate BlockSigned(c: Crypto, key: KeyPair, b: Block) {
    b.base.teeSig == ToHex(c.rsaSign(key, c.sha256(Serialise(b))))
  }

  lemma SealSigns(c: Crypto, slot: Option<KeyPair>, block: Block, h: HashCalls, s: SignCalls)
    requires s.load.open == Success
    ensures var k := Seal(c, slot, block, h, s);
            && (slot.Some? ==> k.slot == slot)
            && (k.result.Ok? ==> k.slot.Some? && BlockSigned(c, k.slot.value, k.result.value))
  {
    SignedDigest(c, slot, Serialise(block), s);
    var k := Seal(c, slot, block, h, s);
    if k.result.Ok? {
      assert Fields(k.result.value) == Fields(block);
    }
  }

  /** Nothing but the first generation of a key touches the slot. */
  lemma StepKeepsKey(c: Crypto, s: State, cmd: Command)
    requires OpensFaithfully(cmd) && s.slot.Some?
    ensures Step(c, s, cmd).0.slot == s.slot
  {
    StepLoads(c, s, cmd);
    LoadedKeepsIff(s.slot.value, LoadsReached(c, s, cmd));
  }

  /** The chain is as before, or one block longer, and that block is signed by the stored key. */
  ghost predicate GrewSigned(c: Crypto, slot: Option<KeyPair>, chain: seq<Block>, chain': seq<Block>) {
    || chain' == chain
    || (slot.Some? && chain' != [] && chain' == chain + [chain'[|chain'| - 1]]
        && BlockSigned(c, slot.value, chain'[|chain'| - 1]))
  }

  lemma AccessFinishAddsSigned(c: Crypto, r: Repo, slot: Option<KeyPair>, m: AccessMessage, o: AccessCalls)
    requires o.sign.load.open == Success
    ensures var out := AccessFinish(c, r, slot, m, o);
            GrewSigned(c, out.slot, r.chain, out.repo.chain)
  {
    SealSigns(c, slot, AccessBlock(r, m, o.time), o.hash, o.sign);
  }

  lemma AccessAddsSigned(c: Crypto, r: Repo, slot: Option<KeyPair>, m: AccessMessage, o: AccessCalls)
    requires o.sign.load.open == Success
    ensures var out := AccessStep(c, r, slot, m, o);
            GrewSigned(c, out.slot, r.chain, out.repo.chain)
  {
    AccessFinishAddsSigned(c, WithKeys(r, AccessChange(r, m, o)), slot, m, o);
  }

  lemma CommitAddsSigned(c: Crypto, r: Repo, slot: Option<KeyPair>, m: CommitMessage, e: CipherText, o: CommitCalls)
    requires o.sign.load.open == Success && o.decrypt.load.open == Success
    ensures var out := CommitStep(c, r, slot, m, e, o);
            GrewSigned(c, out.slot, r.chain, out.repo.chain)
  {
    SealSigns(c, slot, ContributionBlock(r, m, o.time), o.hash, o.sign);
  }

  /** The block that a step adds to repository `i`, if it adds one, is signed. */
  lemma {:induction false} StepAddsSigned(c: Crypto, s: State, cmd: Command, i: nat)
    requires OpensFaithfully(cmd) && i < |Step(c, s, cmd).0.repos|
    ensures var s' := Step(c, s, cmd).0;
            GrewSigned(c, s'.slot, if i < |s.repos| then s.repos[i].chain else [], s'.repos[i].chain)
  {
    match cmd
    case InitRepo(adminKey, o) =>
      SealSigns(c, s.slot, GenesisBlock(adminKey, o.time), o.hash, o.sign);
    case AccessControl(m, o) =>
      if m.repId < |s.repos| {
        AccessAddsSigned(c, s.repos[m.repId], s.slot, m, o);
      }
    case GetLatestHash(id, nonce, o) =>
    case Commit(m, e, o) =>
      if m.repId < |s.repos| {
        CommitAddsSigned(c, s.repos[m.repId], s.slot, m, e, o);
      }
    case GetTeePublicKey(_) =>
    case Malformed(_) =>
  }

  lemma {:induction false} StepKeepsSigned(c: Crypto, s: State, cmd: Command)
    requires OpensFaithfully(cmd) && AllSigned(c, s) && (forall i :: 0 <= i < |s.repos| ==> s.repos[i].chain != [])
    ensures AllSigned(c, Step(c, s, cmd).0)
  {
    var s' := Step(c, s, cmd).0;
    if s.slot.Some? {
      StepKeepsKey(c, s, cmd);
    }
    forall i | 0 <= i < |s'.repos| ensures s'.slot.Some? && ChainSigned(c, s'.slot.value, s'.repos[i].chain) {
      StepAddsSigned(c, s, cmd, i);
    }
  }

  lemma {:induction false} RunKeepsSigned(c: Crypto, slot: Option<KeyPair>, cmds: seq<Command>)
    requires forall t :: 0 <= t < |cmds| ==> OpensFaithfully(cmds[t])
    ensures AllSigned(c, Run(c, Start(slot), cmds))
    ensures slot.Some? ==> Run(c, Start(slot), cmds).slot == slot
  {
    if cmds != [] {
      var n := |cmds| - 1;
      RunKeepsSigned(c, slot, cmds[..n]);
      var s := Run(c, Start(slot), cmds[..n]);
      RunKeepsInvariant(c, Start(slot), cmds[..n]);
      forall i | 0 <= i < |s.repos| ensures s.repos[i].chain != [] { assert RepoInvariant(c, i, s.repos[i]); }
      StepKeepsSigned(c, s, cmds[n]);
      if s.slot.Some? {
        StepKeepsKey(c, s, cmds[n]);
      }
    }
  }

  /** The reply hands out this block. */
  predicate HandsOut(reply: Reply, b: Block) {
    || (reply.Created? && reply.genesis == b)
    || (reply.Appended? && reply.block == b)
    || (reply.Committed? && reply.contribution == b)
  }

  /** The repository that the command created or named. */
  function HomeOf(cmd: Command, reply: Reply): nat {
    if reply.Created? then reply.repId
    else if cmd.AccessControl? then cmd.access.repId
    else if cmd.Commit? then cmd.commit.repId
    else 0
  }

  /** A block that was handed out is in its chain for ever after. */
  lemma {:induction false} HandedOutStays(c: Crypto, s: State, cmds: seq<Command>, t: nat, b: Block)
    requires t < |cmds| && HandsOut(Replies(c, s, cmds)[t], b)
    ensures var i := HomeOf(cmds[t], Replies(c, s, cmds)[t]);
            i < |Run(c, s, cmds).repos| && b in Run(c, s, cmds).repos[i].chain
  {
    var before := Run(c, s, cmds[..t]);
    var now := Step(c, before, cmds[t]).0;
    RunThrough(c, s, cmds, t);
    var i := HomeOf(cmds[t], Replies(c, s, cmds)[t]);
    HandedOutNow(c, before, cmds[t], b);
    ChainsOnlyGrow(c, now, cmds[t + 1..], i);
    InPrefix(now.repos[i].chain, Run(c, s, cmds).repos[i].chain, b);
  }

  lemma RunThrough(c: Crypto, s: State, cmds: seq<Command>, t: nat)
    requires t < |cmds|
    ensures Run(c, s, cmds) == Run(c, Step(c, Run(c, s, cmds[..t]), cmds[t]).0, cmds[t + 1..])
  {
    assert cmds == (cmds[..t] + [cmds[t]]) + cmds[t + 1..];
    RunExtend(c, s, cmds[..t], cmds[t]);
    RunAppend(c, s, cmds[..t] + [cmds[t]], cmds[t + 1..]);
  }

  lemma HandedOutNow(c: Crypto, s: State, cmd: Command, b: Block)
    requires HandsOut(Step(c, s, cmd).1, b)
    ensures var i := HomeOf(cmd, Step(c, s, cmd).1);
            i < |Step(c, s, cmd).0.repos| && b in Step(c, s, cmd).0.repos[i].chain
  {
    ReplyIsNewestBlock(c, s, cmd);
  }

  lemma InPrefix(a: seq<Block>, b: seq<Block>, x: Block)
    requires a <= b && x in a
    ensures x in b
  {
    var k :| 0 <= k < |a| && a[k] == x;
    assert b[k] == x;
  }

  // ---------------------------------------------------------------- exactly when the key survives

  /** The load takes a failure to open for absence and stores a new key. */
  predicate Overwrites(l: LoadCalls) {
    l.open != Success && GenerateResult(l) == Success
  }

  /** The slot after a sequence of loads. */
  function Loaded(slot: Option<KeyPair>, loads: seq<LoadCalls>): Option<KeyPair> {
    if loads == [] then slot
    else Load(Loaded(slot, loads[..|loads| - 1]), loads[|loads| - 1]).slot
  }

  /** The last load that overwrites the key, if there is one, writes this key. */
  predicate EndsWith(key: KeyPair, loads: seq<LoadCalls>) {
    forall i | 0 <= i < |loads| && Overwrites(loads[i]) && (forall j | i < j < |loads| :: !Overwrites(loads[j])) ::
      loads[i].newKey == key
  }

  lemma {:induction false} LoadedKeepsIff(key: KeyPair, loads: seq<LoadCalls>)
    ensures Loaded(Some(key), loads).Some?
    ensures Loaded(Some(key), loads) == Some(key) <==> EndsWith(key, loads)
  {
    if loads != [] {
      var n := |loads| - 1;
      var before := loads[..n];
      LoadedKeepsIff(key, before);
      if Overwrites(loads[n]) {
        assert EndsWith(key, loads) <==> loads[n].newKey == key;
      } else {
        EndsWithSkips(key, loads);
      }
    }
  }

  lemma EndsWithSkips(key: KeyPair, loads: seq<LoadCalls>)
    requires loads != [] && !Overwrites(loads[|loads| - 1])
    ensures EndsWith(key, loads) <==> EndsWith(key, loads[..|loads| - 1])
  {
    var before := loads[..|loads| - 1];
    if EndsWith(key, before) {
      forall i | 0 <= i < |loads| && Overwrites(loads[i]) && (forall j | i < j < |loads| :: !Overwrites(loads[j]))
        ensures loads[i].newKey == key
      {
        assert before[i] == loads[i];
        assert forall j | i < j < |before| :: before[j] == loads[j];
      }
    }
    if EndsWith(key, loads) {
      forall i | 0 <= i < |before| && Overwrites(before[i]) && (forall j | i < j < |before| :: !Overwrites(before[j]))
        ensures before[i].newKey == key
      {
        assert before[i] == loads[i];
        assert forall j | i < j < |before| :: before[j] == loads[j];
      }
    }
  }

  lemma {:induction false} LoadedAppend(slot: Option<KeyPair>, a: seq<LoadCalls>, b: seq<LoadCalls>)
    ensures Loaded(slot, a + b) == Loaded(Loaded(slot, a), b)
  {
    if b == [] {
      assert a + b == a;
    } else {
      var n := |b| - 1;
      LoadedAppend(slot, a, b[..n]);
      assert (a + b)[..|a + b| - 1] == a + b[..n];
    }
  }

  /** The command gets as far as signing. */
  predicate Signs(c: Crypto, s: State, cmd: Command) {
    match cmd
    case InitRepo(_, o) => |s.repos| < MAX_REPO_ID && InitAllocates(o) && HashResult(o.hash) == Success
    case AccessControl(m, o) =>
      && (m.op == OP_ADD || m.op == OP_DELETE)
      && m.repId < |s.repos|
      && m.sigkey in s.repos[m.repId].admins && UserCallsSucceed(o.verify) && AccessSigned(c, m)
      && AccessChange(s.repos[m.repId], m, o).result == Success
      && HashResult(o.hash) == Success
    case GetLatestHash(id, _, o) => id < |s.repos| && HashResult(o.hash) == Success
    case Commit(m, _, o) =>
      && (m.op == OP_PUSH || m.op == OP_PR)
      && m.repId < |s.repos|
      && (m.sigkey in s.repos[m.repId].admins || m.sigkey in s.repos[m.repId].writers)
      && UserCallsSucceed(o.verify) && CommitSigned(c, m)
      && HashResult(o.hash) == Success
    case GetTeePublicKey(_) => false
    case Malformed(_) => false
  }

  function SignCallsOf(cmd: Command): SignCalls
    requires !cmd.GetTeePublicKey? && !cmd.Malformed?
  {
    match cmd
    case InitRepo(_, o) => o.sign
    case AccessControl(_, o) => o.sign
    case GetLatestHash(_, _, o) => o.sign
    case Commit(_, _, o) => o.sign
  }

  /** Signing does not fail with the key that is loaded. */
  predicate SignSucceeds(slot: Option<KeyPair>, o: SignCalls) {
    Load(slot, o.load).result.Ok? && o.allocate == Success && o.setKey == Success && o.sign == Success
  }

  /** The loads of the key that a command performs, in order: one to sign, and one to decrypt. */
  function LoadsReached(c: Crypto, s: State, cmd: Command): seq<LoadCalls> {
    if !Signs(c, s, cmd) then []
    else if cmd.Commit? && SignSucceeds(s.slot, cmd.commitCalls.sign) && FromHex(cmd.encryptedKey).Some?
    then [cmd.commitCalls.sign.load, cmd.commitCalls.decrypt.load]
    else [SignCallsOf(cmd).load]
  }

  lemma LoadedOne(slot: Option<KeyPair>, l: LoadCalls)
    ensures Loaded(slot, [l]) == Load(slot, l).slot
  {
  }

  lemma LoadedTwo(slot: Option<KeyPair>, l: LoadCalls, l': LoadCalls)
    ensures Loaded(slot, [l, l']) == Load(Load(slot, l).slot, l').slot
  {
    LoadedOne(slot, l);
    assert [l, l'][..1] == [l];
  }

  lemma SealLoads(c: Crypto, slot: Option<KeyPair>, block: Block, h: HashCalls, s: SignCalls)
    ensures var k := Seal(c, slot, block, h, s);
            && (HashResult(h) == Success ==> k.slot == Load(slot, s.load).slot)
            && (HashResult(h) != Success ==> k.slot == slot && k.result.Err?)
            && (k.result.Ok? <==> HashResult(h) == Success && SignSucceeds(slot, s))
  {
    DecodeEncode(c.sha256(Serialise(block)));
  }

  lemma InitLoads(c: Crypto, s: State, adminKey: KeyText, o: InitCalls)
    ensures Step(c, s, InitRepo(adminKey, o)).0.slot == Loaded(s.slot, LoadsReached(c, s, InitRepo(adminKey, o)))
  {
    LoadedOne(s.slot, o.sign.load);
    SealLoads(c, s.slot, GenesisBlock(adminKey, o.time), o.hash, o.sign);
  }

  lemma LatestLoads(c: Crypto, s: State, id: uint32, nonce: uint32, o: LatestCalls)
    ensures Step(c, s, GetLatestHash(id, nonce, o)).0.slot
         == Loaded(s.slot, LoadsReached(c, s, GetLatestHash(id, nonce, o)))
  {
    LoadedOne(s.slot, o.sign.load);
    if id < |s.repos| {
      LatestSignedLoads(c, s.slot, LatestText(nonce, s.repos[id].latestHash), o);
    }
  }

  lemma LatestSignedLoads(c: Crypto, slot: Option<KeyPair>, text: string, o: LatestCalls)
    ensures LatestSigned(c, slot, text, o).slot == if HashResult(o.hash) == Success then Load(slot, o.sign.load).slot
                                                   else slot
  {
    DecodeEncode(c.sha256(text));
  }

  lemma AccessLoads(c: Crypto, s: State, m: AccessMessage, o: AccessCalls)
    ensures Step(c, s, AccessControl(m, o)).0.slot == Loaded(s.slot, LoadsReached(c, s, AccessControl(m, o)))
  {
    LoadedOne(s.slot, o.sign.load);
    if m.repId < |s.repos| {
      var r := s.repos[m.repId];
      SealLoads(c, s.slot, AccessBlock(WithKeys(r, AccessChange(r, m, o)), m, o.time), o.hash, o.sign);
    }
  }

  lemma CommitLoads(c: Crypto, s: State, m: CommitMessage, e: CipherText, o: CommitCalls)
    ensures Step(c, s, Commit(m, e, o)).0.slot == Loaded(s.slot, LoadsReached(c, s, Commit(m, e, o)))
  {
    LoadedOne(s.slot, o.sign.load);
    LoadedTwo(s.slot, o.sign.load, o.decrypt.load);
    if m.repId < |s.repos| {
      SealLoads(c, s.slot, ContributionBlock(s.repos[m.repId], m, o.time), o.hash, o.sign);
    }
  }

  /** Nothing but these loads touches the key. */
  lemma StepLoads(c: Crypto, s: State, cmd: Command)
    ensures Step(c, s, cmd).0.slot == Loaded(s.slot, LoadsReached(c, s, cmd))
  {
    match cmd
    case InitRepo(adminKey, o) => InitLoads(c, s, adminKey, o);
    case AccessControl(m, o) => AccessLoads(c, s, m, o);
    case GetLatestHash(id, nonce, o) => LatestLoads(c, s, id, nonce, o);
    case Commit(m, e, o) => CommitLoads(c, s, m, e, o);
    case GetTeePublicKey(_) =>
    case Malformed(_) =>
  }

  /** All loads of a run, in order. */
  function RunLoads(c: Crypto, s: State, cmds: seq<Command>): seq<LoadCalls> {
    if cmds == [] then []
    else
      var before := cmds[..|cmds| - 1];
      RunLoads(c, s, before) + LoadsReached(c, Run(c, s, before), cmds[|cmds| - 1])
  }

  lemma {:induction false} RunIsLoads(c: Crypto, s: State, cmds: seq<Command>)
    ensures Run(c, s, cmds).slot == Loaded(s.slot, RunLoads(c, s, cmds))
  {
    if cmds != [] {
      var n := |cmds| - 1;
      var before := cmds[..n];
      RunIsLoads(c, s, before);
      StepLoads(c, Run(c, s, before), cmds[n]);
      LoadedAppend(s.slot, RunLoads(c, s, before), LoadsReached(c, Run(c, s, before), cmds[n]));
    }
  }

  /**
   * Over any run, the stored key is at the end what it was at the start exactly when the last load in it
   * that could not open the key but could make a new one, if there was any, happened to make the same.
   */
  lemma {:induction false} RunKeepsKeyIff(c: Crypto, s: State, cmds: seq<Command>)
    requires s.slot.Some?
    ensures Run(c, s, cmds).slot == s.slot <==> EndsWith(s.slot.value, RunLoads(c, s, cmds))
    ensures Run(c, s, cmds).slot.Some?
  {
    RunIsLoads(c, s, cmds);
    LoadedKeepsIff(s.slot.value, RunLoads(c, s, cmds));
  }

  // ---------------------------------------------------------------- exactly when a block's signature stays good

  /** The key that a command signs with. */
  function KeyUsed(s: State, cmd: Command): Option<KeyPair>
    requires !cmd.GetTeePublicKey? && !cmd.Malformed?
  {
    Load(s.slot, SignCallsOf(cmd).load).slot
  }

  lemma SealedWith(c: Crypto, slot: Option<KeyPair>, block: Block, h: HashCalls, s: SignCalls)
    ensures var k, loaded := Seal(c, slot, block, h, s), Load(slot, s.load).slot;
            k.result.Ok? ==> loaded.Some? && BlockSigned(c, loaded.value, k.result.value)
  {
    SignedDigest(c, slot, Serialise(block), s);
    var k := Seal(c, slot, block, h, s);
    if k.result.Ok? {
      HashIgnoresTeeSig(c, k.result.value);
      HashIgnoresTeeSig(c, block);
    }
  }

  lemma AppendedSigned(c: Crypto, r: Repo, slot: Option<KeyPair>, m: AccessMessage, o: AccessCalls)
    requires AccessStep(c, r, slot, m, o).reply.Appended?
    ensures var b, loaded := AccessStep(c, r, slot, m, o).reply.block, Load(slot, o.sign.load).slot;
            loaded.Some? && BlockSigned(c, loaded.value, b)
  {
    SealedWith(c, slot, AccessBlock(WithKeys(r, AccessChange(r, m, o)), m, o.time), o.hash, o.sign);
  }

  lemma CommittedSigned(c: Crypto, r: Repo, slot: Option<KeyPair>, m: CommitMessage, e: CipherText, o: CommitCalls)
    requires CommitStep(c, r, slot, m, e, o).reply.Committed?
    ensures var b, loaded := CommitStep(c, r, slot, m, e, o).reply.contribution, Load(slot, o.sign.load).slot;
            loaded.Some? && BlockSigned(c, loaded.value, b)
  {
    SealedWith(c, slot, ContributionBlock(r, m, o.time), o.hash, o.sign);
  }

  lemma HandedOutSigns(c: Crypto, s: State, cmd: Command, b: Block)
    requires HandsOut(Step(c, s, cmd).1, b)
    ensures !cmd.GetTeePublicKey? && !cmd.Malformed? && Signs(c, s, cmd)
  {
  }

  /** The block that a command hands out is signed with the key it used. */
  lemma {:induction false} HandedOutSigned(c: Crypto, s: State, cmd: Command, b: Block)
    requires HandsOut(Step(c, s, cmd).1, b)
    ensures !cmd.GetTeePublicKey? && !cmd.Malformed? && Signs(c, s, cmd)
    ensures KeyUsed(s, cmd).Some? && BlockSigned(c, KeyUsed(s, cmd).value, b)
  {
    HandedOutSigns(c, s, cmd, b);
    if cmd.InitRepo? {
      SealedWith(c, s.slot, GenesisBlock(cmd.adminKey, cmd.init.time), cmd.init.hash, cmd.init.sign);
    } else if cmd.AccessControl? {
      AppendedSigned(c, s.repos[cmd.access.repId], s.slot, cmd.access, cmd.accessCalls);
    } else if cmd.Commit? {
      CommittedSigned(c, s.repos[cmd.commit.repId], s.slot, cmd.commit, cmd.encryptedKey, cmd.commitCalls);
    }
  }

  /** The loads of the key after the one that step `t` signed with. */
  function LoadsSince(c: Crypto, s: State, cmds: seq<Command>, t: nat): seq<LoadCalls>
    requires t < |cmds|
  {
    var before := Run(c, s, cmds[..t]);
    LaterLoads(c, before, cmds[t]) + RunLoads(c, Step(c, before, cmds[t]).0, cmds[t + 1..])
  }

  function LaterLoads(c: Crypto, s: State, cmd: Command): seq<LoadCalls> {
    var loads := LoadsReached(c, s, cmd);
    if loads == [] then [] else loads[1..]
  }

  lemma StepSinceSigning(c: Crypto, s: State, cmd: Command)
    requires Signs(c, s, cmd)
    ensures !cmd.GetTeePublicKey? && !cmd.Malformed?
    ensures Step(c, s, cmd).0.slot == Loaded(KeyUsed(s, cmd), LaterLoads(c, s, cmd))
  {
    var loads := LoadsReached(c, s, cmd);
    assert loads == [SignCallsOf(cmd).load] + loads[1..];
    StepLoads(c, s, cmd);
    LoadedAppend(s.slot, [SignCallsOf(cmd).load], loads[1..]);
    LoadedOne(s.slot, SignCallsOf(cmd).load);
  }

  lemma SlotSinceSigning(c: Crypto, s: State, cmds: seq<Command>, t: nat)
    requires t < |cmds| && Signs(c, Run(c, s, cmds[..t]), cmds[t])
    ensures !cmds[t].GetTeePublicKey? && !cmds[t].Malformed?
    ensures Run(c, s, cmds).slot == Loaded(KeyUsed(Run(c, s, cmds[..t]), cmds[t]), LoadsSince(c, s, cmds, t))
  {
    var before := Run(c, s, cmds[..t]);
    var now := Step(c, before, cmds[t]).0;
    StepSinceSigning(c, before, cmds[t]);
    RunThrough(c, s, cmds, t);
    RunIsLoads(c, now, cmds[t + 1..]);
    LoadedAppend(KeyUsed(before, cmds[t]), LaterLoads(c, before, cmds[t]), RunLoads(c, now, cmds[t + 1..]));
  }

  /** What `tee_verify_signature` makes of a block that is signed with the stored key. */
  lemma SignedBlockVerifies(c: Crypto, key: KeyPair, b: Block, o: TeeVerifyCalls)
    requires VerifyAcceptsSign(c) && BlockSigned(c, key, b) && o.load.open == Success
    ensures TeeVerifies(c, Some(key), Serialise(b), b.base.teeSig, o)
            <==> o.allocate == Success && o.copy == Success && VerifyCallsSucceed(o.verify)
  {
    SignThenVerify(c, key, Serialise(b));
  }

  /**
   * Take any block that step `t` of any run handed out. At the end of the run, however much later, it is
   * still in the chain of the repository that this step created or named. The key it was signed with is
   * then the stored one exactly when the last load since that overwrote the key, if there was any, wrote
   * the same; and if so, `tee_verify_signature`, as far as it can open the key, accepts the signature on
   * the text that was hashed exactly when none of the calls that it makes fails.
   */
  lemma {:induction false} EmittedBlocksVerify(c: Crypto, slot: Option<KeyPair>, cmds: seq<Command>, t: nat,
      b: Block, o: TeeVerifyCalls)
    requires VerifyAcceptsSign(c)
    requires t < |cmds| && HandsOut(Replies(c, Start(slot), cmds)[t], b)
    requires o.load.open == Success
    ensures var s, i := Run(c, Start(slot), cmds), HomeOf(cmds[t], Replies(c, Start(slot), cmds)[t]);
            i < |s.repos| && b in s.repos[i].chain
    ensures !cmds[t].GetTeePublicKey? && !cmds[t].Malformed?
    ensures var s, key := Run(c, Start(slot), cmds), KeyUsed(Run(c, Start(slot), cmds[..t]), cmds[t]);
            && key.Some?
            && (s.slot == key <==> EndsWith(key.value, LoadsSince(c, Start(slot), cmds, t)))
            && (s.slot == key ==>
                  (TeeVerifies(c, s.slot, Serialise(b), b.base.teeSig, o)
                   <==> o.allocate == Success && o.copy == Success && VerifyCallsSucceed(o.verify)))
  {
    var before := Run(c, Start(slot), cmds[..t]);
    HandedOutStays(c, Start(slot), cmds, t, b);
    HandedOutSigned(c, before, cmds[t], b);
    SlotSinceSigning(c, Start(slot), cmds, t);
    LoadedKeepsIff(KeyUsed(before, cmds[t]).value, LoadsSince(c, Start(slot), cmds, t));
    SignedBlockVerifies(c, KeyUsed(before, cmds[t]).value, b, o);
  }

  lemma NoneOverwrites(c: Crypto, s: State, cmd: Command)
    requires OpensFaithfully(cmd)
    ensures forall l :: l in LoadsReached(c, s, cmd) ==> !Overwrites(l)
  {
  }

  lemma {:induction false} RunNoneOverwrites(c: Crypto, s: State, cmds: seq<Command>)
    requires forall t :: 0 <= t < |cmds| ==> OpensFaithfully(cmds[t])
    ensures forall l :: l in RunLoads(c, s, cmds) ==> !Overwrites(l)
  {
    if cmds != [] {
      var n := |cmds| - 1;
      RunNoneOverwrites(c, s, cmds[..n]);
      NoneOverwrites(c, Run(c, s, cmds[..n]), cmds[n]);
    }
  }

  lemma NoneEndsWith(key: KeyPair, loads: seq<LoadCalls>)
    requires forall l :: l in loads ==> !Overwrites(l)
    ensures EndsWith(key, loads)
  {
  }

  /** In particular it is accepted then if from that step on the stored key can always be opened. */
  lemma {:induction false} FaithfulRunsVerify(c: Crypto, slot: Option<KeyPair>, cmds: seq<Command>, t: nat,
      b: Block, o: TeeVerifyCalls)
    requires VerifyAcceptsSign(c)
    requires t < |cmds| && HandsOut(Replies(c, Start(slot), cmds)[t], b)
    requires forall u :: t <= u < |cmds| ==> OpensFaithfully(cmds[u])
    requires o.load.open == Success
    ensures TeeVerifies(c, Run(c, Start(slot), cmds).slot, Serialise(b), b.base.teeSig, o)
            <==> o.allocate == Success && o.copy == Success && VerifyCallsSucceed(o.verify)
  {
    var before := Run(c, Start(slot), cmds[..t]);
    EmittedBlocksVerify(c, slot, cmds, t, b, o);
    NoneOverwrites(c, before, cmds[t]);
    RunNoneOverwrites(c, Step(c, before, cmds[t]).0, cmds[t + 1..]);
    NoneEndsWith(KeyUsed(before, cmds[t]).value, LoadsSince(c, Start(slot), cmds, t));
  }

  /**
   * So it takes only one command: when opening the stored key fails for once and the calls that make a
   * new one do not, answering `get_latest_hash` replaces the key.
   */
  lemma FailedOpenReplacesKey(c: Crypto, s: State, id: uint32, nonce: uint32, o: LatestCalls)
    requires id < |s.repos| && HashResult(o.hash) == Success
    requires o.sign.load.open != Success && GenerateResult(o.sign.load) == Success
    ensures Step(c, s, GetLatestHash(id, nonce, o)).0.slot == Some(o.sign.load.newKey)
  {
  }

  // ---------------------------------------------------------------- the answer of get_latest_hash

  predicate NoZeroByte(nonce: uint32) {
    nonce % 256 != 0 && nonce / 0x100 % 256 != 0 && nonce / 0x1_0000 % 256 != 0 && nonce / 0x100_0000 != 0
  }

  lemma {:induction false} CStringAppend(a: string, b: string)
    ensures '\0' !in a ==> CString(a + b) == a + CString(b)
    ensures '\0' in a ==> CString(a + b) == CString(a)
  {
    if a != [] {
      assert (a + b)[1..] == a[1..] + b;
      CStringAppend(a[1..], b);
      assert a == [a[0]] + a[1..];
    } else {
      assert a + b == b;
    }
  }

  lemma {:induction false} CStringWhole(s: string)
    requires '\0' !in s
    ensures CString(s) == s
  {
    if s != [] {
      CStringWhole(s[1..]);
    }
  }

  lemma WordBytesZero(nonce: uint32)
    ensures NoZeroByte(nonce) <==> '\0' !in WordBytes(nonce)
  {
  }

  lemma WordBytesInjective(a: uint32, b: uint32)
    requires WordBytes(a) == WordBytes(b)
    ensures a == b
  {
    ByteOf(a % 256, b % 256, WordBytes(a), WordBytes(b), 0);
    ByteOf(a / 0x100 % 256, b / 0x100 % 256, WordBytes(a), WordBytes(b), 1);
    ByteOf(a / 0x1_0000 % 256, b / 0x1_0000 % 256, WordBytes(a), WordBytes(b), 2);
    ByteOf(a / 0x100_0000, b / 0x100_0000, WordBytes(a), WordBytes(b), 3);
    FourBytes(a);
    FourBytes(b);
  }

  lemma ByteOf(x: byte, y: byte, v: string, w: string, i: nat)
    requires v == w && i < |v| && v[i] == x as char && w[i] == y as char
    ensures x == y
  {
  }

  lemma FourBytes(n: uint32)
    ensures n == n % 256 + 0x100 * (n / 0x100 % 256) + 0x1_0000 * (n / 0x1_0000 % 256) + 0x100_0000 * (n / 0x100_0000)
  {
    var a := n / 0x100;
    var b := a / 0x100;
    ShiftTwice(n);
    ShiftThrice(n);
    assert n == n % 256 + 0x100 * a && a == a % 256 + 0x100 * b && b == b % 256 + 0x100 * (b / 0x100);
  }

  lemma ShiftTwice(n: nat)
    ensures n / 0x1_0000 == n / 0x100 / 0x100
  {
  }

  lemma ShiftThrice(n: nat)
    ensures n / 0x100_0000 == n / 0x100 / 0x100 / 0x100
  {
  }

  /**
   * What `get_latest_hash` signs covers the hash exactly when the nonce has no zero byte: then the text
   * is nonce and hash in full, and otherwise it is the same text whatever the hash.
   */
  lemma {:induction false} LatestTextCoversHashIff(nonce: uint32, hash: HashText, other: HashText)
    requires '\0' !in hash && '\0' !in other && hash != other
    ensures LatestText(nonce, hash) != LatestText(nonce, other) <==> NoZeroByte(nonce)
    ensures NoZeroByte(nonce) ==> LatestText(nonce, hash) == WordBytes(nonce) + hash
  {
    WordBytesZero(nonce);
    CStringAppend(WordBytes(nonce), hash);
    CStringAppend(WordBytes(nonce), other);
    CStringWhole(hash);
    CStringWhole(other);
    if NoZeroByte(nonce) {
      assert (WordBytes(nonce) + hash)[4..] == hash && (WordBytes(nonce) + other)[4..] == other;
    }
  }

  /** Between nonces without a zero byte, the signed text tells both the nonce and the hash. */
  lemma LatestTextInjective(n: uint32, h: HashText, n': uint32, h': HashText)
    requires NoZeroByte(n) && NoZeroByte(n') && '\0' !in h && '\0' !in h'
    requires LatestText(n, h) == LatestText(n', h')
    ensures n == n' && h == h'
  {
    WordBytesZero(n);
    WordBytesZero(n');
    CStringAppend(WordBytes(n), h);
    CStringAppend(WordBytes(n'), h');
    CStringWhole(h);
    CStringWhole(h');
    var t := WordBytes(n) + h;
    assert t[..4] == WordBytes(n) && t[..4] == WordBytes(n') by { assert t == WordBytes(n') + h'; }
    assert t[4..] == h && t[4..] == h';
    WordBytesInjective(n, n');
  }
}
