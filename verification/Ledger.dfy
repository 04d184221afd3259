/**
 * The ledger as a state machine: what each command of ta/trust_chain_ta.c does to the table of
 * repositories and to the stored key, as a function of the request and of the results of the
 * interface calls it makes. The classes of module TrustChain are proved against these functions;
 * what the ledger promises is proved about them.
 */
module Ledger {
  import opened Basics
  import opened TextFormat
  import opened Blocks
  import opened Messages
  import opened Crypto
  import opened KeyLists
  import Pem

  /** The parent of a genesis block: 64 zeros. */
  const ZERO_HASH: HashText := Repeated('0', MAX_HASH_LENGTH)

  /** One repository, with the blocks it has emitted. */
  datatype Repo = Repo(
    height: uint32,
    latestHash: HashText,
    founder: KeyText,
    admins: seq<KeyText>,
    writers: seq<KeyText>,
    chain: seq<Block>)

  /** All repositories, numbered by position, and the persistent key. */
  datatype State = State(repos: seq<Repo>, slot: Option<KeyPair>)

  const EMPTY: State := State([], None)

  // ---------------------------------------------------------------- commands

  datatype InitCalls = InitCalls(
    repo: bool, adminList: bool, writerList: bool, node: NodeCalls, time: Time, hash: HashCalls, sign: SignCalls)

  datatype AccessCalls = AccessCalls(
    verify: UserVerifyCalls, node: NodeCalls, time: Time, hash: HashCalls, sign: SignCalls)

  datatype CommitCalls = CommitCalls(
    verify: UserVerifyCalls, time: Time, hash: HashCalls, sign: SignCalls, decrypt: DecryptCalls)

  datatype LatestCalls = LatestCalls(hash: HashCalls, sign: SignCalls)

  /** `bufferSize` is 0 for a missing buffer, too. */
  datatype PublicKeyCalls = PublicKeyCalls(bufferSize: uint32, open: TeeResult, conversion: Pem.ExportCalls)

  datatype Command =
    | InitRepo(adminKey: KeyText, init: InitCalls)
    | AccessControl(access: AccessMessage, accessCalls: AccessCalls)
    | GetLatestHash(repId: uint32, nonce: uint32, latestCalls: LatestCalls)
    | Commit(commit: CommitMessage, encryptedKey: CipherText, commitCalls: CommitCalls)
    | GetTeePublicKey(publicKeyCalls: PublicKeyCalls)
    | Malformed(commandId: uint32)  // an unknown command, or parameters of the wrong types

  datatype Reply =
    | Failed(error: TeeResult)
    | Created(repId: uint32, genesis: Block)
    | Appended(block: Block)
    | Committed(contribution: Block, decryptedKey: string)
    | Latest(nonce: uint32, hash: HashText, signature: SignatureText)

  // ---------------------------------------------------------------- appending a block

  function BlockHash(c: Crypto, b: Block): (h: HashText)
    ensures |h| == MAX_HASH_LENGTH
  {
    Sha256Text(c, Serialise(b))
  }

  /** Hashes and signs a block: what is stored in the key slot afterwards, and the signed block. */
  function Seal(c: Crypto, slot: Option<KeyPair>, block: Block, h: HashCalls, s: SignCalls): Keyed<Block> {
    if HashResult(h) != Success then Keyed(slot, Err(HashResult(h)))
    else
      var signed := SignHash(c, slot, BlockHash(c, block), s);
      match signed.result
      case Err(e) => Keyed(signed.slot, Err(e))
      case Ok(sig) => Keyed(signed.slot, Ok(block.(base := block.base.(teeSig := sig))))
  }

  function NextHeight(r: Repo): uint32 {
    (r.height + 1) % WORD
  }

  function Append(c: Crypto, r: Repo, block: Block): Repo {
    r.(height := NextHeight(r), latestHash := BlockHash(c, block), chain := r.chain + [block])
  }

  // ---------------------------------------------------------------- init_repo

  function GenesisBlock(adminKey: KeyText, time: Time): Block {
    Access(BaseFields(1, ZERO_HASH, OP_ADD, adminKey, "", time, ""), ROLE_ADMIN, adminKey)
  }

  function NewRepo(c: Crypto, adminKey: KeyText, genesis: Block): Repo {
    Repo(0, BlockHash(c, genesis), adminKey, [adminKey], [], [genesis])
  }

  predicate InitAllocates(o: InitCalls) {
    o.repo && o.adminList && o.writerList && o.node.node && o.node.key
  }

  function InitSealed(c: Crypto, slot: Option<KeyPair>, adminKey: KeyText, o: InitCalls): Keyed<Block> {
    Seal(c, slot, GenesisBlock(adminKey, o.time), o.hash, o.sign)
  }

  function InitStep(c: Crypto, s: State, adminKey: KeyText, o: InitCalls): (State, Reply) {
    if |s.repos| >= MAX_REPO_ID || !InitAllocates(o) then (s, Failed(OutOfMemory))
    else
      var sealed := InitSealed(c, s.slot, adminKey, o);
      match sealed.result
      case Err(e) => (State(s.repos, sealed.slot), Failed(e))
      case Ok(genesis) =>
        (State(s.repos + [NewRepo(c, adminKey, genesis)], sealed.slot), Created(|s.repos|, genesis))
  }

  // ---------------------------------------------------------------- access_control

  /** The two key lists after an attempt to change them, and how the attempt ended. */
  datatype Change = Change(admins: seq<KeyText>, writers: seq<KeyText>, result: TeeResult)

  function ChangeKeys(admins: seq<KeyText>, writers: seq<KeyText>, op: uint32, role: uint32, key: KeyText,
      room: bool): Change {
    if op == OP_ADD && role == ROLE_ADMIN then
      if key in admins then Change(admins, writers, BadParameters)
      else
        var rest := RemoveFirst(writers, key);
        if room then Change([key] + admins, rest, Success) else Change(admins, rest, OutOfMemory)
    else if op == OP_ADD && role == ROLE_WRITER then
      if key in writers || key in admins then Change(admins, writers, BadParameters)
      else if room then Change(admins, [key] + writers, Success) else Change(admins, writers, OutOfMemory)
    else if op == OP_DELETE && role == ROLE_ADMIN then
      Change(RemoveFirst(admins, key), writers, if key in admins then Success else BadParameters)
    else if op == OP_DELETE && role == ROLE_WRITER then
      Change(admins, RemoveFirst(writers, key), if key in writers then Success else BadParameters)
    else Change(admins, writers, Success)
  }

  function AccessChange(r: Repo, m: AccessMessage, o: AccessCalls): Change {
    ChangeKeys(r.admins, r.writers, m.op, m.role, m.pubkey, o.node.node && o.node.key)
  }

  function WithKeys(r: Repo, change: Change): Repo {
    r.(admins := change.admins, writers := change.writers)
  }

  predicate AccessSigned(c: Crypto, m: AccessMessage) {
    SignedBy(c, AccessText(m.repId, m.op, m.role, m.pubkey), m.sigkey, m.signature)
  }

  function AccessBlock(r: Repo, m: AccessMessage, time: Time): Block {
    Access(BaseFields(NextHeight(r), r.latestHash, m.op, m.sigkey, m.signature, time, ""), m.role, m.pubkey)
  }

  /** What a command does to the repository it names. */
  datatype Outcome = Outcome(repo: Repo, slot: Option<KeyPair>, reply: Reply)

  function AccessSealed(c: Crypto, r: Repo, slot: Option<KeyPair>, m: AccessMessage, o: AccessCalls): Keyed<Block> {
    Seal(c, slot, AccessBlock(r, m, o.time), o.hash, o.sign)
  }

  /** Once the lists are changed: the block is sealed and appended, or the command fails late. */
  function AccessFinish(c: Crypto, r: Repo, slot: Option<KeyPair>, m: AccessMessage, o: AccessCalls): Outcome {
    var sealed := AccessSealed(c, r, slot, m, o);
    match sealed.result
    case Err(e) => Outcome(r, sealed.slot, Failed(e))
    case Ok(block) => Outcome(Append(c, r, block), sealed.slot, Appended(block))
  }

  /** An accepted request: the lists change first, whatever becomes of the block. */
  function AccessApply(c: Crypto, r: Repo, slot: Option<KeyPair>, m: AccessMessage, o: AccessCalls): Outcome {
    var change := AccessChange(r, m, o);
    var r' := WithKeys(r, change);
    if change.result != Success then Outcome(r', slot, Failed(change.result))
    else AccessFinish(c, r', slot, m, o)
  }

  function AccessStep(c: Crypto, r: Repo, slot: Option<KeyPair>, m: AccessMessage, o: AccessCalls): Outcome {
    if m.sigkey !in r.admins then Outcome(r, slot, Failed(AccessDenied))
    else if !(UserCallsSucceed(o.verify) && AccessSigned(c, m)) then Outcome(r, slot, Failed(Security))
    else AccessApply(c, r, slot, m, o)
  }

  // ---------------------------------------------------------------- commit

  predicate CommitSigned(c: Crypto, m: CommitMessage) {
    SignedBy(c, CommitText(m.repId, m.op, m.commitHash), m.sigkey, m.signature)
  }

  function ContributionBlock(r: Repo, m: CommitMessage, time: Time): Block {
    Contribution(BaseFields(NextHeight(r), r.latestHash, m.op, m.sigkey, m.signature, time, ""), m.commitHash)
  }

  function CommitSealed(c: Crypto, r: Repo, slot: Option<KeyPair>, m: CommitMessage, o: CommitCalls): Keyed<Block> {
    Seal(c, slot, ContributionBlock(r, m, o.time), o.hash, o.sign)
  }

  /** The sealed block is appended only if the attached key can be decrypted. */
  function CommitRelease(c: Crypto, r: Repo, slot: Option<KeyPair>, block: Block, encryptedKey: CipherText,
                         o: DecryptCalls): Outcome
  {
    var plain := DecryptData(c, slot, encryptedKey, o);
    match plain.result
    case Err(e) => Outcome(r, plain.slot, Failed(e))
    case Ok(text) => Outcome(Append(c, r, block), plain.slot, Committed(block, text))
  }

  function CommitFinish(c: Crypto, r: Repo, slot: Option<KeyPair>, m: CommitMessage, encryptedKey: CipherText,
                        o: CommitCalls): Outcome
  {
    var sealed := CommitSealed(c, r, slot, m, o);
    match sealed.result
    case Err(e) => Outcome(r, sealed.slot, Failed(e))
    case Ok(block) => CommitRelease(c, r, sealed.slot, block, encryptedKey, o.decrypt)
  }

  function CommitStep(c: Crypto, r: Repo, slot: Option<KeyPair>, m: CommitMessage, encryptedKey: CipherText,
                      o: CommitCalls): Outcome
  {
    if m.sigkey !in r.admins && m.sigkey !in r.writers then Outcome(r, slot, Failed(AccessDenied))
    else if !(UserCallsSucceed(o.verify) && CommitSigned(c, m)) then Outcome(r, slot, Failed(Security))
    else CommitFinish(c, r, slot, m, encryptedKey, o)
  }

  // ---------------------------------------------------------------- get_latest_hash

  /** The bytes of a word in memory, lowest first, as characters. */
  function WordBytes(n: uint32): (s: string)
    ensures |s| == 4
  {
    [(n % 256) as char, (n / 0x100 % 256) as char, (n / 0x1_0000 % 256) as char, (n / 0x100_0000) as char]
  }

  /** What C takes for a string: everything before the first zero byte. */
  function CString(s: string): string {
    if s == [] || s[0] == '\0' then [] else [s[0]] + CString(s[1..])
  }

  /** The nonce and hash structure as `tee_sign_data` reads it. */
  function LatestText(nonce: uint32, hash: HashText): string {
    CString(WordBytes(nonce) + hash)
  }

  function LatestSigned(c: Crypto, slot: Option<KeyPair>, text: string, o: LatestCalls): Keyed<SignatureText> {
    if HashResult(o.hash) != Success then Keyed(slot, Err(HashResult(o.hash)))
    else SignHash(c, slot, Sha256Text(c, text), o.sign)
  }

  function LatestStep(c: Crypto, r: Repo, slot: Option<KeyPair>, nonce: uint32, o: LatestCalls): Outcome {
    var signed := LatestSigned(c, slot, LatestText(nonce, r.latestHash), o);
    match signed.result
    case Err(e) => Outcome(r, signed.slot, Failed(e))
    case Ok(sig) => Outcome(r, signed.slot, Latest(nonce, r.latestHash, sig))
  }

  // ---------------------------------------------------------------- get_tee_public_key

  /** How the command ends: the conversion is told that the buffer holds nothing. */
  function PublicKeyResult(slot: Option<KeyPair>, o: PublicKeyCalls): TeeResult {
    if o.bufferSize == 0 then BadParameters
    else if o.open != Success then o.open
    else if slot.None? then ItemNotFound
    else Pem.ExportResult(o.conversion, 0)
  }

  // ---------------------------------------------------------------- the machine

  /** Puts an outcome back into the table. */
  function Update(s: State, i: nat, o: Outcome): (State, Reply)
    requires i < |s.repos|
  {
    (State(s.repos[i := o.repo], o.slot), o.reply)
  }

  function Step(c: Crypto, s: State, cmd: Command): (State, Reply) {
    match cmd
    case InitRepo(adminKey, o) => InitStep(c, s, adminKey, o)
    case AccessControl(m, o) =>
      if m.op != OP_ADD && m.op != OP_DELETE then (s, Failed(BadParameters))
      else if m.repId >= |s.repos| then (s, Failed(ItemNotFound))
      else Update(s, m.repId, AccessStep(c, s.repos[m.repId], s.slot, m, o))
    case GetLatestHash(id, nonce, o) =>
      if id >= |s.repos| then (s, Failed(ItemNotFound))
      else Update(s, id, LatestStep(c, s.repos[id], s.slot, nonce, o))
    case Commit(m, encryptedKey, o) =>
      if m.op != OP_PUSH && m.op != OP_PR then (s, Failed(BadParameters))
      else if m.repId >= |s.repos| then (s, Failed(ItemNotFound))
      else Update(s, m.repId, CommitStep(c, s.repos[m.repId], s.slot, m, encryptedKey, o))
    case GetTeePublicKey(o) => (s, Failed(PublicKeyResult(s.slot, o)))
    case Malformed(_) => (s, Failed(BadParameters))
  }

  /** The state after a run of commands. */
  function Run(c: Crypto, s: State, cmds: seq<Command>): State {
    if cmds == [] then s
    else Step(c, Run(c, s, cmds[..|cmds| - 1]), cmds[|cmds| - 1]).0
  }

  /** What the last command of each prefix of a run replied. */
  function Replies(c: Crypto, s: State, cmds: seq<Command>): (r: seq<Reply>)
    ensures |r| == |cmds|
  {
    seq(|cmds|, i requires 0 <= i < |cmds| => Step(c, Run(c, s, cmds[..i]), cmds[i]).1)
  }

  lemma RepliesExtend(c: Crypto, s: State, cmds: seq<Command>, cmd: Command)
    ensures Replies(c, s, cmds + [cmd]) == Replies(c, s, cmds) + [Step(c, Run(c, s, cmds), cmd).1]
  {
    var all := cmds + [cmd];
    forall i | 0 <= i < |all| ensures Replies(c, s, all)[i] == (Replies(c, s, cmds) + [Step(c, Run(c, s, cmds),
        cmd).1])[i] {
      assert all[..i] == cmds[..i];
      assert cmds[..|cmds|] == cmds;
    }
  }

  lemma RunExtend(c: Crypto, s: State, cmds: seq<Command>, cmd: Command)
    ensures Run(c, s, cmds + [cmd]) == Step(c, Run(c, s, cmds), cmd).0
  {
  }

  lemma LastOfSum(a: seq<Command>, b: seq<Command>)
    requires b != []
    ensures a + b == (a + b[..|b| - 1]) + [b[|b| - 1]] && b == b[..|b| - 1] + [b[|b| - 1]]
  {
  }

  lemma RunOne(c: Crypto, s: State, cmd: Command)
    ensures Run(c, s, [cmd]) == Step(c, s, cmd).0
  {
    assert [cmd] == [] + [cmd];
    RunExtend(c, s, [], cmd);
  }

  lemma {:induction false} RunAppend(c: Crypto, s: State, a: seq<Command>, b: seq<Command>)
    ensures Run(c, s, a + b) == Run(c, Run(c, s, a), b)
  {
    if b == [] {
      assert a + b == a;
    } else {
      var n := |b| - 1;
      LastOfSum(a, b);
      RunAppend(c, s, a, b[..n]);
      RunExtend(c, s, a + b[..n], b[n]);
      RunExtend(c, Run(c, s, a), b[..n], b[n]);
    }
  }
}
