/**
 * What each command promises, spelled out in the calls that it is made for: SHA-256 of which text, RSA
 * with which key, which numbers for operations and roles, and which code for which refusal.
 */
module Promises {
  import opened Basics
  import opened Hex
  import opened TextFormat
  import opened Blocks
  import opened Messages
  import opened Crypto
  import opened KeyLists
  import opened Ledger
  import opened Invariants
  import opened PlainTexts

  // ---------------------------------------------------------------- sealing a block

  /** The first code of a sequence of calls that is not success, if there is one. */
  function First(codes: seq<TeeResult>): TeeResult {
    if codes == [] then Success
    else if codes[0] != Success then codes[0]
    else First(codes[1..])
  }

  lemma FirstOfSum(a: seq<TeeResult>, b: seq<TeeResult>)
    ensures First(a + b) == if First(a) != Success then First(a) else First(b)
  {
    if a == [] {
      assert a + b == b;
    } else {
      assert (a + b)[1..] == a[1..] + b;
      FirstOfSum(a[1..], b);
    }
  }

  lemma FirstOfThree(x: TeeResult, y: TeeResult, z: TeeResult)
    ensures First([x, y, z]) == if x != Success then x else if y != Success then y else z
    ensures First([x, y]) == if x != Success then x else y
  {
    assert [x, y, z][1..] == [y, z] && [y, z][1..] == [z] && [x, y][1..] == [y];
    assert First([z]) == z && First([y]) == y by { assert [z][1..] == [] && [y][1..] == []; }
  }

  /** What is called to get hold of the key. */
  function LoadCodes(slot: Option<KeyPair>, l: LoadCalls): seq<TeeResult> {
    if slot.Some? && l.open == Success then [] else [l.allocate, l.generate, l.create]
  }

  /** What is called to hash and sign a block, in order. */
  function SealCodes(slot: Option<KeyPair>, h: HashCalls, s: SignCalls): seq<TeeResult> {
    [h.allocate, h.digest] + (LoadCodes(slot, s.load) + [s.allocate, s.setKey, s.sign])
  }

  /** The key that these calls get hold of. */
  function KeyOf(slot: Option<KeyPair>, l: LoadCalls): KeyPair {
    if slot.Some? && l.open == Success then slot.value else l.newKey
  }

  lemma LoadIs(slot: Option<KeyPair>, l: LoadCalls)
    ensures var k := Load(slot, l);
            && (First(LoadCodes(slot, l)) == Success ==> k == Keyed(Some(KeyOf(slot, l)), Ok(KeyOf(slot, l))))
            && (First(LoadCodes(slot, l)) != Success ==> k == Keyed(slot, Err(First(LoadCodes(slot, l)))))
  {
    FirstOfThree(l.allocate, l.generate, l.create);
  }

  /** What is stored after these calls, whether they succeed or not. */
  function SlotAfter(slot: Option<KeyPair>, h: HashCalls, s: SignCalls): Option<KeyPair> {
    if First([h.allocate, h.digest]) != Success || First(LoadCodes(slot, s.load)) != Success then slot
    else Some(KeyOf(slot, s.load))
  }

  /** `b` is `block` with the TEE's signature on its text, made with `key`. */
  ghost predicate Sealed(c: Crypto, key: KeyPair, block: Block, b: Block) {
    b == block.(base := block.base.(teeSig := ToHex(c.rsaSign(key, c.sha256(BlockText(block))))))
  }

  /** A block is sealed, or the first failing code is returned and no key but a new one is stored. */
  lemma SealIs(c: Crypto, slot: Option<KeyPair>, block: Block, h: HashCalls, s: SignCalls)
    ensures var k, code := Seal(c, slot, block, h, s), First(SealCodes(slot, h, s));
            && k.slot == SlotAfter(slot, h, s)
            && (code != Success ==> k.result == Err(code))
            && (code == Success ==>
                  && k.slot == Some(KeyOf(slot, s.load))
                  && k.result.Ok? && Sealed(c, KeyOf(slot, s.load), block, k.result.value))
  {
    SerialiseIs(block);
    DecodeEncode(c.sha256(BlockText(block)));
    FirstOfThree(h.allocate, h.digest, Success);
    FirstOfThree(s.allocate, s.setKey, s.sign);
    FirstOfSum([h.allocate, h.digest], LoadCodes(slot, s.load) + [s.allocate, s.setKey, s.sign]);
    FirstOfSum(LoadCodes(slot, s.load), [s.allocate, s.setKey, s.sign]);
    LoadIs(slot, s.load);
  }

  lemma SealedText(c: Crypto, key: KeyPair, block: Block, b: Block)
    requires Sealed(c, key, block, b)
    ensures BlockText(b) == BlockText(block)
    ensures BlockHash(c, b) == ToHex(c.sha256(BlockText(b)))
  {
    SerialiseIs(b);
  }

  // ---------------------------------------------------------------- init_repo

  /**
   * `init_repo` hands out the genesis block with the founder's whole key in both fields, no signature, 64
   * zeros for the parent and height 1, and the new repository has the founder alone as administrator.
   */
  lemma {:induction false} InitPromise(c: Crypto, s: State, k: KeyText, o: InitCalls)
    requires Step(c, s, InitRepo(k, o)).1.Created?
    ensures var (s', reply) := Step(c, s, InitRepo(k, o));
            var b := reply.genesis;
            && reply.repId == |s.repos| < 1000
            && b.Access?
            && b.base.height == 1 && b.base.op == 0 && b.role == 1
            && |b.base.parent| == 64 && (forall i :: 0 <= i < 64 ==> b.base.parent[i] == '0')
            && b.base.sigkey == k && b.pubkey == k && b.base.signature == "" && b.base.time == o.time
            && s'.slot == Some(KeyOf(s.slot, o.sign.load))
            && b.base.teeSig == ToHex(c.rsaSign(s'.slot.value, c.sha256(BlockText(b))))
            && s'.repos == s.repos + [Repo(0, ToHex(c.sha256(BlockText(b))), k, [k], [], [b])]
  {
    var block := GenesisBlock(k, o.time);
    SealIs(c, s.slot, block, o.hash, o.sign);
    SealedText(c, KeyOf(s.slot, o.sign.load), block, Step(c, s, InitRepo(k, o)).1.genesis);
  }

  /** The code of an `init_repo` that does not get through, and what it leaves behind: at most a new key. */
  lemma {:induction false} InitCode(c: Crypto, s: State, k: KeyText, o: InitCalls)
    ensures var (s', reply) := Step(c, s, InitRepo(k, o));
            var room := |s.repos| < 1000 && o.repo && o.adminList && o.writerList && o.node.node && o.node.key;
            && s'.slot == (if room then SlotAfter(s.slot, o.hash, o.sign) else s.slot)
            && (reply.Failed? ==> s'.repos == s.repos)
            && (!room ==> reply == Failed(OutOfMemory))
            && (room && First(SealCodes(s.slot, o.hash, o.sign)) != Success ==>
                  reply == Failed(First(SealCodes(s.slot, o.hash, o.sign))))
            && (room && First(SealCodes(s.slot, o.hash, o.sign)) == Success ==> reply.Created?)
  {
    SealIs(c, s.slot, GenesisBlock(k, o.time), o.hash, o.sign);
  }

  // ---------------------------------------------------------------- access_control

  /** The key parses, the signature is hexadecimal, and RSA accepts it for the digest of the text. */
  predicate RsaAccepts(c: Crypto, sigkey: string, text: string, signature: string) {
    && c.parsePem(sigkey).Ok?
    && FromHex(signature).Some?
    && c.rsaVerify(c.parsePem(sigkey).value, c.sha256(text), FromHex(signature).value)
  }

  /** What is called to check a signature. */
  function VerifyCodes(o: UserVerifyCalls): seq<TeeResult> {
    [o.populate, o.verify.hash.allocate, o.verify.hash.digest] + [o.verify.allocate, o.verify.setKey, o.verify.verify]
  }

  lemma VerifyCallsAre(o: UserVerifyCalls)
    ensures UserCallsSucceed(o) <==> First(VerifyCodes(o)) == Success
  {
    FirstOfSum([o.populate, o.verify.hash.allocate, o.verify.hash.digest],
      [o.verify.allocate, o.verify.setKey, o.verify.verify]);
    FirstOfThree(o.populate, o.verify.hash.allocate, o.verify.hash.digest);
    FirstOfThree(o.verify.allocate, o.verify.setKey, o.verify.verify);
  }

  lemma AccessSignedIs(c: Crypto, m: AccessMessage)
    ensures AccessSigned(c, m)
            <==> RsaAccepts(c, m.sigkey, AccessRequest(m.repId, m.op, m.role, m.pubkey), m.signature)
  {
    RequestsAre(m.repId, m.op, m.role, m.pubkey, "");
  }

  lemma CommitSignedIs(c: Crypto, m: CommitMessage)
    ensures CommitSigned(c, m)
            <==> RsaAccepts(c, m.sigkey, CommitRequest(m.repId, m.op, m.commitHash), m.signature)
  {
    RequestsAre(m.repId, m.op, 0, "", m.commitHash);
  }

  /** `t` is `s` without the first `k`. */
  predicate Dropped(s: seq<KeyText>, k: KeyText, t: seq<KeyText>) {
    if k in s then exists i :: 0 <= i < |s| && s[i] == k && k !in s[..i] && t == s[..i] + s[i + 1..]
    else t == s
  }

  lemma {:induction false} FirstIndex(s: seq<KeyText>, k: KeyText) returns (i: nat)
    requires k in s
    ensures i < |s| && s[i] == k && k !in s[..i]
  {
    i := 0;
    while s[i] != k
      invariant i < |s| && k !in s[..i] && k in s[i..]
      decreases |s| - i
    {
      assert s[i..] == [s[i]] + s[i + 1..];
      i := i + 1;
    }
  }

  lemma RemoveFirstDrops(s: seq<KeyText>, k: KeyText)
    ensures Dropped(s, k, RemoveFirst(s, k))
  {
    if k in s {
      var i := FirstIndex(s, k);
      RemoveFirstAt(s, k, i);
    } else {
      RemoveFirstAt(s, k, |s|);
    }
  }

  /** The two lists before and after a request took effect, with the numbers of the protocol. */
  predicate ListsChanged(op: uint32, role: uint32, k: KeyText, admins: seq<KeyText>, writers: seq<KeyText>,
      admins': seq<KeyText>, writers': seq<KeyText>)
  {
    if op == 0 && role == 1 then k !in admins && admins' == [k] + admins && Dropped(writers, k, writers')
    else if op == 0 && role == 2 then
      k !in admins && k !in writers && writers' == [k] + writers && admins' == admins
    else if op == 1 && role == 1 then k in admins && Dropped(admins, k, admins') && writers' == writers
    else if op == 1 && role == 2 then k in writers && Dropped(writers, k, writers') && admins' == admins
    else (op == 0 || op == 1) && admins' == admins && writers' == writers
  }

  lemma ChangeIs(r: Repo, m: AccessMessage, o: AccessCalls)
    requires m.op == OP_ADD || m.op == OP_DELETE
    requires AccessChange(r, m, o).result == Success
    ensures ListsChanged(m.op, m.role, m.pubkey, r.admins, r.writers, AccessChange(r, m, o).admins,
              AccessChange(r, m, o).writers)
  {
    RemoveFirstDrops(r.admins, m.pubkey);
    RemoveFirstDrops(r.writers, m.pubkey);
  }

  /** What a finished `access_control` has done to its repository. */
  lemma {:induction false} FinishPromise(c: Crypto, r: Repo, slot: Option<KeyPair>, m: AccessMessage, o: AccessCalls)
    requires AccessFinish(c, r, slot, m, o).reply.Appended?
    ensures var out := AccessFinish(c, r, slot, m, o);
            var b := out.reply.block;
            && b == Access(BaseFields((r.height + 1) % 0x1_0000_0000, r.latestHash, m.op, m.sigkey, m.signature, o.time,
                             b.base.teeSig), m.role, m.pubkey)
            && out.slot == Some(KeyOf(slot, o.sign.load))
            && b.base.teeSig == ToHex(c.rsaSign(out.slot.value, c.sha256(BlockText(b))))
            && out.repo == r.(height := b.base.height, latestHash := ToHex(c.sha256(BlockText(b))),
                              chain := r.chain + [b])
  {
    var block := AccessBlock(r, m, o.time);
    SealIs(c, slot, block, o.hash, o.sign);
    SealedText(c, KeyOf(slot, o.sign.load), block, AccessFinish(c, r, slot, m, o).reply.block);
  }

  lemma {:induction false} ApplyPromise(c: Crypto, r: Repo, slot: Option<KeyPair>, m: AccessMessage, o: AccessCalls)
    requires (m.op == 0 || m.op == 1) && AccessApply(c, r, slot, m, o).reply.Appended?
    ensures var out := AccessApply(c, r, slot, m, o);
            var r', b := out.repo, out.reply.block;
            && ListsChanged(m.op, m.role, m.pubkey, r.admins, r.writers, r'.admins, r'.writers)
            && b == Access(BaseFields((r.height + 1) % 0x1_0000_0000, r.latestHash, m.op, m.sigkey, m.signature, o.time,
                             b.base.teeSig), m.role, m.pubkey)
            && out.slot == Some(KeyOf(slot, o.sign.load))
            && b.base.teeSig == ToHex(c.rsaSign(out.slot.value, c.sha256(BlockText(b))))
            && r' == Repo(b.base.height, ToHex(c.sha256(BlockText(b))), r.founder, r'.admins, r'.writers, r.chain + [b])
  {
    ChangeIs(r, m, o);
    FinishPromise(c, WithKeys(r, AccessChange(r, m, o)), slot, m, o);
  }

  /**
   * An `access_control` that succeeds came from an administrator, RSA accepted its signature on the
   * request, its change of the lists took effect, and the block handed out says what was asked for.
   */
  lemma {:induction false} AccessPromise(c: Crypto, s: State, m: AccessMessage, o: AccessCalls)
    requires Step(c, s, AccessControl(m, o)).1.Appended?
    ensures var (s', reply) := Step(c, s, AccessControl(m, o));
            && m.repId < |s.repos| && |s'.repos| == |s.repos|
            && (forall j | 0 <= j < |s.repos| && j != m.repId :: s'.repos[j] == s.repos[j])
            && var r, r', b := s.repos[m.repId], s'.repos[m.repId], reply.block;
            && m.sigkey in r.admins
            && RsaAccepts(c, m.sigkey, AccessRequest(m.repId, m.op, m.role, m.pubkey), m.signature)
            && ListsChanged(m.op, m.role, m.pubkey, r.admins, r.writers, r'.admins, r'.writers)
            && b == Access(BaseFields((r.height + 1) % 0x1_0000_0000, r.latestHash, m.op, m.sigkey, m.signature, o.time,
                             b.base.teeSig), m.role, m.pubkey)
            && s'.slot == Some(KeyOf(s.slot, o.sign.load))
            && b.base.teeSig == ToHex(c.rsaSign(s'.slot.value, c.sha256(BlockText(b))))
            && r' == Repo(b.base.height, ToHex(c.sha256(BlockText(b))), r.founder, r'.admins, r'.writers, r.chain + [b])
  {
    AccessSignedIs(c, m);
    ApplyPromise(c, s.repos[m.repId], s.slot, m, o);
  }

  /** A request that RSA does not accept is refused, whatever else is in order. */
  lemma {:induction false} UnverifiedIsRefused(c: Crypto, s: State, m: AccessMessage, o: AccessCalls, n: CommitMessage,
      e: CipherText, p: CommitCalls)
    ensures !RsaAccepts(c, m.sigkey, AccessRequest(m.repId, m.op, m.role, m.pubkey), m.signature)
            ==> Step(c, s, AccessControl(m, o)).1.Failed? && Step(c, s, AccessControl(m, o)).0 == s
    ensures !RsaAccepts(c, n.sigkey, CommitRequest(n.repId, n.op, n.commitHash), n.signature)
            ==> Step(c, s, Commit(n, e, p)).1.Failed? && Step(c, s, Commit(n, e, p)).0 == s
  {
    AccessSignedIs(c, m);
    CommitSignedIs(c, n);
    if m.repId < |s.repos| {
      SameTable(s, m.repId);
    }
    if n.repId < |s.repos| {
      SameTable(s, n.repId);
    }
  }

  lemma SameTable(s: State, i: nat)
    requires i < |s.repos|
    ensures State(s.repos[i := s.repos[i]], s.slot) == s
  {
  }

  /**
   * The code of an `access_control` that does not get through: its guards are passed in this order, each
   * with a code of its own.
   */
  lemma {:induction false} AccessCode(c: Crypto, s: State, m: AccessMessage, o: AccessCalls)
    ensures var reply := Step(c, s, AccessControl(m, o)).1;
            if m.op != 0 && m.op != 1 then reply == Failed(BadParameters)
            else if m.repId >= |s.repos| then reply == Failed(ItemNotFound)
            else if m.sigkey !in s.repos[m.repId].admins then reply == Failed(AccessDenied)
            else if First(VerifyCodes(o.verify)) != Success
                    || !RsaAccepts(c, m.sigkey, AccessRequest(m.repId, m.op, m.role, m.pubkey), m.signature)
            then reply == Failed(Security)
            else if Inapplicable(s.repos[m.repId], m) then reply == Failed(BadParameters)
            else if m.op == 0 && (m.role == 1 || m.role == 2) && !(o.node.node && o.node.key)
            then reply == Failed(OutOfMemory)
            else if First(SealCodes(s.slot, o.hash, o.sign)) != Success
            then reply == Failed(First(SealCodes(s.slot, o.hash, o.sign)))
            else reply.Appended?
  {
    AccessSignedIs(c, m);
    VerifyCallsAre(o.verify);
    if m.repId < |s.repos| {
      var r := s.repos[m.repId];
      SealIs(c, s.slot, AccessBlock(WithKeys(r, AccessChange(r, m, o)), m, o.time), o.hash, o.sign);
    }
  }

  /** The key is where it should be added, or is not where it should be deleted. */
  predicate Inapplicable(r: Repo, m: AccessMessage) {
    || (m.op == 0 && m.role == 1 && m.pubkey in r.admins)
    || (m.op == 0 && m.role == 2 && (m.pubkey in r.admins || m.pubkey in r.writers))
    || (m.op == 1 && m.role == 1 && m.pubkey !in r.admins)
    || (m.op == 1 && m.role == 2 && m.pubkey !in r.writers)
  }

  /** It passes all its guards. */
  predicate Admitted(c: Crypto, s: State, m: AccessMessage, o: AccessCalls) {
    && (m.op == 0 || m.op == 1)
    && m.repId < |s.repos|
    && m.sigkey in s.repos[m.repId].admins
    && First(VerifyCodes(o.verify)) == Success
    && RsaAccepts(c, m.sigkey, AccessRequest(m.repId, m.op, m.role, m.pubkey), m.signature)
    && !Inapplicable(s.repos[m.repId], m)
  }

  /** A change that does not apply changes nothing. */
  lemma InapplicableChange(r: Repo, m: AccessMessage, o: AccessCalls)
    requires Inapplicable(r, m)
    ensures AccessChange(r, m, o) == Change(r.admins, r.writers, BadParameters)
  {
    RemoveFirstDrops(r.admins, m.pubkey);
    RemoveFirstDrops(r.writers, m.pubkey);
  }

  lemma {:induction false} NotAdmitted(c: Crypto, s: State, m: AccessMessage, o: AccessCalls)
    requires !Admitted(c, s, m, o)
    ensures Step(c, s, AccessControl(m, o)).0 == s
  {
    AccessSignedIs(c, m);
    VerifyCallsAre(o.verify);
    if m.repId < |s.repos| {
      SameTable(s, m.repId);
      if Inapplicable(s.repos[m.repId], m) {
        InapplicableChange(s.repos[m.repId], m, o);
      }
    }
  }

  /** How the lists and the key stand when the rest of `access_control` fails. */
  ghost predicate Aftermath(r: Repo, slot: Option<KeyPair>, m: AccessMessage, o: AccessCalls, r': Repo,
      slot': Option<KeyPair>)
  {
    && r' == r.(admins := r'.admins, writers := r'.writers)
    && if m.op == 0 && (m.role == 1 || m.role == 2) && !(o.node.node && o.node.key)
       then
         && slot' == slot && r'.admins == r.admins
         && (if m.role == 1 then Dropped(r.writers, m.pubkey, r'.writers) else r'.writers == r.writers)
       else
         && slot' == SlotAfter(slot, o.hash, o.sign)
         && ListsChanged(m.op, m.role, m.pubkey, r.admins, r.writers, r'.admins, r'.writers)
  }

  lemma {:induction false} ApplyFails(c: Crypto, r: Repo, slot: Option<KeyPair>, m: AccessMessage, o: AccessCalls)
    requires (m.op == 0 || m.op == 1) && !Inapplicable(r, m)
    requires AccessApply(c, r, slot, m, o).reply.Failed?
    ensures var out := AccessApply(c, r, slot, m, o);
            Aftermath(r, slot, m, o, out.repo, out.slot)
  {
    RemoveFirstDrops(r.writers, m.pubkey);
    if AccessChange(r, m, o).result == Success {
      ChangeIs(r, m, o);
    }
    FinishFails(c, WithKeys(r, AccessChange(r, m, o)), slot, m, o);
  }

  /**
   * What an `access_control` leaves behind that does not get through. If it passed its guards, a writer
   * who was to be promoted has lost the role when memory ran out, and the lists are changed as asked when
   * hashing or signing failed; otherwise nothing is changed, and never more than this and the key.
   */
  lemma {:induction false} AccessAftermath(c: Crypto, s: State, m: AccessMessage, o: AccessCalls)
    requires Step(c, s, AccessControl(m, o)).1.Failed?
    ensures var s' := Step(c, s, AccessControl(m, o)).0;
            if !Admitted(c, s, m, o) then s' == s
            else
              && |s'.repos| == |s.repos|
              && (forall j | 0 <= j < |s.repos| && j != m.repId :: s'.repos[j] == s.repos[j])
              && Aftermath(s.repos[m.repId], s.slot, m, o, s'.repos[m.repId], s'.slot)
  {
    if Admitted(c, s, m, o) {
      AccessSignedIs(c, m);
      VerifyCallsAre(o.verify);
      ApplyFails(c, s.repos[m.repId], s.slot, m, o);
    } else {
      NotAdmitted(c, s, m, o);
    }
  }

  lemma FinishFails(c: Crypto, r: Repo, slot: Option<KeyPair>, m: AccessMessage, o: AccessCalls)
    ensures var out := AccessFinish(c, r, slot, m, o);
            && out.slot == SlotAfter(slot, o.hash, o.sign)
            && (out.reply.Failed? ==> out.repo == r)
  {
    SealIs(c, slot, AccessBlock(r, m, o.time), o.hash, o.sign);
  }

  // ---------------------------------------------------------------- commit

  /** The release of the attached key. */
  lemma ReleaseIs(c: Crypto, r: Repo, key: KeyPair, block: Block, e: CipherText, o: DecryptCalls)
    ensures var out, found := CommitRelease(c, r, Some(key), block, e, o), KeyOf(Some(key), o.load);
            && (out.reply.Failed? ==>
                  && out.repo == r
                  && out.slot == Some(if FromHex(e).None? || First(LoadCodes(Some(key), o.load)) != Success then key
                                      else found))
            && (!out.reply.Failed? ==>
                  && FromHex(e).Some? && out.slot == Some(found) && out.repo == Append(c, r, block)
                  && out.reply == Committed(block, ToHex(c.rsaDecrypt(found, FromHex(e).value))))
  {
    LoadIs(Some(key), o.load);
  }

  /** What a finished `commit` has done to its repository. */
  lemma {:induction false} CommitFinishPromise(c: Crypto, r: Repo, slot: Option<KeyPair>, m: CommitMessage,
      e: CipherText, o: CommitCalls)
    requires CommitFinish(c, r, slot, m, e, o).reply.Committed?
    ensures var out, key := CommitFinish(c, r, slot, m, e, o), KeyOf(slot, o.sign.load);
            var b := out.reply.contribution;
            && b == Contribution(BaseFields((r.height + 1) % 0x1_0000_0000, r.latestHash, m.op, m.sigkey, m.signature,
                                   o.time, b.base.teeSig), m.commitHash)
            && b.base.teeSig == ToHex(c.rsaSign(key, c.sha256(BlockText(b))))
            && out.repo == r.(height := b.base.height, latestHash := ToHex(c.sha256(BlockText(b))),
                              chain := r.chain + [b])
            && out.slot == Some(KeyOf(Some(key), o.decrypt.load))
            && FromHex(e).Some?
            && out.reply.decryptedKey == ToHex(c.rsaDecrypt(out.slot.value, FromHex(e).value))
  {
    var block := ContributionBlock(r, m, o.time);
    SealIs(c, slot, block, o.hash, o.sign);
    var sealed := CommitSealed(c, r, slot, m, o).result.value;
    ReleaseIs(c, r, KeyOf(slot, o.sign.load), sealed, e, o.decrypt);
    SealedText(c, KeyOf(slot, o.sign.load), block, sealed);
  }

  lemma {:induction false} CommitFinishFails(c: Crypto, r: Repo, slot: Option<KeyPair>, m: CommitMessage,
      e: CipherText, o: CommitCalls)
    requires CommitFinish(c, r, slot, m, e, o).reply.Failed?
    ensures var out, key := CommitFinish(c, r, slot, m, e, o), KeyOf(slot, o.sign.load);
            && out.repo == r
            && out.slot == (if First(SealCodes(slot, o.hash, o.sign)) != Success then SlotAfter(slot, o.hash, o.sign)
                            else if FromHex(e).None? || First(LoadCodes(Some(key), o.decrypt.load)) != Success
                            then Some(key)
                            else Some(KeyOf(Some(key), o.decrypt.load)))
  {
    SealIs(c, slot, ContributionBlock(r, m, o.time), o.hash, o.sign);
    if CommitSealed(c, r, slot, m, o).result.Ok? {
      ReleaseIs(c, r, KeyOf(slot, o.sign.load), CommitSealed(c, r, slot, m, o).result.value, e, o.decrypt);
    }
  }

  /**
   * A `commit` that succeeds came from an administrator or a writer, RSA accepted its signature on the
   * request, the block says what was asked for, and the text handed back is the RSA decryption of the
   * attached one, in hexadecimal, under the key that is stored afterwards. The lists stay.
   */
  lemma {:induction false} CommitPromise(c: Crypto, s: State, m: CommitMessage, e: CipherText, o: CommitCalls)
    requires Step(c, s, Commit(m, e, o)).1.Committed?
    ensures var (s', reply) := Step(c, s, Commit(m, e, o));
            && (m.op == 2 || m.op == 3)
            && m.repId < |s.repos| && |s'.repos| == |s.repos|
            && (forall j | 0 <= j < |s.repos| && j != m.repId :: s'.repos[j] == s.repos[j])
            && var r, b, key := s.repos[m.repId], reply.contribution, KeyOf(s.slot, o.sign.load);
            && (m.sigkey in r.admins || m.sigkey in r.writers)
            && RsaAccepts(c, m.sigkey, CommitRequest(m.repId, m.op, m.commitHash), m.signature)
            && b == Contribution(BaseFields((r.height + 1) % 0x1_0000_0000, r.latestHash, m.op, m.sigkey, m.signature,
                                   o.time, b.base.teeSig), m.commitHash)
            && b.base.teeSig == ToHex(c.rsaSign(key, c.sha256(BlockText(b))))
            && s'.repos[m.repId] == r.(height := b.base.height, latestHash := ToHex(c.sha256(BlockText(b))),
                                       chain := r.chain + [b])
            && s'.slot == Some(KeyOf(Some(key), o.decrypt.load))
            && FromHex(e).Some?
            && reply.decryptedKey == ToHex(c.rsaDecrypt(s'.slot.value, FromHex(e).value))
  {
    CommitSignedIs(c, m);
    CommitFinishPromise(c, s.repos[m.repId], s.slot, m, e, o);
  }

  /** The code of a `commit` that does not get through. */
  lemma {:induction false} CommitCode(c: Crypto, s: State, m: CommitMessage, e: CipherText, o: CommitCalls)
    ensures var reply, unseal := Step(c, s, Commit(m, e, o)).1,
                LoadCodes(Some(KeyOf(s.slot, o.sign.load)), o.decrypt.load)
                + [o.decrypt.allocate, o.decrypt.setKey, o.decrypt.decrypt];
            if m.op != 2 && m.op != 3 then reply == Failed(BadParameters)
            else if m.repId >= |s.repos| then reply == Failed(ItemNotFound)
            else if m.sigkey !in s.repos[m.repId].admins && m.sigkey !in s.repos[m.repId].writers
            then reply == Failed(AccessDenied)
            else if First(VerifyCodes(o.verify)) != Success
                    || !RsaAccepts(c, m.sigkey, CommitRequest(m.repId, m.op, m.commitHash), m.signature)
            then reply == Failed(Security)
            else if First(SealCodes(s.slot, o.hash, o.sign)) != Success
            then reply == Failed(First(SealCodes(s.slot, o.hash, o.sign)))
            else if FromHex(e).None? then reply == Failed(BadParameters)
            else if First(unseal) != Success then reply == Failed(First(unseal))
            else reply.Committed?
  {
    var key := KeyOf(s.slot, o.sign.load);
    CommitSignedIs(c, m);
    VerifyCallsAre(o.verify);
    FirstOfSum(LoadCodes(Some(key), o.decrypt.load), [o.decrypt.allocate, o.decrypt.setKey, o.decrypt.decrypt]);
    FirstOfThree(o.decrypt.allocate, o.decrypt.setKey, o.decrypt.decrypt);
    LoadIs(Some(key), o.decrypt.load);
    if m.repId < |s.repos| {
      SealIs(c, s.slot, ContributionBlock(s.repos[m.repId], m, o.time), o.hash, o.sign);
    }
  }

  /** It passes all its guards. */
  predicate CommitAdmitted(c: Crypto, s: State, m: CommitMessage, o: CommitCalls) {
    && (m.op == 2 || m.op == 3)
    && m.repId < |s.repos|
    && (m.sigkey in s.repos[m.repId].admins || m.sigkey in s.repos[m.repId].writers)
    && First(VerifyCodes(o.verify)) == Success
    && RsaAccepts(c, m.sigkey, CommitRequest(m.repId, m.op, m.commitHash), m.signature)
  }

  /** What a `commit` leaves behind that does not get through: at most a new key. */
  lemma {:induction false} CommitAftermath(c: Crypto, s: State, m: CommitMessage, e: CipherText, o: CommitCalls)
    requires Step(c, s, Commit(m, e, o)).1.Failed?
    ensures var s', key := Step(c, s, Commit(m, e, o)).0, KeyOf(s.slot, o.sign.load);
            && s'.repos == s.repos
            && s'.slot == (if !CommitAdmitted(c, s, m, o) then s.slot
                           else if First(SealCodes(s.slot, o.hash, o.sign)) != Success
                           then SlotAfter(s.slot, o.hash, o.sign)
                           else if FromHex(e).None? || First(LoadCodes(Some(key), o.decrypt.load)) != Success
                           then Some(key)
                           else Some(KeyOf(Some(key), o.decrypt.load)))
  {
    CommitSignedIs(c, m);
    VerifyCallsAre(o.verify);
    if m.repId < |s.repos| {
      SameTable(s, m.repId);
    }
    if CommitAdmitted(c, s, m, o) {
      CommitFinishFails(c, s.repos[m.repId], s.slot, m, e, o);
    }
  }

  /** What RSA encryption promises, for the lengths that PKCS #1 v1.5 takes (section 7.2.1 of RFC 8017). */
  ghost predicate DecryptUndoes(c: Crypto, encrypt: (PublicKey, bytes) -> bytes) {
    forall k: KeyPair, p: bytes | |p| <= 245 :: c.rsaDecrypt(k, encrypt(k.public, p)) == p
  }

  /**
   * A client that encrypts a key to the stored key of the TEE, attaches it, and gets a reply, gets its
   * key back, in hexadecimal, as long as the stored key can be opened.
   */
  lemma {:induction false} ReleasedKeyIsTheClients(c: Crypto, encrypt: (PublicKey, bytes) -> bytes, s: State,
      m: CommitMessage, e: CipherText, o: CommitCalls, p: bytes)
    requires DecryptUndoes(c, encrypt) && |p| <= 245
    requires s.slot.Some? && FromHex(e) == Some(encrypt(s.slot.value.public, p))
    requires o.sign.load.open == Success && o.decrypt.load.open == Success
    requires Step(c, s, Commit(m, e, o)).1.Committed?
    ensures FromHex(Step(c, s, Commit(m, e, o)).1.decryptedKey) == Some(p)
  {
    CommitPromise(c, s, m, e, o);
    DecodeEncode(p);
  }

  // ---------------------------------------------------------------- get_latest_hash

  /** The four bytes of the nonce, the lowest first. */
  function NonceBytes(nonce: uint32): string {
    [(nonce % 0x100) as char, (nonce / 0x100 % 0x100) as char, (nonce / 0x1_0000 % 0x100) as char,
     (nonce / 0x100_0000 % 0x100) as char]
  }

  /** The first zero byte stands at position `z`, or there is none up to the end. */
  predicate FirstZero(s: string, z: nat) {
    z <= |s| && '\0' !in s[..z] && (z < |s| ==> s[z] == '\0')
  }

  lemma {:induction false} CStringIs(s: string, z: nat)
    requires FirstZero(s, z)
    ensures CString(s) == s[..z]
  {
    if z > 0 {
      assert s[0] in s[..z];
      assert s[1..][..z - 1] == s[1..z];
      CStringIs(s[1..], z - 1);
      assert s[..z] == [s[0]] + s[1..z];
    }
  }

  /**
   * `get_latest_hash` answers the nonce and the latest hash, and signs what a C string of both is: the
   * bytes before the first zero byte, at position `z`, or all of them.
   */
  lemma {:induction false} LatestPromise(c: Crypto, s: State, id: uint32, nonce: uint32, o: LatestCalls, z: nat)
    requires Step(c, s, GetLatestHash(id, nonce, o)).1.Latest?
    requires FirstZero(NonceBytes(nonce) + Step(c, s, GetLatestHash(id, nonce, o)).1.hash, z)
    ensures var (s', reply) := Step(c, s, GetLatestHash(id, nonce, o));
            && id < |s.repos| && s'.repos == s.repos
            && reply.nonce == nonce && reply.hash == s.repos[id].latestHash
            && s'.slot == Some(KeyOf(s.slot, o.sign.load))
            && reply.signature
            == ToHex(c.rsaSign(s'.slot.value, c.sha256((NonceBytes(nonce) + s.repos[id].latestHash)[..z])))
  {
    SameTable(s, id);
    WordBytesAre(nonce);
    CStringIs(NonceBytes(nonce) + s.repos[id].latestHash, z);
    AnswerIs(c, s.slot, LatestText(nonce, s.repos[id].latestHash), o);
  }

  lemma LatestAnswer(c: Crypto, s: State, id: uint32, nonce: uint32, o: LatestCalls)
    requires Step(c, s, GetLatestHash(id, nonce, o)).1.Latest?
    ensures var (s', reply) := Step(c, s, GetLatestHash(id, nonce, o));
            && id < |s.repos| && s'.slot.Some? && reply.nonce == nonce && reply.hash == s.repos[id].latestHash
            && forall z: nat | FirstZero(NonceBytes(nonce) + reply.hash, z) ::
                 reply.signature
                 == ToHex(c.rsaSign(s'.slot.value, c.sha256((NonceBytes(nonce) + reply.hash)[..z])))
  {
    AnswerIs(c, s.slot, LatestText(nonce, s.repos[id].latestHash), o);
    var reply := Step(c, s, GetLatestHash(id, nonce, o)).1;
    forall z: nat | FirstZero(NonceBytes(nonce) + reply.hash, z)
      ensures reply.signature
           == ToHex(c.rsaSign(Step(c, s, GetLatestHash(id, nonce, o)).0.slot.value,
                c.sha256((NonceBytes(nonce) + reply.hash)[..z])))
    {
      LatestPromise(c, s, id, nonce, o, z);
    }
  }

  lemma WordBytesAre(nonce: uint32)
    ensures WordBytes(nonce) == NonceBytes(nonce)
  {
  }

  lemma AnswerIs(c: Crypto, slot: Option<KeyPair>, text: string, o: LatestCalls)
    ensures var k, code, key := LatestSigned(c, slot, text, o), First(SealCodes(slot, o.hash, o.sign)),
                KeyOf(slot, o.sign.load);
            && k.slot == SlotAfter(slot, o.hash, o.sign)
            && (code != Success ==> k.result == Err(code))
            && (code == Success ==> k == Keyed(Some(key), Ok(ToHex(c.rsaSign(key, c.sha256(text))))))
  {
    DecodeEncode(c.sha256(text));
    FirstOfThree(o.hash.allocate, o.hash.digest, Success);
    FirstOfThree(o.sign.allocate, o.sign.setKey, o.sign.sign);
    FirstOfSum([o.hash.allocate, o.hash.digest],
      LoadCodes(slot, o.sign.load) + [o.sign.allocate, o.sign.setKey, o.sign.sign]);
    FirstOfSum(LoadCodes(slot, o.sign.load), [o.sign.allocate, o.sign.setKey, o.sign.sign]);
    LoadIs(slot, o.sign.load);
  }

  /** The code of a `get_latest_hash` that does not get through; the repositories stay in any case. */
  lemma {:induction false} LatestCode(c: Crypto, s: State, id: uint32, nonce: uint32, o: LatestCalls)
    ensures var s' := Step(c, s, GetLatestHash(id, nonce, o)).0;
            s'.repos == s.repos && s'.slot == if id < |s.repos| then SlotAfter(s.slot, o.hash, o.sign) else s.slot
    ensures var reply := Step(c, s, GetLatestHash(id, nonce, o)).1;
            if id >= |s.repos| then reply == Failed(ItemNotFound)
            else if First(SealCodes(s.slot, o.hash, o.sign)) != Success
            then reply == Failed(First(SealCodes(s.slot, o.hash, o.sign)))
            else reply.Latest?
  {
    if id < |s.repos| {
      SameTable(s, id);
      AnswerIs(c, s.slot, LatestText(nonce, s.repos[id].latestHash), o);
    }
  }

  // ---------------------------------------------------------------- the other commands

  /** The codes of `get_tee_public_key`, which never gets through, and of everything that is no command. */
  lemma PublicKeyCode(c: Crypto, s: State, o: PublicKeyCalls, id: uint32)
    ensures Step(c, s, Malformed(id)) == (s, Failed(BadParameters))
    ensures var (s', reply) := Step(c, s, GetTeePublicKey(o));
            && s' == s
            && if o.bufferSize == 0 then reply == Failed(BadParameters)
               else if o.open != Success then reply == Failed(o.open)
               else if s.slot == None then reply == Failed(ItemNotFound)
               else if First([o.conversion.modulus, o.conversion.exponent]) != Success
               then reply == Failed(First([o.conversion.modulus, o.conversion.exponent]))
               else if !o.conversion.build || |o.conversion.der| == 0 then reply == Failed(Generic)
               else reply == Failed(ShortBuffer)
  {
    FirstOfThree(o.conversion.modulus, o.conversion.exponent, Success);
  }

  /** No failure is reported as success. */
  lemma {:induction false} NoFailureSaysSuccess(c: Crypto, s: State, cmd: Command)
    requires Step(c, s, cmd).1.Failed?
    ensures Step(c, s, cmd).1.error != Success
  {
    match cmd
    case InitRepo(adminKey, o) => InitCode(c, s, adminKey, o);
    case AccessControl(m, o) => AccessCode(c, s, m, o);
    case GetLatestHash(id, nonce, o) => LatestCode(c, s, id, nonce, o);
    case Commit(m, e, o) => CommitCode(c, s, m, e, o);
    case GetTeePublicKey(o) => PublicKeyCode(c, s, o, 0);
    case Malformed(_) =>
  }

  // ---------------------------------------------------------------- over all runs

  /**
   * In every reachable state, the signing key of each block after the first parses, its signature is the
   * hexadecimal form of bytes, and RSA accepts these bytes, under that key, for the digest of the request
   * that the block's own fields spell out.
   */
  lemma {:induction false} EveryRequestVerified(c: Crypto, slot: Option<KeyPair>, cmds: seq<Command>, i: uint32, j: nat)
    returns (key: PublicKey, bs: bytes)
    requires i < |Run(c, Start(slot), cmds).repos|
    requires 1 <= j < |Run(c, Start(slot), cmds).repos[i].chain|
    ensures var b := Run(c, Start(slot), cmds).repos[i].chain[j];
            && c.parsePem(b.base.sigkey) == Ok(key)
            && FromHex(b.base.signature) == Some(bs)
            && (AcceptsFullLengthOnly(c) ==> |b.base.signature| == 512)
            && c.rsaVerify(key, c.sha256(
                 match b
                 case Access(base, role, pubkey) =>
                   Dec(i) + ":" + (Dec(base.op) + ":" + (Dec(role) + ":" + pubkey))
                 case Contribution(base, commitHash) => Dec(i) + ":" + (Dec(base.op) + ":" + commitHash)), bs)
  {
    var b := Run(c, Start(slot), cmds).repos[i].chain[j];
    EveryBlockIsSigned(c, slot, cmds, i, j);
    key, bs := c.parsePem(b.base.sigkey).value, FromHex(b.base.signature).value;
    match b
    case Access(base, role, pubkey) => RequestsAre(i, base.op, role, pubkey, "");
    case Contribution(base, commitHash) => RequestsAre(i, base.op, 0, "", commitHash);
  }

  /**
   * In every reachable state, each block after the first names the digest of the text of the one before
   * it, and the latest hash is the digest of the text of the last.
   */
  lemma {:induction false} EveryHashIsOfTheText(c: Crypto, slot: Option<KeyPair>, cmds: seq<Command>, i: nat)
    requires i < |Run(c, Start(slot), cmds).repos|
    ensures var r := Run(c, Start(slot), cmds).repos[i];
            && |r.chain| > 0
            && r.latestHash == ToHex(c.sha256(BlockText(r.chain[|r.chain| - 1])))
            && forall j :: 1 <= j < |r.chain| ==>
                 r.chain[j].base.parent == ToHex(c.sha256(BlockText(r.chain[j - 1])))
  {
    HashChain(c, slot, cmds, i);
    var r := Run(c, Start(slot), cmds).repos[i];
    forall j | 0 <= j < |r.chain| ensures BlockHash(c, r.chain[j]) == ToHex(c.sha256(BlockText(r.chain[j]))) {
      SerialiseIs(r.chain[j]);
    }
  }

  lemma HexHasNoZero(bs: bytes)
    ensures '\0' !in ToHex(bs)
  {
  }

  /**
   * In every reachable state, the answer of `get_latest_hash` verifies: for a nonce without a zero byte,
   * RSA accepts the signature, under the key then stored, for the digest of the nonce's four bytes, lowest
   * first, followed by the hash of the newest block.
   */
  lemma {:induction false} LatestAnswerVerifies(c: Crypto, slot: Option<KeyPair>, cmds: seq<Command>, id: uint32,
      nonce: uint32, o: LatestCalls)
    requires VerifyAcceptsSign(c)
    requires Step(c, Run(c, Start(slot), cmds), GetLatestHash(id, nonce, o)).1.Latest?
    requires nonce % 0x100 != 0 && nonce / 0x100 % 0x100 != 0 && nonce / 0x1_0000 % 0x100 != 0
    requires nonce / 0x100_0000 % 0x100 != 0
    ensures var s := Run(c, Start(slot), cmds);
            var (s', reply) := Step(c, s, GetLatestHash(id, nonce, o));
            && id < |s.repos| && |s.repos[id].chain| > 0
            && reply.nonce == nonce
            && reply.hash == ToHex(c.sha256(BlockText(s.repos[id].chain[|s.repos[id].chain| - 1])))
            && s'.slot.Some? && FromHex(reply.signature).Some?
            && c.rsaVerify(s'.slot.value.public,
                 c.sha256([(nonce % 0x100) as char, (nonce / 0x100 % 0x100) as char, (nonce / 0x1_0000 % 0x100) as char,
                           (nonce / 0x100_0000 % 0x100) as char] + reply.hash), FromHex(reply.signature).value)
  {
    var s := Run(c, Start(slot), cmds);
    LatestCode(c, s, id, nonce, o);
    EveryHashIsOfTheText(c, slot, cmds, id);
    var chain := s.repos[id].chain;
    HexHasNoZero(c.sha256(BlockText(chain[|chain| - 1])));
    NonceHasNoZero(nonce);
    AnswerFrom(c, s, id, nonce, o);
  }

  lemma NonceHasNoZero(nonce: uint32)
    requires nonce % 0x100 != 0 && nonce / 0x100 % 0x100 != 0 && nonce / 0x1_0000 % 0x100 != 0
    requires nonce / 0x100_0000 % 0x100 != 0
    ensures '\0' !in NonceBytes(nonce)
  {
  }

  lemma AnswerFrom(c: Crypto, s: State, id: uint32, nonce: uint32, o: LatestCalls)
    requires VerifyAcceptsSign(c)
    requires Step(c, s, GetLatestHash(id, nonce, o)).1.Latest?
    requires id < |s.repos| && '\0' !in NonceBytes(nonce) && '\0' !in s.repos[id].latestHash
    ensures var (s', reply) := Step(c, s, GetLatestHash(id, nonce, o));
            && reply.nonce == nonce && reply.hash == s.repos[id].latestHash
            && s'.slot.Some? && FromHex(reply.signature).Some?
            && c.rsaVerify(s'.slot.value.public, c.sha256(NonceBytes(nonce) + reply.hash),
                 FromHex(reply.signature).value)
  {
    var text := NonceBytes(nonce) + s.repos[id].latestHash;
    WholeText(nonce, s.repos[id].latestHash);
    LatestAnswer(c, s, id, nonce, o);
    LatestPromise(c, s, id, nonce, o, |text|);
    AnswerVerifies(c, KeyOf(s.slot, o.sign.load), text);
  }

  lemma WholeText(nonce: uint32, hash: HashText)
    requires '\0' !in NonceBytes(nonce) && '\0' !in hash
    ensures var text := NonceBytes(nonce) + hash;
            text[..|text|] == text && '\0' !in text
  {
  }

  lemma AnswerVerifies(c: Crypto, key: KeyPair, text: string)
    requires VerifyAcceptsSign(c)
    ensures var signature := ToHex(c.rsaSign(key, c.sha256(text)));
            FromHex(signature).Some? && c.rsaVerify(key.public, c.sha256(text), FromHex(signature).value)
  {
    DecodeEncode(c.rsaSign(key, c.sha256(text)));
  }

  /** A block that is sealed with a key verifies under its public half, on the text it shows. */
  lemma SealVerifies(c: Crypto, key: KeyPair, b: Block)
    requires VerifyAcceptsSign(c) && b.base.teeSig == ToHex(c.rsaSign(key, c.sha256(BlockText(b))))
    ensures FromHex(b.base.teeSig).Some?
    ensures c.rsaVerify(key.public, c.sha256(BlockText(b)), FromHex(b.base.teeSig).value)
  {
    AnswerVerifies(c, key, BlockText(b));
  }
}
