/**
 * The trusted application itself (ta/trust_chain_ta.c): the table of repositories, updated in place by
 * each command. Every command is proved to do what the state machine of module Ledger says, to touch
 * only the repository it names, and to leave every live heap object owned by exactly one repository.
 */
module TrustChain {
  import opened Basics
  import B = Blocks
  import opened BlockRecords
  import opened Messages
  import opened Crypto
  import opened Hex
  import opened KeyLists
  import L = Ledger
  import P = Promises
  import Pem

  class RepoMetadata {
    var blockHeight: uint32
    var latestHash: HashText
    var founderKey: KeyText
    var adminKeys: KeyList?
    var writerKeys: KeyList?

    /** The blocks handed out so far. */
    ghost var chain: seq<B.Block>

    /** The structure, its lists, and everything they are made of. */
    ghost function Footprint(): set<object>
      reads this, adminKeys, writerKeys
    {
      {this} + ListRepr(adminKeys) + ListRepr(writerKeys)
    }

    /** Whichever lists have been allocated are sound, and nothing is shared. */
    ghost predicate Owned()
      reads this, adminKeys, writerKeys, ListRepr(adminKeys), ListRepr(writerKeys)
    {
      && (adminKeys != null ==> this !in adminKeys.Repr && adminKeys.Valid())
      && (writerKeys != null ==> this !in writerKeys.Repr && writerKeys.Valid())
      && ListRepr(adminKeys) !! ListRepr(writerKeys)
    }

    ghost predicate Valid()
      reads this, adminKeys, writerKeys, ListRepr(adminKeys), ListRepr(writerKeys)
    {
      Owned() && adminKeys != null && writerKeys != null
    }

    ghost function Model(): L.Repo
      requires Valid()
      reads this, adminKeys, writerKeys, ListRepr(adminKeys), ListRepr(writerKeys)
    {
      L.Repo(blockHeight, latestHash, founderKey, adminKeys.keys, writerKeys.keys, chain)
    }

    /** A zero-filled structure. */
    constructor ()
      ensures Owned() && adminKeys == null && writerKeys == null && chain == []
    {
      blockHeight, latestHash, founderKey := 0, "", "";
      adminKeys, writerKeys := null, null;
      chain := [];
    }

    // The list operations, seen from the repository.

    method AddAdmin(pubkey: KeyText, calls: NodeCalls, heap: Heap) returns (res: TeeResult)
      requires Valid() && heap.Valid() && Footprint() <= heap.live && heap !in Footprint()
      modifies Footprint(), heap
      ensures Valid() && fresh(Footprint() - old(Footprint()))
      ensures heap.Valid() && old(heap.tracked) <= heap.tracked
      ensures Footprint() <= heap.live && heap.live - Footprint() == old(heap.live - Footprint())
      ensures adminKeys == old(adminKeys) && writerKeys == old(writerKeys)
      ensures res == if calls.node && calls.key then Success else OutOfMemory
      ensures Model() == if res == Success
                         then old(Model()).(admins := [pubkey] + old(Model()).admins)
                         else old(Model())
    {
      ghost var rest, mine, live := {this} + writerKeys.Repr, adminKeys.Repr, heap.live;
      res := adminKeys.AddKeyToSet(pubkey, calls, heap);
      Exchange(live, mine, heap.live, adminKeys.Repr, rest);
      Swap({this}, adminKeys.Repr, writerKeys.Repr);
      Swap({this}, mine, writerKeys.Repr);
      assert Footprint() == rest + adminKeys.Repr && old(Footprint()) == rest + mine;
    }

    method AddWriter(pubkey: KeyText, calls: NodeCalls, heap: Heap) returns (res: TeeResult)
      requires Valid() && heap.Valid() && Footprint() <= heap.live && heap !in Footprint()
      modifies Footprint(), heap
      ensures Valid() && fresh(Footprint() - old(Footprint()))
      ensures heap.Valid() && old(heap.tracked) <= heap.tracked
      ensures Footprint() <= heap.live && heap.live - Footprint() == old(heap.live - Footprint())
      ensures adminKeys == old(adminKeys) && writerKeys == old(writerKeys)
      ensures res == if calls.node && calls.key then Success else OutOfMemory
      ensures Model() == if res == Success
                         then old(Model()).(writers := [pubkey] + old(Model()).writers)
                         else old(Model())
    {
      ghost var rest, mine, live := {this} + adminKeys.Repr, writerKeys.Repr, heap.live;
      res := writerKeys.AddKeyToSet(pubkey, calls, heap);
      Exchange(live, mine, heap.live, writerKeys.Repr, rest);
      assert Footprint() == rest + writerKeys.Repr && old(Footprint()) == rest + mine;
    }

    method RemoveAdmin(pubkey: KeyText, heap: Heap) returns (res: TeeResult, wasFound: bool)
      requires Valid() && heap.Valid() && Footprint() <= heap.live && heap !in Footprint()
      modifies Footprint(), heap
      ensures Valid() && fresh(Footprint() - old(Footprint()))
      ensures heap.Valid() && old(heap.tracked) <= heap.tracked
      ensures Footprint() <= heap.live && heap.live - Footprint() == old(heap.live - Footprint())
      ensures adminKeys == old(adminKeys) && writerKeys == old(writerKeys)
      ensures res == Success && wasFound == (pubkey in old(Model()).admins)
      ensures Model() == old(Model()).(admins := RemoveFirst(old(Model()).admins, pubkey))
    {
      ghost var rest, mine, live := {this} + writerKeys.Repr, adminKeys.Repr, heap.live;
      res, wasFound := adminKeys.FindAndRemoveKey(pubkey, heap);
      Exchange(live, mine, heap.live, adminKeys.Repr, rest);
      Swap({this}, adminKeys.Repr, writerKeys.Repr);
      Swap({this}, mine, writerKeys.Repr);
      assert Footprint() == rest + adminKeys.Repr && old(Footprint()) == rest + mine;
    }

    method RemoveWriter(pubkey: KeyText, heap: Heap) returns (res: TeeResult, wasFound: bool)
      requires Valid() && heap.Valid() && Footprint() <= heap.live && heap !in Footprint()
      modifies Footprint(), heap
      ensures Valid() && fresh(Footprint() - old(Footprint()))
      ensures heap.Valid() && old(heap.tracked) <= heap.tracked
      ensures Footprint() <= heap.live && heap.live - Footprint() == old(heap.live - Footprint())
      ensures adminKeys == old(adminKeys) && writerKeys == old(writerKeys)
      ensures res == Success && wasFound == (pubkey in old(Model()).writers)
      ensures Model() == old(Model()).(writers := RemoveFirst(old(Model()).writers, pubkey))
    {
      ghost var rest, mine, live := {this} + adminKeys.Repr, writerKeys.Repr, heap.live;
      res, wasFound := writerKeys.FindAndRemoveKey(pubkey, heap);
      Exchange(live, mine, heap.live, writerKeys.Repr, rest);
      assert Footprint() == rest + writerKeys.Repr && old(Footprint()) == rest + mine;
    }

    /** The key stops being a writer before it becomes an administrator. */
    method Promote(pubkey: KeyText, calls: NodeCalls, heap: Heap) returns (res: TeeResult)
      requires Valid() && heap.Valid() && Footprint() <= heap.live && heap !in Footprint()
      modifies Footprint(), heap
      ensures Valid() && fresh(Footprint() - old(Footprint()))
      ensures heap.Valid() && old(heap.tracked) <= heap.tracked
      ensures Footprint() <= heap.live && heap.live - Footprint() == old(heap.live - Footprint())
      ensures adminKeys == old(adminKeys) && writerKeys == old(writerKeys)
      ensures res == if calls.node && calls.key then Success else OutOfMemory
      ensures Model() == old(Model()).(
                writers := RemoveFirst(old(Model().writers), pubkey),
                admins := if res == Success then [pubkey] + old(Model().admins) else old(Model().admins))
    {
      var wasWriter;
      res, wasWriter := RemoveWriter(pubkey, heap);
      if res != Success {
        return;
      }
      res := AddAdmin(pubkey, calls, heap);
    }

    /** OP_ADD for an administrator. */
    method AddAdminKey(pubkey: KeyText, calls: NodeCalls, heap: Heap) returns (res: TeeResult)
      requires Valid() && heap.Valid() && Footprint() <= heap.live && heap !in Footprint()
      modifies Footprint(), heap
      ensures Valid() && fresh(Footprint() - old(Footprint()))
      ensures heap.Valid() && old(heap.tracked) <= heap.tracked
      ensures Footprint() <= heap.live && heap.live - Footprint() == old(heap.live - Footprint())
      ensures adminKeys == old(adminKeys) && writerKeys == old(writerKeys)
      ensures var ch := L.ChangeKeys(old(Model()).admins, old(Model()).writers, OP_ADD, ROLE_ADMIN, pubkey,
                          calls.node && calls.key);
              res == ch.result && Model() == L.WithKeys(old(Model()), ch)
    {
      var isAdmin := adminKeys.KeyExistsInSet(pubkey);
      if isAdmin {
        return BadParameters;
      }
      res := Promote(pubkey, calls, heap);
    }

    /** OP_ADD for a writer. */
    method AddWriterKey(pubkey: KeyText, calls: NodeCalls, heap: Heap) returns (res: TeeResult)
      requires Valid() && heap.Valid() && Footprint() <= heap.live && heap !in Footprint()
      modifies Footprint(), heap
      ensures Valid() && fresh(Footprint() - old(Footprint()))
      ensures heap.Valid() && old(heap.tracked) <= heap.tracked
      ensures Footprint() <= heap.live && heap.live - Footprint() == old(heap.live - Footprint())
      ensures adminKeys == old(adminKeys) && writerKeys == old(writerKeys)
      ensures var ch := L.ChangeKeys(old(Model()).admins, old(Model()).writers, OP_ADD, ROLE_WRITER, pubkey,
                          calls.node && calls.key);
              res == ch.result && Model() == L.WithKeys(old(Model()), ch)
    {
      var isWriter := writerKeys.KeyExistsInSet(pubkey);
      if isWriter {
        return BadParameters;
      }
      var isAdmin := adminKeys.KeyExistsInSet(pubkey);
      if isAdmin {
        return BadParameters;
      }
      res := AddWriter(pubkey, calls, heap);
    }

    /** What `access_control` does to the key lists for OP_ADD. */
    method AddKey(role: uint32, pubkey: KeyText, calls: NodeCalls, heap: Heap) returns (res: TeeResult)
      requires Valid() && heap.Valid() && Footprint() <= heap.live && heap !in Footprint()
      modifies Footprint(), heap
      ensures Valid() && fresh(Footprint() - old(Footprint()))
      ensures heap.Valid() && old(heap.tracked) <= heap.tracked
      ensures Footprint() <= heap.live && heap.live - Footprint() == old(heap.live - Footprint())
      ensures adminKeys == old(adminKeys) && writerKeys == old(writerKeys)
      ensures var ch := L.ChangeKeys(old(Model()).admins, old(Model()).writers, OP_ADD, role, pubkey,
                          calls.node && calls.key);
              res == ch.result && Model() == L.WithKeys(old(Model()), ch)
    {
      if role == ROLE_ADMIN {
        res := AddAdminKey(pubkey, calls, heap);
        if res != Success {
          return;
        }
      } else if role == ROLE_WRITER {
        res := AddWriterKey(pubkey, calls, heap);
        if res != Success {
          return;
        }
      }
      return Success;
    }

    /** What `access_control` does to the key lists for OP_DELETE. */
    method DeleteKey(role: uint32, pubkey: KeyText, ghost room: bool, heap: Heap) returns (res: TeeResult)
      requires Valid() && heap.Valid() && Footprint() <= heap.live && heap !in Footprint()
      modifies Footprint(), heap
      ensures Valid() && fresh(Footprint() - old(Footprint()))
      ensures heap.Valid() && old(heap.tracked) <= heap.tracked
      ensures Footprint() <= heap.live && heap.live - Footprint() == old(heap.live - Footprint())
      ensures adminKeys == old(adminKeys) && writerKeys == old(writerKeys)
      ensures res == L.ChangeKeys(old(Model()).admins, old(Model()).writers, OP_DELETE, role, pubkey, room).result
      ensures Model() == L.WithKeys(old(Model()),
                L.ChangeKeys(old(Model()).admins, old(Model()).writers, OP_DELETE, role, pubkey, room))
    {
      if role == ROLE_ADMIN {
        var wasFound;
        res, wasFound := RemoveAdmin(pubkey, heap);
        if res != Success {
          return;
        }
        if !wasFound {
          return BadParameters;
        }
      } else if role == ROLE_WRITER {
        var wasFound;
        res, wasFound := RemoveWriter(pubkey, heap);
        if res != Success {
          return;
        }
        if !wasFound {
          return BadParameters;
        }
      }
      return Success;
    }

    /** How `access_control` updates the key lists. */
    method ChangeKeys(m: AccessMessage, o: L.AccessCalls, heap: Heap) returns (res: TeeResult)
      requires m.op == OP_ADD || m.op == OP_DELETE
      requires Valid() && heap.Valid() && Footprint() <= heap.live && heap !in Footprint()
      modifies Footprint(), heap
      ensures Valid() && fresh(Footprint() - old(Footprint()))
      ensures heap.Valid() && old(heap.tracked) <= heap.tracked
      ensures Footprint() <= heap.live && heap.live - Footprint() == old(heap.live - Footprint())
      ensures adminKeys == old(adminKeys) && writerKeys == old(writerKeys)
      ensures res == L.AccessChange(old(Model()), m, o).result
      ensures Model() == L.WithKeys(old(Model()), L.AccessChange(old(Model()), m, o))
    {
      if m.op == OP_ADD {
        res := AddKey(m.role, m.pubkey, o.node, heap);
      } else {
        res := DeleteKey(m.role, m.pubkey, o.node.node && o.node.key, heap);
      }
    }

    method AllocateAdminList(ok: bool, heap: Heap)
      requires Owned() && adminKeys == null && heap.Valid() && Footprint() <= heap.live && heap !in Footprint()
      modifies this`adminKeys, heap
      ensures Owned() && writerKeys == old(writerKeys)
      ensures heap.Valid() && old(heap.tracked) <= heap.tracked
      ensures adminKeys != null <==> ok
      ensures ok ==> fresh(adminKeys) && adminKeys.keys == []
      ensures Footprint() == old(Footprint()) + (if ok then {adminKeys} else {})
      ensures heap.live == old(heap.live) + (if ok then {adminKeys} else {})
    {
      if ok {
        ghost var before := Footprint();
        adminKeys := AllocateKeyList(heap);
        assert Footprint() == before + {adminKeys};
      }
    }

    method AllocateWriterList(ok: bool, heap: Heap)
      requires Owned() && writerKeys == null && heap.Valid() && Footprint() <= heap.live && heap !in Footprint()
      modifies this`writerKeys, heap
      ensures Owned() && adminKeys == old(adminKeys)
      ensures heap.Valid() && old(heap.tracked) <= heap.tracked
      ensures writerKeys != null <==> ok
      ensures ok ==> fresh(writerKeys) && writerKeys.keys == []
      ensures Footprint() == old(Footprint()) + (if ok then {writerKeys} else {})
      ensures heap.live == old(heap.live) + (if ok then {writerKeys} else {})
    {
      if ok {
        ghost var before := Footprint();
        writerKeys := AllocateKeyList(heap);
        assert Footprint() == before + {writerKeys};
      }
    }

    /** Initialises the lists of a new repository and makes the founder its administrator. */
    method Furnish(adminKey: KeyText, calls: NodeCalls, heap: Heap) returns (res: TeeResult)
      requires Valid() && heap.Valid() && Footprint() <= heap.live && heap !in Footprint()
      requires adminKeys.keys == [] && writerKeys.keys == []
      modifies Footprint(), heap
      ensures Valid() && fresh(Footprint() - old(Footprint()))
      ensures heap.Valid() && old(heap.tracked) <= heap.tracked
      ensures Footprint() <= heap.live && heap.live - Footprint() == old(heap.live - Footprint())
      ensures res == if calls.node && calls.key then Success else OutOfMemory
      ensures Model() == if res == Success then old(Model()).(admins := [adminKey]) else old(Model())
    {
      adminKeys.Init();
      writerKeys.Init();
      res := AddAdmin(adminKey, calls, heap);
      assert [adminKey] + [] == [adminKey];
    }

    /** Frees the lists and the structure. */
    method Release(heap: Heap)
      requires Owned() && heap.Valid() && Footprint() <= heap.live && heap !in Footprint()
      modifies Footprint(), heap
      ensures heap.Valid() && heap.tracked == old(heap.tracked) && heap.live == old(heap.live) - old(Footprint())
    {
      FreeKeyList(adminKeys, heap);
      FreeKeyList(writerKeys, heap);
      heap.Free(this);
    }

    /** Stores a finished block as the latest one. */
    method Append(hash: HashText, ghost block: B.Block)
      requires Valid()
      modifies this`latestHash, this`blockHeight, this`chain
      ensures Valid()
      ensures Model() == old(Model()).(
                height := L.NextHeight(old(Model())), latestHash := hash, chain := old(chain) + [block])
    {
      latestHash := hash;
      blockHeight := (blockHeight + 1) % WORD;
      chain := chain + [block];
    }

    method NewAccessBlock(m: AccessMessage, now: B.Time) returns (record: AccessBlock)
      requires Valid()
      ensures fresh(record) && fresh(record.base) && record.Value() == L.AccessBlock(Model(), m, now)
    {
      record := new AccessBlock();
      record.Init((blockHeight + 1) % WORD, Some(latestHash), m.op, m.role, Some(m.pubkey), Some(m.sigkey),
                  Some(m.signature), now);
    }

    method NewContributionBlock(m: CommitMessage, now: B.Time) returns (record: ContributionBlock)
      requires Valid()
      ensures fresh(record) && fresh(record.base) && record.Value() == L.ContributionBlock(Model(), m, now)
    {
      record := new ContributionBlock();
      record.Init((blockHeight + 1) % WORD, Some(latestHash), m.op, Some(m.commitHash), Some(m.sigkey),
                  Some(m.signature), now);
    }

    /** Builds, hashes and signs an access block on top of the latest one. */
    method SealAccessBlock(c: Crypto, keys: KeyManager, m: AccessMessage, o: L.AccessCalls)
      returns (block: Result<B.Block>, hash: HashText)
      requires Valid() && keys !in Footprint()
      modifies keys
      ensures Keyed(keys.slot, block) == L.AccessSealed(c, Model(), old(keys.slot), m, o)
      ensures block.Ok? ==> hash == L.BlockHash(c, block.value)
    {
      var record := NewAccessBlock(m, o.time);
      var res;
      res, hash := record.CalculateHash(c, o.hash);
      if res != Success {
        return Err(res), "";
      }
      var signature := keys.SignHashText(c, hash, o.sign);
      if signature.Err? {
        return Err(signature.error), "";
      }
      record.base.teeSig := signature.value;
      return Ok(record.Value()), hash;
    }

    method AccessControl(c: Crypto, keys: KeyManager, heap: Heap, m: AccessMessage, o: L.AccessCalls)
      returns (reply: L.Reply)
      requires m.op == OP_ADD || m.op == OP_DELETE
      requires Valid() && heap.Valid() && Footprint() <= heap.live && heap !in Footprint() && keys !in Footprint()
      modifies Footprint(), heap, keys
      ensures Valid() && fresh(Footprint() - old(Footprint()))
      ensures heap.Valid() && old(heap.tracked) <= heap.tracked
      ensures Footprint() <= heap.live && heap.live - Footprint() == old(heap.live - Footprint())
      ensures L.Outcome(Model(), keys.slot, reply) == L.AccessStep(c, old(Model()), old(keys.slot), m, o)
    {
      var res := AdmitAccess(c, m, o.verify);
      if res != Success {
        return L.Failed(res);
      }
      reply := Apply(c, keys, heap, m, o);
    }

    /** The guards of `access_control`. */
    method AdmitAccess(c: Crypto, m: AccessMessage, o: UserVerifyCalls) returns (res: TeeResult)
      requires Valid()
      ensures res == if m.sigkey !in adminKeys.keys then AccessDenied
                     else if !(UserCallsSucceed(o) && L.AccessSigned(c, m)) then Security
                     else Success
    {
      var isAdmin := adminKeys.KeyExistsInSet(m.sigkey);
      if !isAdmin {
        return AccessDenied;
      }
      res := VerifySignature(c, AccessText(m.repId, m.op, m.role, m.pubkey), m.sigkey, m.signature, o);
      if res != Success {
        return Security;
      }
    }

    /** The rest of `access_control`, once the request is accepted. */
    method Apply(c: Crypto, keys: KeyManager, heap: Heap, m: AccessMessage, o: L.AccessCalls)
      returns (reply: L.Reply)
      requires m.op == OP_ADD || m.op == OP_DELETE
      requires Valid() && heap.Valid() && Footprint() <= heap.live && heap !in Footprint() && keys !in Footprint()
      modifies Footprint(), heap, keys
      ensures Valid() && fresh(Footprint() - old(Footprint()))
      ensures heap.Valid() && old(heap.tracked) <= heap.tracked
      ensures Footprint() <= heap.live && heap.live - Footprint() == old(heap.live - Footprint())
      ensures L.Outcome(Model(), keys.slot, reply) == L.AccessApply(c, old(Model()), old(keys.slot), m, o)
    {
      var res := ChangeKeys(m, o, heap);
      if res != Success {
        return L.Failed(res);
      }
      reply := FinishAccess(c, keys, m, o);
    }

    /** The rest of `access_control`, once the key lists are changed. */
    method FinishAccess(c: Crypto, keys: KeyManager, m: AccessMessage, o: L.AccessCalls) returns (reply: L.Reply)
      requires Valid() && keys !in Footprint()
      modifies this, keys
      ensures Valid() && Footprint() == old(Footprint())
      ensures L.Outcome(Model(), keys.slot, reply) == L.AccessFinish(c, old(Model()), old(keys.slot), m, o)
    {
      var block, hash := SealAccessBlock(c, keys, m, o);
      if block.Err? {
        return L.Failed(block.error);
      }
      Append(hash, block.value);
      return L.Appended(block.value);
    }

    method StoreGenesis(c: Crypto, hash: HashText, ghost genesis: B.Block)
      requires Valid() && chain == [] && hash == L.BlockHash(c, genesis)
      modifies this
      ensures Valid() && Model() == old(Model()).(latestHash := L.BlockHash(c, genesis), chain := [genesis])
      ensures Footprint() == old(Footprint())
    {
      latestHash := hash;
      chain := [genesis];
    }

    /** Builds, hashes and signs a contribution block on top of the latest one. */
    method SealContributionBlock(c: Crypto, keys: KeyManager, m: CommitMessage, o: L.CommitCalls)
      returns (block: Result<B.Block>, hash: HashText)
      requires Valid() && keys !in Footprint()
      modifies keys
      ensures Keyed(keys.slot, block) == L.CommitSealed(c, Model(), old(keys.slot), m, o)
      ensures block.Ok? ==> hash == L.BlockHash(c, block.value)
    {
      var record := NewContributionBlock(m, o.time);
      var res;
      res, hash := record.CalculateHash(c, o.hash);
      if res != Success {
        return Err(res), "";
      }
      var signature := keys.SignHashText(c, hash, o.sign);
      if signature.Err? {
        return Err(signature.error), "";
      }
      record.base.teeSig := signature.value;
      return Ok(record.Value()), hash;
    }

    method Commit(c: Crypto, keys: KeyManager, m: CommitMessage, encryptedKey: CipherText, o: L.CommitCalls)
      returns (reply: L.Reply)
      requires Valid() && keys !in Footprint()
      modifies this, keys
      ensures Valid() && Footprint() == old(Footprint())
      ensures L.Outcome(Model(), keys.slot, reply) == L.CommitStep(c, old(Model()), old(keys.slot), m, encryptedKey, o)
    {
      var res := AdmitCommit(c, m, o.verify);
      if res != Success {
        return L.Failed(res);
      }
      reply := FinishCommit(c, keys, m, encryptedKey, o);
    }

    /** The guards of `commit`. */
    method AdmitCommit(c: Crypto, m: CommitMessage, o: UserVerifyCalls) returns (res: TeeResult)
      requires Valid()
      ensures res == if m.sigkey !in adminKeys.keys && m.sigkey !in writerKeys.keys then AccessDenied
                     else if !(UserCallsSucceed(o) && L.CommitSigned(c, m)) then Security
                     else Success
    {
      var isAdmin := adminKeys.KeyExistsInSet(m.sigkey);
      if !isAdmin {
        var isWriter := writerKeys.KeyExistsInSet(m.sigkey);
        if !isWriter {
          return AccessDenied;
        }
      }
      res := VerifySignature(c, CommitText(m.repId, m.op, m.commitHash), m.sigkey, m.signature, o);
      if res != Success {
        return Security;
      }
    }

    /** The rest of `commit`, once the request is accepted. */
    method FinishCommit(c: Crypto, keys: KeyManager, m: CommitMessage, encryptedKey: CipherText, o: L.CommitCalls)
      returns (reply: L.Reply)
      requires Valid() && keys !in Footprint()
      modifies this, keys
      ensures Valid() && Footprint() == old(Footprint())
      ensures L.Outcome(Model(), keys.slot, reply) == L.CommitFinish(c, old(Model()), old(keys.slot), m,
          encryptedKey, o)
    {
      var block, hash := SealContributionBlock(c, keys, m, o);
      if block.Err? {
        return L.Failed(block.error);
      }
      reply := ReleaseContribution(c, keys, block.value, hash, encryptedKey, o.decrypt);
    }

    /** Decrypts the attached key, and only then stores the sealed block. */
    method ReleaseContribution(c: Crypto, keys: KeyManager, block: B.Block, hash: HashText, encryptedKey: CipherText,
        o: DecryptCalls)
      returns (reply: L.Reply)
      requires Valid() && keys !in Footprint() && hash == L.BlockHash(c, block)
      modifies this, keys
      ensures Valid() && Footprint() == old(Footprint())
      ensures L.Outcome(Model(), keys.slot, reply)
           == L.CommitRelease(c, old(Model()), old(keys.slot), block, encryptedKey, o)
    {
      var plain := keys.Decrypt(c, encryptedKey, o);
      if plain.Err? {
        return L.Failed(plain.error);
      }
      Append(hash, block);
      return L.Committed(block, plain.value);
    }
  }

  lemma Outside(live: set<object>, part: set<object>, live': set<object>, part': set<object>)
    requires live - part == live' - part'
    ensures forall o :: o in live && o !in part <==> o in live' && o !in part'
  {
    forall o ensures o in live && o !in part <==> o in live' && o !in part' {
      assert o in live - part <==> o in live' - part';
    }
  }

  /** The allocations at the start of `init_repo`; lists that cannot be allocated stay missing. */
  method AllocateRepo(adminKey: KeyText, o: L.InitCalls, heap: Heap) returns (repo: RepoMetadata?)
    requires heap.Valid()
    modifies heap
    ensures heap.Valid() && old(heap.tracked) <= heap.tracked
    ensures repo != null <==> o.repo
    ensures repo == null ==> heap.live == old(heap.live)
    ensures repo != null ==>
              && fresh(repo) && repo.Owned() && fresh(repo.Footprint()) && heap !in repo.Footprint()
              && heap.live == old(heap.live) + repo.Footprint()
              && (repo.adminKeys != null <==> o.adminList) && (repo.writerKeys != null <==> o.writerList)
              && repo.blockHeight == 0 && repo.latestHash == L.ZERO_HASH && repo.founderKey == adminKey
                  && repo.chain == []
              && (repo.Valid() ==> repo.adminKeys.keys == [] && repo.writerKeys.keys == [])
  {
    if !o.repo {
      return null;
    }
    repo := new RepoMetadata();
    heap.Track(repo);
    repo.blockHeight := 0;
    repo.latestHash := L.ZERO_HASH;
    repo.founderKey := adminKey;
    repo.AllocateAdminList(o.adminList, heap);
    repo.AllocateWriterList(o.writerList, heap);
  }

  /** Exchanging one part of what is owned leaves everything outside the whole alone. */
  lemma Exchange(live: set<object>, part: set<object>, live': set<object>, part': set<object>, rest: set<object>)
    requires part <= live && part' <= live' && live - part == live' - part'
    requires rest <= live && rest !! part
    ensures rest <= live' && rest !! part'
    ensures live' - (rest + part') == live - (rest + part)
  {
    assert rest <= live - part;
    forall o | o in live' - (rest + part') ensures o in live - (rest + part) { assert o in live - part; }
    forall o | o in live - (rest + part) ensures o in live' - (rest + part') { assert o in live' - part'; }
  }

  lemma Swap(x: set<object>, y: set<object>, z: set<object>)
    ensures x + y + z == x + z + y
  {
  }

  class TrustChain {
    const crypto: Crypto
    const heap: Heap
    const keys: KeyManager

    /** `repositories` and `repo_num`. */
    const repositories: array<RepoMetadata?>
    var repoNum: uint32

    /** The repository that owns each live object. */
    ghost var owner: map<object, nat>

    /** The state of the machine of module Ledger. */
    ghost var ledger: L.State

    /**
     * The used slots are exactly those below `repoNum`, and every live heap object belongs to the
     * repository of exactly one of them.
     */
    ghost predicate Valid()
      reads this, heap, keys, repositories, heap.live
    {
      Housed(owner, ledger.repos) && ledger.slot == keys.slot && |ledger.repos| == repoNum
    }

    /** The table holds these repositories and no others, and `owner` accounts for every live object. */
    ghost predicate Housed(owner: map<object, nat>, models: seq<L.Repo>)
      reads heap, repositories, heap.live
    {
      && heap.Valid()
      && Apart()
      && |models| <= MAX_REPO_ID == repositories.Length
      && (forall i :: |models| <= i < MAX_REPO_ID ==> repositories[i] == null)
      && (forall o :: o in heap.live ==> o in owner && owner[o] < |models|)
      && (forall i :: 0 <= i < |models| ==> Holds(i, owner, models[i]))
    }

    /** The objects of the application itself are not on the account of the heap. */
    ghost predicate Apart()
      reads heap
    {
      this !in heap.live && heap !in heap.live && keys !in heap.live && repositories !in heap.live
    }

    /** Slot `i` holds a repository that matches `model` and owns exactly what `owner` says. */
    ghost predicate Holds(i: nat, owner: map<object, nat>, model: L.Repo)
      reads heap, repositories, heap.live
    {
      && i < repositories.Length
      && var r := repositories[i];
      && r != null && r in heap.live
      && r.adminKeys != null && r.adminKeys in heap.live
      && r.writerKeys != null && r.writerKeys in heap.live
      && r.Footprint() <= heap.live
      && r.Valid()
      && r.Model() == model
      && forall o :: o in heap.live ==> (o in owner && owner[o] == i <==> o in r.Footprint())
    }

    constructor (crypto: Crypto)
      ensures Valid() && ledger == L.EMPTY && heap.live == {} && fresh(heap) && fresh(keys) && fresh(repositories)
      ensures this.crypto == crypto
    {
      this.crypto := crypto;
      heap := new Heap();
      keys := new KeyManager();
      repositories := new RepoMetadata?[MAX_REPO_ID](_ => null);
      repoNum := 0;
      owner := map[];
      ledger := L.EMPTY;
    }

    method ValidateAndGetRepo(repId: uint32) returns (repo: RepoMetadata?)
      requires Valid()
      ensures repo == null <==> repId >= repoNum
      ensures repo != null ==> repo == repositories[repId]
    {
      if repId >= MAX_REPO_ID || repositories[repId] == null {
        assert repId < repoNum ==> Holds(repId, owner, ledger.repos[repId]);
        return null;
      }
      return repositories[repId];
    }

    method CleanupRepoResources(repId: uint32)
      requires repositories.Length == MAX_REPO_ID && heap.Valid()
      requires repId < MAX_REPO_ID && repositories[repId] != null ==>
                 var r := repositories[repId];
                 r.Owned() && r.Footprint() <= heap.live && heap !in r.Footprint() && repositories !in r.Footprint()
      modifies repositories, heap
      modifies if repId < repositories.Length
          && repositories[repId] != null then repositories[repId].Footprint() else {}
      ensures heap.Valid() && heap.tracked == old(heap.tracked)
      ensures forall i :: 0 <= i < MAX_REPO_ID && i != repId ==> repositories[i] == old(repositories[i])
      ensures repId < MAX_REPO_ID ==> repositories[repId] == null
      ensures repId < MAX_REPO_ID && old(repositories[repId]) != null ==>
                heap.live == old(heap.live) - old(repositories[repId].Footprint())
    {
      if repId >= MAX_REPO_ID || repositories[repId] == null {
        return;
      }
      var repo := repositories[repId];
      repo.Release(heap);
      repositories[repId] := null;
    }

    /**
     * Conservation: whatever has been allocated and not freed belongs to exactly one repository, and
     * there it is the structure itself or part of exactly one of its two lists.
     */
    lemma OwnedOnce(o: object)
      requires Valid() && o in heap.live
      ensures o !in heap.freed
      ensures exists i ::
                && 0 <= i < repoNum && repositories[i] != null && o in repositories[i].Footprint()
                && (forall j | 0 <= j < repoNum && repositories[j] != null && o in repositories[j].Footprint()
                      :: j == i)
                && !(o in ListRepr(repositories[i].adminKeys) && o in ListRepr(repositories[i].writerKeys))
    {
      var i := owner[o];
      assert Holds(i, owner, ledger.repos[i]);
      forall j | 0 <= j < repoNum && repositories[j] != null && o in repositories[j].Footprint() ensures j == i {
        assert Holds(j, owner, ledger.repos[j]);
      }
    }

    /** What a command on repository `repId` may change besides the application's own fields. */
    ghost function Touched(repId: uint32): set<object>
      requires Valid()
      reads this, heap, keys, repositories, heap.live
    {
      if repId < repoNum then assert Holds(repId, owner, ledger.repos[repId]); repositories[repId].Footprint() else {}
    }

    /** Repository `i` now owns `mine`; what it does not own belongs to whom it did. */
    twostate predicate Reassigned(new i: nat, new mine: set<object>, new owner': map<object, nat>)
      reads this, heap
    {
      forall o :: o in heap.live ==>
        && o in owner'
        && (if o in mine then owner'[o] == i else o in old(owner) && owner'[o] == old(owner)[o])
    }

    /** The slot of the repository that changed holds it. */
    twostate lemma SettledOne(new i: nat, new owner': map<object, nat>)
      requires i < repositories.Length && i < |old(ledger).repos| && old(Holds(i, owner, ledger.repos[i]))
      requires repositories[i] == old(repositories[i])
      requires repositories[i].Valid() && repositories[i].Footprint() <= heap.live
      requires forall o :: o in heap.live && o !in repositories[i].Footprint()
                      <==> o in old(heap.live) && o !in old(repositories[i].Footprint())
      requires Reassigned(i, repositories[i].Footprint(), owner')
      ensures Holds(i, owner', repositories[i].Model())
    {
      var r := repositories[i];
      var mine := r.Footprint();
      assert r in mine && r.adminKeys in mine && r.writerKeys in mine;
    }

    /** The other slots hold what they held. */
    twostate lemma SettledOther(new i: nat, new j: nat, new owner': map<object, nat>)
      requires i < repositories.Length && i < |old(ledger).repos| && old(Holds(i, owner, ledger.repos[i]))
      requires j < repositories.Length && j < |old(ledger).repos| && old(Holds(j, owner, ledger.repos[j])) && i != j
      requires repositories[i] == old(repositories[i]) && repositories[j] == old(repositories[j])
      requires unchanged(old(heap.live - repositories[i].Footprint()))
      requires forall o :: o in heap.live && o !in repositories[i].Footprint()
                      <==> o in old(heap.live) && o !in old(repositories[i].Footprint())
      requires fresh(repositories[i].Footprint() - old(repositories[i].Footprint()))
      requires Reassigned(i, repositories[i].Footprint(), owner')
      ensures Holds(j, owner', old(ledger.repos[j]))
    {
      var mine, theirs := repositories[i].Footprint(), old(repositories[j].Footprint());
      assert theirs <= old(heap.live - repositories[i].Footprint());
      forall o | o in theirs ensures o in heap.live && o !in mine {
        assert o in old(heap.live) && o !in old(repositories[i].Footprint());
      }
      forall o | o in heap.live ensures owner'[o] == j <==> o in theirs {
        if o !in mine {
          assert o in old(heap.live);
        }
      }
    }

    /** When only repository `i` has changed, every slot is in order under the new account. */
    twostate lemma SettledSlots(new i: nat, new owner': map<object, nat>)
      requires old(Valid()) && i < old(repoNum) && unchanged(repositories)
      requires old(Holds(i, owner, ledger.repos[i]))
      requires repositories[i].Valid() && repositories[i].Footprint() <= heap.live
      requires heap.live - repositories[i].Footprint() == old(heap.live) - old(repositories[i].Footprint())
      requires fresh(repositories[i].Footprint() - old(repositories[i].Footprint()))
      requires unchanged(old(heap.live - repositories[i].Footprint()))
      requires Reassigned(i, repositories[i].Footprint(), owner')
      ensures var models := old(ledger.repos)[i := repositories[i].Model()];
              forall j :: 0 <= j < |models| ==> Holds(j, owner', models[j])
    {
      Outside(heap.live, repositories[i].Footprint(), old(heap.live), old(repositories[i].Footprint()));
      SettledOne(i, owner');
      forall j | 0 <= j < old(repoNum) && j != i ensures Holds(j, owner', old(ledger.repos[j])) {
        assert old(Holds(j, owner, ledger.repos[j]));
        SettledOther(i, j, owner');
      }
    }

    /** Every live object has its owner under the new account. */
    twostate lemma SettledAccount(new i: nat, new owner': map<object, nat>)
      requires old(Valid()) && i < old(repoNum) && unchanged(repositories) && repositories[i] != null
      requires repositories[i].adminKeys != null && repositories[i].writerKeys != null
      requires heap.live - repositories[i].Footprint() == old(heap.live) - old(repositories[i].Footprint())
      requires fresh(repositories[i].Footprint() - old(repositories[i].Footprint()))
      requires old(repositories[i].Footprint()) <= old(heap.live)
      requires Reassigned(i, repositories[i].Footprint(), owner')
      ensures Apart() && fresh(heap.live - old(heap.live))
      ensures |old(ledger.repos)| == old(repoNum) <= MAX_REPO_ID == repositories.Length
      ensures forall i :: old(repoNum) <= i < MAX_REPO_ID ==> repositories[i] == null
      ensures forall o :: o in heap.live ==> o in owner' && owner'[o] < old(repoNum)
    {
      Outside(heap.live, repositories[i].Footprint(), old(heap.live), old(repositories[i].Footprint()));
    }

    /** Hence the table is in order. */
    twostate lemma Settled(new i: nat, new owner': map<object, nat>)
      requires old(Valid()) && i < old(repoNum) && unchanged(repositories) && heap.Valid()
      requires old(Holds(i, owner, ledger.repos[i]))
      requires repositories[i].Valid() && repositories[i].Footprint() <= heap.live
      requires heap.live - repositories[i].Footprint() == old(heap.live) - old(repositories[i].Footprint())
      requires fresh(repositories[i].Footprint() - old(repositories[i].Footprint()))
      requires unchanged(old(heap.live - repositories[i].Footprint()))
      requires Reassigned(i, repositories[i].Footprint(), owner')
      ensures fresh(heap.live - old(heap.live))
      ensures Housed(owner', old(ledger.repos)[i := repositories[i].Model()])
    {
      SettledSlots(i, owner');
      SettledAccount(i, owner');
      InOrder(owner', old(ledger.repos)[i := repositories[i].Model()]);
    }

    lemma InOrder(owner: map<object, nat>, models: seq<L.Repo>)
      requires heap.Valid() && Apart() && |models| <= MAX_REPO_ID == repositories.Length
      requires forall i :: |models| <= i < MAX_REPO_ID ==> repositories[i] == null
      requires forall o :: o in heap.live ==> o in owner && owner[o] < |models|
      requires forall i :: 0 <= i < |models| ==> Holds(i, owner, models[i])
      ensures Housed(owner, models)
    {
    }

    /** Makes the account and the machine state of the new heap the official ones. */
    ghost method Adopt(owner': map<object, nat>, ledger': L.State)
      requires Housed(owner', ledger'.repos) && ledger'.slot == keys.slot && |ledger'.repos| == repoNum
      modifies this`owner, this`ledger
      ensures Valid() && ledger == ledger'
    {
      owner, ledger := owner', ledger';
    }

    /** `access_control` on an existing repository. */
    method AccessControlOn(repo: RepoMetadata, m: AccessMessage, o: L.AccessCalls) returns (reply: L.Reply)
      requires Valid() && m.repId < repoNum && repo == repositories[m.repId]
      requires m.op == OP_ADD || m.op == OP_DELETE
      modifies this`owner, this`ledger, heap, keys, Touched(m.repId)
      ensures Valid()
      ensures (ledger, reply) == L.Update(old(ledger), m.repId,
                L.AccessStep(crypto, old(ledger).repos[m.repId], old(ledger).slot, m, o))
      ensures fresh(heap.live - old(heap.live)) && old(heap.tracked) <= heap.tracked
    {
      ghost var i := m.repId;
      assert Holds(i, owner, ledger.repos[i]);
      reply := repo.AccessControl(crypto, keys, heap, m, o);
      Outside(heap.live, repo.Footprint(), old(heap.live), old(repo.Footprint()));
      ghost var owner' := map o | o in heap.live :: if o in repo.Footprint() then i else owner[o];
      Settled(i, owner');
      Adopt(owner', L.State(ledger.repos[i := repo.Model()], keys.slot));
    }

    method AccessControl(m: AccessMessage, o: L.AccessCalls) returns (reply: L.Reply)
      requires Valid()
      modifies this`owner, this`ledger, heap, keys, Touched(m.repId)
      ensures Valid()
      ensures (ledger, reply) == L.Step(crypto, old(ledger), L.AccessControl(m, o))
      ensures fresh(heap.live - old(heap.live)) && old(heap.tracked) <= heap.tracked
    {
      if m.op != OP_ADD && m.op != OP_DELETE {
        return L.Failed(BadParameters);
      }
      var repo := ValidateAndGetRepo(m.repId);
      if repo == null {
        return L.Failed(ItemNotFound);
      }
      reply := AccessControlOn(repo, m, o);
    }

    /** `commit` on an existing repository. */
    method CommitOn(repo: RepoMetadata, m: CommitMessage, encryptedKey: CipherText, o: L.CommitCalls)
      returns (reply: L.Reply)
      requires Valid() && m.repId < repoNum && repo == repositories[m.repId]
      modifies this`owner, this`ledger, keys, repo
      ensures Valid()
      ensures (ledger, reply) == L.Update(old(ledger), m.repId,
                L.CommitStep(crypto, old(ledger).repos[m.repId], old(ledger).slot, m, encryptedKey, o))
    {
      ghost var i := m.repId;
      assert Holds(i, owner, ledger.repos[i]);
      reply := repo.Commit(crypto, keys, m, encryptedKey, o);
      Settled(i, owner);
      Adopt(owner, L.State(ledger.repos[i := repo.Model()], keys.slot));
    }

    method Commit(m: CommitMessage, encryptedKey: CipherText, o: L.CommitCalls) returns (reply: L.Reply)
      requires Valid()
      modifies this`owner, this`ledger, keys, Touched(m.repId)
      ensures Valid()
      ensures (ledger, reply) == L.Step(crypto, old(ledger), L.Commit(m, encryptedKey, o))
      ensures heap.live == old(heap.live)
    {
      if m.op != OP_PUSH && m.op != OP_PR {
        return L.Failed(BadParameters);
      }
      var repo := ValidateAndGetRepo(m.repId);
      if repo == null {
        return L.Failed(ItemNotFound);
      }
      reply := CommitOn(repo, m, encryptedKey, o);
    }

    /** `get_latest_hash` on an existing repository. */
    method LatestHashOn(repo: RepoMetadata, nonce: uint32, o: L.LatestCalls) returns (latest: HashText,
        signature: Result<SignatureText>)
      modifies keys
      ensures latest == repo.latestHash
      ensures Keyed(keys.slot, signature) == L.LatestSigned(crypto, old(keys.slot), L.LatestText(nonce,
          repo.latestHash), o)
    {
      latest := repo.latestHash;
      signature := keys.SignData(crypto, L.LatestText(nonce, latest), o.hash, o.sign);
    }

    /** `get_latest_hash` on an existing repository: the table stays, the key may be new. */
    method AnswerLatestHash(repo: RepoMetadata, repId: uint32, nonce: uint32, o: L.LatestCalls)
      returns (reply: L.Reply)
      requires Valid() && repId < repoNum && repo == repositories[repId]
      modifies this`owner, this`ledger, keys
      ensures Valid()
      ensures (ledger, reply) == L.Update(old(ledger), repId,
                L.LatestStep(crypto, old(ledger).repos[repId], old(ledger).slot, nonce, o))
      ensures ledger.repos == old(ledger).repos
    {
      assert Holds(repId, owner, ledger.repos[repId]);
      var latest, signature := LatestHashOn(repo, nonce, o);
      Adopt(owner, L.State(ledger.repos, keys.slot));
      SameRepos(ledger.repos, repId);
      if signature.Err? {
        return L.Failed(signature.error);
      }
      return L.Latest(nonce, latest, signature.value);
    }

    method GetLatestHash(repId: uint32, nonce: uint32, o: L.LatestCalls) returns (reply: L.Reply)
      requires Valid()
      modifies this`owner, this`ledger, keys
      ensures Valid()
      ensures (ledger, reply) == L.Step(crypto, old(ledger), L.GetLatestHash(repId, nonce, o))
      ensures ledger.repos == old(ledger).repos
      ensures reply.Latest? ==>
                && repId < |ledger.repos| && reply.nonce == nonce && reply.hash == ledger.repos[repId].latestHash
                && keys.slot.Some?
                && (forall z: nat | P.FirstZero(P.NonceBytes(nonce) + reply.hash, z) ::
                      reply.signature
                      == ToHex(crypto.rsaSign(keys.slot.value,
                           crypto.sha256((P.NonceBytes(nonce) + reply.hash)[..z]))))
    {
      var repo := ValidateAndGetRepo(repId);
      if repo == null {
        return L.Failed(ItemNotFound);
      }
      reply := AnswerLatestHash(repo, repId, nonce, o);
      if reply.Latest? {
        P.LatestAnswer(crypto, old(ledger), repId, nonce, o);
      }
    }

    lemma SameRepos(repos: seq<L.Repo>, i: nat)
      requires i < |repos|
      ensures repos[i := repos[i]] == repos
    {
    }

    /** Slots whose repositories are not touched go on holding them, whatever is added beside them. */
    twostate lemma Kept(new owner': map<object, nat>)
      requires old(Valid())
      requires forall i :: 0 <= i < old(repoNum) ==> repositories[i] == old(repositories[i])
      requires old(heap.live) <= heap.live && unchanged(old(heap.live))
      requires forall o :: o in heap.live ==>
                 o in owner' && (if o in old(heap.live) then owner'[o] == old(owner)[o] else owner'[o] >= old(repoNum))
      ensures forall i :: 0 <= i < old(repoNum) ==> Holds(i, owner', old(ledger.repos[i]))
    {
      forall i | 0 <= i < old(repoNum) ensures Holds(i, owner', old(ledger.repos[i])) {
        assert old(Holds(i, owner, ledger.repos[i]));
      }
    }

    /** The table is as it was. */
    twostate lemma Restored(new owner': map<object, nat>)
      requires old(Valid()) && heap.Valid() && heap.live == old(heap.live) && unchanged(old(heap.live))
      requires forall i :: 0 <= i < MAX_REPO_ID ==> repositories[i] == old(repositories[i])
      requires forall o :: o in heap.live ==> o in owner' && owner'[o] == old(owner)[o]
      ensures Housed(owner', old(ledger.repos))
    {
      Kept(owner');
    }

    /** The table holds one repository more. */
    twostate lemma Placed(new owner': map<object, nat>, new model: L.Repo)
      requires old(Valid()) && heap.Valid() && old(repoNum) < MAX_REPO_ID && unchanged(old(heap.live))
      requires forall i :: 0 <= i < MAX_REPO_ID && i != old(repoNum) ==> repositories[i] == old(repositories[i])
      requires var r := repositories[old(repoNum)];
               && r != null && r.Valid() && fresh(r.Footprint()) && heap !in r.Footprint()
               && heap.live == old(heap.live) + r.Footprint()
               && r.Model() == model
               && forall o :: o in heap.live ==>
                    o in owner' && owner'[o] == if o in r.Footprint() then old(repoNum) else old(owner)[o]
      ensures Housed(owner', old(ledger.repos) + [model])
    {
      var n, models := old(repoNum), old(ledger.repos) + [model];
      var mine := repositories[n].Footprint();
      assert repositories[n] in mine && repositories[n].adminKeys in mine && repositories[n].writerKeys in mine;
      Kept(owner');
      assert Holds(n, owner', model);
      InOrder(owner', models);
    }

    /** Allocates a repository with both its lists in the next slot, or leaves everything as before. */
    method AllocateSlot(adminKey: KeyText, o: L.InitCalls) returns (ok: bool)
      requires Valid() && repoNum < MAX_REPO_ID
      modifies heap, repositories
      ensures heap.Valid() && old(heap.tracked) <= heap.tracked
      ensures forall i :: 0 <= i < MAX_REPO_ID && i != repoNum ==> repositories[i] == old(repositories[i])
      ensures ok == (o.repo && o.adminList && o.writerList)
      ensures !ok ==> repositories[repoNum] == null && heap.live == old(heap.live)
      ensures ok ==>
                var r := repositories[repoNum];
                && r != null && r.Valid() && fresh(r.Footprint()) && heap !in r.Footprint()
                && heap.live == old(heap.live) + r.Footprint()
                && r.Model() == L.Repo(0, L.ZERO_HASH, adminKey, [], [], [])
    {
      var repo := AllocateRepo(adminKey, o, heap);
      repositories[repoNum] := repo;
      if repo == null {
        return false;
      }
      if repo.adminKeys == null || repo.writerKeys == null {
        CleanupRepoResources(repoNum);
        return false;
      }
      return true;
    }

    /** Makes the founder administrator of the repository in the next slot, or frees it. */
    method FurnishSlot(repo: RepoMetadata, adminKey: KeyText, calls: NodeCalls) returns (res: TeeResult)
      requires repoNum < MAX_REPO_ID == repositories.Length && repositories[repoNum] == repo
      requires repo.Valid() && repo.adminKeys.keys == [] && repo.writerKeys.keys == []
      requires heap.Valid() && repo.Footprint() <= heap.live
      requires heap !in repo.Footprint() && repositories !in repo.Footprint() && this !in repo.Footprint()
      modifies repo.Footprint(), heap, repositories
      ensures heap.Valid() && old(heap.tracked) <= heap.tracked
      ensures forall i :: 0 <= i < MAX_REPO_ID && i != repoNum ==> repositories[i] == old(repositories[i])
      ensures res == if calls.node && calls.key then Success else OutOfMemory
      ensures res != Success ==>
                repositories[repoNum] == null && heap.live == old(heap.live) - old(repo.Footprint())
      ensures res == Success ==>
                && repositories[repoNum] == repo && repo.Valid() && fresh(repo.Footprint() - old(repo.Footprint()))
                && repo.Footprint() <= heap.live
                && heap.live - repo.Footprint() == old(heap.live) - old(repo.Footprint())
                && repo.Model() == old(repo.Model()).(admins := [adminKey])
    {
      res := repo.Furnish(adminKey, calls, heap);
      if res != Success {
        CleanupRepoResources(repoNum);
      }
    }

    /** The first half of `init_repo`: a repository in the next slot, or everything as before. */
    method PlaceRepo(adminKey: KeyText, o: L.InitCalls) returns (res: TeeResult)
      requires Valid() && repoNum < MAX_REPO_ID
      modifies heap, repositories
      ensures heap.Valid() && old(heap.tracked) <= heap.tracked
      ensures forall i :: 0 <= i < MAX_REPO_ID && i != repoNum ==> repositories[i] == old(repositories[i])
      ensures res == if L.InitAllocates(o) then Success else OutOfMemory
      ensures res != Success ==> repositories[repoNum] == null && heap.live == old(heap.live)
      ensures res == Success ==>
                var r := repositories[repoNum];
                && r != null && r.Valid() && fresh(r.Footprint()) && heap !in r.Footprint()
                && heap.live == old(heap.live) + r.Footprint()
                && r.Model() == L.Repo(0, L.ZERO_HASH, adminKey, [adminKey], [], [])
    {
      var ok := AllocateSlot(adminKey, o);
      if !ok {
        return OutOfMemory;
      }
      ghost var live, mine := heap.live, repositories[repoNum].Footprint();
      res := FurnishSlot(repositories[repoNum], adminKey, o.node);
      Remainder(old(heap.live), mine);
      if res == Success {
        assert repositories[repoNum].Footprint() + (live - mine) == heap.live;
      }
    }

    lemma Remainder(live: set<object>, mine: set<object>)
      requires live !! mine
      ensures live + mine - mine == live
    {
    }

    /** Builds, hashes and signs the genesis block. */
    method SealGenesis(parent: HashText, adminKey: KeyText, o: L.InitCalls)
      returns (block: Result<B.Block>, hash: HashText)
      requires parent == L.ZERO_HASH
      modifies keys
      ensures Keyed(keys.slot, block) == L.InitSealed(crypto, old(keys.slot), adminKey, o)
      ensures block.Ok? ==> hash == L.BlockHash(crypto, block.value)
    {
      var genesis := new AccessBlock();
      genesis.Init(1, Some(parent), OP_ADD, ROLE_ADMIN, Some(adminKey), Some(adminKey), Some(""), o.time);
      assert genesis.Value() == L.GenesisBlock(adminKey, o.time);
      var res;
      res, hash := genesis.CalculateHash(crypto, o.hash);
      if res != Success {
        return Err(res), "";
      }
      var signature := keys.SignHashText(crypto, hash, o.sign);
      if signature.Err? {
        return Err(signature.error), "";
      }
      genesis.base.teeSig := signature.value;
      return Ok(genesis.Value()), hash;
    }

    /** Seals the genesis block of the repository in the next slot, or frees the repository. */
    method SealSlot(repo: RepoMetadata, adminKey: KeyText, o: L.InitCalls) returns (block: Result<B.Block>)
      requires repoNum < MAX_REPO_ID == repositories.Length && repositories[repoNum] == repo
      requires repo.Valid() && repo.Model() == L.Repo(0, L.ZERO_HASH, adminKey, [adminKey], [], [])
      requires heap.Valid() && repo.Footprint() <= heap.live && heap !in repo.Footprint()
      requires repositories !in repo.Footprint() && this !in repo.Footprint() && keys !in repo.Footprint()
      modifies repo.Footprint(), heap, repositories, keys
      ensures heap.Valid() && old(heap.tracked) <= heap.tracked
      ensures forall i :: 0 <= i < MAX_REPO_ID && i != repoNum ==> repositories[i] == old(repositories[i])
      ensures Keyed(keys.slot, block) == L.InitSealed(crypto, old(keys.slot), adminKey, o)
      ensures block.Err? ==> repositories[repoNum] == null && heap.live == old(heap.live) - old(repo.Footprint())
      ensures block.Ok? ==>
                && repositories[repoNum] == repo && repo.Valid() && heap.live == old(heap.live)
                && repo.Footprint() == old(repo.Footprint())
                && repo.Model() == L.NewRepo(crypto, adminKey, block.value)
    {
      var hash;
      block, hash := SealGenesis(repo.latestHash, adminKey, o);
      if block.Err? {
        CleanupRepoResources(repoNum);
        return;
      }
      repo.StoreGenesis(crypto, hash, block.value);
    }

    /** All of `init_repo` but the counter: a finished repository in the next slot, or everything as before. */
    method CreateRepo(adminKey: KeyText, o: L.InitCalls) returns (block: Result<B.Block>)
      requires Valid() && repoNum < MAX_REPO_ID
      modifies heap, keys, repositories
      ensures heap.Valid() && old(heap.tracked) <= heap.tracked
      ensures forall i :: 0 <= i < MAX_REPO_ID && i != repoNum ==> repositories[i] == old(repositories[i])
      ensures Keyed(keys.slot, block)
           == if L.InitAllocates(o) then L.InitSealed(crypto, old(keys.slot), adminKey, o)
              else Keyed(old(keys.slot), Err(OutOfMemory))
      ensures block.Err? ==> repositories[repoNum] == null && heap.live == old(heap.live)
      ensures block.Ok? ==>
                var r := repositories[repoNum];
                && r != null && r.Valid() && fresh(r.Footprint()) && heap !in r.Footprint()
                && heap.live == old(heap.live) + r.Footprint()
                && r.Model() == L.NewRepo(crypto, adminKey, block.value)
    {
      var res := PlaceRepo(adminKey, o);
      if res != Success {
        return Err(res);
      }
      ghost var mine := repositories[repoNum].Footprint();
      block := SealSlot(repositories[repoNum], adminKey, o);
      Remainder(old(heap.live), mine);
    }

    /** The same, with an account of who owns what afterwards. */
    method CreateOwned(adminKey: KeyText, o: L.InitCalls) returns (block: Result<B.Block>,
        ghost owner': map<object, nat>)
      requires Valid() && repoNum < MAX_REPO_ID
      modifies heap, keys, repositories
      ensures heap.Valid() && Apart() && old(heap.tracked) <= heap.tracked && fresh(heap.live - old(heap.live))
      ensures forall i :: 0 <= i < MAX_REPO_ID && i != repoNum ==> repositories[i] == old(repositories[i])
      ensures Keyed(keys.slot, block)
           == if L.InitAllocates(o) then L.InitSealed(crypto, old(keys.slot), adminKey, o)
              else Keyed(old(keys.slot), Err(OutOfMemory))
      ensures block.Err? ==> repositories[repoNum] == null && heap.live == old(heap.live)
      ensures block.Err? ==> Housed(owner', ledger.repos)
      ensures block.Ok? ==> Housed(owner', ledger.repos + [L.NewRepo(crypto, adminKey, block.value)])
    {
      block := CreateRepo(adminKey, o);
      ghost var mine: set<object> := if block.Ok? then repositories[repoNum].Footprint() else {};
      owner' := map o | o in heap.live :: if o in mine then repoNum else owner[o];
      if block.Ok? {
        Placed(owner', L.NewRepo(crypto, adminKey, block.value));
      } else {
        Restored(owner');
      }
    }

    /** Counts the repository in the next slot. */
    method Publish(ghost owner': map<object, nat>, ghost ledger': L.State)
      requires Housed(owner', ledger'.repos) && ledger'.slot == keys.slot && |ledger'.repos| == repoNum + 1
      modifies this
      ensures Valid() && ledger == ledger' && repoNum == old(repoNum) + 1
    {
      repoNum := repoNum + 1;
      Adopt(owner', ledger');
    }

    /** Either one more repository, or the table and the heap exactly as before. */
    method InitRepo(adminKey: KeyText, o: L.InitCalls) returns (reply: L.Reply)
      requires Valid()
      modifies this, heap, keys, repositories
      ensures Valid()
      ensures (ledger, reply) == L.InitStep(crypto, old(ledger), adminKey, o)
      ensures fresh(heap.live - old(heap.live)) && old(heap.tracked) <= heap.tracked
      ensures reply.Created? ==>
                && repoNum == old(repoNum) + 1 && reply.repId == old(repoNum)
                && (forall i :: 0 <= i < MAX_REPO_ID && i != old(repoNum) ==> repositories[i] == old(repositories[i]))
      ensures reply.Created? ==>
                var b := reply.genesis;
                && b.Access? && b.base.height == 1 && b.base.op == 0 && b.role == 1
                && b.base.sigkey == adminKey && b.pubkey == adminKey && b.base.signature == ""
                && b.base.time == o.time
      ensures !reply.Created? ==>
                && repoNum == old(repoNum) && heap.live == old(heap.live)
                && (forall i :: 0 <= i < MAX_REPO_ID ==> repositories[i] == old(repositories[i]))
    {
      if repoNum >= MAX_REPO_ID {
        return L.Failed(OutOfMemory);
      }
      ghost var owner';
      var block;
      block, owner' := CreateOwned(adminKey, o);
      if block.Err? {
        Adopt(owner', L.State(ledger.repos, keys.slot));
        return L.Failed(block.error);
      }
      reply := L.Created(repoNum, block.value);
      Publish(owner', L.State(ledger.repos + [L.NewRepo(crypto, adminKey, block.value)], keys.slot));
      P.InitPromise(crypto, old(ledger), adminKey, o);
    }

    /** Opens the stored key without making one, and converts it into a buffer of capacity 0. */
    method GetTeePublicKey(o: L.PublicKeyCalls) returns (reply: L.Reply)
      requires Valid()
      ensures reply == L.Failed(L.PublicKeyResult(keys.slot, o)) && reply.error != Success
    {
      if o.bufferSize == 0 {
        return L.Failed(BadParameters);
      }
      if o.open != Success {
        return L.Failed(o.open);
      }
      if keys.slot == None {
        return L.Failed(ItemNotFound);
      }
      var pem := new char[o.bufferSize](_ => '\0');
      var res, _ := Pem.PublicKeyObjToPem(crypto.base64, o.conversion, pem, 0);
      return L.Failed(res);
    }

    /** `TA_InvokeCommandEntryPoint`: one command, dispatched on its kind. */
    method InvokeCommand(cmd: L.Command) returns (reply: L.Reply)
      requires Valid()
      modifies this, heap, keys, repositories, heap.live
      ensures Valid()
      ensures (ledger, reply) == L.Step(crypto, old(ledger), cmd)
      ensures fresh(heap.live - old(heap.live)) && old(heap.tracked) <= heap.tracked
    {
      match cmd {
        case InitRepo(adminKey, o) =>
          reply := InitRepo(adminKey, o);
        case AccessControl(m, o) =>
          if m.repId < repoNum {
            assert Holds(m.repId, owner, ledger.repos[m.repId]);
          }
          reply := AccessControl(m, o);
        case GetLatestHash(id, nonce, o) =>
          reply := GetLatestHash(id, nonce, o);
        case Commit(m, encryptedKey, o) =>
          if m.repId < repoNum {
            assert Holds(m.repId, owner, ledger.repos[m.repId]);
          }
          reply := Commit(m, encryptedKey, o);
        case GetTeePublicKey(o) =>
          reply := GetTeePublicKey(o);
        case Malformed(_) =>
          reply := L.Failed(BadParameters);
      }
    }

    /** Any run of commands: the application follows the machine and keeps its heap in order throughout. */
    method Serve(cmds: seq<L.Command>) returns (replies: seq<L.Reply>)
      requires Valid()
      modifies this, heap, keys, repositories, heap.live
      ensures Valid()
      ensures ledger == L.Run(crypto, old(ledger), cmds)
      ensures replies == L.Replies(crypto, old(ledger), cmds)
      ensures fresh(heap.live - old(heap.live)) && old(heap.tracked) <= heap.tracked
    {
      replies := [];
      assert cmds[..0] == [];
      for i := 0 to |cmds|
        invariant Valid() && fresh(heap.live - old(heap.live)) && old(heap.tracked) <= heap.tracked
        invariant ledger == L.Run(crypto, old(ledger), cmds[..i])
        invariant replies == L.Replies(crypto, old(ledger), cmds[..i])
      {
        var reply := InvokeCommand(cmds[i]);
        L.RunExtend(crypto, old(ledger), cmds[..i], cmds[i]);
        L.RepliesExtend(crypto, old(ledger), cmds[..i], cmds[i]);
        assert cmds[..i + 1] == cmds[..i] + [cmds[i]];
        replies := replies + [reply];
      }
      assert cmds[..|cmds|] == cmds;
    }
  }
}
