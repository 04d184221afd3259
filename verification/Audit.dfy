/**
 * What an auditor learns who has only the latest hash of a repository and a chain that someone presents:
 * tamper evidence and the offline check together.
 */
module Audit {
  import opened Basics
  import opened TextFormat
  import opened Blocks
  import opened Crypto
  import opened Ledger
  import opened Invariants
  import opened Replay
  import opened Tamper

  /** The block changes the key lists. */
  predicate Granting(b: Block) {
    b.Access? && (b.role == ROLE_ADMIN || b.role == ROLE_WRITER)
  }

  /**
   * Wherever both chains name a key, and the shown parts of the two keys are the same, so are the keys. It
   * is enough that the keys in use all differ within 256 characters.
   */
  predicate Told(x: seq<Block>, y: seq<Block>) {
    forall i | 0 <= i < |x| && i < |y| && Granting(x[i]) && Granting(y[i])
               && Prefix(x[i].pubkey, KEY_SHOWN) == Prefix(y[i].pubkey, KEY_SHOWN) ::
      x[i].pubkey == y[i].pubkey
  }

  /** Block by block, the two chains confer the same rights. */
  ghost predicate SameHistory(c: Crypto, repId: uint32, x: seq<Block>, y: seq<Block>) {
    && |x| == |y|
    && forall n :: 1 <= n <= |x| ==> Replayed(c, repId, x[..n]) == Replayed(c, repId, y[..n])
  }

  lemma FoundingShows(b: Block)
    requires Founding(b).Some?
    ensures b.ShowsFounding() && b.base.parent == ZERO_HASH
  {
    assert b.Unsigned().ShowsFounding();
  }

  lemma NextIsComplete(c: Crypto, repId: uint32, before: seq<Block>, a: Authority, b: Block)
    requires AcceptsFullLengthOnly(c) && |before| > 0 && Next(c, repId, before, a, b).Some?
    ensures Complete(b) && b.base.parent == BlockHash(c, before[|before| - 1])
  {
    RequestFillsSignature(c, repId, b);
  }

  /** What the offline check accepts is presentable. */
  lemma {:induction false} ReplayedIsPresentable(c: Crypto, repId: uint32, chain: seq<Block>)
    requires AcceptsFullLengthOnly(c) && Replayed(c, repId, chain).Some?
    ensures Presentable(c, chain)
  {
    if |chain| == 1 {
      FoundingShows(chain[0]);
    } else {
      var n := |chain| - 1;
      var before := chain[..n];
      ReplayedIsPresentable(c, repId, before);
      NextIsComplete(c, repId, before, Replayed(c, repId, before).value, chain[n]);
      PresentableExtend(c, chain);
    }
  }

  lemma PresentableExtend(c: Crypto, chain: seq<Block>)
    requires |chain| > 1 && Presentable(c, chain[..|chain| - 1]) && Complete(chain[|chain| - 1])
    requires chain[|chain| - 1].base.parent == BlockHash(c, chain[|chain| - 2])
    ensures Presentable(c, chain)
  {
    var before := chain[..|chain| - 1];
    assert forall i :: 0 <= i < |before| ==> before[i] == chain[i];
  }

  // ---------------------------------------------------------------- one block tells whose rights it changes

  lemma {:induction false} InWithout(s: seq<KeyText>, key: KeyText, k: KeyText)
    ensures k in Without(s, key) <==> k in s && k != key
  {
    if s != [] {
      assert s == [s[0]] + s[1..];
      InWithout(s[1..], key, k);
    }
  }

  /** Two keys have the same effect on the lists, as long as both have one, exactly when they are equal. */
  lemma AppliedTells(a: Authority, op: uint32, role: uint32, key: KeyText, key': KeyText)
    requires Applied(a, op, role, key).Some? && Applied(a, op, role, key').Some?
    requires role == ROLE_ADMIN || role == ROLE_WRITER
    ensures Applied(a, op, role, key) == Applied(a, op, role, key') <==> key == key'
  {
    if op == OP_ADD {
      assert ([key] + a.admins)[0] == key && ([key] + a.writers)[0] == key;
    } else {
      InWithout(a.admins, key, key);
      InWithout(a.admins, key', key);
      InWithout(a.writers, key, key);
      InWithout(a.writers, key', key);
    }
  }

  /** Blocks that show the same fields have the same effect exactly when their keys are told apart. */
  lemma SameNextIff(c: Crypto, repId: uint32, before: seq<Block>, x: Block, before': seq<Block>, y: Block,
      a: Authority)
    requires |before| > 0 && |before'| > 0
    requires Next(c, repId, before, a, x).Some? && Next(c, repId, before', a, y).Some?
    requires x.Projected() == y.Projected()
    ensures Next(c, repId, before, a, x) == Next(c, repId, before', a, y) <==> (Granting(x) ==> x.pubkey == y.pubkey)
  {
    SameShown(x, y);
    if Granting(x) {
      AppliedTells(a, x.base.op, x.role, x.pubkey, y.pubkey);
    }
  }

  lemma SameShown(x: Block, y: Block)
    requires x.Projected() == y.Projected()
    ensures x.Access? == y.Access? && x.base.op == y.base.op && (x.Access? ==> x.role == y.role)
    ensures x.Access? ==> Prefix(x.pubkey, KEY_SHOWN) == Prefix(y.pubkey, KEY_SHOWN)
  {
    assert x.Access? == x.Projected().Access? && y.Access? == y.Projected().Access?;
    assert x.base.op == x.Projected().base.op && y.base.op == y.Projected().base.op;
    if x.Access? {
      assert x.role == x.Projected().role && y.role == y.Projected().role;
      assert Prefix(x.pubkey, KEY_SHOWN) == x.Projected().pubkey && Prefix(y.pubkey, KEY_SHOWN) == y.Projected().pubkey;
    }
  }

  // ---------------------------------------------------------------- whole chains

  lemma {:induction false} ReplayedPrefix(c: Crypto, repId: uint32, chain: seq<Block>, n: nat)
    requires Replayed(c, repId, chain).Some? && 1 <= n <= |chain|
    ensures Replayed(c, repId, chain[..n]).Some?
  {
    if n == |chain| {
      assert chain[..n] == chain;
    } else {
      var before := chain[..|chain| - 1];
      ReplayedPrefix(c, repId, before, n);
      assert before[..n] == chain[..n];
    }
  }

  lemma ToldExtend(x: seq<Block>, y: seq<Block>)
    requires |x| == |y| > 0 && x[|x| - 1].Projected() == y[|y| - 1].Projected()
    ensures var n := |x| - 1;
            Told(x, y) <==> Told(x[..n], y[..n]) && (Granting(x[n]) ==> x[n].pubkey == y[n].pubkey)
  {
    var n := |x| - 1;
    SameShown(x[n], y[n]);
    assert forall i :: 0 <= i < n ==> x[..n][i] == x[i] && y[..n][i] == y[i];
    if Told(x[..n], y[..n]) && (Granting(x[n]) ==> x[n].pubkey == y[n].pubkey) {
      forall i | 0 <= i < |x| && Granting(x[i]) && Granting(y[i])
                 && Prefix(x[i].pubkey, KEY_SHOWN) == Prefix(y[i].pubkey, KEY_SHOWN)
        ensures x[i].pubkey == y[i].pubkey
      {
        if i < n {
          assert x[..n][i].pubkey == y[..n][i].pubkey;
        }
      }
    }
  }

  lemma SameHistoryExtend(c: Crypto, repId: uint32, x: seq<Block>, y: seq<Block>)
    requires |x| == |y| > 1
    ensures SameHistory(c, repId, x, y)
            <==> SameHistory(c, repId, x[..|x| - 1], y[..|y| - 1]) && Replayed(c, repId, x) == Replayed(c, repId, y)
  {
    var n := |x| - 1;
    assert x[..n + 1] == x && y[..n + 1] == y;
    assert forall k :: 1 <= k <= n ==> x[..n][..k] == x[..k] && y[..n][..k] == y[..k];
    if SameHistory(c, repId, x, y) {
      assert Replayed(c, repId, x[..n + 1]) == Replayed(c, repId, y[..n + 1]);
      forall k | 1 <= k <= n ensures Replayed(c, repId, x[..n][..k]) == Replayed(c, repId, y[..n][..k]) {
        assert Replayed(c, repId, x[..k]) == Replayed(c, repId, y[..k]);
      }
    } else if SameHistory(c, repId, x[..n], y[..n]) && Replayed(c, repId, x) == Replayed(c, repId, y) {
      forall k | 1 <= k <= n + 1 ensures Replayed(c, repId, x[..k]) == Replayed(c, repId, y[..k]) {
        if k <= n {
          assert Replayed(c, repId, x[..n][..k]) == Replayed(c, repId, y[..n][..k]);
        }
      }
    }
  }

  /**
   * Accepted chains that agree in what they show confer the same rights, block by block, exactly when
   * their granted keys are told apart.
   */
  lemma {:induction false} SameHistoryIff(c: Crypto, repId: uint32, x: seq<Block>, y: seq<Block>)
    requires Replayed(c, repId, x).Some? && Replayed(c, repId, y).Some? && Agree(x, y)
    ensures SameHistory(c, repId, x, y) <==> Told(x, y)
    ensures Told(x, y) ==> Replayed(c, repId, x) == Replayed(c, repId, y)
  {
    var n := |x| - 1;
    AgreePrefix(x, y);
    ToldExtend(x, y);
    if n == 0 {
      SameFounding(c, repId, x, y);
    } else {
      ReplayedPrefix(c, repId, x, n);
      ReplayedPrefix(c, repId, y, n);
      SameHistoryIff(c, repId, x[..n], y[..n]);
      SameHistoryExtend(c, repId, x, y);
      if Told(x[..n], y[..n]) {
        SameLastIff(c, repId, x, y);
      }
    }
  }

  lemma AgreePrefix(x: seq<Block>, y: seq<Block>)
    requires |x| > 0 && Agree(x, y)
    ensures |x| == |y| && x[|x| - 1].Projected() == y[|y| - 1].Projected() && Agree(x[..|x| - 1], y[..|y| - 1])
  {
  }

  lemma SameLastIff(c: Crypto, repId: uint32, x: seq<Block>, y: seq<Block>)
    requires |x| == |y| > 1 && Replayed(c, repId, x).Some? && Replayed(c, repId, y).Some?
    requires Replayed(c, repId, x[..|x| - 1]) == Replayed(c, repId, y[..|y| - 1])
    requires x[|x| - 1].Projected() == y[|y| - 1].Projected()
    ensures Replayed(c, repId, x) == Replayed(c, repId, y)
            <==> (Granting(x[|x| - 1]) ==> x[|x| - 1].pubkey == y[|y| - 1].pubkey)
  {
    var n := |x| - 1;
    SameNextIff(c, repId, x[..n], x[n], y[..n], y[n], Replayed(c, repId, x[..n]).value);
  }

  lemma SameFounding(c: Crypto, repId: uint32, x: seq<Block>, y: seq<Block>)
    requires |x| == |y| == 1 && Replayed(c, repId, x).Some? && Replayed(c, repId, y).Some?
    ensures Granting(x[0])
    ensures SameHistory(c, repId, x, y) <==> x[0].pubkey == y[0].pubkey
    ensures x[0].pubkey == y[0].pubkey ==> Replayed(c, repId, x) == Replayed(c, repId, y)
  {
    assert x[..1] == x && y[..1] == y;
    assert x[0].Unsigned().role == ROLE_ADMIN;
    if SameHistory(c, repId, x, y) {
      assert Replayed(c, repId, x[..1]) == Replayed(c, repId, y[..1]);
      assert [x[0].pubkey][0] == [y[0].pubkey][0];
    }
  }

  /**
   * The latest hash certifies authority. After a run without late failures, take the hash that
   * `get_latest_hash` answers with and any chain that ends in it and that the offline check accepts. If
   * none of its texts collides with the emitted text at the same distance from the end, this chain
   * confers at every block the rights that the emitted one confers there exactly when keys granted at one
   * place are told apart by their first 256 characters; then replaying it yields the two lists that the
   * application holds in memory, in their order.
   */
  lemma {:induction false} LatestHashCertifiesAuthority(c: Crypto, slot: Option<KeyPair>, cmds: seq<Command>,
      id: uint32, nonce: uint32, o: LatestCalls, candidate: seq<Block>)
    requires AcceptsFullLengthOnly(c) && CleanRun(c, Start(slot), cmds)
    requires var s := Run(c, Start(slot), cmds);
             && Step(c, s, GetLatestHash(id, nonce, o)).1.Latest?
             && Replayed(c, id, candidate).Some?
             && BlockHash(c, candidate[|candidate| - 1]) == Step(c, s, GetLatestHash(id, nonce, o)).1.hash
             && !TextsCollide(c, s.repos[id].chain, candidate)
    ensures var r := Run(c, Start(slot), cmds).repos[id];
            && (SameHistory(c, id, r.chain, candidate) <==> Told(r.chain, candidate))
            && (Told(r.chain, candidate) ==> Replayed(c, id, candidate) == Some(Authority(r.admins, r.writers)))
  {
    ReplayedIsPresentable(c, id, candidate);
    LatestHashPinsHistory(c, slot, cmds, id, nonce, o, candidate);
    ChainDeterminesAuthority(c, slot, cmds, id);
    SameHistoryIff(c, id, Run(c, Start(slot), cmds).repos[id].chain, candidate);
  }

  /** All keys that the chain grants are among these. */
  predicate GrantsAmong(chain: seq<Block>, known: set<KeyText>) {
    forall i :: 0 <= i < |chain| && Granting(chain[i]) ==> chain[i].pubkey in known
  }

  /** No two of these keys agree on their first 256 characters. */
  predicate ToldApart(known: set<KeyText>) {
    forall k, k' | k in known && k' in known && Prefix(k, KEY_SHOWN) == Prefix(k', KEY_SHOWN) :: k == k'
  }

  /**
   * An auditor who knows which keys are in use at all need not see the emitted chain: if these differ
   * within 256 characters, an accepted chain that grants to no others and ends in the latest hash replays
   * to the lists in memory.
   */
  lemma {:induction false} KnownKeysCertifyAuthority(c: Crypto, slot: Option<KeyPair>, cmds: seq<Command>,
      id: uint32, nonce: uint32, o: LatestCalls, candidate: seq<Block>, known: set<KeyText>)
    requires AcceptsFullLengthOnly(c) && CleanRun(c, Start(slot), cmds) && ToldApart(known)
    requires var s := Run(c, Start(slot), cmds);
             && Step(c, s, GetLatestHash(id, nonce, o)).1.Latest?
             && GrantsAmong(s.repos[id].chain, known) && GrantsAmong(candidate, known)
             && Replayed(c, id, candidate).Some?
             && BlockHash(c, candidate[|candidate| - 1]) == Step(c, s, GetLatestHash(id, nonce, o)).1.hash
             && !TextsCollide(c, s.repos[id].chain, candidate)
    ensures var r := Run(c, Start(slot), cmds).repos[id];
            Replayed(c, id, candidate) == Some(Authority(r.admins, r.writers))
  {
    KnownKeysAreTold(Run(c, Start(slot), cmds).repos[id].chain, candidate, known);
    LatestHashCertifiesAuthority(c, slot, cmds, id, nonce, o, candidate);
  }

  lemma KnownKeysAreTold(x: seq<Block>, y: seq<Block>, known: set<KeyText>)
    requires ToldApart(known) && GrantsAmong(x, known) && GrantsAmong(y, known)
    ensures Told(x, y)
  {
  }

  /**
   * The condition can fail. Two founders' keys that differ only after 256 characters give genesis blocks
   * with one hash: the offline check accepts the wrong one and names the wrong administrator.
   */
  lemma LongFoundersAreConfused(c: Crypto, slot: Option<KeyPair>, key: KeyText, other: KeyText, o: InitCalls)
    requires Step(c, Start(slot), InitRepo(key, o)).1.Created?
    requires key != other && Prefix(key, KEY_SHOWN) == Prefix(other, KEY_SHOWN)
    ensures |Run(c, Start(slot), [InitRepo(key, o)]).repos| == 1
    ensures var cmds := [InitRepo(key, o)];
            var r, candidate := Run(c, Start(slot), cmds).repos[0], [GenesisBlock(other, o.time)];
            && CleanRun(c, Start(slot), cmds)
            && BlockHash(c, candidate[0]) == r.latestHash
            && Replayed(c, 0, candidate) == Some(Authority([other], []))
            && r.admins == [key] && r.writers == []
  {
    FoundedAlone(c, slot, key, o);
    GenesisTextIff(key, o.time, other, o.time);
    FoundingIsAccepted(c, other, o.time);
  }

  /** What a run of one `init_repo` leaves. */
  lemma FoundedAlone(c: Crypto, slot: Option<KeyPair>, key: KeyText, o: InitCalls)
    requires Step(c, Start(slot), InitRepo(key, o)).1.Created?
    ensures var cmds := [InitRepo(key, o)];
            var s := Run(c, Start(slot), cmds);
            && CleanRun(c, Start(slot), cmds)
            && |s.repos| == 1 && s.repos[0].admins == [key] && s.repos[0].writers == []
            && s.repos[0].latestHash == BlockHash(c, GenesisBlock(key, o.time))
  {
    RunOne(c, Start(slot), InitRepo(key, o));
    CleanAlone(c, Start(slot), InitRepo(key, o));
    HashIgnoresTeeSig(c, Step(c, Start(slot), InitRepo(key, o)).1.genesis);
  }

  lemma CleanAlone(c: Crypto, s: State, cmd: Command)
    requires !cmd.AccessControl?
    ensures CleanRun(c, s, [cmd])
  {
  }

  lemma FoundingIsAccepted(c: Crypto, key: KeyText, time: Time)
    ensures Replayed(c, 0, [GenesisBlock(key, time)]) == Some(Authority([key], []))
  {
  }
}
