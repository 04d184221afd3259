/** The latest hash pins down the whole history of a repository. */
module Tamper {
  import opened Basics
  import opened TextFormat
  import opened Hex
  import opened Blocks
  import opened Crypto
  import opened Ledger
  import opened Invariants

  /** Two different texts with one digest. */
  predicate Collision(c: Crypto, x: string, y: string) {
    x != y && c.sha256(x) == c.sha256(y)
  }

  /**
   * A chain as anyone may present it: linked by hashes from the all-zero parent on, a founding block
   * first, and after it blocks whose operation fits their kind and whose shown signature is complete
   * and holds no colon. The keys may hold anything.
   */
  ghost predicate Presentable(c: Crypto, chain: seq<Block>) {
    && WellLinked(c, chain)
    && chain[0].ShowsFounding()
    && forall i :: 1 <= i < |chain| ==> Complete(chain[i])
  }

  predicate Complete(b: Block) {
    b.KindMatchesOp() && b.FullySigned() && ColonFree(Prefix(b.base.signature, KEY_SHOWN))
  }

  /** The chains agree, block by block, on everything the hashed texts show. */
  ghost predicate Agree(a: seq<Block>, b: seq<Block>) {
    |a| == |b| && forall i :: 0 <= i < |a| ==> a[i].Projected() == b[i].Projected()
  }

  function FromEnd(chain: seq<Block>, d: nat): Block
    requires d < |chain|
  {
    chain[|chain| - 1 - d]
  }

  /** The texts of the two blocks that stand `d` places before the ends of the chains are a collision. */
  predicate CollideAt(c: Crypto, a: seq<Block>, b: seq<Block>, d: nat) {
    && d < |a| && d < |b|
    && Collision(c, Serialise(FromEnd(a, d)), Serialise(FromEnd(b, d)))
  }

  /**
   * The chains themselves exhibit a collision: at equal distances from their ends they hold blocks with
   * different texts and one digest.
   */
  ghost predicate TextsCollide(c: Crypto, a: seq<Block>, b: seq<Block>) {
    exists d: nat :: CollideAt(c, a, b, d)
  }

  lemma HexColonFree(bs: bytes)
    ensures ColonFree(ToHex(bs))
  {
  }

  lemma BlocksReceivable(c: Crypto, chain: seq<Block>, i: nat)
    requires Presentable(c, chain) && i < |chain|
    ensures chain[i].Receivable()
  {
    if i > 0 {
      HexColonFree(c.sha256(Serialise(chain[i - 1])));
      assert Complete(chain[i]);
    }
  }

  /** Blocks with one hash show the same fields, or their texts are a collision. */
  lemma SameHash(c: Crypto, a: Block, b: Block)
    requires a.Receivable() && b.Receivable()
    requires BlockHash(c, a) == BlockHash(c, b)
    ensures a.Projected() == b.Projected() || Collision(c, Serialise(a), Serialise(b))
  {
    ToHexInjective(c.sha256(Serialise(a)), c.sha256(Serialise(b)));
    SameTextIffSameProjection(a, b);
  }

  lemma PresentablePrefix(c: Crypto, chain: seq<Block>, n: nat)
    requires Presentable(c, chain) && 0 < n < |chain|
    ensures Presentable(c, chain[..n]) && BlockHash(c, chain[..n][n - 1]) == chain[n].base.parent
  {
  }

  lemma AgreeExtend(a: seq<Block>, b: seq<Block>)
    requires |a| > 0 && |b| > 0 && Agree(a[..|a| - 1], b[..|b| - 1])
    requires a[|a| - 1].Projected() == b[|b| - 1].Projected()
    ensures Agree(a, b)
  {
  }

  /** No block shows what a founding block shows and a complete signature as well. */
  lemma FoundingOrComplete(a: Block, b: Block)
    requires a.ShowsFounding() && b.FullySigned()
    ensures a.Projected() != b.Projected()
  {
    assert |a.Projected().base.signature| < |b.Projected().base.signature|;
  }

  /** The distances grow by one with one more block on each side. */
  lemma CollideExtend(c: Crypto, a: seq<Block>, b: seq<Block>)
    requires |a| > 0 && |b| > 0 && TextsCollide(c, a[..|a| - 1], b[..|b| - 1])
    ensures TextsCollide(c, a, b)
  {
    var d: nat :| CollideAt(c, a[..|a| - 1], b[..|b| - 1], d);
    CollideFurther(c, a, b, d);
  }

  lemma CollideFurther(c: Crypto, a: seq<Block>, b: seq<Block>, d: nat)
    requires |a| > 0 && |b| > 0 && CollideAt(c, a[..|a| - 1], b[..|b| - 1], d)
    ensures CollideAt(c, a, b, d + 1)
  {
    BeforeLast(a, d);
    BeforeLast(b, d);
  }

  lemma BeforeLast(a: seq<Block>, d: nat)
    requires d + 1 < |a|
    ensures FromEnd(a[..|a| - 1], d) == FromEnd(a, d + 1)
  {
  }

  /** Chains with one final hash agree, unless texts of theirs collide. */
  lemma {:induction false} SameHashAgree(c: Crypto, a: seq<Block>, b: seq<Block>)
    requires Presentable(c, a) && Presentable(c, b)
    requires BlockHash(c, a[|a| - 1]) == BlockHash(c, b[|b| - 1])
    ensures Agree(a, b) || TextsCollide(c, a, b)
  {
    var m, n := |a| - 1, |b| - 1;
    BlocksReceivable(c, a, m);
    BlocksReceivable(c, b, n);
    SameHash(c, a[m], b[n]);
    if Collision(c, Serialise(a[m]), Serialise(b[n])) {
      assert CollideAt(c, a, b, 0);
    } else if m == 0 && n > 0 {
      FoundingOrComplete(a[0], b[n]);
    } else if m > 0 && n == 0 {
      FoundingOrComplete(b[0], a[m]);
    } else if m > 0 && n > 0 {
      assert a[m].Projected().base.parent == b[n].Projected().base.parent;
      PresentablePrefix(c, a, m);
      PresentablePrefix(c, b, n);
      SameHashAgree(c, a[..m], b[..n]);
      if Agree(a[..m], b[..n]) {
        AgreeExtend(a, b);
      } else {
        CollideExtend(c, a, b);
      }
    }
  }

  /** Chains that agree end in the same hash, and no texts of theirs collide. */
  lemma AgreeingChainsShareHash(c: Crypto, a: seq<Block>, b: seq<Block>)
    requires |a| > 0 && Agree(a, b)
    ensures BlockHash(c, a[|a| - 1]) == BlockHash(c, b[|b| - 1])
    ensures !TextsCollide(c, a, b)
  {
    SameShownSameText(a[|a| - 1], b[|b| - 1]);
    forall d: nat ensures !CollideAt(c, a, b, d) {
      if d < |a| {
        SameShownSameText(FromEnd(a, d), FromEnd(b, d));
      }
    }
  }

  lemma SameShownSameText(a: Block, b: Block)
    requires a.Projected() == b.Projected()
    ensures Serialise(a) == Serialise(b)
  {
    assert Fields(a) == Fields(b);
  }

  /**
   * Two presentable chains of any lengths agree on every block exactly when they end in the same hash and
   * no two texts at the same distance from their ends collide.
   */
  lemma {:induction false} HashPinsChain(c: Crypto, a: seq<Block>, b: seq<Block>)
    requires Presentable(c, a) && Presentable(c, b)
    ensures Agree(a, b)
            <==> BlockHash(c, a[|a| - 1]) == BlockHash(c, b[|b| - 1]) && !TextsCollide(c, a, b)
  {
    if Agree(a, b) {
      AgreeingChainsShareHash(c, a, b);
    } else if BlockHash(c, a[|a| - 1]) == BlockHash(c, b[|b| - 1]) {
      SameHashAgree(c, a, b);
    }
  }

  /** What the ledger emits is presentable, whatever its keys hold. */
  lemma ReachableIsPresentable(c: Crypto, repId: uint32, r: Repo)
    requires AcceptsFullLengthOnly(c) && RepoInvariant(c, repId, r)
    ensures Presentable(c, r.chain)
  {
    assert WellFormed(c, repId, r.founder, 0, r.chain[0]);
    assert r.chain[0].Unsigned().ShowsFounding();
    forall i | 1 <= i < |r.chain| ensures Complete(r.chain[i]) {
      assert WellFormed(c, repId, r.founder, i, r.chain[i]);
      RequestFillsSignature(c, repId, r.chain[i]);
    }
  }

  /**
   * Tamper evidence. Take any reachable state and the hash that `get_latest_hash` then answers with. A
   * presented chain is the emitted one, block by block in every field the hashed texts show, exactly when
   * it ends in this hash and none of its texts collides with the emitted text at the same distance from
   * the end. Nothing is assumed about the hash function or about any key; of RSA, that signatures are as
   * long as the modulus.
   */
  lemma {:induction false} LatestHashPinsHistory(c: Crypto, slot: Option<KeyPair>, cmds: seq<Command>, id: uint32,
      nonce: uint32, o: LatestCalls, candidate: seq<Block>)
    requires AcceptsFullLengthOnly(c)
    requires Step(c, Run(c, Start(slot), cmds), GetLatestHash(id, nonce, o)).1.Latest?
    requires Presentable(c, candidate)
    ensures var s := Run(c, Start(slot), cmds);
            Agree(s.repos[id].chain, candidate)
            <==> && BlockHash(c, candidate[|candidate| - 1]) == Step(c, s, GetLatestHash(id, nonce, o)).1.hash
                 && !TextsCollide(c, s.repos[id].chain, candidate)
  {
    var s := Run(c, Start(slot), cmds);
    RunKeepsInvariant(c, Start(slot), cmds);
    var r := s.repos[id];
    assert RepoInvariant(c, id, r);
    ReachableIsPresentable(c, id, r);
    HashPinsChain(c, r.chain, candidate);
  }

  // ---------------------------------------------------------------- what the texts tell

  /**
   * In every reachable state, the text of each emitted block parses back to everything it shows exactly
   * when the shown part of the signing key holds no colon.
   */
  lemma {:induction false} EmittedTextParsesIff(c: Crypto, slot: Option<KeyPair>, cmds: seq<Command>, i: uint32, k: nat)
    requires i < |Run(c, Start(slot), cmds).repos| && k < |Run(c, Start(slot), cmds).repos[i].chain|
    ensures var b := Run(c, Start(slot), cmds).repos[i].chain[k];
            ParseBlock(Serialise(b)) == Some(b.Projected()) <==> b.SigkeyColonFree()
  {
    RunKeepsInvariant(c, Start(slot), cmds);
    var r := Run(c, Start(slot), cmds).repos[i];
    assert RepoInvariant(c, i, r);
    EmittedIsFramed(c, i, r, k);
    ParseSerialise(r.chain[k]);
  }

  lemma EmittedIsFramed(c: Crypto, repId: uint32, r: Repo, k: nat)
    requires RepoInvariant(c, repId, r) && k < |r.chain|
    ensures r.chain[k].Framed()
  {
    assert WellFormed(c, repId, r.founder, k, r.chain[k]);
    if k == 0 {
      assert r.chain[0].Unsigned().Framed();
    } else {
      HexColonFree(c.sha256(Serialise(r.chain[k - 1])));
      RequestFillsSignature(c, repId, r.chain[k]);
    }
  }

  /** The text of a genesis block determines what it shows of the founder's key, and the time. */
  lemma GenesisTextIff(key: KeyText, time: Time, key': KeyText, time': Time)
    ensures Serialise(GenesisBlock(key, time)) == Serialise(GenesisBlock(key', time'))
            <==> Prefix(key, KEY_SHOWN) == Prefix(key', KEY_SHOWN) && time == time'
  {
    var a, b := GenesisBlock(key, time), GenesisBlock(key', time');
    assert a.Receivable() && b.Receivable();
    SameTextIffSameProjection(a, b);
    if a.Projected() == b.Projected() {
      assert a.Projected().base.time == b.Projected().base.time && a.Projected().pubkey == b.Projected().pubkey;
    }
  }

  /** A founder's key that spells out the middle of a genesis block. */
  const CUNNING_KEY: KeyText := "a::2:3:1:b"

  /** Reads the first colon of the founder's key as the end of the key. */
  function OtherReading(time: Time): Block {
    DecWord(time.seconds);
    DecWord(time.millis);
    var pubkey := "b" + (Middle(Dec(time.seconds), Dec(time.millis)) + CUNNING_KEY);
    Access(BaseFields(1, ZERO_HASH, OP_ADD, "a", "", Time(2, 3), ""), ROLE_ADMIN, pubkey)
  }

  /**
   * A reader must insist on the two shapes. `init_repo` emits a genesis block for any founder's key; for
   * this one the text also reads as another unsigned addition of an administrator, by a different key.
   */
  lemma GenesisHasOtherReading(c: Crypto, slot: Option<KeyPair>, o: InitCalls)
    requires Step(c, Start(slot), InitRepo(CUNNING_KEY, o)).1.Created?
    ensures var b := Step(c, Start(slot), InitRepo(CUNNING_KEY, o)).1.genesis;
            && Serialise(OtherReading(o.time)) == Serialise(b)
            && OtherReading(o.time).Framed() && OtherReading(o.time).Projected() != b.Projected()
            && !OtherReading(o.time).Receivable()
  {
    var g, x := GenesisBlock(CUNNING_KEY, o.time), OtherReading(o.time);
    FoundingText(g);
    OtherReadingText(o.time);
    SameText(g, x);
    assert Prefix(x.base.sigkey, KEY_SHOWN) != Prefix(g.base.sigkey, KEY_SHOWN);
    HashIgnoresTeeSig(c, Step(c, Start(slot), InitRepo(CUNNING_KEY, o)).1.genesis);
  }

  lemma OtherReadingText(time: Time)
    ensures Rest(OtherReading(time))
         == CUNNING_KEY + (Middle(Dec(time.seconds), Dec(time.millis)) + CUNNING_KEY)
    ensures OtherReading(time).pubkey[0] == 'b' && |OtherReading(time).pubkey| <= KEY_SHOWN
  {
    var x := OtherReading(time);
    DecWord(time.seconds);
    DecWord(time.millis);
    RestIsReadable(x);
    assert Dec(1) == "1" && Dec(2) == "2" && Dec(3) == "3";
    assert Fields(x)[4..] == ["", "2", "3", "1", x.pubkey];
    JoinFive("", "2", "3", "1", x.pubkey);
    SpelledOut(Middle(Dec(time.seconds), Dec(time.millis)) + CUNNING_KEY);
  }

  lemma SpelledOut(t: string)
    ensures CUNNING_KEY + t == "a" + ":" + ("" + ":" + ("2" + ":" + ("3" + ":" + ("1" + ":" + ("b" + t)))))
  {
    assert CUNNING_KEY == "a" + ":" + ("" + ":" + ("2" + ":" + ("3" + ":" + ("1" + ":" + "b"))));
  }

  lemma SameText(a: Block, b: Block)
    requires Fields(a)[..3] == Fields(b)[..3] && Rest(a) == Rest(b)
    ensures Serialise(a) == Serialise(b)
  {
    SerialiseFits(a);
    SerialiseFits(b);
    JoinAppend(Fields(a)[..3], Fields(a)[3..]);
    JoinAppend(Fields(b)[..3], Fields(b)[3..]);
    assert Fields(a)[..3] + Fields(a)[3..] == Fields(a) && Fields(b)[..3] + Fields(b)[3..] == Fields(b);
  }
}
