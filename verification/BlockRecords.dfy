/** The block structures of ta/block/block.c, filled in place. */
module BlockRecords {
  import opened Basics
  import opened TextFormat
  import B = Blocks
  import opened Crypto
  import opened Hex
  import PlainTexts

  /** What `strcpy` of an optional string leaves in a field. */
  function OrEmpty(s: Option<string>): (r: string)
    ensures s == Some(r) || (s == None && r == "")
  {
    match s
    case Some(v) => v
    case None => ""
  }

  class BaseBlock {
    var blockHeight: uint32
    var parentHash: HashText
    var op: uint32
    var sigkey: KeyText
    var signature: SignatureText
    var trustTimestamp: B.Time
    var teeSig: SignatureText

    constructor ()
    {
      blockHeight, parentHash, op, sigkey, signature, teeSig := 0, "", 0, "", "", "";
      trustTimestamp := B.Time(0, 0);
    }

    function Value(): B.BaseFields
      reads this
    {
      B.BaseFields(blockHeight, parentHash, op, sigkey, signature, trustTimestamp, teeSig)
    }

    /** A missing string is stored as the empty one; the TEE signature waits to be filled in. */
    method Init(height: uint32, parent: Option<HashText>, op: uint32, sigkey: Option<KeyText>,
                signature: Option<SignatureText>, now: B.Time)
      modifies this
      ensures Value() == B.BaseFields(height, OrEmpty(parent), op, OrEmpty(sigkey), OrEmpty(signature), now, "")
    {
      blockHeight := height;
      if parent.Some? {
        parentHash := parent.value;
      } else {
        parentHash := "";
      }
      this.op := op;
      if sigkey.Some? {
        this.sigkey := sigkey.value;
      } else {
        this.sigkey := "";
      }
      if signature.Some? {
        this.signature := signature.value;
      } else {
        this.signature := "";
      }
      trustTimestamp := now;
      teeSig := "";
    }
  }

  class AccessBlock {
    const base: BaseBlock
    var role: uint32
    var pubkey: KeyText

    constructor ()
      ensures fresh(base)
    {
      base := new BaseBlock();
      role, pubkey := 0, "";
    }

    function Value(): B.Block
      reads this, base
    {
      B.Access(base.Value(), role, pubkey)
    }

    method Init(height: uint32, parent: Option<HashText>, op: uint32, role: uint32, pubkey: Option<KeyText>,
                sigkey: Option<KeyText>, signature: Option<SignatureText>, now: B.Time)
      modifies this, base
      ensures Value() == B.Access(
                B.BaseFields(height, OrEmpty(parent), op, OrEmpty(sigkey), OrEmpty(signature), now, ""),
                role, OrEmpty(pubkey))
    {
      base.Init(height, parent, op, sigkey, signature, now);
      this.role := role;
      if pubkey.Some? {
        this.pubkey := pubkey.value;
      } else {
        this.pubkey := "";
      }
    }

    /** `calculate_access_block_hash`. */
    method CalculateHash(c: Crypto, h: HashCalls) returns (res: TeeResult, hash: HashText)
      ensures res == HashResult(h)
      ensures res == Success ==> hash == Sha256Text(c, B.Serialise(Value()))
      ensures res == Success ==> hash == ToHex(c.sha256(PlainTexts.BlockText(Value())))
    {
      PlainTexts.SerialiseIs(Value());
      var text := Snprintf(B.TEXT_BUFFER, Join([
        Dec(base.blockHeight), Prefix(base.parentHash, 64), Dec(base.op), Prefix(base.sigkey, 256),
        Prefix(base.signature, 256), Dec(base.trustTimestamp.seconds), Dec(base.trustTimestamp.millis),
        Dec(role), Prefix(pubkey, 256)]));
      assert text == B.Serialise(Value()) by {
        assert B.Fields(Value()) == [
          Dec(base.blockHeight), Prefix(base.parentHash, 64), Dec(base.op), Prefix(base.sigkey, 256),
          Prefix(base.signature, 256), Dec(base.trustTimestamp.seconds), Dec(base.trustTimestamp.millis),
          Dec(role), Prefix(pubkey, 256)];
      }
      res, hash := HashData(c, text, h);
    }
  }

  class ContributionBlock {
    const base: BaseBlock
    var commitHash: HashText

    constructor ()
      ensures fresh(base)
    {
      base := new BaseBlock();
      commitHash := "";
    }

    function Value(): B.Block
      reads this, base
    {
      B.Contribution(base.Value(), commitHash)
    }

    method Init(height: uint32, parent: Option<HashText>, op: uint32, commitHash: Option<HashText>,
                sigkey: Option<KeyText>, signature: Option<SignatureText>, now: B.Time)
      modifies this, base
      ensures Value() == B.Contribution(
                B.BaseFields(height, OrEmpty(parent), op, OrEmpty(sigkey), OrEmpty(signature), now, ""),
                OrEmpty(commitHash))
    {
      base.Init(height, parent, op, sigkey, signature, now);
      if commitHash.Some? {
        this.commitHash := commitHash.value;
      } else {
        this.commitHash := "";
      }
    }

    /** `calculate_contribution_block_hash`. */
    method CalculateHash(c: Crypto, h: HashCalls) returns (res: TeeResult, hash: HashText)
      ensures res == HashResult(h)
      ensures res == Success ==> hash == Sha256Text(c, B.Serialise(Value()))
      ensures res == Success ==> hash == ToHex(c.sha256(PlainTexts.BlockText(Value())))
    {
      PlainTexts.SerialiseIs(Value());
      var text := Snprintf(B.TEXT_BUFFER, Join([
        Dec(base.blockHeight), Prefix(base.parentHash, 64), Dec(base.op), Prefix(base.sigkey, 256),
        Prefix(base.signature, 256), Dec(base.trustTimestamp.seconds), Dec(base.trustTimestamp.millis),
        Prefix(commitHash, 64)]));
      assert text == B.Serialise(Value()) by {
        assert B.Fields(Value()) == [
          Dec(base.blockHeight), Prefix(base.parentHash, 64), Dec(base.op), Prefix(base.sigkey, 256),
          Prefix(base.signature, 256), Dec(base.trustTimestamp.seconds), Dec(base.trustTimestamp.millis),
          Prefix(commitHash, 64)];
      }
      res, hash := HashData(c, text, h);
    }
  }
}
