/**
 * Hashing, signing and verifying (ta/utils/utils.c and ta/tee_key_manager/tee_key_manager.c).
 *
 * The algorithms behind the TEE and mbedTLS interfaces are the functions of a `Crypto` value, about
 * which nothing is assumed. Every interface call that can fail has its result as an input.
 */
module Crypto {
  import opened Basics
  import opened Hex

  datatype PublicKey = PublicKey(modulus: nat, exponent: nat)

  datatype KeyPair = KeyPair(public: PublicKey, secret: nat)

  datatype Crypto = Crypto(
    sha256: string -> Digest,
    parsePem: string -> Result<PublicKey>,
    rsaVerify: (PublicKey, Digest, bytes) -> bool,
    rsaSign: (KeyPair, bytes) -> RsaSignature,
    rsaDecrypt: (KeyPair, bytes) -> bytes,
    base64: bytes -> string)

  /** What RSA promises: a signature verifies under the public half of the key that made it. */
  ghost predicate VerifyAcceptsSign(c: Crypto) {
    forall k: KeyPair, d: Digest :: c.rsaVerify(k.public, d, c.rsaSign(k, d))
  }

  /**
   * A signature is as long as the modulus, and keys of less than 2048 bits are refused (section 8.2.2 of
   * RFC 8017; ta/utils/utils.c:258-266).
   */
  ghost predicate AcceptsFullLengthOnly(c: Crypto) {
    forall pem: string, d: Digest, s: bytes ::
      c.parsePem(pem).Ok? && c.rsaVerify(c.parsePem(pem).value, d, s) ==> |s| >= TEE_SIGNATURE_SIZE_BYTES
  }

  /** Text for which the 256-byte buffer of `tee_decrypt_data` suffices. */
  type CipherText = s: string | Stored(s) <= TEE_SIGNATURE_SIZE_BYTES witness ""

  // ---------------------------------------------------------------- results of interface calls

  datatype HashCalls = HashCalls(allocate: TeeResult, digest: TeeResult)

  datatype LoadCalls = LoadCalls(
    open: TeeResult, allocate: TeeResult, generate: TeeResult, create: TeeResult, newKey: KeyPair)

  datatype SignCalls = SignCalls(load: LoadCalls, allocate: TeeResult, setKey: TeeResult, sign: TeeResult)

  datatype DecryptCalls = DecryptCalls(load: LoadCalls, allocate: TeeResult, setKey: TeeResult, decrypt: TeeResult)

  datatype VerifyCalls = VerifyCalls(hash: HashCalls, allocate: TeeResult, setKey: TeeResult, verify: TeeResult)

  datatype UserVerifyCalls = UserVerifyCalls(populate: TeeResult, verify: VerifyCalls)

  datatype TeeVerifyCalls = TeeVerifyCalls(load: LoadCalls, allocate: TeeResult, copy: TeeResult, verify: VerifyCalls)

  // ---------------------------------------------------------------- hashing

  /** The text form of the digest, which is what the ledger stores. */
  function Sha256Text(c: Crypto, text: string): (h: HashText)
    ensures |h| == MAX_HASH_LENGTH
  {
    ToHex(c.sha256(text))
  }

  function HashResult(h: HashCalls): TeeResult {
    if h.allocate != Success then h.allocate else h.digest
  }

  /** `hash_data`. */
  method HashData(c: Crypto, text: string, h: HashCalls) returns (res: TeeResult, hash: HashText)
    ensures res == HashResult(h)
    ensures res == Success ==> hash == Sha256Text(c, text)
  {
    hash := "";
    if h.allocate != Success {
      return h.allocate, hash;
    }
    if h.digest != Success {
      return h.digest, hash;
    }
    var hex := HexText(c.sha256(text));
    return Success, hex;
  }

  // ---------------------------------------------------------------- verifying

  /** The mathematical condition behind `verify_signature_common`. */
  predicate ValidSignature(c: Crypto, key: PublicKey, text: string, signature: string) {
    FromHex(signature).Some? && c.rsaVerify(key, c.sha256(text), FromHex(signature).value)
  }

  predicate VerifyCallsSucceed(o: VerifyCalls) {
    HashResult(o.hash) == Success && o.allocate == Success && o.setKey == Success && o.verify == Success
  }

  method VerifySignatureCommon(c: Crypto, text: string, key: PublicKey, signature: SignatureText, o: VerifyCalls)
    returns (res: TeeResult)
    ensures res == Success <==>
      && o.hash.allocate == Success && o.hash.digest == Success
      && FromHex(signature).Some?
      && o.allocate == Success && o.setKey == Success && o.verify == Success
      && c.rsaVerify(key, c.sha256(text), FromHex(signature).value)
    ensures res == if o.hash.allocate != Success then o.hash.allocate
                   else if o.hash.digest != Success then o.hash.digest
                   else if FromHex(signature).None? then BadParameters
                   else if o.allocate != Success then o.allocate
                   else if o.setKey != Success then o.setKey
                   else if o.verify != Success then o.verify
                   else if c.rsaVerify(key, c.sha256(text), FromHex(signature).value) then Success
                   else SignatureInvalid
  {
    if o.hash.allocate != Success {
      return o.hash.allocate;
    }
    if o.hash.digest != Success {
      return o.hash.digest;
    }
    var digest := c.sha256(text);
    var sigBytes := new byte[TEE_SIGNATURE_SIZE_BYTES](_ => 0);
    var len;
    res, len := HexStringToBytes(signature, sigBytes);
    if res != Success {
      return;
    }
    if o.allocate != Success {
      return o.allocate;
    }
    if o.setKey != Success {
      return o.setKey;
    }
    if o.verify != Success {
      return o.verify;
    }
    res := if c.rsaVerify(key, digest, sigBytes[..len]) then Success else SignatureInvalid;
  }

  /** The text carries a valid signature of the key that `sigkey` spells in PEM. */
  predicate SignedBy(c: Crypto, text: string, sigkey: string, signature: string) {
    c.parsePem(sigkey).Ok? && ValidSignature(c, c.parsePem(sigkey).value, text, signature)
  }

  predicate UserCallsSucceed(o: UserVerifyCalls) {
    o.populate == Success && VerifyCallsSucceed(o.verify)
  }

  method VerifySignature(c: Crypto, text: string, sigkey: KeyText, signature: SignatureText, o: UserVerifyCalls)
    returns (res: TeeResult)
    ensures res == Success <==> UserCallsSucceed(o) && SignedBy(c, text, sigkey, signature)
    ensures res == Success ==>
      && c.parsePem(sigkey).Ok? && FromHex(signature).Some?
      && c.rsaVerify(c.parsePem(sigkey).value, c.sha256(text), FromHex(signature).value)
    ensures c.parsePem(sigkey).Err? ==>
      res == if c.parsePem(sigkey).error == BadFormat then BadFormat else BadParameters
    ensures c.parsePem(sigkey).Ok? && o.populate != Success ==> res == o.populate
  {
    var key := c.parsePem(sigkey);
    match key {
      case Err(e) =>  // text that does not parse, or not an RSA key of a supported size
        return if e == BadFormat then BadFormat else BadParameters;
      case Ok(k) =>
        if o.populate != Success {
          return o.populate;
        }
        res := VerifySignatureCommon(c, text, k, signature, o.verify);
    }
  }

  /** A signature that verified is hexadecimal, and so holds no colon; it fills its field to the last digit. */
  lemma SignedIsHex(c: Crypto, text: string, sigkey: string, signature: SignatureText)
    requires SignedBy(c, text, sigkey, signature)
    ensures ':' !in signature
    ensures AcceptsFullLengthOnly(c) ==> |signature| == MAX_SIGNATURE_LENGTH
  {
  }

  // ---------------------------------------------------------------- the persistent key

  /** The key slot after a call, and what the call returned. */
  datatype Keyed<+T> = Keyed(slot: Option<KeyPair>, result: Result<T>)

  function GenerateResult(o: LoadCalls): TeeResult {
    if o.allocate != Success then o.allocate
    else if o.generate != Success then o.generate
    else o.create
  }

  /** Opening fails when nothing is stored, and may fail when something is. */
  function Load(slot: Option<KeyPair>, o: LoadCalls): Keyed<KeyPair> {
    if slot.Some? && o.open == Success then Keyed(slot, Ok(slot.value))
    else if GenerateResult(o) != Success then Keyed(slot, Err(GenerateResult(o)))
    else Keyed(Some(o.newKey), Ok(o.newKey))
  }

  function SignHash(c: Crypto, slot: Option<KeyPair>, hash: HashText, o: SignCalls): Keyed<SignatureText> {
    if FromHex(hash).None? then Keyed(slot, Err(BadParameters))
    else
      var loaded := Load(slot, o.load);
      if loaded.result.Err? then Keyed(loaded.slot, Err(loaded.result.error))
      else if o.allocate != Success then Keyed(loaded.slot, Err(o.allocate))
      else if o.setKey != Success then Keyed(loaded.slot, Err(o.setKey))
      else if o.sign != Success then Keyed(loaded.slot, Err(o.sign))
      else Keyed(loaded.slot, Ok(ToHex(c.rsaSign(loaded.result.value, FromHex(hash).value))))
  }

  function DecryptData(c: Crypto, slot: Option<KeyPair>, cipher: CipherText, o: DecryptCalls): Keyed<string> {
    if FromHex(cipher).None? then Keyed(slot, Err(BadParameters))
    else
      var loaded := Load(slot, o.load);
      if loaded.result.Err? then Keyed(loaded.slot, Err(loaded.result.error))
      else if o.allocate != Success then Keyed(loaded.slot, Err(o.allocate))
      else if o.setKey != Success then Keyed(loaded.slot, Err(o.setKey))
      else if o.decrypt != Success then Keyed(loaded.slot, Err(o.decrypt))
      else Keyed(loaded.slot, Ok(ToHex(c.rsaDecrypt(loaded.result.value, FromHex(cipher).value))))
  }

  /**
   * A stored key survives a call exactly when opening it worked, or generating a replacement failed,
   * or the replacement happens to be the same key: the code takes every failure to open for absence.
   */
  lemma LoadKeepsKeyIff(slot: Option<KeyPair>, o: LoadCalls)
    requires slot.Some?
    ensures Load(slot, o).slot == slot
            <==> o.open == Success || GenerateResult(o) != Success || o.newKey == slot.value
    ensures Load(slot, o).slot.Some?
  {
  }

  /** Signing the text of a hash signs the very digest the text was made from. */
  lemma SignedDigest(c: Crypto, slot: Option<KeyPair>, text: string, o: SignCalls)
    ensures var s := SignHash(c, slot, Sha256Text(c, text), o);
            s.result.Ok? ==>
              && s.slot.Some?
              && s.slot == Load(slot, o.load).slot
              && s.result.value == ToHex(c.rsaSign(s.slot.value, c.sha256(text)))
  {
    DecodeEncode(c.sha256(text));
  }

  /** A signature made by the TEE verifies, through both hexadecimal codings, under the key that made it. */
  lemma SignThenVerify(c: Crypto, key: KeyPair, text: string)
    requires VerifyAcceptsSign(c)
    ensures ValidSignature(c, key.public, text, ToHex(c.rsaSign(key, c.sha256(text))))
  {
    DecodeEncode(c.rsaSign(key, c.sha256(text)));
  }

  /** When the TEE verifies a signature of its own: all calls succeed, and it is valid under the loaded key. */
  predicate TeeVerifies(c: Crypto, slot: Option<KeyPair>, text: string, signature: string, o: TeeVerifyCalls) {
    && Load(slot, o.load).result.Ok?
    && o.allocate == Success && o.copy == Success && VerifyCallsSucceed(o.verify)
    && ValidSignature(c, Load(slot, o.load).result.value.public, text, signature)
  }

  class KeyManager {
    /** The persistent object named `mykey#0`. */
    var slot: Option<KeyPair>

    constructor ()
      ensures slot == None
    {
      slot := None;
    }

    method LoadOrGenerateKeyPair(o: LoadCalls) returns (key: Result<KeyPair>)
      modifies this
      ensures Keyed(slot, key) == Load(old(slot), o)
    {
      if slot.Some? && o.open == Success {
        return Ok(slot.value);
      }
      if o.allocate != Success {
        return Err(o.allocate);
      }
      if o.generate != Success {
        return Err(o.generate);
      }
      if o.create != Success {
        return Err(o.create);
      }
      slot := Some(o.newKey);
      return Ok(o.newKey);
    }

    /** `tee_sign_hash`. */
    method SignHashText(c: Crypto, hash: HashText, o: SignCalls) returns (signature: Result<SignatureText>)
      modifies this
      ensures Keyed(slot, signature) == SignHash(c, old(slot), hash, o)
    {
      var hashBytes := new byte[DIGEST_SIZE](_ => 0);
      var res, len := HexStringToBytes(hash, hashBytes);
      if res != Success {
        return Err(res);
      }
      var key := LoadOrGenerateKeyPair(o.load);
      if key.Err? {
        return Err(key.error);
      }
      if o.allocate != Success {
        return Err(o.allocate);
      }
      if o.setKey != Success {
        return Err(o.setKey);
      }
      if o.sign != Success {
        return Err(o.sign);
      }
      var sigText := HexText(c.rsaSign(key.value, hashBytes[..len]));
      return Ok(sigText);
    }

    /** `tee_sign_data`. */
    method SignData(c: Crypto, text: string, h: HashCalls, o: SignCalls) returns (signature: Result<SignatureText>)
      modifies this
      ensures Keyed(slot, signature)
           == if HashResult(h) != Success then Keyed(old(slot), Err(HashResult(h)))
              else SignHash(c, old(slot), Sha256Text(c, text), o)
    {
      var res, hash := HashData(c, text, h);
      if res != Success {
        return Err(res);
      }
      signature := SignHashText(c, hash, o);
    }

    /** `tee_verify_signature`: verification under the public half of the stored key. */
    method VerifyTeeSignature(c: Crypto, text: string, signature: SignatureText, o: TeeVerifyCalls)
      returns (res: TeeResult)
      modifies this
      ensures slot == Load(old(slot), o.load).slot
      ensures res == Success <==> TeeVerifies(c, old(slot), text, signature, o)
      ensures res == Success <==>
        && ((old(slot).Some? && o.load.open == Success)
            || (o.load.allocate == Success && o.load.generate == Success && o.load.create == Success))
        && o.allocate == Success && o.copy == Success
        && o.verify.hash.allocate == Success && o.verify.hash.digest == Success
        && o.verify.allocate == Success && o.verify.setKey == Success && o.verify.verify == Success
        && slot.Some? && FromHex(signature).Some?
        && c.rsaVerify(slot.value.public, c.sha256(text), FromHex(signature).value)
    {
      var key := LoadOrGenerateKeyPair(o.load);
      if key.Err? {
        return key.error;
      }
      if o.allocate != Success {
        return o.allocate;
      }
      if o.copy != Success {
        return o.copy;
      }
      res := VerifySignatureCommon(c, text, key.value.public, signature, o.verify);
    }

    /** `tee_decrypt_data`. */
    method Decrypt(c: Crypto, cipher: CipherText, o: DecryptCalls) returns (plain: Result<string>)
      modifies this
      ensures Keyed(slot, plain) == DecryptData(c, old(slot), cipher, o)
      ensures plain.Ok? ==>
        && slot.Some? && FromHex(cipher).Some?
        && plain.value == ToHex(c.rsaDecrypt(slot.value, FromHex(cipher).value))
    {
      var cipherBytes := new byte[TEE_SIGNATURE_SIZE_BYTES](_ => 0);
      var res, len := HexStringToBytes(cipher, cipherBytes);
      if res != Success {
        return Err(res);
      }
      var key := LoadOrGenerateKeyPair(o.load);
      if key.Err? {
        return Err(key.error);
      }
      if o.allocate != Success {
        return Err(o.allocate);
      }
      if o.setKey != Success {
        return Err(o.setKey);
      }
      if o.decrypt != Success {
        return Err(o.decrypt);
      }
      var text := HexText(c.rsaDecrypt(key.value, cipherBytes[..len]));
      return Ok(text);
    }
  }

  /** A byte buffer written out as hexadecimal text. */
  method HexText(data: bytes) returns (text: string)
    ensures text == ToHex(data)
  {
    var buffer := new byte[|data|](i requires 0 <= i < |data| => data[i]);
    assert buffer[..] == data;
    var out := new char[2 * |data|](_ => '0');
    BytesToHexString(buffer, |data|, out);
    assert buffer[..|data|] == data && out[..2 * |data|] == out[..];
    return out[..];
  }
}
