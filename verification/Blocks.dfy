/** Blocks, and the text of a block that is hashed (ta/block/block.c). */
module Blocks {
  import opened Basics
  import opened TextFormat

  datatype Time = Time(seconds: uint32, millis: uint32)

  datatype BaseFields = BaseFields(
    height: uint32,
    parent: HashText,
    op: uint32,
    sigkey: KeyText,
    signature: SignatureText,
    time: Time,
    teeSig: SignatureText)

  datatype Block =
    | Access(base: BaseFields, role: uint32, pubkey: KeyText)
    | Contribution(base: BaseFields, commitHash: HashText)
  {
    /** The block before the TEE signature is filled in. */
    function Unsigned(): Block {
      this.(base := base.(teeSig := ""))
    }

    /** Exactly what the hashed text can tell about the block. */
    function Projected(): Block {
      var b := base.(sigkey := Prefix(base.sigkey, KEY_SHOWN), signature := Prefix(base.signature, KEY_SHOWN),
          teeSig := "");
      match this
      case Access(_, role, pubkey) => Access(b, role, Prefix(pubkey, KEY_SHOWN))
      case Contribution(_, commitHash) => Contribution(b, commitHash)
    }

    /** The operation belongs to the kind of the block. */
    predicate KindMatchesOp() {
      match this
      case Access(_, _, _) => base.op == OP_ADD || base.op == OP_DELETE
      case Contribution(_, _) => base.op == OP_PUSH || base.op == OP_PR
    }

    /** What a reader of the text relies on besides the signing key. */
    predicate Framed() {
      KindMatchesOp() && ColonFree(base.parent) && ColonFree(Prefix(base.signature, KEY_SHOWN))
    }

    predicate SigkeyColonFree() {
      ColonFree(Prefix(base.sigkey, KEY_SHOWN))
    }

    /** The text shows an administrator who is added under the own key, without a signature. */
    predicate ShowsFounding() {
      && Access?
      && base.op == OP_ADD && role == ROLE_ADMIN && base.signature == ""
      && Prefix(base.sigkey, KEY_SHOWN) == Prefix(pubkey, KEY_SHOWN)
    }

    /** Nothing but signature is shown where the signature is shown. */
    predicate FullySigned() {
      |base.signature| >= KEY_SHOWN
    }

    /** The two shapes of block that the ledger hands out. */
    predicate Receivable() {
      Framed() && (ShowsFounding() || FullySigned())
    }
  }

  const TEXT_BUFFER: nat := 1024

  /** The precision `%.256s` of keys and signatures in the hashed text. */
  const KEY_SHOWN: nat := 256

  function LeadFields(b: BaseFields): (r: seq<string>)
    ensures |r| == 7
  {
    [Dec(b.height), Prefix(b.parent, MAX_HASH_LENGTH), Dec(b.op), Prefix(b.sigkey, KEY_SHOWN),
     Prefix(b.signature, KEY_SHOWN), Dec(b.time.seconds), Dec(b.time.millis)]
  }

  function Fields(b: Block): (r: seq<string>)
    ensures |r| == if b.Access? then 9 else 8
  {
    match b
    case Access(base, role, pubkey) => LeadFields(base) + [Dec(role), Prefix(pubkey, KEY_SHOWN)]
    case Contribution(base, commitHash) => LeadFields(base) + [Prefix(commitHash, MAX_HASH_LENGTH)]
  }

  /** The contents of `data_buffer` when it is hashed. */
  function Serialise(b: Block): string {
    Snprintf(TEXT_BUFFER, Join(Fields(b)))
  }

  // ---------------------------------------------------------------- the text is never cut

  lemma LeadWidths(b: BaseFields)
    ensures |Dec(b.height)| <= 10 && |Dec(b.op)| <= 10 && |Dec(b.time.seconds)| <= 10 && |Dec(b.time.millis)| <= 10
  {
    DecWord(b.height);
    DecWord(b.op);
    DecWord(b.time.seconds);
    DecWord(b.time.millis);
  }

  lemma AccessTextLength(b: Block)
    requires b.Access?
    ensures |Join(Fields(b))| <= 890
  {
    LeadWidths(b.base);
    DecWord(b.role);
    var widths: seq<nat> := [10, 64, 10, 256, 256, 10, 10, 10, 256];
    JoinBound(Fields(b), widths);
    assert widths[1..][1..][1..][1..] == [256, 10, 10, 10, 256];
    assert [256, 10, 10, 10, 256][1..][1..][1..][1..] == [256];
    assert Sum(widths) == 882;
  }

  lemma ContributionTextLength(b: Block)
    requires b.Contribution?
    ensures |Join(Fields(b))| <= 687
  {
    LeadWidths(b.base);
    var widths: seq<nat> := [10, 64, 10, 256, 256, 10, 10, 64];
    JoinBound(Fields(b), widths);
    assert widths[1..][1..][1..][1..] == [256, 10, 10, 64];
    assert [256, 10, 10, 64][1..][1..][1..] == [64];
    assert Sum(widths) == 680;
  }

  /** Both texts fit the 1024-byte buffer, so that `snprintf` never cuts them. */
  lemma SerialiseFits(b: Block)
    ensures Serialise(b) == Join(Fields(b))
    ensures |Serialise(b)| <= if b.Access? then 890 else 687
  {
    if b.Access? {
      AccessTextLength(b);
    } else {
      ContributionTextLength(b);
    }
  }

  // ---------------------------------------------------------------- reading the text back

  function ParseWord(s: string): Option<uint32> {
    match ParseDec(s)
    case Some(n) => if n < WORD then Some(n) else None
    case None => None
  }

  function ParseKey(s: string): Option<KeyText> {
    if |s| <= MAX_KEY_LENGTH then Some(s) else None
  }

  function ParseHash(s: string): Option<HashText> {
    if |s| <= MAX_HASH_LENGTH then Some(s) else None
  }

  function ParseLead(f: seq<string>): Option<BaseFields>
    requires |f| >= 7
  {
    var height, op, seconds, millis := ParseWord(f[0]), ParseWord(f[2]), ParseWord(f[5]), ParseWord(f[6]);
    if height.Some? && op.Some? && seconds.Some? && millis.Some?
       && |f[1]| <= MAX_HASH_LENGTH && |f[3]| <= MAX_KEY_LENGTH && |f[4]| <= MAX_SIGNATURE_LENGTH
    then Some(BaseFields(height.value, f[1], op.value, f[3], f[4], Time(seconds.value, millis.value), ""))
    else None
  }

  function ParseAccess(text: string): Option<Block> {
    match Split(text, 9)
    case None => None
    case Some(f) =>
      var base, role, pubkey := ParseLead(f), ParseWord(f[7]), ParseKey(f[8]);
      if base.Some? && role.Some? && pubkey.Some? then Some(Access(base.value, role.value, pubkey.value)) else None
  }

  function ParseContribution(text: string): Option<Block> {
    match Split(text, 8)
    case None => None
    case Some(f) =>
      var base, commitHash := ParseLead(f), ParseHash(f[7]);
      if base.Some? && commitHash.Some? then Some(Contribution(base.value, commitHash.value)) else None
  }

  /** The operation, which tells the two kinds of text apart. */
  function ParseOp(text: string): Option<nat> {
    match Split(text, 4)
    case None => None
    case Some(f) => ParseDec(f[2])
  }

  function ParseBlock(text: string): Option<Block> {
    match ParseOp(text)
    case None => None
    case Some(op) =>
      if op == OP_ADD || op == OP_DELETE then ParseAccess(text)
      else if op == OP_PUSH || op == OP_PR then ParseContribution(text)
      else None
  }

  lemma FieldsColonFree(b: Block)
    ensures ColonFree(Dec(b.base.height)) && ColonFree(Dec(b.base.op))
    ensures ColonFree(Dec(b.base.time.seconds)) && ColonFree(Dec(b.base.time.millis))
    ensures b.Access? ==> ColonFree(Dec(b.role))
    ensures b.Framed() ==> (LeadColonFree(Fields(b)) <==> b.SigkeyColonFree())
  {
    DecWord(b.base.height);
    DecWord(b.base.op);
    DecWord(b.base.time.seconds);
    DecWord(b.base.time.millis);
    if b.Access? {
      DecWord(b.role);
    }
    assert Fields(b)[3] == Prefix(b.base.sigkey, KEY_SHOWN);
  }

  lemma OpIsReadable(b: Block)
    requires ColonFree(b.base.parent)
    ensures ParseOp(Serialise(b)) == Some(b.base.op)
  {
    SerialiseFits(b);
    FieldsColonFree(b);
    SplitLeading(Fields(b), 3);
    ParseDecDec(b.base.op);
  }

  lemma ParseLeadFields(b: Block)
    ensures ParseLead(Fields(b)) == Some(b.Projected().base)
  {
    assert Fields(b)[..7] == LeadFields(b.base);
    ParseDecDec(b.base.height);
    ParseDecDec(b.base.op);
    ParseDecDec(b.base.time.seconds);
    ParseDecDec(b.base.time.millis);
  }

  /**
   * The text parses back to everything it shows of the block exactly when the shown part of the
   * signing key holds no colon; colons in the public key do no harm, because it comes last.
   */
  lemma ParseSerialise(b: Block)
    requires b.Framed()
    ensures ParseBlock(Serialise(b)) == Some(b.Projected()) <==> b.SigkeyColonFree()
  {
    SerialiseFits(b);
    FieldsColonFree(b);
    OpIsReadable(b);
    SplitJoin(Fields(b));
    if b.SigkeyColonFree() {
      ParseFields(b);
    } else if ParseBlock(Serialise(b)) == Some(b.Projected()) {
      SplitColonFree(Serialise(b), |Fields(b)|);
      assert false;
    }
  }

  /** The fields, once they are cut apart, give the block. */
  lemma ParseFields(b: Block)
    requires Split(Serialise(b), |Fields(b)|) == Some(Fields(b))
    ensures b.Access? ==> ParseAccess(Serialise(b)) == Some(b.Projected())
    ensures b.Contribution? ==> ParseContribution(Serialise(b)) == Some(b.Projected())
  {
    ParseLeadFields(b);
    if b.Access? {
      ParseDecDec(b.role);
    }
  }

  // ---------------------------------------------------------------- what the text determines

  /** What follows the operation in the text. */
  function Rest(b: Block): string {
    Join(Fields(b)[3..])
  }

  /** The first three fields can be read without knowing what the others hold. */
  lemma RestIsReadable(b: Block)
    requires ColonFree(b.base.parent)
    ensures Split(Serialise(b), 4) == Some(Fields(b)[..3] + [Rest(b)])
    ensures Rest(b) == Prefix(b.base.sigkey, KEY_SHOWN) + ":" + Join(Fields(b)[4..])
  {
    SerialiseFits(b);
    FieldsColonFree(b);
    SplitLeading(Fields(b), 3);
    assert Fields(b)[3..][1..] == Fields(b)[4..];
  }

  lemma SameLead(a: Block, b: Block)
    requires a.Framed() && b.Framed() && Serialise(a) == Serialise(b)
    ensures Fields(a)[..3] == Fields(b)[..3] && a.base.op == b.base.op && a.Access? == b.Access?
    ensures Rest(a) == Rest(b)
  {
    RestIsReadable(a);
    RestIsReadable(b);
    var f, g := Fields(a)[..3] + [Rest(a)], Fields(b)[..3] + [Rest(b)];
    assert f[..3] == Fields(a)[..3] && g[..3] == Fields(b)[..3] && f[3] == g[3] && f[2] == g[2];
    DecInjective(a.base.op, b.base.op);
  }

  lemma SameFields(a: Block, b: Block)
    requires a.Access? == b.Access? && Fields(a) == Fields(b)
    ensures a.Projected() == b.Projected()
  {
    ParseLeadFields(a);
    ParseLeadFields(b);
    if a.Access? {
      assert Fields(a)[7] == Fields(b)[7] && Fields(a)[8] == Fields(b)[8];
      DecInjective(a.role, b.role);
    } else {
      assert Fields(a)[7] == Fields(b)[7];
    }
  }

  /** Equal texts that show signing keys of one length show one block, whatever colons the keys hold. */
  lemma SameKeyLength(a: Block, b: Block)
    requires a.Framed() && b.Framed() && Serialise(a) == Serialise(b)
    requires |Prefix(a.base.sigkey, KEY_SHOWN)| == |Prefix(b.base.sigkey, KEY_SHOWN)|
    ensures a.Projected() == b.Projected()
  {
    SameLead(a, b);
    RestIsReadable(a);
    RestIsReadable(b);
    AfterKey(a);
    AfterKey(b);
    var k, l := Prefix(a.base.sigkey, KEY_SHOWN), Prefix(b.base.sigkey, KEY_SHOWN);
    var x, y := Join(Fields(a)[4..]), Join(Fields(b)[4..]);
    SameCut(k, x, l, y);
    JoinInjective(Fields(a)[4..], Fields(b)[4..]);
    SameFields(a, b);
  }

  lemma AfterKey(b: Block)
    requires b.Framed()
    ensures Fields(b) == Fields(b)[..3] + [Prefix(b.base.sigkey, KEY_SHOWN)] + Fields(b)[4..]
    ensures |Fields(b)[4..]| > 0 && LeadColonFree(Fields(b)[4..])
  {
    FieldsColonFree(b);
    assert Fields(b)[4] == Prefix(b.base.signature, KEY_SHOWN);
    assert forall i :: 4 <= i < |Fields(b)| ==> Fields(b)[4..][i - 4] == Fields(b)[i];
  }

  lemma SameCut(k: string, x: string, l: string, y: string)
    requires |k| == |l| && k + ":" + x == l + ":" + y
    ensures k == l && x == y
  {
    var t := k + ":" + x;
    assert t[..|k|] == k && t[|k| + 1..] == x;
    assert t == l + ":" + y;
    assert t[..|l|] == l && t[|l| + 1..] == y;
  }

  /** After a key of `n` characters come 256 characters of signature. */
  predicate ReadsSigned(t: string, n: nat) {
    && n <= KEY_SHOWN && n + KEY_SHOWN + 2 <= |t|
    && t[n] == ':' && ColonFree(t[n + 1..n + 1 + KEY_SHOWN])
    && t[n + 1 + KEY_SHOWN] == ':'
  }

  /** A key of `n` characters, `w` characters from the empty signature to the role, and a key of `n` again. */
  ghost predicate ReadsFounding(t: string, n: nat, w: nat) {
    && n <= KEY_SHOWN && 8 <= w <= 26 && |t| == n + w + n
    && t[n] == ':' && t[n + 1] == ':' && t[n + w - 1] == ':'
    && forall i :: n < i < n + w - 1 ==> !(t[i] == ':' && t[i + 1] == ':')
  }

  lemma NoColonWithin(t: string, n: nat, i: nat)
    requires ReadsSigned(t, n) && n < i <= n + KEY_SHOWN
    ensures t[i] != ':'
  {
    assert t[n + 1..n + 1 + KEY_SHOWN][i - n - 1] == t[i];
  }

  lemma OneSignedReading(t: string, n: nat, n': nat)
    requires ReadsSigned(t, n) && ReadsSigned(t, n')
    ensures n == n'
  {
    if n < n' {
      NoColonWithin(t, n, n');
    } else if n' < n {
      NoColonWithin(t, n', n);
    }
  }

  lemma OneFoundingReading(t: string, n: nat, w: nat, n': nat, w': nat)
    requires ReadsFounding(t, n, w) && ReadsFounding(t, n', w')
    ensures n == n'
  {
  }

  lemma NeverBothReadings(t: string, n: nat, w: nat, n': nat)
    requires ReadsFounding(t, n, w)
    ensures !ReadsSigned(t, n')
  {
    var colon := if n' < n then n else if n' == n then n + 1 else n + w - 1;
    if n' <= KEY_SHOWN && n' + KEY_SHOWN + 2 <= |t| {
      assert t[n' + 1..n' + 1 + KEY_SHOWN][colon - n' - 1] == t[colon];
    }
  }

  lemma SignedReading(b: Block)
    requires b.Framed() && b.FullySigned()
    ensures ReadsSigned(Rest(b), |Prefix(b.base.sigkey, KEY_SHOWN)|)
  {
    RestIsReadable(b);
    var k, s := Prefix(b.base.sigkey, KEY_SHOWN), Prefix(b.base.signature, KEY_SHOWN);
    var more := Join(Fields(b)[5..]);
    assert Fields(b)[4..][1..] == Fields(b)[5..];
    assert Rest(b) == k + ":" + (s + ":" + more);
    assert Rest(b)[|k| + 1..|k| + 1 + KEY_SHOWN] == s;
  }

  function Middle(s: string, m: string): string {
    "::" + s + ":" + m + ":1:"
  }

  lemma FoundingText(b: Block)
    requires b.Framed() && b.ShowsFounding()
    ensures var k := Prefix(b.base.sigkey, KEY_SHOWN);
            Rest(b) == k + (Middle(Dec(b.base.time.seconds), Dec(b.base.time.millis)) + k)
  {
    RestIsReadable(b);
    var k, s, m := Prefix(b.base.sigkey, KEY_SHOWN), Dec(b.base.time.seconds), Dec(b.base.time.millis);
    assert Dec(1) == "1";
    assert Fields(b)[4..] == ["", s, m, "1", k];
    JoinFounding(k, s, m);
  }

  lemma JoinFounding(k: string, s: string, m: string)
    ensures k + ":" + Join(["", s, m, "1", k]) == k + (Middle(s, m) + k)
  {
    JoinFive("", s, m, "1", k);
    var one := "1" + ":" + k;
    assert one == "1:" + k;
    var millis := m + ":" + one;
    assert millis == m + ":1:" + k;
    var seconds := s + ":" + millis;
    assert seconds == s + ":" + m + ":1:" + k;
    assert ":" + ("" + ":" + seconds) == Middle(s, m) + k;
  }

  lemma FoundingReading(b: Block)
    requires b.Framed() && b.ShowsFounding()
    ensures exists w :: ReadsFounding(Rest(b), |Prefix(b.base.sigkey, KEY_SHOWN)|, w)
  {
    FoundingText(b);
    DecWord(b.base.time.seconds);
    DecWord(b.base.time.millis);
    MiddleReads(Prefix(b.base.sigkey, KEY_SHOWN), Dec(b.base.time.seconds), Dec(b.base.time.millis));
  }

  lemma MiddleReads(k: string, s: string, m: string)
    requires |k| <= KEY_SHOWN && 0 < |s| <= 10 && 0 < |m| <= 10 && ColonFree(s) && ColonFree(m)
    ensures ReadsFounding(k + (Middle(s, m) + k), |k|, |Middle(s, m)|)
  {
    var t, w := k + (Middle(s, m) + k), |Middle(s, m)|;
    MiddleColons(s, m);
    forall i | |k| <= i < |k| + w ensures t[i] == Middle(s, m)[i - |k|] {}
  }

  lemma JoinFive(a: string, b: string, c: string, d: string, e: string)
    ensures Join([a, b, c, d, e]) == a + ":" + (b + ":" + (c + ":" + (d + ":" + e)))
  {
    assert [a, b, c, d, e][1..] == [b, c, d, e];
    assert [b, c, d, e][1..] == [c, d, e];
    assert [c, d, e][1..] == [d, e];
    JoinPair(d, e);
    assert Join([c, d, e]) == c + ":" + Join([d, e]);
    assert Join([b, c, d, e]) == b + ":" + Join([c, d, e]);
  }

  /** Only the first two colons of the middle part stand side by side. */
  lemma MiddleColons(s: string, m: string)
    requires s != "" && m != "" && ColonFree(s) && ColonFree(m)
    ensures var t := Middle(s, m);
            forall i :: 0 < i < |t| - 1 ==> !(t[i] == ':' && t[i + 1] == ':')
  {
    var t := Middle(s, m);
    forall i | 0 < i < |t| - 1 ensures !(t[i] == ':' && t[i + 1] == ':') {
      assert t[i] == ':' ==> i == 1 || i == 2 + |s| || i == 3 + |s| + |m|;
      assert t[2] == s[0] && t[3 + |s|] == m[0] && t[4 + |s| + |m|] == '1';
    }
  }

  lemma ReceivableKeyLength(a: Block, b: Block)
    requires a.Receivable() && b.Receivable() && Serialise(a) == Serialise(b)
    ensures |Prefix(a.base.sigkey, KEY_SHOWN)| == |Prefix(b.base.sigkey, KEY_SHOWN)|
  {
    SameLead(a, b);
    var t, n, n' := Rest(a), |Prefix(a.base.sigkey, KEY_SHOWN)|, |Prefix(b.base.sigkey, KEY_SHOWN)|;
    if a.FullySigned() { SignedReading(a); } else { FoundingReading(a); }
    if b.FullySigned() { SignedReading(b); } else { FoundingReading(b); }
    if a.FullySigned() && b.FullySigned() {
      OneSignedReading(t, n, n');
    } else if a.FullySigned() {
      var w :| ReadsFounding(t, n', w);
      NeverBothReadings(t, n', w, n);
    } else if b.FullySigned() {
      var w :| ReadsFounding(t, n, w);
      NeverBothReadings(t, n, w, n');
    } else {
      var w, w' :| ReadsFounding(t, n, w) && ReadsFounding(t, n', w');
      OneFoundingReading(t, n, w, n', w');
    }
  }

  /**
   * The text determines everything it shows: between blocks of the shapes that the ledger hands out,
   * whatever colons their keys hold, and between all blocks whose signing keys show no colon.
   */
  lemma SameTextIffSameProjection(a: Block, b: Block)
    requires a.Framed() && b.Framed()
    requires (a.Receivable() && b.Receivable()) || (a.SigkeyColonFree() && b.SigkeyColonFree())
    ensures Serialise(a) == Serialise(b) <==> a.Projected() == b.Projected()
  {
    if a.Projected() == b.Projected() {
      assert Fields(a) == Fields(b);
    } else if a.SigkeyColonFree() && b.SigkeyColonFree() {
      ParseSerialise(a);
      ParseSerialise(b);
    } else if Serialise(a) == Serialise(b) {
      ReceivableKeyLength(a, b);
      SameKeyLength(a, b);
    }
  }

  /**
   * A block that the ledger hands out can be mistaken for another exactly where the other is of neither
   * shape: among all blocks with its text, the receivable ones are those that show the same fields.
   */
  lemma MistakenIff(b: Block, reading: Block)
    requires b.Receivable() && reading.Framed() && Serialise(reading) == Serialise(b)
    ensures reading.Projected() == b.Projected() <==> reading.Receivable()
  {
    if reading.Receivable() {
      SameTextIffSameProjection(b, reading);
    } else if b.FullySigned() {
      assert |Prefix(reading.base.signature, KEY_SHOWN)| < KEY_SHOWN == |Prefix(b.base.signature, KEY_SHOWN)|;
      assert reading.Projected().base.signature != b.Projected().base.signature;
    }
  }

  /** No access block shares its text with a contribution block, whatever colons their other fields hold. */
  lemma KindsNeverShareText(a: Block, b: Block)
    requires a.Access? && b.Contribution? && a.KindMatchesOp() && b.KindMatchesOp()
    requires ColonFree(a.base.parent) && ColonFree(b.base.parent)
    ensures Serialise(a) != Serialise(b)
  {
    OpIsReadable(a);
    OpIsReadable(b);
  }

  /** The hashed text shows 256 characters of a key: longer keys that agree so far cannot be told apart. */
  lemma LongKeysAreNotTold(b: Block, sigkey: KeyText, pubkey: KeyText)
    requires b.Access?
    requires Prefix(sigkey, KEY_SHOWN) == Prefix(b.base.sigkey, KEY_SHOWN)
    requires Prefix(pubkey, KEY_SHOWN) == Prefix(b.pubkey, KEY_SHOWN)
    ensures Serialise(b.(base := b.base.(sigkey := sigkey), pubkey := pubkey)) == Serialise(b)
  {
  }
}
