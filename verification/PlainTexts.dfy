/**
 * The texts of the application, written out from its format strings with all their literals. These
 * definitions are independent of the ones that the commands are modelled with, and proved equal to them.
 */
module PlainTexts {
  import opened Basics
  import opened Hex
  import opened TextFormat
  import opened Blocks
  import opened Messages

  // ---------------------------------------------------------------- digits

  /** The digits of a byte, the higher one first. */
  lemma HexWritten(bs: bytes, i: nat)
    requires i < |bs|
    ensures |ToHex(bs)| == 2 * |bs|
    ensures ToHex(bs)[2 * i] == "0123456789abcdef"[bs[i] / 16]
    ensures ToHex(bs)[2 * i + 1] == "0123456789abcdef"[bs[i] % 16]
  {
    HexAlphabet(bs[i] / 16);
    HexAlphabet(bs[i] % 16);
    assert (2 * i) / 2 == i && (2 * i + 1) / 2 == i;
  }

  lemma HexAlphabet(d: int)
    requires 0 <= d < 16
    ensures HexDigit(d) == "0123456789abcdef"[d]
  {
  }

  lemma DivUnique(n: int, p: int, q: int, r: int)
    requires p > 0 && 0 <= r < p && n == q * p + r
    ensures n / p == q
  {
    var d := n / p - q;
    assert p * d == r - n % p;
    Multiples(p, d);
  }

  lemma Multiples(p: int, d: int)
    requires p > 0
    ensures d > 0 ==> p * d >= p
    ensures d < 0 ==> p * d <= -p
  {
  }

  lemma DivTen(n: nat, p: nat)
    requires p > 0
    ensures n / (10 * p) == n / 10 / p
  {
    var q, r := n / 10 / p, n / 10 % p;
    assert n / 10 == q * p + r;
    assert n == q * (10 * p) + (10 * r + n % 10);
    DivUnique(n, 10 * p, q, 10 * r + n % 10);
  }

  /** What `%u` prints: the decimal digits, the highest first, without leading zeros. */
  lemma {:induction false} DecWritten(n: nat, i: nat)
    requires i < |Dec(n)|
    ensures Dec(n)[i] as int == '0' as int + n / Pow10(|Dec(n)| - 1 - i) % 10
    ensures n >= 10 ==> Dec(n)[0] != '0'
  {
    var k := |Dec(n)| - 1 - i;
    if n >= 10 {
      DecWritten(n / 10, if i < |Dec(n / 10)| then i else 0);
      if k > 0 {
        DivTen(n, Pow10(k - 1));
      }
    }
  }

  // ---------------------------------------------------------------- texts

  /** `"%u:%u:%u:%s"`. */
  function AccessRequest(repId: uint32, op: uint32, role: uint32, pubkey: string): string {
    Dec(repId) + ":" + (Dec(op) + ":" + (Dec(role) + ":" + pubkey))
  }

  /** `"%u:%u:%s"`. */
  function CommitRequest(repId: uint32, op: uint32, commitHash: string): string {
    Dec(repId) + ":" + (Dec(op) + ":" + commitHash)
  }

  /** `"%u:%.64s:%u:%.256s:%.256s:%u:%u:"`, and `"%u:%.256s"` or `"%.64s"`. */
  function BlockText(b: Block): string {
    Dec(b.base.height) + ":" + (Prefix(b.base.parent, 64) + ":" + (Dec(b.base.op) + ":" + AfterOp(b)))
  }

  function AfterOp(b: Block): string {
    Prefix(b.base.sigkey, 256) + ":" + (Prefix(b.base.signature, 256) + ":" + AfterSignature(b))
  }

  function AfterSignature(b: Block): string {
    Dec(b.base.time.seconds) + ":" + (Dec(b.base.time.millis) + ":" + LastPart(b))
  }

  function LastPart(b: Block): string {
    match b
    case Access(_, role, pubkey) => Dec(role) + ":" + Prefix(pubkey, 256)
    case Contribution(_, commitHash) => Prefix(commitHash, 64)
  }

  lemma JoinStep(fields: seq<string>, k: nat)
    requires k + 1 < |fields|
    ensures Join(fields[k..]) == fields[k] + ":" + Join(fields[k + 1..])
  {
    assert fields[k..][1..] == fields[k + 1..];
  }

  lemma JoinLast(fields: seq<string>)
    requires |fields| > 0
    ensures Join(fields[|fields| - 1..]) == fields[|fields| - 1]
  {
  }

  lemma AfterSignatureText(b: Block)
    ensures Join(Fields(b)[5..]) == AfterSignature(b)
  {
    JoinStep(Fields(b), 5);
    JoinStep(Fields(b), 6);
    if b.Access? {
      JoinStep(Fields(b), 7);
    }
    JoinLast(Fields(b));
  }

  /** What is hashed is this text. */
  lemma SerialiseIs(b: Block)
    ensures Serialise(b) == BlockText(b)
  {
    SerialiseFits(b);
    AfterSignatureText(b);
    JoinStep(Fields(b), 3);
    JoinStep(Fields(b), 4);
    JoinStep(Fields(b), 0);
    JoinStep(Fields(b), 1);
    JoinStep(Fields(b), 2);
    assert Fields(b)[0..] == Fields(b);
  }

  lemma RequestsAre(repId: uint32, op: uint32, role: uint32, pubkey: KeyText, commitHash: HashText)
    ensures AccessText(repId, op, role, pubkey) == AccessRequest(repId, op, role, pubkey)
    ensures CommitText(repId, op, commitHash) == CommitRequest(repId, op, commitHash)
  {
    AccessTextWhole(repId, op, role, pubkey);
    CommitTextWhole(repId, op, commitHash);
    var f, g := [Dec(repId), Dec(op), Dec(role), pubkey], [Dec(repId), Dec(op), commitHash];
    assert f[0..] == f && g[0..] == g;
    JoinStep(f, 0);
    JoinStep(f, 1);
    JoinStep(f, 2);
    JoinLast(f);
    JoinStep(g, 0);
    JoinStep(g, 1);
    JoinLast(g);
  }

  // ---------------------------------------------------------------- the longest texts

  lemma {:induction false} DecAtLeast(n: nat, k: nat)
    requires n >= Pow10(k)
    ensures |Dec(n)| > k
  {
    if n >= 10 && k > 0 {
      DecAtLeast(n / 10, k - 1);
    }
  }

  lemma LongestNumber()
    ensures |Dec(4_294_967_295)| == 10
  {
    DecWord(4_294_967_295);
    assert Pow10(4) == 10_000 && Pow10(9) == 1_000_000_000;
    DecAtLeast(4_294_967_295, 9);
  }

  /** The longest texts of requests: all fields hold what they can hold. */
  lemma LongestRequests()
    ensures |AccessText(4_294_967_295, 4_294_967_295, 4_294_967_295, Repeated('x', 512))| == 545
    ensures |CommitText(4_294_967_295, 4_294_967_295, Repeated('x', 64))| == 86
  {
    LongestNumber();
    RequestsAre(4_294_967_295, 4_294_967_295, 4_294_967_295, Repeated('x', 512), Repeated('x', 64));
  }

  /** The fields of a block that hold what they can hold, the signature of the TEE included. */
  function FullBase(): BaseFields {
    BaseFields(4_294_967_295, Repeated('x', 64), 4_294_967_295, Repeated('x', 512), Repeated('x', 512),
      Time(4_294_967_295, 4_294_967_295), Repeated('x', 512))
  }

  /** The bounds on the hashed texts are attained. */
  lemma LongestBlocks()
    ensures |Serialise(Access(FullBase(), 4_294_967_295, Repeated('x', 512)))| == 890
    ensures |Serialise(Contribution(FullBase(), Repeated('x', 64)))| == 687
  {
    LongestNumber();
    SerialiseIs(Access(FullBase(), 4_294_967_295, Repeated('x', 512)));
    SerialiseIs(Contribution(FullBase(), Repeated('x', 64)));
  }

  // ---------------------------------------------------------------- what the text shows, and no more

  lemma SameEnd(front: string, x: string, y: string, back: string)
    ensures front + (x + back) == front + (y + back) <==> x == y
  {
    var s, t := front + (x + back), front + (y + back);
    if s == t {
      assert s[|front|..|front| + |x|] == x && t[|front|..|front| + |y|] == y;
    }
  }

  /** The text shows exactly the first 256 characters of a public key. */
  lemma PubkeyShown(b: Block, k: KeyText, k': KeyText)
    requires b.Access?
    ensures Serialise(b.(pubkey := k)) == Serialise(b.(pubkey := k')) <==> Prefix(k, 256) == Prefix(k', 256)
  {
    var x, y := b.(pubkey := k), b.(pubkey := k');
    SerialiseFits(x);
    SerialiseFits(y);
    var front := LeadFields(b.base) + [Dec(b.role)];
    assert Fields(x) == front + [Prefix(k, 256)] && Fields(y) == front + [Prefix(k', 256)];
    JoinAppend(front, [Prefix(k, 256)]);
    JoinAppend(front, [Prefix(k', 256)]);
    SameEnd(Join(front) + ":", Prefix(k, 256), Prefix(k', 256), "");
    assert Prefix(k, 256) + "" == Prefix(k, 256) && Prefix(k', 256) + "" == Prefix(k', 256);
  }

  lemma FieldShown(fields: seq<string>, i: nat, x: string, y: string)
    requires 0 < i < |fields| - 1
    ensures Join(fields[i := x]) == Join(fields[i := y]) <==> x == y
  {
    var front, back := fields[..i], fields[i + 1..];
    assert fields[i := x] == front + ([x] + back) && fields[i := y] == front + ([y] + back);
    JoinAppend(front, [x] + back);
    JoinAppend(front, [y] + back);
    JoinAppend([x], back);
    JoinAppend([y], back);
    SameEnd(Join(front) + ":", x, y, ":" + Join(back));
    assert Join([x] + back) == x + (":" + Join(back)) && Join([y] + back) == y + (":" + Join(back));
  }

  /** It shows exactly the first 256 characters of a signing key. */
  lemma SigkeyShown(b: Block, k: KeyText, k': KeyText)
    ensures Serialise(b.(base := b.base.(sigkey := k))) == Serialise(b.(base := b.base.(sigkey := k')))
            <==> Prefix(k, 256) == Prefix(k', 256)
  {
    var x, y := b.(base := b.base.(sigkey := k)), b.(base := b.base.(sigkey := k'));
    SerialiseFits(x);
    SerialiseFits(y);
    assert Fields(x) == Fields(b)[3 := Prefix(k, 256)] && Fields(y) == Fields(b)[3 := Prefix(k', 256)];
    FieldShown(Fields(b), 3, Prefix(k, 256), Prefix(k', 256));
  }

  /** It shows exactly the first 256 characters of a signature. */
  lemma SignatureShown(b: Block, k: SignatureText, k': SignatureText)
    ensures Serialise(b.(base := b.base.(signature := k))) == Serialise(b.(base := b.base.(signature := k')))
            <==> Prefix(k, 256) == Prefix(k', 256)
  {
    var x, y := b.(base := b.base.(signature := k)), b.(base := b.base.(signature := k'));
    SerialiseFits(x);
    SerialiseFits(y);
    assert Fields(x) == Fields(b)[4 := Prefix(k, 256)] && Fields(y) == Fields(b)[4 := Prefix(k', 256)];
    FieldShown(Fields(b), 4, Prefix(k, 256), Prefix(k', 256));
  }
}
