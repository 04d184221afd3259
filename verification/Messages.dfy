/** The requests of the commands, and the texts their signatures are checked against (ta/trust_chain_ta.c). */
module Messages {
  import opened Basics
  import opened TextFormat

  datatype AccessMessage = AccessMessage(
    repId: uint32, op: uint32, role: uint32, pubkey: KeyText, sigkey: KeyText, signature: SignatureText)

  datatype CommitMessage = CommitMessage(
    repId: uint32, op: uint32, commitHash: HashText, sigkey: KeyText, signature: SignatureText)

  const VERIFY_BUFFER: nat := 1024

  function AccessText(repId: uint32, op: uint32, role: uint32, pubkey: KeyText): string {
    Snprintf(VERIFY_BUFFER, Join([Dec(repId), Dec(op), Dec(role), pubkey]))
  }

  function CommitText(repId: uint32, op: uint32, commitHash: HashText): string {
    Snprintf(VERIFY_BUFFER, Join([Dec(repId), Dec(op), commitHash]))
  }

  lemma {:induction false} AccessTextWhole(repId: uint32, op: uint32, role: uint32, pubkey: KeyText)
    ensures AccessText(repId, op, role, pubkey) == Join([Dec(repId), Dec(op), Dec(role), pubkey])
    ensures LeadColonFree([Dec(repId), Dec(op), Dec(role), pubkey])
  {
    DecWord(repId);
    DecWord(op);
    DecWord(role);
    var widths: seq<nat> := [10, 10, 10, 512];
    JoinBound([Dec(repId), Dec(op), Dec(role), pubkey], widths);
    assert widths[1..] == [10, 10, 512] && [10, 10, 512][1..] == [10, 512] && [10, 512][1..] == [512];
    assert Sum(widths) == 542;
  }

  lemma CommitTextWhole(repId: uint32, op: uint32, commitHash: HashText)
    ensures CommitText(repId, op, commitHash) == Join([Dec(repId), Dec(op), commitHash])
    ensures LeadColonFree([Dec(repId), Dec(op), commitHash])
  {
    DecWord(repId);
    DecWord(op);
    var widths: seq<nat> := [10, 10, 64];
    JoinBound([Dec(repId), Dec(op), commitHash], widths);
    assert widths[1..] == [10, 64] && [10, 64][1..] == [64];
    assert Sum(widths) == 84;
  }

  /** A signed access request pins down every field of the request, whatever its public key holds. */
  lemma AccessTextInjective(r: uint32, op: uint32, role: uint32, k: KeyText,
                            r': uint32, op': uint32, role': uint32, k': KeyText)
    ensures AccessText(r, op, role, k) == AccessText(r', op', role', k')
            <==> r == r' && op == op' && role == role' && k == k'
  {
    AccessTextWhole(r, op, role, k);
    AccessTextWhole(r', op', role', k');
    if AccessText(r, op, role, k) == AccessText(r', op', role', k') {
      var f, f' := [Dec(r), Dec(op), Dec(role), k], [Dec(r'), Dec(op'), Dec(role'), k'];
      JoinInjective(f, f');
      assert f[0] == f'[0] && f[1] == f'[1] && f[2] == f'[2] && f[3] == f'[3];
      DecInjective(r, r');
      DecInjective(op, op');
      DecInjective(role, role');
    }
  }

  lemma CommitTextInjective(r: uint32, op: uint32, h: HashText, r': uint32, op': uint32, h': HashText)
    ensures CommitText(r, op, h) == CommitText(r', op', h') <==> r == r' && op == op' && h == h'
  {
    CommitTextWhole(r, op, h);
    CommitTextWhole(r', op', h');
    if CommitText(r, op, h) == CommitText(r', op', h') {
      var f, f' := [Dec(r), Dec(op), h], [Dec(r'), Dec(op'), h'];
      JoinInjective(f, f');
      assert f[0] == f'[0] && f[1] == f'[1] && f[2] == f'[2];
      DecInjective(r, r');
      DecInjective(op, op');
    }
  }

  /**
   * An access request and a commit request read alike exactly when repository and operation agree and
   * the commit hash spells out role and public key.
   */
  lemma AccessVersusCommitText(r: uint32, op: uint32, role: uint32, k: KeyText, r': uint32, op': uint32, h: HashText)
    ensures AccessText(r, op, role, k) == CommitText(r', op', h)
            <==> r == r' && op == op' && h == Dec(role) + ":" + k
  {
    AccessTextWhole(r, op, role, k);
    CommitTextWhole(r', op', h);
    var f, f' := [Dec(r), Dec(op), Dec(role) + ":" + k], [Dec(r'), Dec(op'), h];
    assert AccessText(r, op, role, k) == Join(f) by {
      var front := [Dec(r), Dec(op)];
      JoinAppend(front, [Dec(role), k]);
      JoinAppend(front, [Dec(role) + ":" + k]);
      JoinPair(Dec(role), k);
      assert front + [Dec(role), k] == [Dec(r), Dec(op), Dec(role), k];
      assert front + [Dec(role) + ":" + k] == f;
    }
    if AccessText(r, op, role, k) == CommitText(r', op', h) {
      DecWord(r);
      DecWord(op);
      JoinInjective(f, f');
      assert f[0] == f'[0] && f[1] == f'[1] && f[2] == f'[2];
      DecInjective(r, r');
      DecInjective(op, op');
    }
  }

  /** The operation checks of the two commands therefore keep their signed texts apart. */
  lemma RequestsNeverShareText(r: uint32, op: uint32, role: uint32, k: KeyText, r': uint32, op': uint32, h: HashText)
    requires op == OP_ADD || op == OP_DELETE
    requires op' == OP_PUSH || op' == OP_PR
    ensures AccessText(r, op, role, k) != CommitText(r', op', h)
  {
    AccessVersusCommitText(r, op, role, k, r', op', h);
  }
}
