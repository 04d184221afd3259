/** Where authority comes from, and what happens when it runs out. */
module Lineage {
  import opened Basics
  import opened Blocks
  import opened Messages
  import opened Crypto
  import opened KeyLists
  import opened Ledger
  import opened Invariants

  /** The keys that hold a role. */
  function Holders(r: Repo, role: uint32): seq<KeyText>
    requires role == ROLE_ADMIN || role == ROLE_WRITER
  {
    if role == ROLE_ADMIN then r.admins else r.writers
  }

  // ---------------------------------------------------------------- chains of grants

  /**
   * The command gives `key` a role in repository `i` that it did not hold there, and a key that is an
   * administrator there signed the request. Promoting a writer gives a role, too.
   */
  ghost predicate Gives(c: Crypto, s: State, cmd: Command, i: nat, role: uint32, key: KeyText) {
    && (role == ROLE_ADMIN || role == ROLE_WRITER)
    && cmd.AccessControl?
    && var m, s' := cmd.access, Step(c, s, cmd).0;
    && m.repId == i && m.op == OP_ADD && m.role == role && m.pubkey == key
    && i < |s.repos| && i < |s'.repos|
    && m.sigkey in s.repos[i].admins && AccessSigned(c, m)
    && key !in Holders(s.repos[i], role) && key in Holders(s'.repos[i], role)
  }

  /** Step `t` of the run does so. */
  ghost predicate Grants(c: Crypto, s: State, cmds: seq<Command>, t: nat, i: nat, role: uint32, key: KeyText) {
    t < |cmds| && Gives(c, Run(c, s, cmds[..t]), cmds[t], i, role, key)
  }

  /** As far as repository `i` exists, the key holds the role at all times in between. */
  ghost predicate Keeps(c: Crypto, s: State, cmds: seq<Command>, i: nat, role: uint32, key: KeyText,
                        from: nat, until: nat)
    requires role == ROLE_ADMIN || role == ROLE_WRITER
  {
    forall u | from <= u <= until && u <= |cmds| && i < |Run(c, s, cmds[..u]).repos| ::
      key in Holders(Run(c, s, cmds[..u]).repos[i], role)
  }

  /**
   * `steps` leads from the founder to `key` in its role at time `now`: each step makes a key administrator,
   * and the last one may make it writer instead; each is signed with the key that the steps before it lead
   * to, and that key has been an administrator ever since its own step.
   */
  ghost predicate Leads(c: Crypto, s: State, cmds: seq<Command>, i: nat, founder: KeyText, role: uint32, key: KeyText,
                        steps: seq<nat>, now: nat)
    requires role == ROLE_ADMIN || role == ROLE_WRITER
    decreases |steps|
  {
    if steps == [] then role == ROLE_ADMIN && key == founder && Keeps(c, s, cmds, i, role, key, 0, now)
    else
      var n := |steps| - 1;
      var t := steps[n];
      && t < now
      && Grants(c, s, cmds, t, i, role, key)
      && Keeps(c, s, cmds, i, role, key, t + 1, now)
      && Leads(c, s, cmds, i, founder, ROLE_ADMIN, cmds[t].access.sigkey, steps[..n], t)
  }

  /** The key holds its role for one more step. */
  lemma LeadsLater(c: Crypto, s: State, cmds: seq<Command>, i: nat, founder: KeyText, role: uint32, key: KeyText,
                   steps: seq<nat>, n: nat)
    requires role == ROLE_ADMIN || role == ROLE_WRITER
    requires n < |cmds| && Leads(c, s, cmds, i, founder, role, key, steps, n)
    requires i < |Run(c, s, cmds[..n + 1]).repos| && key in Holders(Run(c, s, cmds[..n + 1]).repos[i], role)
    ensures Leads(c, s, cmds, i, founder, role, key, steps, n + 1)
  {
  }

  /** One more grant, signed with the key reached so far. */
  lemma LeadsExtend(c: Crypto, s: State, cmds: seq<Command>, i: nat, founder: KeyText, signer: KeyText,
                    steps: seq<nat>, n: nat, role: uint32, key: KeyText)
    requires role == ROLE_ADMIN || role == ROLE_WRITER
    requires Leads(c, s, cmds, i, founder, ROLE_ADMIN, signer, steps, n)
    requires Grants(c, s, cmds, n, i, role, key) && cmds[n].access.sigkey == signer
    requires Keeps(c, s, cmds, i, role, key, n + 1, n + 1)
    ensures Leads(c, s, cmds, i, founder, role, key, steps + [n], n + 1)
  {
    assert (steps + [n])[..|steps|] == steps;
  }

  lemma LastStep(c: Crypto, s: State, cmds: seq<Command>, i: nat, founder: KeyText, role: uint32, key: KeyText,
                 steps: seq<nat>, now: nat)
    requires role == ROLE_ADMIN || role == ROLE_WRITER
    requires Leads(c, s, cmds, i, founder, role, key, steps, now) && steps != []
    ensures var n := |steps| - 1;
            && steps[n] < now && steps[n] < |cmds| && cmds[steps[n]].AccessControl?
            && Leads(c, s, cmds, i, founder, ROLE_ADMIN, cmds[steps[n]].access.sigkey, steps[..n], steps[n])
  {
  }

  predicate Increasing(steps: seq<nat>, bound: nat) {
    && (forall p, q :: 0 <= p < q < |steps| ==> steps[p] < steps[q])
    && forall p :: 0 <= p < |steps| ==> steps[p] < bound
  }

  lemma IncreasingExtend(steps: seq<nat>, bound: nat)
    requires steps != [] && Increasing(steps[..|steps| - 1], steps[|steps| - 1]) && steps[|steps| - 1] < bound
    ensures Increasing(steps, bound)
  {
    var n := |steps| - 1;
    assert forall p :: 0 <= p < n ==> steps[..n][p] == steps[p];
  }

  /** The times of the grants increase along the way. */
  lemma {:induction false} LeadsInOrder(c: Crypto, s: State, cmds: seq<Command>, i: nat, founder: KeyText,
      role: uint32, key: KeyText, steps: seq<nat>, now: nat)
    requires role == ROLE_ADMIN || role == ROLE_WRITER
    requires Leads(c, s, cmds, i, founder, role, key, steps, now)
    ensures Increasing(steps, now)
    decreases |steps|
  {
    if steps != [] {
      var n := |steps| - 1;
      LastStep(c, s, cmds, i, founder, role, key, steps, now);
      LeadsInOrder(c, s, cmds, i, founder, ROLE_ADMIN, cmds[steps[n]].access.sigkey, steps[..n], steps[n]);
      IncreasingExtend(steps, now);
    }
  }

  // ---------------------------------------------------------------- where roles come from

  lemma NewInLists(r: Repo, m: AccessMessage, o: AccessCalls, role: uint32, key: KeyText)
    requires role == ROLE_ADMIN || role == ROLE_WRITER
    requires key !in Holders(r, role) && key in Holders(WithKeys(r, AccessChange(r, m, o)), role)
    ensures m.op == OP_ADD && m.role == role && m.pubkey == key
  {
    RemoveFirstMembers(r.admins, m.pubkey);
    RemoveFirstMembers(r.writers, m.pubkey);
  }

  /** A key that a command brings into a list was granted this role by the command. */
  lemma NewHolder(c: Crypto, r: Repo, slot: Option<KeyPair>, m: AccessMessage, o: AccessCalls, role: uint32,
      key: KeyText)
    requires role == ROLE_ADMIN || role == ROLE_WRITER
    requires key !in Holders(r, role) && key in Holders(AccessStep(c, r, slot, m, o).repo, role)
    ensures m.op == OP_ADD && m.role == role && m.pubkey == key
    ensures m.sigkey in r.admins && AccessSigned(c, m)
  {
    NewInLists(r, m, o, role, key);
  }

  /** The effect of one step on repository `i`. */
  lemma StepOn(c: Crypto, s: State, cmd: Command, i: nat)
    requires i < |s.repos|
    ensures var s' := Step(c, s, cmd).0;
            && i < |s'.repos| && s'.repos[i].founder == s.repos[i].founder
            && (s'.repos[i].admins != s.repos[i].admins || s'.repos[i].writers != s.repos[i].writers ==>
                  && cmd.AccessControl? && cmd.access.repId == i
                  && s'.repos[i] == AccessStep(c, s.repos[i], s.slot, cmd.access, cmd.accessCalls).repo)
  {
  }

  /** A step that gives a key a role in an existing repository is a grant. */
  lemma {:induction false} StepGrants(c: Crypto, s: State, cmd: Command, i: nat, role: uint32, key: KeyText)
    requires role == ROLE_ADMIN || role == ROLE_WRITER
    requires i < |s.repos| && key !in Holders(s.repos[i], role)
    requires i < |Step(c, s, cmd).0.repos| && key in Holders(Step(c, s, cmd).0.repos[i], role)
    ensures Gives(c, s, cmd, i, role, key)
  {
    StepOn(c, s, cmd, i);
    NewHolder(c, s.repos[i], s.slot, cmd.access, cmd.accessCalls, role, key);
  }

  /** A repository starts with its founder alone. */
  lemma FounderOnly(c: Crypto, s: State, cmd: Command, i: nat, role: uint32, key: KeyText)
    requires role == ROLE_ADMIN || role == ROLE_WRITER
    requires |s.repos| <= i < |Step(c, s, cmd).0.repos| && key in Holders(Step(c, s, cmd).0.repos[i], role)
    ensures role == ROLE_ADMIN && key == Step(c, s, cmd).0.repos[i].founder
  {
  }

  /** A founder's lineage starts when the repository does. */
  lemma FounderLeads(c: Crypto, s: State, cmds: seq<Command>, i: nat, founder: KeyText, n: nat)
    requires n < |cmds| && |Run(c, s, cmds[..n]).repos| <= i < |Run(c, s, cmds[..n + 1]).repos|
    requires founder in Run(c, s, cmds[..n + 1]).repos[i].admins
    ensures Leads(c, s, cmds, i, founder, ROLE_ADMIN, founder, [], n + 1)
  {
    forall u | 0 <= u <= n ensures |Run(c, s, cmds[..u]).repos| <= i {
      NotYet(c, s, cmds, i, u, n);
    }
  }

  lemma NotYet(c: Crypto, s: State, cmds: seq<Command>, i: nat, u: nat, n: nat)
    requires u <= n <= |cmds| && |Run(c, s, cmds[..n]).repos| <= i
    ensures |Run(c, s, cmds[..u]).repos| <= i
  {
    assert cmds[..u] + cmds[u..n] == cmds[..n];
    RunAppend(c, s, cmds[..u], cmds[u..n]);
    if i < |Run(c, s, cmds[..u]).repos| {
      ChainsOnlyGrow(c, Run(c, s, cmds[..u]), cmds[u..n], i);
    }
  }

  /** What a step does to the holders of a role: it keeps them, or it is a grant. */
  lemma HolderStep(c: Crypto, s: State, cmds: seq<Command>, n: nat, i: nat, role: uint32, key: KeyText)
    requires role == ROLE_ADMIN || role == ROLE_WRITER
    requires n < |cmds| && i < |Run(c, s, cmds[..n]).repos| && i < |Run(c, s, cmds[..n + 1]).repos|
    requires key in Holders(Run(c, s, cmds[..n + 1]).repos[i], role)
    ensures Run(c, s, cmds[..n + 1]).repos[i].founder == Run(c, s, cmds[..n]).repos[i].founder
    ensures Keeps(c, s, cmds, i, role, key, n + 1, n + 1)
    ensures key !in Holders(Run(c, s, cmds[..n]).repos[i], role) ==>
              && Grants(c, s, cmds, n, i, role, key)
              && cmds[n].access.sigkey in Run(c, s, cmds[..n]).repos[i].admins
  {
    var before := Run(c, s, cmds[..n]);
    assert cmds[..n + 1] == cmds[..n] + [cmds[n]];
    RunExtend(c, s, cmds[..n], cmds[n]);
    StepOn(c, before, cmds[n], i);
    if key !in Holders(before.repos[i], role) {
      StepGrants(c, before, cmds[n], i, role, key);
    }
  }

  lemma FirstStep(c: Crypto, s: State, cmds: seq<Command>, n: nat, i: nat, role: uint32, key: KeyText)
    requires role == ROLE_ADMIN || role == ROLE_WRITER
    requires n < |cmds| && |Run(c, s, cmds[..n]).repos| <= i < |Run(c, s, cmds[..n + 1]).repos|
    requires key in Holders(Run(c, s, cmds[..n + 1]).repos[i], role)
    ensures role == ROLE_ADMIN && key == Run(c, s, cmds[..n + 1]).repos[i].founder
    ensures Leads(c, s, cmds, i, key, ROLE_ADMIN, key, [], n + 1)
  {
    assert cmds[..n + 1] == cmds[..n] + [cmds[n]];
    RunExtend(c, s, cmds[..n], cmds[n]);
    FounderOnly(c, Run(c, s, cmds[..n]), cmds[n], i, role, key);
    FounderLeads(c, s, cmds, i, key, n);
  }

  /**
   * Authority has a lineage: in any run, whatever fails on the way, each key that holds a role in a
   * repository after `now` steps can be traced back to the founder. Its role was given to it by a command
   * that an administrator of that moment signed, this administrator was made one in the same way, and so
   * on; and from its own step until it signed the next, each held its role without interruption.
   */
  lemma {:induction false} EveryRoleHasLineage(c: Crypto, slot: Option<KeyPair>, cmds: seq<Command>, now: nat,
      i: nat, role: uint32, key: KeyText)
    returns (steps: seq<nat>)
    requires role == ROLE_ADMIN || role == ROLE_WRITER
    requires now <= |cmds|
    requires i < |Run(c, Start(slot), cmds[..now]).repos|
    requires key in Holders(Run(c, Start(slot), cmds[..now]).repos[i], role)
    ensures Leads(c, Start(slot), cmds, i, Run(c, Start(slot), cmds[..now]).repos[i].founder, role, key, steps, now)
    decreases now
  {
    var s, n := Start(slot), now - 1;
    assert cmds[..0] == [];
    steps := [];
    if now == 0 {
      // no repository yet
    } else if i < |Run(c, s, cmds[..n]).repos| {
      var before := Run(c, s, cmds[..n]).repos[i];
      HolderStep(c, s, cmds, n, i, role, key);
      if key in Holders(before, role) {
        steps := EveryRoleHasLineage(c, slot, cmds, n, i, role, key);
        LeadsLater(c, s, cmds, i, before.founder, role, key, steps, n);
      } else {
        var signer := cmds[n].access.sigkey;
        var first := EveryRoleHasLineage(c, slot, cmds, n, i, ROLE_ADMIN, signer);
        steps := first + [n];
        LeadsExtend(c, s, cmds, i, before.founder, signer, first, n, role, key);
      }
    } else {
      FirstStep(c, s, cmds, n, i, role, key);
    }
  }

  // ---------------------------------------------------------------- no administrators

  /** The blocks added to a chain are contributions of these writers. */
  ghost predicate OnlyContributions(chain: seq<Block>, chain': seq<Block>, writers: seq<KeyText>) {
    && chain <= chain'
    && forall k :: |chain| <= k < |chain'| ==> chain'[k].Contribution? && chain'[k].base.sigkey in writers
  }

  lemma CommitWithoutAdmins(c: Crypto, r: Repo, slot: Option<KeyPair>, m: CommitMessage, e: CipherText,
      o: CommitCalls)
    requires r.admins == []
    ensures var r' := CommitStep(c, r, slot, m, e, o).repo;
            && r'.admins == [] && r'.writers == r.writers
            && OnlyContributions(r.chain, r'.chain, r.writers)
            && (r.writers == [] ==> r' == r)
  {
  }

  lemma StepWithoutAdmins(c: Crypto, s: State, cmd: Command, i: nat)
    requires i < |s.repos| && s.repos[i].admins == []
    ensures var (s', reply) := Step(c, s, cmd);
            && i < |s'.repos| && s'.repos[i].admins == [] && s'.repos[i].writers == s.repos[i].writers
            && OnlyContributions(s.repos[i].chain, s'.repos[i].chain, s.repos[i].writers)
            && (s.repos[i].writers == [] ==> s'.repos[i] == s.repos[i])
            && (cmd.AccessControl? && cmd.access.repId == i ==> reply.Failed?)
  {
    if cmd.Commit? && cmd.commit.repId == i {
      CommitWithoutAdmins(c, s.repos[i], s.slot, cmd.commit, cmd.encryptedKey, cmd.commitCalls);
    }
  }

  /**
   * Without administrators a repository is frozen: in every continuation its lists stay as they are, no
   * `access_control` on it succeeds, and its chain grows by contributions of the remaining writers only.
   * Without writers too, nothing about it ever changes.
   */
  lemma {:induction false} NoAdminsIsForever(c: Crypto, s: State, cmds: seq<Command>, i: nat)
    requires i < |s.repos| && s.repos[i].admins == []
    ensures var s' := Run(c, s, cmds);
            && i < |s'.repos| && s'.repos[i].admins == [] && s'.repos[i].writers == s.repos[i].writers
            && OnlyContributions(s.repos[i].chain, s'.repos[i].chain, s.repos[i].writers)
            && (s.repos[i].writers == [] ==> s'.repos[i] == s.repos[i])
    ensures forall t :: 0 <= t < |cmds| && cmds[t].AccessControl? && cmds[t].access.repId == i ==>
              Replies(c, s, cmds)[t].Failed?
  {
    if cmds != [] {
      var n := |cmds| - 1;
      var before := cmds[..n];
      assert cmds == before + [cmds[n]];
      NoAdminsIsForever(c, s, before, i);
      StepWithoutAdmins(c, Run(c, s, before), cmds[n], i);
      RunExtend(c, s, before, cmds[n]);
      RepliesExtend(c, s, before, cmds[n]);
    }
  }
}
