/**
 The promises of the token refresher and the proxy, for every state of every run.
 */
module RefresherRuns {
  import opened Text
  import opened TokenRefresher
  import opened RefresherSafety

  // ----- Flags and the lock -----

  /** A flag is up exactly while a goroutine is between raising and lowering it, and never two of them are: there is
      at most one refresh and at most one authorization under way, and no flag is left behind. */
  lemma FlagMeansOneAtWork(states: seq<State>, actions: seq<Action>, i: nat, op: Op)
    requires IsRun(states, actions) && i < |states|
    ensures states[i].shared.Flag(op) <==> exists id :: 0 <= id < |states[i].gs| && InPhase(op, states[i].gs[id].pc)
    ensures forall j, k :: 0 <= j < k < |states[i].gs| ==> !(InPhase(op, states[i].gs[j].pc) && InPhase(op, states[i].gs[k].pc))
  {
    var s := states[i];
    InvariantThroughout(states, actions, i);
    assert Count(Phase(op), s.gs) == One(s.shared.Flag(op));
    if s.shared.Flag(op) {
      var id := CountedSomewhere(Phase(op), s.gs);
      assert InPhase(op, s.gs[id].pc);
    } else if id :| 0 <= id < |s.gs| && InPhase(op, s.gs[id].pc) {
      CountUpdated(Phase(op), s.gs, id, s.gs[id]);
    }
    forall j, k | 0 <= j < k < |s.gs|
      ensures !(InPhase(op, s.gs[j].pc) && InPhase(op, s.gs[k].pc))
    {
      if InPhase(op, s.gs[j].pc) && InPhase(op, s.gs[k].pc) {
        CountsBoth(Phase(op), s.gs, j, k);
      }
    }
  }

  /** The lock is held exactly by the goroutine that is at a point where it holds it. No lock is given back that is not
      held, and outside of those points a goroutine has given it back exactly as often as it has taken it. */
  lemma LockIsReleasedOnce(states: seq<State>, actions: seq<Action>, i: nat)
    requires IsRun(states, actions) && i < |states|
    ensures !states[i].shared.fault
    ensures states[i].shared.lock.Some? ==> states[i].shared.lock.value < |states[i].gs|
    ensures forall id :: 0 <= id < |states[i].gs| ==>
      var g := states[i].gs[id];
      (states[i].shared.lock == Some(id) <==> Holds(g.pc)) && g.locks == g.unlocks + One(Holds(g.pc))
  {
    InvariantThroughout(states, actions, i);
    forall id | 0 <= id < |states[i].gs|
      ensures Locking(id, states[i].shared, states[i].gs[id])
    {
      assert Local(id, states[i].shared, states[i].gs[id]);
    }
  }

  /** Who holds the lock can always go on, and who keeps a flag up is held up by nothing but the lock. */
  lemma HolderIsNeverBlocked(s: Shared, pc: Pc, choice: Choice)
    requires Holds(pc) || (s.lock == None && (InPhase(Refresh, pc) || InPhase(Reauthorize, pc)))
    ensures StepOf(s, pc, choice).Some?
  {
  }

  // ----- Tokens -----

  /** While the lock is free, the profile holds what was recorded last, as a whole. */
  lemma ProfileIsWhole(states: seq<State>, actions: seq<Action>, i: nat)
    requires IsRun(states, actions) && i < |states| && states[i].shared.lock == None
    ensures var s := states[i].shared; s.issues != [] && ProfileIs(s.profile, s.issues[|s.issues| - 1])
  {
    InvariantThroughout(states, actions, i);
  }

  /** Everything in the history was in the profile. */
  lemma {:induction false} IssueWasStored(states: seq<State>, actions: seq<Action>, i: nat, k: nat) returns (j: nat)
    requires IsRun(states, actions) && i < |states| && k < |states[i].shared.issues|
    ensures j <= i && ProfileIs(states[j].shared.profile, states[i].shared.issues[k])
  {
    if i == 0 {
      return 0;
    }
    assert Next(states[i - 1], actions[i - 1]) == Some(states[i - 1 + 1]);
    var before := states[i - 1].shared.issues;
    StepAddsAtMostOne(states[i - 1], actions[i - 1]);
    if k < |before| {
      j := IssueWasStored(states, actions, i - 1, k);
    } else {
      j := i;
    }
  }

  lemma StepAddsAtMostOne(s: State, action: Action)
    requires Next(s, action).Some?
    ensures var t := Next(s, action).value.shared;
      t.issues == s.shared.issues ||
      (|t.issues| == |s.shared.issues| + 1 && s.shared.issues <= t.issues && ProfileIs(t.profile, t.issues[|s.shared.issues|]))
  {
    if action.Run? {
      ApplyChanges(action.id, s.shared, StepOf(s.shared, s.gs[action.id].pc, action.choice).value.effect);
    }
  }

  /** At some earlier state the profile held this token with this expiry. */
  ghost predicate WasStored(states: seq<State>, i: nat, info: TokenInfo)
    requires i < |states|
  {
    exists j :: 0 <= j <= i && states[j].shared.profile.Info() == info
  }

  ghost predicate TokenWasStored(states: seq<State>, i: nat, token: string)
    requires i < |states|
  {
    exists j :: 0 <= j <= i && states[j].shared.profile.access == token
  }

  lemma IssuedWasStored(states: seq<State>, actions: seq<Action>, i: nat, info: TokenInfo)
    requires IsRun(states, actions) && i < |states| && IsIssued(states[i].shared.issues, info)
    ensures WasStored(states, i, info)
  {
    var k :| 0 <= k < |states[i].shared.issues| && states[i].shared.issues[k].Info() == info;
    var j := IssueWasStored(states, actions, i, k);
    assert states[j].shared.profile.Info() == info;
  }

  lemma IssuedTokenWasStored(states: seq<State>, actions: seq<Action>, i: nat, token: string)
    requires IsRun(states, actions) && i < |states| && IsIssuedToken(states[i].shared.issues, token)
    ensures TokenWasStored(states, i, token)
  {
    var k :| 0 <= k < |states[i].shared.issues| && states[i].shared.issues[k].access == token;
    var j := IssueWasStored(states, actions, i, k);
  }

  /** Every token in the channel, taken from it or about to be put into it was stored in the profile, with the expiry that
      it carries; every token that is sent upstream was stored. */
  lemma TokensWereStored(states: seq<State>, actions: seq<Action>, i: nat)
    requires IsRun(states, actions) && i < |states|
    ensures states[i].shared.channel.Some? ==> WasStored(states, i, states[i].shared.channel.value)
    ensures forall id :: 0 <= id < |states[i].gs| ==>
      && (InfoOf(states[i].gs[id].pc).Some? ==> WasStored(states, i, InfoOf(states[i].gs[id].pc).value))
      && (SendTokenOf(states[i].gs[id].pc).Some? ==> TokenWasStored(states, i, SendTokenOf(states[i].gs[id].pc).value))
  {
    InvariantThroughout(states, actions, i);
    var s := states[i].shared;
    if s.channel.Some? {
      IssuedWasStored(states, actions, i, s.channel.value);
    }
    forall id | 0 <= id < |states[i].gs|
      ensures InfoOf(states[i].gs[id].pc).Some? ==> WasStored(states, i, InfoOf(states[i].gs[id].pc).value)
      ensures SendTokenOf(states[i].gs[id].pc).Some? ==> TokenWasStored(states, i, SendTokenOf(states[i].gs[id].pc).value)
    {
      var pc := states[i].gs[id].pc;
      assert Local(id, s, states[i].gs[id]);
      if InfoOf(pc).Some? {
        IssuedWasStored(states, actions, i, InfoOf(pc).value);
      }
      if SendTokenOf(pc).Some? {
        IssuedTokenWasStored(states, actions, i, SendTokenOf(pc).value);
      }
    }
  }

  // ----- Where issues come from -----

  ghost predicate IsAt(s: State, id: nat, op: Op, call: CallPc) {
    id < |s.gs| && s.gs[id].pc.InCall? && s.gs[id].pc.op == op && s.gs[id].pc.call == call
  }

  /** In action j the OAuth server grants this to the goroutine, which has asked for it. */
  ghost predicate IsAnswer(
    states: seq<State>, actions: seq<Action>, j: nat, id: nat, op: Op, access: string, refresh: string, expires: int)
    requires j < |actions| && j < |states|
  {
    && actions[j] == Run(id, Granted(access, refresh, expires))
    && exists attempt :: IsAt(states[j], id, op, Calling(attempt))
  }

  ghost predicate WasGranted(
    states: seq<State>, actions: seq<Action>, n: nat, id: nat, op: Op, access: string, refresh: string, expires: int)
    requires n <= |actions| && n < |states|
  {
    exists j :: 0 <= j < n && IsAnswer(states, actions, j, id, op, access, refresh, expires)
  }

  /** In action m the goroutine begins to store what it was granted: a refresh counts the expiry from then, an
      authorization takes it as it is. */
  ghost predicate IsTakenOver(
    states: seq<State>, actions: seq<Action>, m: nat, id: nat, op: Op, issue: Issue, expires: int)
    requires m < |actions| && m < |states|
  {
    && actions[m].Run? && actions[m].id == id
    && IsAt(states[m], id, op, Storing(issue.access, issue.refresh, expires))
    && issue.accessExpire == if op == Refresh then states[m].shared.now + expires else expires
  }

  /** Both tokens of the issue were granted together, and its expiry is the granted one, as the operation counts it. */
  ghost predicate IsGranted(states: seq<State>, actions: seq<Action>, n: nat, id: nat, op: Op, issue: Issue)
    requires n <= |actions| && n < |states|
  {
    exists m, expires ::
      && 0 <= m < n && IsTakenOver(states, actions, m, id, op, issue, expires)
      && WasGranted(states, actions, m, id, op, issue.access, issue.refresh, expires)
  }

  ghost predicate IsGrantedToSome(states: seq<State>, actions: seq<Action>, n: nat, issue: Issue)
    requires n <= |actions| && n < |states|
  {
    exists id, op :: IsGranted(states, actions, n, id, op, issue)
  }

  /** What is about to be written was granted to this goroutine, for this operation. */
  ghost predicate PcIsGranted(states: seq<State>, actions: seq<Action>, n: nat, id: nat, pc: Pc)
    requires n <= |actions| && n < |states|
  {
    pc.InCall? ==>
      && (pc.call.Storing? ==>
            WasGranted(states, actions, n, id, pc.op, pc.call.access, pc.call.refresh, pc.call.expires))
      && (pc.call.Writing? ==> IsGranted(states, actions, n, id, pc.op, pc.call.issue))
  }

  /** A step stores what it was granted, as its operation counts the expiry, and records what it has written. */
  predicate GrantFits(s: Shared, pc: Pc, choice: Choice, step: Step) {
    && (step.next.InCall? && step.next.call.Storing? ==>
          && pc.InCall? && pc.op == step.next.op && pc.call.Calling?
          && choice == Granted(step.next.call.access, step.next.call.refresh, step.next.call.expires))
    && (step.next.InCall? && step.next.call.Writing? ==>
          && pc.InCall? && pc.op == step.next.op
          && var issue := step.next.call.issue;
             if pc.call.Writing? then issue == pc.call.issue
             else
               && pc.call.Storing? && issue.access == pc.call.access && issue.refresh == pc.call.refresh
               && issue.accessExpire == if pc.op == Refresh then s.now + pc.call.expires else pc.call.expires)
    && (step.effect.WriteAccessExpire? ==>
          pc.InCall? && pc.call.Writing? && pc.call.written == 2 && step.effect.expire == pc.call.issue.accessExpire)
  }

  lemma StoreStepFitsGrant(s: Shared, c: Caller, op: Op, pc: CallPc, choice: Choice)
    requires StoreStep(s, c, op, pc, choice).Some?
    ensures GrantFits(s, InCall(c, op, pc), choice, StoreStep(s, c, op, pc, choice).value)
  {
  }

  lemma CallStepFitsGrant(s: Shared, c: Caller, op: Op, pc: CallPc, choice: Choice)
    requires CallStep(s, c, op, pc, choice).Some?
    ensures GrantFits(s, InCall(c, op, pc), choice, CallStep(s, c, op, pc, choice).value)
  {
    if StoreStep(s, c, op, pc, choice).Some? {
      StoreStepFitsGrant(s, c, op, pc, choice);
    }
  }

  lemma StepFitsGrant(s: Shared, pc: Pc, choice: Choice)
    requires StepOf(s, pc, choice).Some?
    ensures GrantFits(s, pc, choice, StepOf(s, pc, choice).value)
  {
    if pc.InCall? {
      CallStepFitsGrant(s, pc.caller, pc.op, pc.call, choice);
    }
  }

  lemma IssueGrantStays(states: seq<State>, actions: seq<Action>, n: nat, id: nat, op: Op, issue: Issue)
    requires n + 1 <= |actions| && n + 1 < |states| && IsGranted(states, actions, n, id, op, issue)
    ensures IsGranted(states, actions, n + 1, id, op, issue)
  {
  }

  lemma GrantsStay(states: seq<State>, actions: seq<Action>, n: nat, id: nat, pc: Pc)
    requires n + 1 <= |actions| && n + 1 < |states| && PcIsGranted(states, actions, n, id, pc)
    ensures PcIsGranted(states, actions, n + 1, id, pc)
  {
    if pc.InCall? && pc.call.Writing? {
      IssueGrantStays(states, actions, n, id, pc.op, pc.call.issue);
    }
  }

  ghost predicate AllGranted(states: seq<State>, actions: seq<Action>, n: nat)
    requires n <= |actions| && n < |states|
  {
    && (forall id :: 0 <= id < |states[n].gs| ==> PcIsGranted(states, actions, n, id, states[n].gs[id].pc))
    && (forall k :: 1 <= k < |states[n].shared.issues| ==>
          IsGrantedToSome(states, actions, n, states[n].shared.issues[k]))
  }

  lemma OwnGrantKept(states: seq<State>, actions: seq<Action>, n: nat, id: nat, step: Step)
    requires n + 1 <= |actions| && n + 1 < |states| && id < |states[n].gs|
    requires PcIsGranted(states, actions, n, id, states[n].gs[id].pc)
    requires actions[n].Run? && actions[n].id == id
    requires GrantFits(states[n].shared, states[n].gs[id].pc, actions[n].choice, step)
    ensures PcIsGranted(states, actions, n + 1, id, step.next)
  {
    var pc := states[n].gs[id].pc;
    if step.next.InCall? && step.next.call.Storing? {
      var next := step.next.call;
      assert IsAt(states[n], id, pc.op, Calling(pc.call.attempt));
      assert IsAnswer(states, actions, n, id, pc.op, next.access, next.refresh, next.expires);
    } else if step.next.InCall? && step.next.call.Writing? {
      var issue := step.next.call.issue;
      if pc.call.Writing? {
        IssueGrantStays(states, actions, n, id, pc.op, issue);
      } else {
        assert IsTakenOver(states, actions, n, id, pc.op, issue, pc.call.expires);
      }
    }
  }

  lemma PcGrantsFollow(states: seq<State>, actions: seq<Action>, n: nat, id: nat)
    requires n < |actions| && n + 1 < |states| && AllGranted(states, actions, n)
    requires Next(states[n], actions[n]) == Some(states[n + 1]) && id < |states[n + 1].gs|
    ensures PcIsGranted(states, actions, n + 1, id, states[n + 1].gs[id].pc)
  {
    var pc, action := states[n].gs[id].pc, actions[n];
    if action.Run? && action.id == id {
      StepFitsGrant(states[n].shared, pc, action.choice);
      OwnGrantKept(states, actions, n, id, StepOf(states[n].shared, pc, action.choice).value);
    } else {
      GrantsStay(states, actions, n, id, pc);
    }
  }

  /** What a step adds to the history is what its goroutine was about to write. */
  lemma AddedIssueIsWritten(s: State, id: nat, choice: Choice, k: nat)
    requires Invariant(s) && Next(s, Run(id, choice)).Some?
    requires |s.shared.issues| <= k < |Next(s, Run(id, choice)).value.shared.issues|
    ensures s.gs[id].pc.InCall? && s.gs[id].pc.call.Writing?
    ensures Next(s, Run(id, choice)).value.shared.issues[k] == s.gs[id].pc.call.issue
  {
    var pc := s.gs[id].pc;
    var step := StepOf(s.shared, pc, choice).value;
    StepFitsGrant(s.shared, pc, choice);
    ApplyChanges(id, s.shared, step.effect);
    assert Locking(id, s.shared, s.gs[id]) by {
      assert Local(id, s.shared, s.gs[id]);
    }
  }

  lemma IssueGrantsFollow(states: seq<State>, actions: seq<Action>, n: nat, k: nat)
    requires n < |actions| && n + 1 < |states| && AllGranted(states, actions, n) && Invariant(states[n])
    requires Next(states[n], actions[n]) == Some(states[n + 1]) && 1 <= k < |states[n + 1].shared.issues|
    ensures IsGrantedToSome(states, actions, n + 1, states[n + 1].shared.issues[k])
  {
    var action := actions[n];
    StepAddsAtMostOne(states[n], action);
    if k < |states[n].shared.issues| {
      var issue := states[n].shared.issues[k];
      assert IsGrantedToSome(states, actions, n, issue);
      var id, op :| IsGranted(states, actions, n, id, op, issue);
      IssueGrantStays(states, actions, n, id, op, issue);
    } else {
      AddedIssueIsWritten(states[n], action.id, action.choice, k);
      var pc := states[n].gs[action.id].pc;
      assert PcIsGranted(states, actions, n, action.id, pc);
      IssueGrantStays(states, actions, n, action.id, pc.op, pc.call.issue);
    }
  }

  /** The profile's access token, refresh token and expiry come from one answer of the OAuth server: that holds of
      everything that was ever recorded, except what was there at the start. */
  lemma {:induction false} IssuesAreGranted(states: seq<State>, actions: seq<Action>, n: nat)
    requires IsRun(states, actions) && n < |states|
    ensures AllGranted(states, actions, n)
  {
    if n > 0 {
      assert Next(states[n - 1], actions[n - 1]) == Some(states[n - 1 + 1]);
      IssuesAreGranted(states, actions, n - 1);
      InvariantThroughout(states, actions, n - 1);
      forall id | 0 <= id < |states[n].gs|
        ensures PcIsGranted(states, actions, n, id, states[n].gs[id].pc)
      {
        PcGrantsFollow(states, actions, n - 1, id);
      }
      forall k | 1 <= k < |states[n].shared.issues|
        ensures IsGrantedToSome(states, actions, n, states[n].shared.issues[k])
      {
        IssueGrantsFollow(states, actions, n - 1, k);
      }
    }
  }

  // ----- Counters -----

  /** Every request that is counted in the total is counted as a success, as an error, as turned away, or is not tallied
      yet; and the active ones are those between their two updates of that counter. */
  lemma TotalsAddUp(states: seq<State>, actions: seq<Action>, i: nat)
    requires IsRun(states, actions) && i < |states|
    ensures var stats := states[i].shared.stats;
      && stats.total == stats.success + stats.errors + stats.filtered + Count(Untallied, states[i].gs)
      && stats.active == Count(IsActive, states[i].gs)
  {
    InvariantThroughout(states, actions, i);
  }

  /** Once no request is under way, every one is accounted for, and none is active. */
  lemma TotalsSettle(states: seq<State>, actions: seq<Action>, i: nat)
    requires IsRun(states, actions) && i < |states|
    requires forall id :: 0 <= id < |states[i].gs| ==> !Untallied(states[i].gs[id].pc) && !IsActive(states[i].gs[id].pc)
    ensures var stats := states[i].shared.stats; stats.total == stats.success + stats.errors + stats.filtered && stats.active == 0
  {
    TotalsAddUp(states, actions, i);
    CountIsZero(Untallied, states[i].gs);
    CountIsZero(IsActive, states[i].gs);
  }

  /** A request is sent upstream at most twice, the second time only after the status 401, and tallied at most once, as a
      success exactly if its last answer is below 400. A finished one is tallied unless it was turned away. */
  lemma RequestIsTalliedOnce(states: seq<State>, actions: seq<Action>, i: nat, id: nat)
    requires IsRun(states, actions) && i < |states| && id < |states[i].gs|
    ensures var g := states[i].gs[id];
      && IsRetriedOnce(g.answers)
      && (g.tallies == [] || g.tallies == [IsGood(g.answers)])
      && (g.pc == InRequest(Finished) ==> (g.tallies == [] <==> g.turnedAway))
  {
    InvariantThroughout(states, actions, i);
    assert Local(id, states[i].shared, states[i].gs[id]);
  }

  // ----- Validity -----

  /** A token is put back into the channel, and used without a refresh, only after the goroutine has checked it and found
      it valid; nothing happened to the goroutine since. */
  lemma {:induction false} UsedTokenWasValid(states: seq<State>, actions: seq<Action>, i: nat, id: nat) returns (j: nat)
    requires IsRun(states, actions) && i < |states| && id < |states[i].gs|
    requires states[i].gs[id].pc.InToken? && states[i].gs[id].pc.taking.PuttingBack?
    ensures j < i && actions[j].Run? && actions[j].id == id && id < |states[j].gs|
    ensures
      var pc := states[i].gs[id].pc;
      && states[j].gs[id].pc == InToken(pc.second, CheckingToken(pc.taking.info))
      && pc.taking.info.expiresAt > states[j].shared.now
      && forall k :: j < k <= i ==> id < |states[k].gs| && states[k].gs[id].pc == pc
  {
    if i > 0 {
      assert Next(states[i - 1], actions[i - 1]) == Some(states[i - 1 + 1]);
      if actions[i - 1].Run? && actions[i - 1].id == id {
        j := i - 1;
        OnlyValidIsUsed(states[j].shared, states[j].gs[id].pc, actions[j].choice);
      } else {
        j := UsedTokenWasValid(states, actions, i - 1, id);
      }
    }
  }

  lemma OnlyValidIsUsed(s: Shared, pc: Pc, choice: Choice)
    requires StepOf(s, pc, choice).Some?
    ensures var next := StepOf(s, pc, choice).value.next;
      next.InToken? && next.taking.PuttingBack? ==>
        pc == InToken(next.second, CheckingToken(next.taking.info)) && next.taking.info.expiresAt > s.now
  {
  }
}
