/**
 What the outcome of a refresh or an authorization means: for every call that has returned, in every run, what the
 goroutine found, asked for and did in this very call.
 */
module RefresherOutcomes {
  import opened Text
  import opened TokenRefresher
  import opened RefresherSafety

  // ----- Calls and what happens in them -----

  /** A call of one goroutine that gets past the lock in action `start`. */
  datatype Call = Call(id: nat, caller: Caller, op: Op, start: nat)

  ghost predicate IsAt(s: State, id: nat, pc: Pc) {
    id < |s.gs| && s.gs[id].pc == pc
  }

  ghost predicate InCallOf(s: State, call: Call) {
    && call.id < |s.gs| && s.gs[call.id].pc.InCall?
    && s.gs[call.id].pc.caller == call.caller && s.gs[call.id].pc.op == call.op
    && !s.gs[call.id].pc.call.Entering? && !s.gs[call.id].pc.call.Entered?
  }

  /** Up to state i the goroutine has not left the call. */
  ghost predicate IsCallUntil(states: seq<State>, actions: seq<Action>, call: Call, i: nat) {
    && call.start < i < |states| == |actions| + 1
    && actions[call.start].Run? && actions[call.start].id == call.id
    && IsAt(states[call.start], call.id, InCall(call.caller, call.op, Entered))
    && forall m :: call.start < m <= i ==> InCallOf(states[m], call)
  }

  ghost predicate DidAt(states: seq<State>, actions: seq<Action>, call: Call, k: nat, at: CallPc, choice: Choice, s: Shared) {
    && k < |actions| && k < |states| && actions[k] == Run(call.id, choice) && states[k].shared == s
    && IsAt(states[k], call.id, InCall(call.caller, call.op, at))
  }

  /** Before state i, in this call, the goroutine made the step that was next at this point, in the shared state s. */
  ghost predicate Did(states: seq<State>, actions: seq<Action>, call: Call, i: nat, at: CallPc, choice: Choice, s: Shared) {
    exists k: nat :: call.start <= k < i && DidAt(states, actions, call, k, at, choice, s)
  }

  /** This was its last step before state i. */
  ghost predicate DidLast(states: seq<State>, actions: seq<Action>, call: Call, i: nat, at: CallPc, choice: Choice, s: Shared)
    requires i < |states| && call.id < |states[i].gs|
  {
    exists k: nat ::
      && call.start <= k < i && DidAt(states, actions, call, k, at, choice, s)
      && forall m :: k < m <= i && m < |states| ==> IsAt(states[m], call.id, states[i].gs[call.id].pc)
  }

  // ----- Reasons -----

  /** The OAuth server did not grant what was asked for: for good, or the third time in a row, or the only time. */
  ghost predicate HasFailed(states: seq<State>, actions: seq<Action>, call: Call, i: nat, permanent: bool) {
    exists n, choice, s ::
      && Did(states, actions, call, i, Calling(n), choice, s) && !choice.Granted?
      && (permanent <==> choice == Permanent) && (permanent || n == if call.op == Refresh then 3 else 1)
  }

  /** The expiry was read from the profile when the flag had been lowered. */
  ghost predicate HasRead(states: seq<State>, actions: seq<Action>, call: Call, i: nat, permanent: bool, expire: int) {
    exists choice, s :: Did(states, actions, call, i, Cleared(permanent), choice, s) && s.profile.accessExpire == expire
  }

  ghost predicate WasGranted(
    states: seq<State>, actions: seq<Action>, call: Call, i: nat, access: string, refresh: string, expires: int) {
    exists n, s :: Did(states, actions, call, i, Calling(n), Granted(access, refresh, expires), s)
  }

  /** The issue was granted in this call. A refresh counts its expiry from the time of storing. */
  ghost predicate HasTaken(states: seq<State>, actions: seq<Action>, call: Call, i: nat, issue: Issue) {
    exists expires, choice, s ::
      && Did(states, actions, call, i, Storing(issue.access, issue.refresh, expires), choice, s)
      && WasGranted(states, actions, call, i, issue.access, issue.refresh, expires)
      && issue.accessExpire == if call.op == Refresh then s.now + expires else expires
  }

  /** The issue is the newest in the history, once its three fields are written. */
  ghost predicate HasWritten(states: seq<State>, actions: seq<Action>, call: Call, i: nat, issue: Issue) {
    exists refreshExpire, choice, s ::
      && Did(states, actions, call, i, Writing(3, issue, refreshExpire), choice, s)
      && IsNewest(s, issue)
  }

  predicate IsNewest(s: Shared, issue: Issue) {
    s.issues != [] && s.issues[|s.issues| - 1] == issue
  }

  ghost predicate HasStored(states: seq<State>, actions: seq<Action>, call: Call, i: nat) {
    exists issue :: HasTaken(states, actions, call, i, issue) && HasWritten(states, actions, call, i, issue)
  }

  ghost predicate HasSaved(states: seq<State>, actions: seq<Action>, call: Call, i: nat) {
    exists n, choice, s :: Did(states, actions, call, i, Saving(n), choice, s) && choice != Refuse && 1 <= n <= 3
  }

  /** The disk refused the third attempt. */
  ghost predicate HasGivenUp(states: seq<State>, actions: seq<Action>, call: Call, i: nat) {
    exists s :: Did(states, actions, call, i, Saving(3), Refuse, s)
  }

  /** The token was read from the profile, as a whole, to be sent. */
  ghost predicate HasAnnounced(states: seq<State>, actions: seq<Action>, call: Call, i: nat, info: TokenInfo) {
    exists choice, s ::
      && Did(states, actions, call, i, Announcing, choice, s) && s.lock == None
      && info == TokenInfo(s.profile.access, s.profile.accessExpire)
  }

  // ----- The ways to return -----

  /** Another goroutine was at it, and what it renews was still valid. */
  ghost predicate JoinedInTime(states: seq<State>, call: Call)
    requires call.start < |states|
  {
    var s := states[call.start].shared;
    IsUp(s, call.op) && ExpiryOf(s.profile, call.op) > s.now
  }

  /** Another goroutine was at it, too late. In the last look, with the lock free, nobody was any more, and the expiry was
      beyond the one seen at first. */
  ghost predicate WaitedForOther(states: seq<State>, actions: seq<Action>, call: Call, i: nat)
    requires call.start < |states| && i < |states| && call.id < |states[i].gs|
  {
    exists seen, choice, s ::
      && DidLast(states, actions, call, i, Waiting(seen), choice, s)
      && s.lock == None && !IsUp(s, call.op) && ExpiryOf(s.profile, call.op) > seen
      && FoundUp(states[call.start].shared, call.op, seen) && seen <= states[call.start].shared.now
  }

  /** Three attempts to refresh failed, none of them for good, and the access token was still valid. */
  ghost predicate OutlivedFailure(states: seq<State>, actions: seq<Action>, call: Call, i: nat)
    requires i < |states| && call.id < |states[i].gs|
  {
    exists expire, choice, s ::
      && DidLast(states, actions, call, i, Judging(false, expire), choice, s) && expire > s.now
      && call.op == Refresh && HasFailed(states, actions, call, i, false) && HasRead(states, actions, call, i, false, expire)
  }

  /** Its own issue was stored and saved, and the token of the profile was put into the channel, which was empty. */
  ghost predicate DeliveredToken(states: seq<State>, actions: seq<Action>, call: Call, i: nat)
    requires i < |states| && call.id < |states[i].gs|
  {
    exists at, choice, s ::
      && DidLast(states, actions, call, i, at, choice, s) && (at.Offering? || at.Pushing?) && s.channel == None
      && TellsToken(states, actions, call, i, at.info)
  }

  ghost predicate TellsToken(states: seq<State>, actions: seq<Action>, call: Call, i: nat, info: TokenInfo) {
    && HasStored(states, actions, call, i) && HasSaved(states, actions, call, i)
    && HasAnnounced(states, actions, call, i, info)
  }

  ghost predicate TimedOut(states: seq<State>, actions: seq<Action>, call: Call, i: nat)
    requires call.start < |states| && i < |states| && call.id < |states[i].gs|
  {
    exists seen, s ::
      && DidLast(states, actions, call, i, Waiting(seen), Timeout, s)
      && FoundUp(states[call.start].shared, call.op, seen) && seen <= states[call.start].shared.now
  }

  /** The authorization failed. */
  ghost predicate WasDenied(states: seq<State>, actions: seq<Action>, call: Call, i: nat)
    requires i < |states| && call.id < |states[i].gs|
  {
    exists permanent, choice, s ::
      && DidLast(states, actions, call, i, Cleared(permanent), choice, s)
      && call.op == Reauthorize && HasFailed(states, actions, call, i, permanent)
  }

  /** The refresh failed for good, or with an access token that was not valid any more. */
  ghost predicate LostAccess(states: seq<State>, actions: seq<Action>, call: Call, i: nat)
    requires i < |states| && call.id < |states[i].gs|
  {
    exists permanent, expire, choice, s ::
      && DidLast(states, actions, call, i, Judging(permanent, expire), choice, s) && (permanent || expire <= s.now)
      && call.op == Refresh && HasFailed(states, actions, call, i, permanent)
      && HasRead(states, actions, call, i, permanent, expire)
  }

  /** Its own issue was stored, and could not be saved. */
  ghost predicate WasNotSaved(states: seq<State>, actions: seq<Action>, call: Call, i: nat) {
    HasStored(states, actions, call, i) && HasGivenUp(states, actions, call, i)
  }

  // ----- What a program counter tells about its call -----

  ghost predicate TellsSuccess(states: seq<State>, actions: seq<Action>, call: Call, i: nat)
    requires call.start < i < |states| && call.id < |states[i].gs|
  {
    || JoinedInTime(states, call) || WaitedForOther(states, actions, call, i)
    || OutlivedFailure(states, actions, call, i) || DeliveredToken(states, actions, call, i)
  }

  ghost predicate TellsFailure(states: seq<State>, actions: seq<Action>, call: Call, i: nat)
    requires call.start < i < |states| && call.id < |states[i].gs|
  {
    || TimedOut(states, actions, call, i) || WasDenied(states, actions, call, i)
    || LostAccess(states, actions, call, i) || WasNotSaved(states, actions, call, i)
  }

  ghost predicate Tells(states: seq<State>, actions: seq<Action>, call: Call, i: nat, at: CallPc)
    requires call.start < i < |states| && call.id < |states[i].gs|
  {
    var found := states[call.start].shared;
    match at
    case Entering => true
    case Entered => true
    case Joining(seen, valid) => FoundUp(found, call.op, seen) && (valid <==> seen > found.now)
    case Waiting(seen) => FoundUp(found, call.op, seen) && seen <= found.now
    case Started => true
    case Calling(n) => 1 <= n <= if call.op == Refresh then 3 else 1
    case Failing(permanent) => HasFailed(states, actions, call, i, permanent)
    case Clearing(permanent) => HasFailed(states, actions, call, i, permanent)
    case Cleared(permanent) => HasFailed(states, actions, call, i, permanent)
    case Judging(permanent, expire) =>
      && call.op == Refresh && HasFailed(states, actions, call, i, permanent)
      && HasRead(states, actions, call, i, permanent, expire)
    case Storing(access, refresh, expires) => WasGranted(states, actions, call, i, access, refresh, expires)
    case Writing(k, issue, _) =>
      HasTaken(states, actions, call, i, issue) && (k > 3 ==> HasWritten(states, actions, call, i, issue))
    case Saving(n) => 1 <= n <= 3 && HasStored(states, actions, call, i)
    case Saved(ok) =>
      && HasStored(states, actions, call, i)
      && if ok then HasSaved(states, actions, call, i) else HasGivenUp(states, actions, call, i)
    case Announcing => HasStored(states, actions, call, i) && HasSaved(states, actions, call, i)
    case Offering(info) => TellsToken(states, actions, call, i, info)
    case Draining(info) => TellsToken(states, actions, call, i, info)
    case Pushing(info) => TellsToken(states, actions, call, i, info)
    case Returning(ok) => if ok then TellsSuccess(states, actions, call, i) else TellsFailure(states, actions, call, i)
  }

  // ----- What was done stays done -----

  lemma StaysDone(states: seq<State>, actions: seq<Action>, call: Call, i: nat, at: CallPc, choice: Choice, s: Shared)
    requires Did(states, actions, call, i, at, choice, s)
    ensures Did(states, actions, call, i + 1, at, choice, s)
  {
  }

  lemma FailureStays(states: seq<State>, actions: seq<Action>, call: Call, i: nat, permanent: bool)
    ensures HasFailed(states, actions, call, i, permanent) ==> HasFailed(states, actions, call, i + 1, permanent)
  {
    if n, choice, s :|
      && Did(states, actions, call, i, Calling(n), choice, s) && !choice.Granted?
      && (permanent <==> choice == Permanent) && (permanent || n == if call.op == Refresh then 3 else 1) {
      StaysDone(states, actions, call, i, Calling(n), choice, s);
    }
  }

  lemma ReadingStays(states: seq<State>, actions: seq<Action>, call: Call, i: nat, permanent: bool, expire: int)
    ensures HasRead(states, actions, call, i, permanent, expire) ==> HasRead(states, actions, call, i + 1, permanent, expire)
  {
    if choice, s :| Did(states, actions, call, i, Cleared(permanent), choice, s) && s.profile.accessExpire == expire {
      StaysDone(states, actions, call, i, Cleared(permanent), choice, s);
    }
  }

  lemma GrantStays(
    states: seq<State>, actions: seq<Action>, call: Call, i: nat, access: string, refresh: string, expires: int)
    ensures WasGranted(states, actions, call, i, access, refresh, expires)
      ==> WasGranted(states, actions, call, i + 1, access, refresh, expires)
  {
    if n, s :| Did(states, actions, call, i, Calling(n), Granted(access, refresh, expires), s) {
      StaysDone(states, actions, call, i, Calling(n), Granted(access, refresh, expires), s);
    }
  }

  lemma TakingStays(states: seq<State>, actions: seq<Action>, call: Call, i: nat, issue: Issue)
    ensures HasTaken(states, actions, call, i, issue) ==> HasTaken(states, actions, call, i + 1, issue)
  {
    if expires, choice, s :|
      && Did(states, actions, call, i, Storing(issue.access, issue.refresh, expires), choice, s)
      && WasGranted(states, actions, call, i, issue.access, issue.refresh, expires)
      && issue.accessExpire == if call.op == Refresh then s.now + expires else expires {
      StaysDone(states, actions, call, i, Storing(issue.access, issue.refresh, expires), choice, s);
      GrantStays(states, actions, call, i, issue.access, issue.refresh, expires);
    }
  }

  lemma WritingStays(states: seq<State>, actions: seq<Action>, call: Call, i: nat, issue: Issue)
    ensures HasWritten(states, actions, call, i, issue) ==> HasWritten(states, actions, call, i + 1, issue)
  {
    if refreshExpire, choice, s :|
      && Did(states, actions, call, i, Writing(3, issue, refreshExpire), choice, s)
      && IsNewest(s, issue) {
      StaysDone(states, actions, call, i, Writing(3, issue, refreshExpire), choice, s);
    }
  }

  lemma StoringStays(states: seq<State>, actions: seq<Action>, call: Call, i: nat)
    ensures HasStored(states, actions, call, i) ==> HasStored(states, actions, call, i + 1)
  {
    if issue :| HasTaken(states, actions, call, i, issue) && HasWritten(states, actions, call, i, issue) {
      TakingStays(states, actions, call, i, issue);
      WritingStays(states, actions, call, i, issue);
    }
  }

  lemma SavingStays(states: seq<State>, actions: seq<Action>, call: Call, i: nat)
    ensures HasSaved(states, actions, call, i) ==> HasSaved(states, actions, call, i + 1)
    ensures HasGivenUp(states, actions, call, i) ==> HasGivenUp(states, actions, call, i + 1)
  {
    if n, choice, s :| Did(states, actions, call, i, Saving(n), choice, s) && choice != Refuse && 1 <= n <= 3 {
      StaysDone(states, actions, call, i, Saving(n), choice, s);
    }
    if s :| Did(states, actions, call, i, Saving(3), Refuse, s) {
      StaysDone(states, actions, call, i, Saving(3), Refuse, s);
    }
  }

  lemma AnnouncementStays(states: seq<State>, actions: seq<Action>, call: Call, i: nat, info: TokenInfo)
    ensures HasAnnounced(states, actions, call, i, info) ==> HasAnnounced(states, actions, call, i + 1, info)
  {
    if choice, s :|
      && Did(states, actions, call, i, Announcing, choice, s) && s.lock == None
      && info == TokenInfo(s.profile.access, s.profile.accessExpire) {
      StaysDone(states, actions, call, i, Announcing, choice, s);
    }
  }

  /** Nothing happened to the goroutine between the two states. */
  ghost predicate IsIdle(states: seq<State>, call: Call, i: nat) {
    && i + 1 < |states| && call.id < |states[i].gs| && call.id < |states[i + 1].gs|
    && states[i + 1].gs[call.id].pc == states[i].gs[call.id].pc
  }

  lemma LastStays(states: seq<State>, actions: seq<Action>, call: Call, i: nat, at: CallPc, choice: Choice, s: Shared)
    requires IsIdle(states, call, i) && DidLast(states, actions, call, i, at, choice, s)
    ensures DidLast(states, actions, call, i + 1, at, choice, s)
  {
    var k: nat :|
      && call.start <= k < i && DidAt(states, actions, call, k, at, choice, s)
      && forall m :: k < m <= i && m < |states| ==> IsAt(states[m], call.id, states[i].gs[call.id].pc);
    assert forall m :: k < m <= i + 1 ==> IsAt(states[m], call.id, states[i + 1].gs[call.id].pc);
  }

  lemma SuccessStays(states: seq<State>, actions: seq<Action>, call: Call, i: nat)
    requires call.start < i && IsIdle(states, call, i) && TellsSuccess(states, actions, call, i)
    ensures TellsSuccess(states, actions, call, i + 1)
  {
    if WaitedForOther(states, actions, call, i) {
      var seen, choice, s :|
        && DidLast(states, actions, call, i, Waiting(seen), choice, s)
        && s.lock == None && !IsUp(s, call.op) && ExpiryOf(s.profile, call.op) > seen
        && FoundUp(states[call.start].shared, call.op, seen) && seen <= states[call.start].shared.now;
      LastStays(states, actions, call, i, Waiting(seen), choice, s);
    } else if OutlivedFailure(states, actions, call, i) {
      var expire, choice, s :|
        && DidLast(states, actions, call, i, Judging(false, expire), choice, s) && expire > s.now
        && call.op == Refresh && HasFailed(states, actions, call, i, false)
        && HasRead(states, actions, call, i, false, expire);
      LastStays(states, actions, call, i, Judging(false, expire), choice, s);
      FailureStays(states, actions, call, i, false);
      ReadingStays(states, actions, call, i, false, expire);
    } else if DeliveredToken(states, actions, call, i) {
      var at, choice, s :|
        && DidLast(states, actions, call, i, at, choice, s) && (at.Offering? || at.Pushing?) && s.channel == None
        && TellsToken(states, actions, call, i, at.info);
      LastStays(states, actions, call, i, at, choice, s);
      TokenStays(states, actions, call, i, at.info);
    }
  }

  lemma LossStays(states: seq<State>, actions: seq<Action>, call: Call, i: nat)
    requires IsIdle(states, call, i)
    ensures WasDenied(states, actions, call, i) ==> WasDenied(states, actions, call, i + 1)
    ensures LostAccess(states, actions, call, i) ==> LostAccess(states, actions, call, i + 1)
  {
    if permanent, choice, s :|
      && DidLast(states, actions, call, i, Cleared(permanent), choice, s)
      && call.op == Reauthorize && HasFailed(states, actions, call, i, permanent) {
      LastStays(states, actions, call, i, Cleared(permanent), choice, s);
      FailureStays(states, actions, call, i, permanent);
    }
    if permanent, expire, choice, s :|
      && DidLast(states, actions, call, i, Judging(permanent, expire), choice, s) && (permanent || expire <= s.now)
      && call.op == Refresh && HasFailed(states, actions, call, i, permanent)
      && HasRead(states, actions, call, i, permanent, expire) {
      LastStays(states, actions, call, i, Judging(permanent, expire), choice, s);
      FailureStays(states, actions, call, i, permanent);
      ReadingStays(states, actions, call, i, permanent, expire);
    }
  }

  lemma ReturnedFailureStays(states: seq<State>, actions: seq<Action>, call: Call, i: nat)
    requires call.start < i && IsIdle(states, call, i) && TellsFailure(states, actions, call, i)
    ensures TellsFailure(states, actions, call, i + 1)
  {
    LossStays(states, actions, call, i);
    StoringStays(states, actions, call, i);
    SavingStays(states, actions, call, i);
    if seen, s :|
      && DidLast(states, actions, call, i, Waiting(seen), Timeout, s)
      && FoundUp(states[call.start].shared, call.op, seen) && seen <= states[call.start].shared.now {
      LastStays(states, actions, call, i, Waiting(seen), Timeout, s);
    }
  }

  lemma TellingStays(states: seq<State>, actions: seq<Action>, call: Call, i: nat, at: CallPc)
    requires call.start < i && IsIdle(states, call, i) && Tells(states, actions, call, i, at)
    ensures Tells(states, actions, call, i + 1, at)
  {
    StoringStays(states, actions, call, i);
    SavingStays(states, actions, call, i);
    match at
    case Failing(permanent) => FailureStays(states, actions, call, i, permanent);
    case Clearing(permanent) => FailureStays(states, actions, call, i, permanent);
    case Cleared(permanent) => FailureStays(states, actions, call, i, permanent);
    case Judging(permanent, expire) =>
      FailureStays(states, actions, call, i, permanent);
      ReadingStays(states, actions, call, i, permanent, expire);
    case Storing(access, refresh, expires) => GrantStays(states, actions, call, i, access, refresh, expires);
    case Writing(_, issue, _) =>
      TakingStays(states, actions, call, i, issue);
      WritingStays(states, actions, call, i, issue);
    case Offering(info) => TokenStays(states, actions, call, i, info);
    case Draining(info) => TokenStays(states, actions, call, i, info);
    case Pushing(info) => TokenStays(states, actions, call, i, info);
    case Returning(ok) =>
      if ok {
        SuccessStays(states, actions, call, i);
      } else {
        ReturnedFailureStays(states, actions, call, i);
      }
    case _ =>
  }

  // ----- What a step adds -----

  /** The goroutine makes a step of the call from state i on, from this point to the next. */
  ghost predicate Steps(
    states: seq<State>, actions: seq<Action>, call: Call, i: nat, at: CallPc, choice: Choice, next: CallPc) {
    && call.start < i && i + 1 < |states| && i < |actions| && actions[i] == Run(call.id, choice)
    && IsAt(states[i], call.id, InCall(call.caller, call.op, at))
    && IsAt(states[i + 1], call.id, InCall(call.caller, call.op, next))
    && LeadsTo(states[i].shared, call.op, at, choice, next)
  }

  lemma DoneNow(states: seq<State>, actions: seq<Action>, call: Call, i: nat, at: CallPc, choice: Choice, next: CallPc)
    requires Steps(states, actions, call, i, at, choice, next)
    ensures Did(states, actions, call, i + 1, at, choice, states[i].shared)
    ensures DidLast(states, actions, call, i + 1, at, choice, states[i].shared)
  {
    assert DidAt(states, actions, call, i, at, choice, states[i].shared);
  }

  lemma FailureFollows(states: seq<State>, actions: seq<Action>, call: Call, i: nat, at: CallPc, choice: Choice, next: CallPc)
    requires Steps(states, actions, call, i, at, choice, next) && Tells(states, actions, call, i, at)
    requires next.Failing? || next.Clearing? || next.Cleared? || next.Judging?
    ensures Tells(states, actions, call, i + 1, next)
  {
    DoneNow(states, actions, call, i, at, choice, next);
    FailureStays(states, actions, call, i, next.permanent);
  }

  lemma StoringFollows(states: seq<State>, actions: seq<Action>, call: Call, i: nat, at: CallPc, choice: Choice, next: CallPc)
    requires Steps(states, actions, call, i, at, choice, next) && Tells(states, actions, call, i, at)
    requires at.Writing? && at.written == 3 ==> IsNewest(states[i].shared, at.issue)
    requires next.Storing? || next.Writing? || next.Saving?
    ensures Tells(states, actions, call, i + 1, next)
  {
    DoneNow(states, actions, call, i, at, choice, next);
    match at
    case Storing(access, refresh, expires) =>
      GrantStays(states, actions, call, i, access, refresh, expires);
      assert HasTaken(states, actions, call, i + 1, next.issue);
    case Writing(k, issue, _) =>
      TakingStays(states, actions, call, i, issue);
      WritingStays(states, actions, call, i, issue);
      assert k >= 3 ==> HasWritten(states, actions, call, i + 1, issue);
    case _ =>
      StoringStays(states, actions, call, i);
  }

  lemma SavingFollows(states: seq<State>, actions: seq<Action>, call: Call, i: nat, at: CallPc, choice: Choice, ok: bool)
    requires Steps(states, actions, call, i, at, choice, Saved(ok)) && Tells(states, actions, call, i, at)
    ensures Tells(states, actions, call, i + 1, Saved(ok))
  {
    DoneNow(states, actions, call, i, at, choice, Saved(ok));
    StoringStays(states, actions, call, i);
    assert at.Saving? && 1 <= at.attempt <= 3;
    assert if ok then HasSaved(states, actions, call, i + 1) else HasGivenUp(states, actions, call, i + 1);
  }

  lemma TokenIsRead(states: seq<State>, actions: seq<Action>, call: Call, i: nat, choice: Choice, s: Shared)
    requires HasStored(states, actions, call, i) && HasSaved(states, actions, call, i)
    requires Did(states, actions, call, i + 1, Announcing, choice, s) && s.lock == None
    ensures TellsToken(states, actions, call, i + 1, TokenInfo(s.profile.access, s.profile.accessExpire))
  {
    StoringStays(states, actions, call, i);
    SavingStays(states, actions, call, i);
  }

  lemma TokenStays(states: seq<State>, actions: seq<Action>, call: Call, i: nat, info: TokenInfo)
    requires TellsToken(states, actions, call, i, info)
    ensures TellsToken(states, actions, call, i + 1, info)
  {
    StoringStays(states, actions, call, i);
    SavingStays(states, actions, call, i);
    AnnouncementStays(states, actions, call, i, info);
  }

  lemma SendingFollows(states: seq<State>, actions: seq<Action>, call: Call, i: nat, at: CallPc, choice: Choice, next: CallPc)
    requires Steps(states, actions, call, i, at, choice, next) && Tells(states, actions, call, i, at)
    requires next.Offering? || next.Draining? || next.Pushing?
    ensures TellsToken(states, actions, call, i + 1, next.info)
  {
    if at.Announcing? {
      DoneNow(states, actions, call, i, at, choice, next);
      TokenIsRead(states, actions, call, i, choice, states[i].shared);
    } else {
      TokenStays(states, actions, call, i, next.info);
    }
  }

  lemma SurvivalFollows(states: seq<State>, actions: seq<Action>, call: Call, i: nat, expire: int, choice: Choice)
    requires Steps(states, actions, call, i, Judging(false, expire), choice, Returning(true))
    requires Tells(states, actions, call, i, Judging(false, expire))
    ensures OutlivedFailure(states, actions, call, i + 1)
  {
    DoneNow(states, actions, call, i, Judging(false, expire), choice, Returning(true));
    FailureStays(states, actions, call, i, false);
    ReadingStays(states, actions, call, i, false, expire);
  }

  lemma WaitFollows(states: seq<State>, actions: seq<Action>, call: Call, i: nat, seen: int, choice: Choice)
    requires Steps(states, actions, call, i, Waiting(seen), choice, Returning(true))
    requires Tells(states, actions, call, i, Waiting(seen))
    ensures WaitedForOther(states, actions, call, i + 1)
  {
    DoneNow(states, actions, call, i, Waiting(seen), choice, Returning(true));
  }

  lemma SendEnds(states: seq<State>, actions: seq<Action>, call: Call, i: nat, at: CallPc, choice: Choice)
    requires Steps(states, actions, call, i, at, choice, Returning(true)) && (at.Offering? || at.Pushing?)
    ensures DidLast(states, actions, call, i + 1, at, choice, states[i].shared) && states[i].shared.channel == None
  {
    DoneNow(states, actions, call, i, at, choice, Returning(true));
  }

  lemma DeliveryFollows(states: seq<State>, actions: seq<Action>, call: Call, i: nat, at: CallPc, choice: Choice, s: Shared)
    requires i + 1 < |states| && call.id < |states[i + 1].gs| && DidLast(states, actions, call, i + 1, at, choice, s)
    requires (at.Offering? || at.Pushing?) && s.channel == None && TellsToken(states, actions, call, i, at.info)
    ensures DeliveredToken(states, actions, call, i + 1)
  {
    TokenStays(states, actions, call, i, at.info);
  }

  lemma SuccessFollows(states: seq<State>, actions: seq<Action>, call: Call, i: nat, at: CallPc, choice: Choice)
    requires Steps(states, actions, call, i, at, choice, Returning(true)) && Tells(states, actions, call, i, at)
    ensures TellsSuccess(states, actions, call, i + 1)
  {
    match at
    case Joining(_, _) => assert JoinedInTime(states, call);
    case Waiting(seen) => WaitFollows(states, actions, call, i, seen, choice);
    case Judging(_, expire) => SurvivalFollows(states, actions, call, i, expire, choice);
    case Offering(_) =>
      SendEnds(states, actions, call, i, at, choice);
      DeliveryFollows(states, actions, call, i, at, choice, states[i].shared);
    case Pushing(_) =>
      SendEnds(states, actions, call, i, at, choice);
      DeliveryFollows(states, actions, call, i, at, choice, states[i].shared);
  }

  lemma TimeoutFollows(states: seq<State>, actions: seq<Action>, call: Call, i: nat, seen: int, choice: Choice)
    requires Steps(states, actions, call, i, Waiting(seen), choice, Returning(false))
    requires Tells(states, actions, call, i, Waiting(seen))
    ensures TimedOut(states, actions, call, i + 1)
  {
    DoneNow(states, actions, call, i, Waiting(seen), choice, Returning(false));
  }

  lemma DenialFollows(states: seq<State>, actions: seq<Action>, call: Call, i: nat, permanent: bool, choice: Choice)
    requires Steps(states, actions, call, i, Cleared(permanent), choice, Returning(false))
    requires Tells(states, actions, call, i, Cleared(permanent))
    ensures WasDenied(states, actions, call, i + 1)
  {
    DoneNow(states, actions, call, i, Cleared(permanent), choice, Returning(false));
    FailureStays(states, actions, call, i, permanent);
  }

  lemma LossFollows(
    states: seq<State>, actions: seq<Action>, call: Call, i: nat, permanent: bool, expire: int, choice: Choice)
    requires Steps(states, actions, call, i, Judging(permanent, expire), choice, Returning(false))
    requires Tells(states, actions, call, i, Judging(permanent, expire))
    ensures LostAccess(states, actions, call, i + 1)
  {
    DoneNow(states, actions, call, i, Judging(permanent, expire), choice, Returning(false));
    FailureStays(states, actions, call, i, permanent);
    ReadingStays(states, actions, call, i, permanent, expire);
  }

  lemma UnsavedFollows(states: seq<State>, actions: seq<Action>, call: Call, i: nat)
    requires call.start < i < |states| && call.id < |states[i].gs| && Tells(states, actions, call, i, Saved(false))
    ensures WasNotSaved(states, actions, call, i + 1)
  {
    StoringStays(states, actions, call, i);
    SavingStays(states, actions, call, i);
  }

  lemma ReturnedFailureFollows(states: seq<State>, actions: seq<Action>, call: Call, i: nat, at: CallPc, choice: Choice)
    requires Steps(states, actions, call, i, at, choice, Returning(false)) && Tells(states, actions, call, i, at)
    ensures TellsFailure(states, actions, call, i + 1)
  {
    match at
    case Waiting(seen) => TimeoutFollows(states, actions, call, i, seen, choice);
    case Cleared(permanent) => DenialFollows(states, actions, call, i, permanent, choice);
    case Judging(permanent, expire) => LossFollows(states, actions, call, i, permanent, expire, choice);
    case Saved(_) => UnsavedFollows(states, actions, call, i);
  }

  lemma TellingFollows(states: seq<State>, actions: seq<Action>, call: Call, i: nat, at: CallPc, choice: Choice, next: CallPc)
    requires Steps(states, actions, call, i, at, choice, next) && Tells(states, actions, call, i, at)
    requires !at.Entering? && !at.Entered?
    requires at.Writing? && at.written == 3 ==> IsNewest(states[i].shared, at.issue)
    ensures Tells(states, actions, call, i + 1, next)
  {
    if next.Failing? || next.Clearing? || next.Cleared? || next.Judging? {
      FailureFollows(states, actions, call, i, at, choice, next);
    } else if next.Storing? || next.Writing? || next.Saving? {
      StoringFollows(states, actions, call, i, at, choice, next);
    } else if next.Saved? {
      SavingFollows(states, actions, call, i, at, choice, next.ok);
    } else if next.Announcing? {
      StoringStays(states, actions, call, i);
      SavingStays(states, actions, call, i);
    } else if next.Offering? || next.Draining? || next.Pushing? {
      SendingFollows(states, actions, call, i, at, choice, next);
    } else if next == Returning(true) {
      SuccessFollows(states, actions, call, i, at, choice);
    } else if next == Returning(false) {
      ReturnedFailureFollows(states, actions, call, i, at, choice);
    }
  }

  // ----- Runs -----

  /** The ticker is still sending the token it starts with. */
  ghost predicate IsOpening(states: seq<State>, i: nat, id: nat) {
    i < |states| && forall m :: 0 <= m <= i ==> id < |states[m].gs| && IsOpeningAt(states[m].gs[id].pc)
  }

  predicate IsOpeningAt(pc: Pc) {
    && pc.InCall? && pc.caller == Ticker && pc.op == Refresh
    && (pc.call.Announcing? || pc.call.Offering? || pc.call.Draining? || pc.call.Pushing? || pc.call == Returning(true))
  }

  /** The state before, from which one action leads here. */
  lemma ActionBefore(states: seq<State>, actions: seq<Action>, i: nat)
    requires IsRun(states, actions) && 0 < i < |states|
    ensures Next(states[i - 1], actions[i - 1]) == Some(states[i])
  {
    assert Next(states[i - 1], actions[i - 1]) == Some(states[i - 1 + 1]);
  }

  ghost predicate IsTold(states: seq<State>, actions: seq<Action>, i: nat, id: nat, start: nat)
    requires i < |states| && id < |states[i].gs| && states[i].gs[id].pc.InCall?
  {
    var pc := states[i].gs[id].pc;
    var call := Call(id, pc.caller, pc.op, start);
    IsOpening(states, i, id) || (IsCallUntil(states, actions, call, i) && Tells(states, actions, call, i, pc.call))
  }

  lemma OpeningInitially(states: seq<State>, actions: seq<Action>, id: nat)
    requires IsRun(states, actions) && id < |states[0].gs| && states[0].gs[id].pc.InCall?
    ensures IsOpening(states, 0, id)
  {
    assert IsFresh(states[0].gs[id]);
  }

  lemma IdleIsTold(states: seq<State>, actions: seq<Action>, i: nat, id: nat, start: nat)
    requires i + 1 < |states| && id < |states[i].gs| && id < |states[i + 1].gs|
    requires states[i + 1].gs[id].pc == states[i].gs[id].pc && states[i].gs[id].pc.InCall?
    requires IsTold(states, actions, i, id, start)
    ensures IsTold(states, actions, i + 1, id, start)
  {
    var pc := states[i].gs[id].pc;
    if IsOpening(states, i, id) {
      assert IsOpening(states, i + 1, id);
    } else {
      IdleTells(states, actions, Call(id, pc.caller, pc.op, start), i, pc.call);
    }
  }

  /** A goroutine within a call has got past the lock in this call, unless it is the ticker at its start; and where it is
      tells what it has found and done in this call. */
  lemma {:induction false} CallTells(states: seq<State>, actions: seq<Action>, i: nat, id: nat) returns (start: nat)
    requires IsRun(states, actions) && i < |states| && id < |states[i].gs| && states[i].gs[id].pc.InCall?
    requires !states[i].gs[id].pc.call.Entering? && !states[i].gs[id].pc.call.Entered?
    ensures IsTold(states, actions, i, id, start)
    decreases i, 1
  {
    start := 0;
    if i > 0 {
      ActionBefore(states, actions, i);
      if actions[i - 1].Run? && actions[i - 1].id == id {
        start := OwnStepTells(states, actions, i, id);
      } else {
        start := CallTells(states, actions, i - 1, id);
        OtherActionIsIdle(states[i - 1], actions[i - 1], states[i], id);
        IdleIsTold(states, actions, i - 1, id, start);
      }
    } else {
      OpeningInitially(states, actions, id);
    }
  }

  lemma OtherActionIsIdle(s: State, action: Action, t: State, id: nat)
    requires Next(s, action) == Some(t) && id < |t.gs| && !(action.Run? && action.id == id)
    ensures IsAt(s, id, t.gs[id].pc)
  {
  }

  lemma IdleTells(states: seq<State>, actions: seq<Action>, call: Call, i: nat, at: CallPc)
    requires IsCallUntil(states, actions, call, i) && IsIdle(states, call, i) && Tells(states, actions, call, i, at)
    ensures IsCallUntil(states, actions, call, i + 1) && Tells(states, actions, call, i + 1, at)
  {
    assert InCallOf(states[i], call) && InCallOf(states[i + 1], call);
    TellingStays(states, actions, call, i, at);
  }

  lemma OwnStepTells(states: seq<State>, actions: seq<Action>, i: nat, id: nat) returns (start: nat)
    requires IsRun(states, actions) && 0 < i < |states| && id < |states[i].gs| && states[i].gs[id].pc.InCall?
    requires !states[i].gs[id].pc.call.Entering? && !states[i].gs[id].pc.call.Entered?
    requires Next(states[i - 1], actions[i - 1]) == Some(states[i]) && actions[i - 1].Run? && actions[i - 1].id == id
    ensures IsTold(states, actions, i, id, start)
    decreases i, 0
  {
    var pc := states[i].gs[id].pc;
    var at := StepWithinCall(states[i - 1], id, actions[i - 1].choice, states[i]);
    if at.Entered? {
      start := i - 1;
      FirstStepTells(states, actions, Call(id, pc.caller, pc.op, start), at, pc.call);
    } else {
      start := CallTells(states, actions, i - 1, id);
      if IsOpening(states, i - 1, id) {
        OpeningGoesOn(states[i - 1].shared, at, actions[i - 1].choice, pc.call);
      } else {
        InvariantThroughout(states, actions, i - 1);
        WrittenIsNewest(states[i - 1], id);
        LaterStepTells(states, actions, Call(id, pc.caller, pc.op, start), i - 1, at, pc.call);
      }
    }
  }

  lemma StepWithinCall(s: State, id: nat, choice: Choice, t: State) returns (at: CallPc)
    requires Next(s, Run(id, choice)) == Some(t) && id < |t.gs| && t.gs[id].pc.InCall? && !t.gs[id].pc.call.Entering?
    ensures IsAt(s, id, InCall(t.gs[id].pc.caller, t.gs[id].pc.op, at)) && !at.Returning?
    ensures LeadsTo(s.shared, t.gs[id].pc.op, at, choice, t.gs[id].pc.call)
  {
    StepComesFor(s.shared, s.gs[id].pc, choice);
    at := s.gs[id].pc.call;
  }

  lemma WrittenIsNewest(s: State, id: nat)
    requires Invariant(s) && id < |s.gs|
    ensures s.gs[id].pc.InCall? && s.gs[id].pc.call.Writing? && s.gs[id].pc.call.written == 3 ==>
      IsNewest(s.shared, s.gs[id].pc.call.issue)
  {
    assert Local(id, s.shared, s.gs[id]);
  }

  lemma OpeningGoesOn(s: Shared, at: CallPc, choice: Choice, next: CallPc)
    requires IsOpeningAt(InCall(Ticker, Refresh, at)) && !at.Returning? && LeadsTo(s, Refresh, at, choice, next)
    ensures IsOpeningAt(InCall(Ticker, Refresh, next))
  {
  }

  lemma FirstStepTells(states: seq<State>, actions: seq<Action>, call: Call, at: CallPc, next: CallPc)
    requires call.start + 1 < |states| == |actions| + 1 && at.Entered?
    requires actions[call.start].Run? && actions[call.start].id == call.id
    requires IsAt(states[call.start], call.id, InCall(call.caller, call.op, at))
    requires IsAt(states[call.start + 1], call.id, InCall(call.caller, call.op, next))
    requires LeadsTo(states[call.start].shared, call.op, at, actions[call.start].choice, next)
    ensures IsCallUntil(states, actions, call, call.start + 1) && Tells(states, actions, call, call.start + 1, next)
  {
  }

  lemma LaterStepTells(states: seq<State>, actions: seq<Action>, call: Call, i: nat, at: CallPc, next: CallPc)
    requires IsCallUntil(states, actions, call, i) && Tells(states, actions, call, i, at) && i + 1 < |states|
    requires actions[i].Run? && Steps(states, actions, call, i, at, actions[i].choice, next)
    requires !at.Entering? && !at.Entered? && !next.Entering? && !next.Entered?
    requires at.Writing? && at.written == 3 ==> IsNewest(states[i].shared, at.issue)
    ensures IsCallUntil(states, actions, call, i + 1) && Tells(states, actions, call, i + 1, next)
  {
    CallGoesOn(states, actions, call, i, next);
    TellingFollows(states, actions, call, i, at, actions[i].choice, next);
  }

  lemma CallGoesOn(states: seq<State>, actions: seq<Action>, call: Call, i: nat, next: CallPc)
    requires IsCallUntil(states, actions, call, i) && i + 1 < |states|
    requires IsAt(states[i + 1], call.id, InCall(call.caller, call.op, next)) && !next.Entering? && !next.Entered?
    ensures IsCallUntil(states, actions, call, i + 1)
  {
  }

  // ----- What the outcome of a call means -----

  /** A call that has succeeded joined a goroutine that was at it in time; or waited until nobody was and the expiry had
      moved; or outlived a temporary failure; or stored, saved and sent what it was granted itself. */
  lemma SuccessMeans(states: seq<State>, actions: seq<Action>, i: nat, id: nat) returns (start: nat)
    requires IsRun(states, actions) && i < |states| && id < |states[i].gs|
    requires states[i].gs[id].pc.InCall? && states[i].gs[id].pc.call == Returning(true)
    ensures
      var pc := states[i].gs[id].pc;
      var call := Call(id, pc.caller, pc.op, start);
      || IsOpening(states, i, id)
      || (&& IsCallUntil(states, actions, call, i)
          && (|| JoinedInTime(states, call) || WaitedForOther(states, actions, call, i)
              || OutlivedFailure(states, actions, call, i) || DeliveredToken(states, actions, call, i)))
  {
    start := CallTells(states, actions, i, id);
  }

  /** A call that has failed waited in vain, or was refused by the OAuth server with nothing left to use, or could not
      save what it was granted. */
  lemma FailureMeans(states: seq<State>, actions: seq<Action>, i: nat, id: nat) returns (start: nat)
    requires IsRun(states, actions) && i < |states| && id < |states[i].gs|
    requires states[i].gs[id].pc.InCall? && states[i].gs[id].pc.call == Returning(false)
    ensures
      var pc := states[i].gs[id].pc;
      var call := Call(id, pc.caller, pc.op, start);
      && IsCallUntil(states, actions, call, i)
      && (|| TimedOut(states, actions, call, i) || WasDenied(states, actions, call, i)
          || LostAccess(states, actions, call, i) || WasNotSaved(states, actions, call, i))
  {
    start := CallTells(states, actions, i, id);
    assert IsOpening(states, i, id) ==> IsOpeningAt(states[i].gs[id].pc);
  }

  // ----- Where calls come from and lead to -----

  predicate IsFirstPc(pc: Pc) {
    pc == InRequest(Arriving) || pc == InCall(Ticker, Refresh, Announcing)
  }

  /** The last step of a goroutine: after it nothing happened to the goroutine up to state i. */
  ghost predicate IsLastStep(states: seq<State>, actions: seq<Action>, j: nat, i: nat, id: nat) {
    && j < i < |states| == |actions| + 1 && actions[j].Run? && actions[j].id == id
    && id < |states[j].gs| && id < |states[i].gs|
    && forall k :: j < k <= i ==> IsAt(states[k], id, states[i].gs[id].pc)
  }

  lemma FirstPcInitially(states: seq<State>, actions: seq<Action>, id: nat)
    requires IsRun(states, actions) && id < |states[0].gs|
    ensures IsFirstPc(states[0].gs[id].pc)
  {
    assert IsFresh(states[0].gs[id]);
  }

  lemma {:induction false} LastStep(states: seq<State>, actions: seq<Action>, i: nat, id: nat) returns (j: nat)
    requires IsRun(states, actions) && i < |states| && id < |states[i].gs| && !IsFirstPc(states[i].gs[id].pc)
    ensures IsLastStep(states, actions, j, i, id)
    ensures
      var step := StepOf(states[j].shared, states[j].gs[id].pc, actions[j].choice);
      step.Some? && step.value.next == states[i].gs[id].pc
  {
    if i == 0 {
      FirstPcInitially(states, actions, id);
    } else {
      ActionBefore(states, actions, i);
      if actions[i - 1].Run? && actions[i - 1].id == id {
        j := i - 1;
      } else {
        OtherActionIsIdle(states[i - 1], actions[i - 1], states[i], id);
        j := LastStep(states, actions, i - 1, id);
      }
    }
  }

  /** Every call has its reason, found by this goroutine in its last step before. */
  lemma CallHasReason(states: seq<State>, actions: seq<Action>, i: nat, id: nat) returns (j: nat)
    requires IsRun(states, actions) && i < |states| && id < |states[i].gs|
    requires states[i].gs[id].pc.InCall? && states[i].gs[id].pc.call.Entering?
    ensures IsLastStep(states, actions, j, i, id)
    ensures var pc := states[i].gs[id].pc; HasReason(states[j].shared, states[j].gs[id].pc, pc.caller, pc.op)
  {
    j := LastStep(states, actions, i, id);
    StepComesFor(states[j].shared, states[j].gs[id].pc, actions[j].choice);
  }

  /** The request is at its second token, or at its second upstream send. */
  predicate IsSecondTry(pc: Pc) {
    || (pc.InToken? && pc.second) || (pc.InCall? && pc.caller == SecondToken)
    || (pc.InRequest? && pc.request.Sending? && pc.request.second)
  }

  lemma SecondTryStep(s: Shared, pc: Pc, choice: Choice)
    requires StepOf(s, pc, choice).Some?
    ensures
      var next := StepOf(s, pc, choice).value.next;
      IsSecondTry(next) ==>
        IsSecondTry(pc) || (pc.InCall? && pc.caller == Unauthorized && pc.call == Returning(true))
  {
    if pc.InCall? && !pc.call.Returning? {
      CallStepLeadsTo(s, pc.caller, pc.op, pc.call, choice);
    }
  }

  /** A request is tried again only after the call for its status 401 has succeeded. */
  lemma {:induction false} SecondTryIsEarned(states: seq<State>, actions: seq<Action>, i: nat, id: nat) returns (k: nat)
    requires IsRun(states, actions) && i < |states| && id < |states[i].gs| && IsSecondTry(states[i].gs[id].pc)
    ensures k < i && id < |states[k].gs| && actions[k].Run? && actions[k].id == id
    ensures var pc := states[k].gs[id].pc; pc.InCall? && pc.caller == Unauthorized && pc.call == Returning(true)
  {
    var j := LastStep(states, actions, i, id);
    SecondTryStep(states[j].shared, states[j].gs[id].pc, actions[j].choice);
    if IsSecondTry(states[j].gs[id].pc) {
      k := SecondTryIsEarned(states, actions, j, id);
    } else {
      k := j;
    }
  }

  lemma AwaitingFollowsSuccess(s: Shared, pc: Pc, choice: Choice)
    requires StepOf(s, pc, choice).Some?
    ensures
      var next := StepOf(s, pc, choice).value.next;
      next.InToken? && next.taking.AwaitingToken? ==>
        pc == InToken(next.second, AwaitingToken) ||
        (pc.InCall? && pc.caller == (if next.second then SecondToken else FirstToken) && pc.call == Returning(true))
  {
    if pc.InCall? && !pc.call.Returning? {
      CallStepLeadsTo(s, pc.caller, pc.op, pc.call, choice);
    }
  }

  /** A request waits for a token only right after its own call to refresh has succeeded. */
  lemma AwaitedTokenIsRefreshed(states: seq<State>, actions: seq<Action>, i: nat, id: nat) returns (j: nat)
    requires IsRun(states, actions) && i < |states| && id < |states[i].gs|
    requires states[i].gs[id].pc.InToken? && states[i].gs[id].pc.taking.AwaitingToken?
    ensures IsLastStep(states, actions, j, i, id)
    ensures
      var pc := states[j].gs[id].pc;
      && pc.InCall? && pc.caller == (if states[i].gs[id].pc.second then SecondToken else FirstToken)
      && pc.call == Returning(true)
  {
    j := LastStep(states, actions, i, id);
    AwaitingFollowsSuccess(states[j].shared, states[j].gs[id].pc, actions[j].choice);
  }
}
