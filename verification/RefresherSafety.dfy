/**
 What every run of the token refresher and the proxy keeps, whatever the interleaving and the answers.
 */
module RefresherSafety {
  import opened Text
  import opened TokenRefresher

  // ----- What a step does to its goroutine, by its effect on the shared state -----

  /** The lock is taken when it is free and given back by who holds it; only who holds it writes. */
  predicate LockFits(s: Shared, pc: Pc, step: Step) {
    match step.effect
    case Acquire => s.lock == None && !Holds(pc) && Holds(step.next)
    case Release => Holds(pc) && !Holds(step.next)
    case Raise(_) => Holds(pc) && Holds(step.next)
    case Lower(_) => Holds(pc) && Holds(step.next)
    case WriteAccess(_) => Holds(pc) && Holds(step.next)
    case WriteRefresh(_) => Holds(pc) && Holds(step.next)
    case WriteAccessExpire(_) => Holds(pc) && Holds(step.next)
    case WriteRefreshExpire(_) => Holds(pc) && Holds(step.next)
    case _ => Holds(pc) == Holds(step.next)
  }

  /** A phase begins where the flag is raised from down to up, and ends where it is lowered. */
  predicate PhaseFits(s: Shared, pc: Pc, step: Step, op: Op) {
    if step.effect == Raise(op) then !s.Flag(op) && !InPhase(op, pc) && InPhase(op, step.next)
    else if step.effect == Lower(op) then InPhase(op, pc) && !InPhase(op, step.next)
    else InPhase(op, pc) == InPhase(op, step.next)
  }

  /** A request counts as unsettled from the total on, until it is tallied or turned away, and as active in between. */
  predicate StatsFit(pc: Pc, step: Step) {
    && One(Untallied(step.next)) - One(Untallied(pc)) ==
         (if step.effect.CountTotal? then 1 else if step.effect.Settle? || step.effect.TurnAway? then -1 else 0)
    && One(IsActive(step.next)) - One(IsActive(pc)) ==
         (if step.effect.CountActive? then 1 else if step.effect.Leave? then -1 else 0)
  }

  function One(b: bool): nat {
    if b then 1 else 0
  }

  predicate Fits(s: Shared, pc: Pc, step: Step) {
    LockFits(s, pc, step) && PhaseFits(s, pc, step, Refresh) && PhaseFits(s, pc, step, Reauthorize) && StatsFit(pc, step)
  }

  /** A goroutine takes tokens from the channel or, while the lock is free, from the profile; what it puts into the
      channel or sends upstream is what it took. */
  predicate TokensFit(s: Shared, pc: Pc, step: Step) {
    && (InfoOf(step.next).Some? ==>
          || InfoOf(step.next) == InfoOf(pc) || InfoOf(step.next) == s.channel
          || (s.lock == None && InfoOf(step.next) == Some(s.profile.Info())))
    && (SendTokenOf(step.next).Some? ==>
          || SendTokenOf(step.next) == SendTokenOf(pc)
          || (InfoOf(pc).Some? && SendTokenOf(step.next) == Some(InfoOf(pc).value.token))
          || (s.channel.Some? && SendTokenOf(step.next) == Some(s.channel.value.token)))
    && (step.effect.Put? ==> InfoOf(pc) == Some(step.effect.info) && s.channel == None)
  }

  /** The profile holds what was issued together. */
  predicate ProfileIs(profile: Profile, issue: Issue) {
    profile.access == issue.access && profile.refresh == issue.refresh && profile.accessExpire == issue.accessExpire
  }

  /** The profile at this point of who holds the lock: as last recorded, or as far as it is written. */
  predicate IsWritten(profile: Profile, issues: seq<Issue>, pc: Pc) {
    && issues != []
    && if pc.InCall? && pc.call.Writing? && 1 <= pc.call.written <= 2 then
         profile.access == pc.call.issue.access && (pc.call.written == 2 ==> profile.refresh == pc.call.issue.refresh)
       else
         && ProfileIs(profile, issues[|issues| - 1])
         && (pc.InCall? && pc.call.Writing? && pc.call.written >= 3 ==> pc.call.issue == issues[|issues| - 1])
  }

  predicate WritesFit(s: Shared, pc: Pc, step: Step) {
    && (Holds(pc) && IsWritten(s.profile, s.issues, pc) ==>
          IsWritten(Written(s.profile, step.effect), Recorded(s.issues, s.profile, step.effect), step.next))
    && (pc.InCall? && pc.call.Writing? ==> !step.effect.Release?)
    && (step.effect.Acquire? ==> !(step.next.InCall? && step.next.call.Writing? && step.next.call.written > 0))
  }

  /** Sent again at most once, and only after the status 401. */
  predicate IsRetriedOnce(answers: seq<Answer>) {
    |answers| <= 1 || (|answers| == 2 && answers[0] == Some(401))
  }

  /** The books of one goroutine: upstream sends, tallies, bounded retries. */
  predicate Accounts(g: Goroutine) {
    && (match g.pc
        case InRequest(Tally(success)) =>
          IsRetriedOnce(g.answers) && success == IsGood(g.answers) && g.tallies == [] && !g.turnedAway
        case InRequest(at) =>
          if at.Leaving? || at.Finished? then
            IsRetriedOnce(g.answers) && g.tallies == (if g.turnedAway then [] else [IsGood(g.answers)])
          else g.answers == AnswersSoFar(g.pc) && g.tallies == [] && !g.turnedAway
        case _ => g.answers == AnswersSoFar(g.pc) && g.tallies == [] && !g.turnedAway)
    && (g.pc.InCall? && g.pc.call.Calling? ==> 1 <= g.pc.call.attempt <= MAX_OAUTH_ATTEMPTS)
    && (g.pc.InCall? && g.pc.call.Saving? ==> 1 <= g.pc.call.attempt <= MAX_SAVE_FAILURES)
  }

  /** All of this, of one step of a goroutine. */
  predicate Follows(s: Shared, g: Goroutine, step: Step) {
    && Fits(s, g.pc, step) && TokensFit(s, g.pc, step) && WritesFit(s, g.pc, step)
    && Accounts(Book(g, step.effect, step.next))
  }

  lemma RequestStepFits(s: Shared, pc: RequestPc, choice: Choice)
    requires RequestStep(s, pc, choice).Some?
    ensures Fits(s, InRequest(pc), RequestStep(s, pc, choice).value)
  {
  }

  lemma RequestStepFollows(s: Shared, g: Goroutine, pc: RequestPc, choice: Choice)
    requires g.pc == InRequest(pc) && Accounts(g) && RequestStep(s, pc, choice).Some?
    ensures Follows(s, g, RequestStep(s, pc, choice).value)
  {
    RequestStepFits(s, pc, choice);
  }

  lemma TokenStepFits(s: Shared, second: bool, pc: TokenPc, choice: Choice)
    requires TokenStep(s, second, pc, choice).Some?
    ensures Fits(s, InToken(second, pc), TokenStep(s, second, pc, choice).value)
  {
  }

  lemma TokenStepFollows(s: Shared, g: Goroutine, second: bool, pc: TokenPc, choice: Choice)
    requires g.pc == InToken(second, pc) && Accounts(g) && TokenStep(s, second, pc, choice).Some?
    ensures Follows(s, g, TokenStep(s, second, pc, choice).value)
  {
    TokenStepFits(s, second, pc, choice);
  }

  lemma TickerStepFollows(s: Shared, g: Goroutine, pc: TickerPc)
    requires g.pc == InTicker(pc) && Accounts(g) && TickerStep(s, pc).Some?
    ensures Follows(s, g, TickerStep(s, pc).value)
  {
  }

  lemma StoreStepFitsPhase(s: Shared, c: Caller, op: Op, pc: CallPc, choice: Choice, other: Op)
    requires StoreStep(s, c, op, pc, choice).Some?
    ensures PhaseFits(s, InCall(c, op, pc), StoreStep(s, c, op, pc, choice).value, other)
  {
  }

  lemma StoreStepFitsLock(s: Shared, c: Caller, op: Op, pc: CallPc, choice: Choice)
    requires StoreStep(s, c, op, pc, choice).Some?
    ensures var step, at := StoreStep(s, c, op, pc, choice).value, InCall(c, op, pc);
      LockFits(s, at, step) && StatsFit(at, step)
  {
  }

  lemma StoreStepFitsTokens(s: Shared, c: Caller, op: Op, pc: CallPc, choice: Choice)
    requires StoreStep(s, c, op, pc, choice).Some?
    ensures TokensFit(s, InCall(c, op, pc), StoreStep(s, c, op, pc, choice).value)
  {
  }

  lemma StoreStepFitsWrites(s: Shared, c: Caller, op: Op, pc: CallPc, choice: Choice)
    requires StoreStep(s, c, op, pc, choice).Some?
    ensures WritesFit(s, InCall(c, op, pc), StoreStep(s, c, op, pc, choice).value)
  {
  }

  lemma StoreStepKeepsAccounts(s: Shared, g: Goroutine, c: Caller, op: Op, pc: CallPc, choice: Choice)
    requires g.pc == InCall(c, op, pc) && Accounts(g) && StoreStep(s, c, op, pc, choice).Some?
    ensures var step := StoreStep(s, c, op, pc, choice).value; Accounts(Book(g, step.effect, step.next))
  {
  }

  lemma CallStepFitsPhase(s: Shared, c: Caller, op: Op, pc: CallPc, choice: Choice, other: Op)
    requires CallStep(s, c, op, pc, choice).Some?
    ensures PhaseFits(s, InCall(c, op, pc), CallStep(s, c, op, pc, choice).value, other)
  {
    if StoreStep(s, c, op, pc, choice).Some? {
      StoreStepFitsPhase(s, c, op, pc, choice, other);
    }
  }

  lemma CallStepFitsLock(s: Shared, c: Caller, op: Op, pc: CallPc, choice: Choice)
    requires CallStep(s, c, op, pc, choice).Some?
    ensures var step, at := CallStep(s, c, op, pc, choice).value, InCall(c, op, pc);
      LockFits(s, at, step) && StatsFit(at, step)
  {
    if StoreStep(s, c, op, pc, choice).Some? {
      StoreStepFitsLock(s, c, op, pc, choice);
    }
  }

  lemma CallStepFitsTokens(s: Shared, c: Caller, op: Op, pc: CallPc, choice: Choice)
    requires CallStep(s, c, op, pc, choice).Some?
    ensures TokensFit(s, InCall(c, op, pc), CallStep(s, c, op, pc, choice).value)
  {
    if StoreStep(s, c, op, pc, choice).Some? {
      StoreStepFitsTokens(s, c, op, pc, choice);
    }
  }

  lemma CallStepFitsWrites(s: Shared, c: Caller, op: Op, pc: CallPc, choice: Choice)
    requires CallStep(s, c, op, pc, choice).Some?
    ensures WritesFit(s, InCall(c, op, pc), CallStep(s, c, op, pc, choice).value)
  {
    if StoreStep(s, c, op, pc, choice).Some? {
      StoreStepFitsWrites(s, c, op, pc, choice);
    }
  }

  lemma CallStepKeepsAccounts(s: Shared, g: Goroutine, c: Caller, op: Op, pc: CallPc, choice: Choice)
    requires g.pc == InCall(c, op, pc) && Accounts(g) && CallStep(s, c, op, pc, choice).Some?
    ensures var step := CallStep(s, c, op, pc, choice).value; Accounts(Book(g, step.effect, step.next))
  {
    if StoreStep(s, c, op, pc, choice).Some? {
      StoreStepKeepsAccounts(s, g, c, op, pc, choice);
    }
  }

  // ----- Why a step comes to its next place in a call -----

  predicate IsUp(s: Shared, op: Op) {
    if op == Refresh then s.refreshing else s.reauthorizing
  }

  /** A refresh renews the access token, an authorization the refresh token. */
  function ExpiryOf(profile: Profile, op: Op): int {
    if op == Refresh then profile.accessExpire else profile.refreshExpire
  }

  /** Another goroutine is at it, and what it renews is valid until then. */
  predicate FoundUp(s: Shared, op: Op, seen: int) {
    IsUp(s, op) && seen == ExpiryOf(s.profile, op)
  }

  /** From where a step comes to this point of a call. */
  predicate LeadsTo(s: Shared, op: Op, pc: CallPc, choice: Choice, next: CallPc) {
    match next
    case Entering => false
    case Entered => pc == Entering
    case Joining(seen, valid) => pc == Entered && FoundUp(s, op, seen) && (valid <==> seen > s.now)
    case Waiting(seen) => pc == Joining(seen, false) || pc == Waiting(seen)
    case Started => pc == Entered
    case Calling(n) => (pc == Started && n == 1) || (op == Refresh && pc.Calling? && pc.attempt < 3 && n == pc.attempt + 1)
    case Failing(permanent) =>
      && pc.Calling? && !choice.Granted? && (permanent <==> choice == Permanent)
      && (permanent || op == Reauthorize || pc.attempt >= 3)
    case Clearing(permanent) => pc == Failing(permanent)
    case Cleared(permanent) => pc == Clearing(permanent)
    case Judging(permanent, expire) => op == Refresh && pc == Cleared(permanent) && expire == s.profile.accessExpire
    case Storing(access, refresh, expires) => pc.Calling? && choice == Granted(access, refresh, expires)
    case Writing(k, issue, refreshExpire) =>
      if k > 0 then pc == Writing(k - 1, issue, refreshExpire)
      else
        && pc.Storing? && issue.access == pc.access && issue.refresh == pc.refresh
        && refreshExpire == s.now + s.profile.refreshValidity
        && issue.accessExpire == if op == Refresh then s.now + pc.expires else pc.expires
    case Saving(n) =>
      || (pc.Writing? && pc.written >= (if op == Refresh then 3 else 4) && n == 1)
      || (pc.Saving? && pc.attempt != 3 && n == pc.attempt + 1)
    case Saved(ok) => pc.Saving? && if ok then choice != Refuse else choice == Refuse && pc.attempt == 3
    case Announcing => pc == Saved(true)
    case Offering(info) => pc == Announcing && s.lock == None && info == TokenInfo(s.profile.access, s.profile.accessExpire)
    case Draining(info) => pc == Offering(info)
    case Pushing(info) => pc == Draining(info)
    case Returning(ok) => if ok then LeadsToSuccess(s, op, pc, choice) else LeadsToFailure(s, op, pc, choice)
  }

  predicate LeadsToSuccess(s: Shared, op: Op, pc: CallPc, choice: Choice) {
    match pc
    case Joining(_, valid) => valid
    case Waiting(seen) => choice != Timeout && s.lock == None && !IsUp(s, op) && ExpiryOf(s.profile, op) > seen
    case Judging(permanent, expire) => !permanent && expire > s.now
    case Offering(_) => s.channel == None
    case Pushing(_) => s.channel == None
    case _ => false
  }

  predicate LeadsToFailure(s: Shared, op: Op, pc: CallPc, choice: Choice) {
    match pc
    case Waiting(_) => choice == Timeout
    case Cleared(_) => op == Reauthorize
    case Judging(permanent, expire) => permanent || expire <= s.now
    case Saved(ok) => !ok
    case _ => false
  }

  /** Why the goroutine calls: the status 401, a token that is not valid, or a token that will soon expire. */
  predicate HasReason(s: Shared, pc: Pc, caller: Caller, op: Op) {
    match caller
    case FirstToken => op == Refresh && IsStale(s, pc, false)
    case SecondToken => op == Refresh && IsStale(s, pc, true)
    case Unauthorized =>
      && pc == InRequest(OnUnauthorized) && s.lock == None
      && op == if s.profile.refreshExpire > s.now then Refresh else Reauthorize
    case Ticker =>
      && pc == InTicker(Inspecting) && s.lock == None
      && if op == Reauthorize then s.profile.refreshExpire - s.now < 780
         else s.profile.refreshExpire - s.now >= 780 && s.profile.accessExpire - s.now < 420
  }

  predicate IsStale(s: Shared, pc: Pc, second: bool) {
    pc.InToken? && pc.second == second && pc.taking.CheckingToken? && pc.taking.info.expiresAt <= s.now
  }

  /** A call is entered for a reason, and within it each step leads on as the code does. */
  predicate ComesFor(s: Shared, pc: Pc, choice: Choice, next: Pc) {
    next.InCall? ==>
      if next.call.Entering? then HasReason(s, pc, next.caller, next.op)
      else
        && pc.InCall? && !pc.call.Returning? && pc.caller == next.caller && pc.op == next.op
        && LeadsTo(s, pc.op, pc.call, choice, next.call)
  }

  /** From where a step comes to this point of a request or of the ticker. */
  predicate LeadsOutside(s: Shared, pc: Pc, choice: Choice, next: Pc) {
    match next
    case InRequest(at) => LeadsToRequest(s, pc, choice, at)
    case InToken(second, at) => LeadsToToken(s, pc, choice, second, at)
    case InTicker(at) =>
      if at.Inspecting? then pc == InTicker(Idle)
      else pc == InTicker(Inspecting) || (pc.InCall? && pc.caller == Ticker && pc.call.Returning?)
    case InCall(_, _, _) => true
  }

  predicate LeadsToRequest(s: Shared, pc: Pc, choice: Choice, at: RequestPc) {
    match at
    case Arriving => false
    case Counted => pc == InRequest(Arriving)
    case Filtering => pc == InRequest(Counted)
    case Admission => pc == InRequest(Filtering) && choice != Refuse
    case ReadingBody(token) => LeavesWith(s, pc, false, token)
    case Sending(second, token) =>
      if second then LeavesWith(s, pc, true, token) else pc == InRequest(ReadingBody(token)) && choice != Refuse
    case OnUnauthorized => pc.InRequest? && pc.request.Sending? && !pc.request.second && choice == Status(401)
    case Tally(success) =>
      if success then pc.InRequest? && pc.request.Sending? && choice.Status? && choice.code < 400
      else FailsRequest(s, pc, choice)
    case Leaving => (pc == InRequest(Filtering) && choice == Refuse) || (pc.InRequest? && pc.request.Tally?)
    case Finished => pc == InRequest(Leaving)
  }

  /** The token that was checked, or that was waited for. */
  predicate LeavesWith(s: Shared, pc: Pc, second: bool, token: string) {
    && pc.InToken? && pc.second == second
    && if pc.taking.PuttingBack? then token == pc.taking.info.token
       else pc.taking.AwaitingToken? && s.channel.Some? && token == s.channel.value.token
  }

  /** Shutdown, refusal, a body that cannot be read, no answer or a bad one, no token in time, or a call that failed. */
  predicate FailsRequest(s: Shared, pc: Pc, choice: Choice) {
    match pc
    case InRequest(Admission) => s.stopping || choice == Refuse
    case InRequest(ReadingBody(_)) => choice == Refuse
    case InRequest(Sending(second, _)) => !choice.Status? || (choice.code >= 400 && (choice.code == 401 ==> second))
    case InToken(_, AwaitingToken) => choice == Timeout
    case InCall(caller, _, Returning(ok)) => caller != Ticker && !ok
    case _ => false
  }

  predicate LeadsToToken(s: Shared, pc: Pc, choice: Choice, second: bool, at: TokenPc) {
    match at
    case TakingToken =>
      if second then pc.InCall? && pc.caller == Unauthorized && pc.call == Returning(true)
      else pc == InRequest(Admission) && !s.stopping && choice != Refuse
    case ReadingToken => pc == InToken(second, TakingToken) && s.channel == None
    case CheckingToken(info) =>
      || (pc == InToken(second, TakingToken) && s.channel == Some(info))
      || (pc == InToken(second, ReadingToken) && s.lock == None && info == TokenInfo(s.profile.access, s.profile.accessExpire))
    case PuttingBack(info) => pc == InToken(second, CheckingToken(info)) && info.expiresAt > s.now
    case AwaitingToken =>
      pc.InCall? && pc.caller == (if second then SecondToken else FirstToken) && pc.call == Returning(true)
  }

  /** Which steps take a token from the channel, and which put one into it. */
  predicate ChannelFits(s: Shared, pc: Pc, step: Step) {
    && (step.effect == Receive <==>
          || (pc.InToken? && pc.taking.TakingToken? && s.channel.Some?)
          || (pc.InToken? && pc.taking.AwaitingToken? && step.next != InRequest(Tally(false)))
          || (pc.InCall? && pc.call.Draining?))
    && (step.effect.Put? <==>
          && s.channel == None
          && ((pc.InToken? && pc.taking.PuttingBack?) || (pc.InCall? && (pc.call.Offering? || pc.call.Pushing?))))
  }

  /** The fields of the profile are written one by one; only an authorization extends the refresh token. */
  predicate FieldsFit(pc: Pc, step: Step) {
    pc.InCall? && pc.call.Writing? ==>
      match pc.call.written
      case 0 => step.effect == WriteAccess(pc.call.issue.access)
      case 1 => step.effect == WriteRefresh(pc.call.issue.refresh)
      case 2 => step.effect == WriteAccessExpire(pc.call.issue.accessExpire)
      case 3 => step.effect == if pc.op == Reauthorize then WriteRefreshExpire(pc.call.refreshExpire) else Lower(pc.op)
      case _ => step.effect == Lower(pc.op)
  }

  lemma StepFitsChannel(s: Shared, pc: Pc, choice: Choice)
    requires StepOf(s, pc, choice).Some?
    ensures ChannelFits(s, pc, StepOf(s, pc, choice).value)
  {
  }

  lemma StepFitsFields(s: Shared, pc: Pc, choice: Choice)
    requires StepOf(s, pc, choice).Some?
    ensures FieldsFit(pc, StepOf(s, pc, choice).value)
  {
  }

  lemma StepLeadsOutside(s: Shared, pc: Pc, choice: Choice)
    requires StepOf(s, pc, choice).Some?
    ensures LeadsOutside(s, pc, choice, StepOf(s, pc, choice).value.next)
  {
    if pc.InCall? && !pc.call.Returning? {
      CallStepLeadsTo(s, pc.caller, pc.op, pc.call, choice);
    }
  }

  lemma StoreStepLeadsTo(s: Shared, c: Caller, op: Op, pc: CallPc, choice: Choice)
    requires StoreStep(s, c, op, pc, choice).Some? && !pc.Returning?
    ensures
      var next := StoreStep(s, c, op, pc, choice).value.next;
      next.InCall? && next.caller == c && next.op == op && LeadsTo(s, op, pc, choice, next.call)
  {
  }

  lemma CallStepLeadsTo(s: Shared, c: Caller, op: Op, pc: CallPc, choice: Choice)
    requires CallStep(s, c, op, pc, choice).Some? && !pc.Returning?
    ensures
      var next := CallStep(s, c, op, pc, choice).value.next;
      next.InCall? && next.caller == c && next.op == op && LeadsTo(s, op, pc, choice, next.call)
  {
    if StoreStep(s, c, op, pc, choice).Some? {
      StoreStepLeadsTo(s, c, op, pc, choice);
    }
  }

  lemma StepComesFor(s: Shared, pc: Pc, choice: Choice)
    requires StepOf(s, pc, choice).Some?
    ensures ComesFor(s, pc, choice, StepOf(s, pc, choice).value.next)
  {
    if pc.InCall? && !pc.call.Returning? {
      CallStepLeadsTo(s, pc.caller, pc.op, pc.call, choice);
    }
  }

  lemma StepFollows(s: Shared, g: Goroutine, choice: Choice)
    requires StepOf(s, g.pc, choice).Some? && Accounts(g)
    ensures Follows(s, g, StepOf(s, g.pc, choice).value)
    ensures
      var step := StepOf(s, g.pc, choice).value;
      && ComesFor(s, g.pc, choice, step.next) && LeadsOutside(s, g.pc, choice, step.next)
      && ChannelFits(s, g.pc, step) && FieldsFit(g.pc, step)
  {
    StepComesFor(s, g.pc, choice);
    StepLeadsOutside(s, g.pc, choice);
    StepFitsChannel(s, g.pc, choice);
    StepFitsFields(s, g.pc, choice);
    match g.pc
    case InRequest(at) => RequestStepFollows(s, g, at, choice);
    case InToken(second, at) => TokenStepFollows(s, g, second, at, choice);
    case InTicker(at) => TickerStepFollows(s, g, at);
    case InCall(c, op, at) =>
      CallStepFitsLock(s, c, op, at, choice);
      CallStepFitsPhase(s, c, op, at, choice, Refresh);
      CallStepFitsPhase(s, c, op, at, choice, Reauthorize);
      CallStepFitsTokens(s, c, op, at, choice);
      CallStepFitsWrites(s, c, op, at, choice);
      CallStepKeepsAccounts(s, g, c, op, at, choice);
  }

  // ----- The invariant -----

  predicate IsIssued(issues: seq<Issue>, info: TokenInfo) {
    exists i :: 0 <= i < |issues| && issues[i].Info() == info
  }

  predicate IsIssuedToken(issues: seq<Issue>, token: string) {
    exists i :: 0 <= i < |issues| && issues[i].access == token
  }

  /** The lock is held by exactly the goroutine that is at a point where it holds it; it was given back as often as taken
      before; and the profile is whole unless the holder is writing it. */
  predicate Locking(id: nat, s: Shared, g: Goroutine) {
    && (s.lock == Some(id) <==> Holds(g.pc))
    && g.locks == g.unlocks + One(Holds(g.pc))
    && (Holds(g.pc) ==> IsWritten(s.profile, s.issues, g.pc))
  }

  predicate FreeLock(s: Shared) {
    s.issues != [] && !s.fault && (s.lock == None ==> ProfileIs(s.profile, s.issues[|s.issues| - 1]))
  }

  /** The tokens at this point of a goroutine are issued ones. */
  predicate Tokens(issues: seq<Issue>, pc: Pc) {
    && (InfoOf(pc).Some? ==> IsIssued(issues, InfoOf(pc).value))
    && (SendTokenOf(pc).Some? ==> IsIssuedToken(issues, SendTokenOf(pc).value))
  }

  predicate ChannelToken(s: Shared) {
    s.channel.Some? ==> IsIssued(s.issues, s.channel.value)
  }

  /** What holds of one goroutine. */
  predicate Local(id: nat, s: Shared, g: Goroutine) {
    Locking(id, s, g) && Tokens(s.issues, g.pc) && Accounts(g)
  }

  /** What holds of the shared state alone. */
  predicate Common(s: Shared) {
    FreeLock(s) && ChannelToken(s)
  }

  function Count(p: Pc -> bool, gs: seq<Goroutine>): nat {
    if gs == [] then 0 else Count(p, gs[..|gs| - 1]) + One(p(gs[|gs| - 1].pc))
  }

  /** The requests that are counted in the total, and nowhere else. */
  function Unsettled(stats: Stats): int {
    stats.total - stats.success - stats.errors - stats.filtered
  }

  function Phase(op: Op): Pc -> bool {
    pc => InPhase(op, pc)
  }

  predicate Counts(s: State) {
    && Count(Phase(Refresh), s.gs) == One(s.shared.Flag(Refresh))
    && Count(Phase(Reauthorize), s.gs) == One(s.shared.Flag(Reauthorize))
    && Count(Untallied, s.gs) == Unsettled(s.shared.stats)
    && Count(IsActive, s.gs) == s.shared.stats.active
  }

  predicate Invariant(s: State) {
    && Common(s.shared) && Counts(s)
    && (s.shared.lock.Some? ==> s.shared.lock.value < |s.gs|)
    && forall id :: 0 <= id < |s.gs| ==> Local(id, s.shared, s.gs[id])
  }

  // ----- Counting -----

  lemma {:induction false} CountUpdated(p: Pc -> bool, gs: seq<Goroutine>, id: nat, g: Goroutine)
    requires id < |gs|
    ensures Count(p, gs[id := g]) == Count(p, gs) - One(p(gs[id].pc)) + One(p(g.pc))
    ensures p(gs[id].pc) ==> Count(p, gs) >= 1
  {
    var n := |gs| - 1;
    if id == n {
      assert gs[id := g][..n] == gs[..n];
    } else {
      CountUpdated(p, gs[..n], id, g);
      assert gs[id := g][..n] == gs[..n][id := g];
    }
  }

  lemma {:induction false} CountIsZero(p: Pc -> bool, gs: seq<Goroutine>)
    requires forall i :: 0 <= i < |gs| ==> !p(gs[i].pc)
    ensures Count(p, gs) == 0
  {
    if gs != [] {
      CountIsZero(p, gs[..|gs| - 1]);
    }
  }

  lemma {:induction false} CountsBoth(p: Pc -> bool, gs: seq<Goroutine>, i: nat, j: nat)
    requires i < j < |gs| && p(gs[i].pc) && p(gs[j].pc)
    ensures Count(p, gs) >= 2
  {
    var n := |gs| - 1;
    if j == n {
      CountUpdated(p, gs[..n], i, gs[i]);
    } else {
      CountsBoth(p, gs[..n], i, j);
    }
  }

  lemma {:induction false} CountedSomewhere(p: Pc -> bool, gs: seq<Goroutine>) returns (i: nat)
    requires Count(p, gs) >= 1
    ensures i < |gs| && p(gs[i].pc)
  {
    i := |gs| - 1;
    if !p(gs[i].pc) {
      i := CountedSomewhere(p, gs[..i]);
    }
  }

  // ----- One step keeps the invariant -----

  lemma IssuedStays(issues: seq<Issue>, issue: Issue, info: TokenInfo)
    requires IsIssued(issues, info)
    ensures IsIssued(issues + [issue], info)
  {
    var i :| 0 <= i < |issues| && issues[i].Info() == info;
    assert (issues + [issue])[i].Info() == info;
  }

  lemma IssuedTokenStays(issues: seq<Issue>, issue: Issue, token: string)
    requires IsIssuedToken(issues, token)
    ensures IsIssuedToken(issues + [issue], token)
  {
    var i :| 0 <= i < |issues| && issues[i].access == token;
    assert (issues + [issue])[i].access == token;
  }

  lemma InfoTokenIsIssued(issues: seq<Issue>, info: TokenInfo)
    requires IsIssued(issues, info)
    ensures IsIssuedToken(issues, info.token)
  {
    var i :| 0 <= i < |issues| && issues[i].Info() == info;
    assert issues[i].access == info.token;
  }

  /** What is known to be issued stays so. */
  lemma EffectKeepsIssued(s: Shared, effect: Effect, info: TokenInfo)
    requires IsIssued(s.issues, info)
    ensures IsIssued(Recorded(s.issues, s.profile, effect), info)
  {
    if effect.WriteAccessExpire? {
      IssuedStays(s.issues, Issue(s.profile.access, s.profile.refresh, effect.expire), info);
    }
  }

  lemma EffectKeepsTokens(s: Shared, effect: Effect, pc: Pc)
    requires Tokens(s.issues, pc)
    ensures Tokens(Recorded(s.issues, s.profile, effect), pc)
  {
    if effect.WriteAccessExpire? {
      var issue := Issue(s.profile.access, s.profile.refresh, effect.expire);
      if InfoOf(pc).Some? {
        IssuedStays(s.issues, issue, InfoOf(pc).value);
      }
      if SendTokenOf(pc).Some? {
        IssuedTokenStays(s.issues, issue, SendTokenOf(pc).value);
      }
    }
  }

  /** The tokens that the goroutine has after the step are issued ones. */
  lemma StepTakesIssued(s: Shared, pc: Pc, step: Step)
    requires Common(s) && Tokens(s.issues, pc) && TokensFit(s, pc, step)
    ensures Tokens(s.issues, step.next)
    ensures step.effect.Put? ==> IsIssued(s.issues, step.effect.info)
  {
    if s.lock == None {
      assert s.issues[|s.issues| - 1].Info() == s.profile.Info();
    }
    if InfoOf(pc).Some? {
      InfoTokenIsIssued(s.issues, InfoOf(pc).value);
    }
    if s.channel.Some? {
      InfoTokenIsIssued(s.issues, s.channel.value);
    }
  }

  /** How an effect changes the lock, the profile, its history and the channel. */
  predicate Changes(id: nat, s: Shared, effect: Effect, t: Shared) {
    && t.lock == (if effect.Acquire? then Some(id) else if effect.Release? then None else s.lock)
    && t.fault == (s.fault || (effect.Release? && s.lock != Some(id)))
    && t.profile == Written(s.profile, effect) && t.issues == Recorded(s.issues, s.profile, effect)
    && t.channel == (if effect.Put? then Some(effect.info) else if effect.Receive? then None else s.channel)
  }

  lemma ApplyChanges(id: nat, s: Shared, effect: Effect)
    ensures Changes(id, s, effect, Apply(id, s, effect))
  {
  }

  lemma ChannelKept(id: nat, s: Shared, effect: Effect, t: Shared)
    requires Changes(id, s, effect, t) && ChannelToken(s) && (effect.Put? ==> IsIssued(s.issues, effect.info))
    ensures ChannelToken(t)
  {
    if effect.Put? {
      EffectKeepsIssued(s, effect, effect.info);
    } else if s.channel.Some? {
      EffectKeepsIssued(s, effect, s.channel.value);
    }
  }

  lemma OwnLockingKept(id: nat, s: Shared, g: Goroutine, step: Step, t: Shared)
    requires Changes(id, s, step.effect, t) && LockFits(s, g.pc, step) && WritesFit(s, g.pc, step)
    requires Locking(id, s, g) && FreeLock(s)
    ensures Locking(id, t, Book(g, step.effect, step.next)) && FreeLock(t)
  {
  }

  lemma OwnKept(id: nat, s: Shared, g: Goroutine, step: Step, t: Shared)
    requires Changes(id, s, step.effect, t) && Local(id, s, g) && Common(s) && Follows(s, g, step)
    ensures Local(id, t, Book(g, step.effect, step.next)) && Common(t)
  {
    OwnLockingKept(id, s, g, step, t);
    StepTakesIssued(s, g.pc, step);
    ChannelKept(id, s, step.effect, t);
    EffectKeepsTokens(s, step.effect, step.next);
  }

  lemma OthersKept(id: nat, s: Shared, g: Goroutine, step: Step, t: Shared, other: nat, h: Goroutine)
    requires Changes(id, s, step.effect, t) && LockFits(s, g.pc, step)
    requires Locking(id, s, g) && Local(other, s, h) && other != id
    ensures Local(other, t, h)
  {
    EffectKeepsTokens(s, step.effect, h.pc);
  }

  // ----- One step keeps the counts -----

  lemma FlagFollowsEffect(id: nat, s: Shared, effect: Effect, op: Op)
    ensures Apply(id, s, effect).Flag(op) ==
      (if effect == Raise(op) then true else if effect == Lower(op) then false else s.Flag(op))
  {
  }

  lemma StatsFollowEffect(id: nat, s: Shared, effect: Effect)
    ensures var t := Apply(id, s, effect);
      && Unsettled(t.stats) - Unsettled(s.stats) ==
           (if effect.CountTotal? then 1 else if effect.Settle? || effect.TurnAway? then -1 else 0)
      && t.stats.active - s.stats.active == (if effect.CountActive? then 1 else if effect.Leave? then -1 else 0)
  {
  }

  /** The phase of an operation is entered by at most one goroutine at a time. */
  lemma PhaseKept(id: nat, s: State, step: Step, op: Op)
    requires id < |s.gs| && PhaseFits(s.shared, s.gs[id].pc, step, op)
    requires Count(Phase(op), s.gs) == One(s.shared.Flag(op))
    ensures Count(Phase(op), s.gs[id := Book(s.gs[id], step.effect, step.next)])
         == One(Apply(id, s.shared, step.effect).Flag(op))
  {
    CountUpdated(Phase(op), s.gs, id, Book(s.gs[id], step.effect, step.next));
    FlagFollowsEffect(id, s.shared, step.effect, op);
  }

  lemma StatsKept(id: nat, s: State, step: Step)
    requires id < |s.gs| && StatsFit(s.gs[id].pc, step)
    requires Count(Untallied, s.gs) == Unsettled(s.shared.stats) && Count(IsActive, s.gs) == s.shared.stats.active
    ensures var gs := s.gs[id := Book(s.gs[id], step.effect, step.next)];
      && Count(Untallied, gs) == Unsettled(Apply(id, s.shared, step.effect).stats)
      && Count(IsActive, gs) == Apply(id, s.shared, step.effect).stats.active
  {
    CountUpdated(Untallied, s.gs, id, Book(s.gs[id], step.effect, step.next));
    CountUpdated(IsActive, s.gs, id, Book(s.gs[id], step.effect, step.next));
    StatsFollowEffect(id, s.shared, step.effect);
  }

  // ----- The invariant over runs -----

  lemma FreshFits(id: nat, s: Shared, g: Goroutine)
    requires IsFresh(g) && s.lock == None
    ensures Local(id, s, g) && !InPhase(Refresh, g.pc) && !InPhase(Reauthorize, g.pc) && !Untallied(g.pc) && !IsActive(g.pc)
  {
  }

  lemma InvariantInitially(s: State)
    requires IsInitial(s)
    ensures Invariant(s)
  {
    forall id | 0 <= id < |s.gs|
      ensures Local(id, s.shared, s.gs[id]) && !Untallied(s.gs[id].pc) && !IsActive(s.gs[id].pc)
      ensures !Phase(Refresh)(s.gs[id].pc) && !Phase(Reauthorize)(s.gs[id].pc)
    {
      FreshFits(id, s.shared, s.gs[id]);
    }
    CountIsZero(Phase(Refresh), s.gs);
    CountIsZero(Phase(Reauthorize), s.gs);
    CountIsZero(Untallied, s.gs);
    CountIsZero(IsActive, s.gs);
  }

  lemma StepKeepsInvariant(s: State, id: nat, choice: Choice)
    requires Invariant(s) && Next(s, Run(id, choice)).Some?
    ensures Invariant(Next(s, Run(id, choice)).value)
  {
    var g := s.gs[id];
    var step := StepOf(s.shared, g.pc, choice).value;
    StepFollows(s.shared, g, choice);
    var t := Apply(id, s.shared, step.effect);
    ApplyChanges(id, s.shared, step.effect);
    OwnKept(id, s.shared, g, step, t);
    forall other | 0 <= other < |s.gs| && other != id
      ensures Local(other, t, s.gs[other])
    {
      OthersKept(id, s.shared, g, step, t, other, s.gs[other]);
    }
    PhaseKept(id, s, step, Refresh);
    PhaseKept(id, s, step, Reauthorize);
    StatsKept(id, s, step);
  }

  lemma ActionKeepsInvariant(s: State, action: Action)
    requires Invariant(s) && Next(s, action).Some?
    ensures Invariant(Next(s, action).value)
  {
    match action
    case Run(id, choice) => StepKeepsInvariant(s, id, choice);
    case Elapse(_) =>
    case Stop =>
  }

  /** Every state of every run satisfies the invariant. */
  lemma {:induction false} InvariantThroughout(states: seq<State>, actions: seq<Action>, i: nat)
    requires IsRun(states, actions) && i < |states|
    ensures Invariant(states[i])
  {
    if i == 0 {
      InvariantInitially(states[0]);
    } else {
      InvariantThroughout(states, actions, i - 1);
      assert Next(states[i - 1], actions[i - 1]) == Some(states[i - 1 + 1]);
      ActionKeepsInvariant(states[i - 1], actions[i - 1]);
    }
  }
}
