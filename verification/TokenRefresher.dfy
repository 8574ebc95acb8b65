/**
 The token refresher and the proxy requests that use it, as a transition system: any number of
 goroutines share one profile, one lock, two flags and a channel that holds one token. A step runs one
 goroutine from one access of shared state to the next; what the OAuth server, the upstream server, the
 disk and the timers answer is up to the choice that comes with the step.
 */
module TokenRefresher {
  import opened Text

  const ACCESS_TOKEN_REFRESH_WINDOW := 7 * 60
  const REFRESH_TOKEN_REFRESH_WINDOW := 13 * 60
  const MAX_OAUTH_ATTEMPTS := 3
  const MAX_SAVE_FAILURES := 3

  datatype TokenInfo = TokenInfo(token: string, expiresAt: int)

  /** One answer of the OAuth server: tokens that belong together. */
  datatype Issue = Issue(access: string, refresh: string, accessExpire: int) {
    function Info(): TokenInfo {
      TokenInfo(access, accessExpire)
    }
  }

  datatype Op = Refresh | Reauthorize

  /** Where refreshAccessToken or reauthorizeWithProxy was called from. */
  datatype Caller = FirstToken | SecondToken | Unauthorized | Ticker

  // ----- Program counters, each named for what the goroutine does next -----

  /** In ServeMCPProxyRequest. */
  datatype RequestPc =
    | Arriving
    | Counted
    | Filtering
    | Admission
    | ReadingBody(token: string)
    | Sending(second: bool, token: string)  // second is set once the first answer was 401
    | OnUnauthorized
    | Tally(success: bool)
    | Leaving
    | Finished

  /** In getMCPAccessToken. */
  datatype TokenPc =
    | TakingToken
    | ReadingToken
    | CheckingToken(info: TokenInfo)
    | PuttingBack(info: TokenInfo)
    | AwaitingToken

  datatype TickerPc = Idle | Inspecting

  /** In refreshAccessToken or reauthorizeWithProxy, and in the sendToken at their end. */
  datatype CallPc =
    | Entering
    | Entered                             // holds the lock
    | Joining(seen: int, valid: bool)     // holds the lock; another goroutine is at it
    | Waiting(seen: int)
    | Started                             // holds the lock, has set the flag
    | Calling(attempt: nat)
    | Failing(permanent: bool)
    | Clearing(permanent: bool)           // holds the lock
    | Cleared(permanent: bool)            // holds the lock
    | Judging(permanent: bool, expire: int)
    | Storing(access: string, refresh: string, expires: int)
    | Writing(written: nat, issue: Issue, refreshExpire: int)  // holds the lock
    | Saving(attempt: nat)                // holds the lock
    | Saved(ok: bool)                     // holds the lock
    | Announcing
    | Offering(info: TokenInfo)
    | Draining(info: TokenInfo)
    | Pushing(info: TokenInfo)
    | Returning(ok: bool)

  datatype Pc =
    | InRequest(request: RequestPc)
    | InToken(second: bool, taking: TokenPc)
    | InTicker(ticker: TickerPc)
    | InCall(caller: Caller, op: Op, call: CallPc)

  datatype Choice =
    | Proceed
    | Refuse
    | Timeout
    | Temporary
    | Permanent
    | Granted(access: string, refresh: string, expires: int)
    | Status(code: nat)

  datatype Profile = Profile(access: string, refresh: string, accessExpire: int, refreshExpire: int, refreshValidity: int) {
    function Info(): TokenInfo {
      TokenInfo(access, accessExpire)
    }
  }

  /** The counters of requests; filtered counts those that are turned away without a tally. */
  datatype Stats = Stats(total: int, active: int, success: int, errors: int, filtered: int)

  /** What the goroutines share. The issues are the history of what was stored in the profile; a fault is an unlock of a
      lock that is not held. */
  datatype Shared = Shared(
    now: int, stopping: bool, profile: Profile, lock: Option<nat>, refreshing: bool, reauthorizing: bool,
    channel: Option<TokenInfo>, stats: Stats, issues: seq<Issue>, fault: bool)
  {
    function Flag(op: Op): bool {
      if op == Refresh then refreshing else reauthorizing
    }

    function SetFlag(op: Op, value: bool): Shared {
      if op == Refresh then this.(refreshing := value) else this.(reauthorizing := value)
    }

    /** The expiry that tells whether the operation still has to be waited for. */
    function Expire(op: Op): int {
      if op == Refresh then profile.accessExpire else profile.refreshExpire
    }
  }

  /** The upstream server's status, or none if the request could not be sent. */
  type Answer = Option<nat>

  /** A goroutine, with the answers to its upstream sends, its tallies, and the number of locks taken and released. */
  datatype Goroutine = Goroutine(
    pc: Pc, answers: seq<Answer>, tallies: seq<bool>, turnedAway: bool, locks: nat, unlocks: nat)

  // ----- What a step may do to the shared state -----

  datatype Effect =
    | Nothing
    | CountTotal
    | CountActive
    | TurnAway
    | Send(answer: Answer)
    | Settle(success: bool)
    | Leave
    | Acquire
    | Release
    | Raise(op: Op)
    | Lower(op: Op)
    | Receive
    | Put(info: TokenInfo)
    | WriteAccess(token: string)
    | WriteRefresh(token: string)
    | WriteAccessExpire(expire: int)
    | WriteRefreshExpire(expire: int)

  function Tallied(stats: Stats, effect: Effect): Stats {
    match effect
    case CountTotal => stats.(total := stats.total + 1)
    case CountActive => stats.(active := stats.active + 1)
    case TurnAway => stats.(filtered := stats.filtered + 1)
    case Settle(success) =>
      if success then stats.(success := stats.success + 1) else stats.(errors := stats.errors + 1)
    case Leave => stats.(active := stats.active - 1)
    case _ => stats
  }

  function Written(profile: Profile, effect: Effect): Profile {
    match effect
    case WriteAccess(token) => profile.(access := token)
    case WriteRefresh(token) => profile.(refresh := token)
    case WriteAccessExpire(expire) => profile.(accessExpire := expire)
    case WriteRefreshExpire(expire) => profile.(refreshExpire := expire)
    case _ => profile
  }

  /** What the profile holds enters the history when the expiry of the access token is written. */
  function Recorded(issues: seq<Issue>, profile: Profile, effect: Effect): seq<Issue> {
    if effect.WriteAccessExpire? then issues + [Issue(profile.access, profile.refresh, effect.expire)] else issues
  }

  function Apply(id: nat, s: Shared, effect: Effect): Shared {
    match effect
    case Nothing => s
    case Acquire => s.(lock := Some(id))
    case Release => s.(lock := None, fault := s.fault || s.lock != Some(id))
    case Raise(op) => s.SetFlag(op, true)
    case Lower(op) => s.SetFlag(op, false)
    case Receive => s.(channel := None)
    case Put(info) => s.(channel := Some(info))
    case CountTotal => s.(stats := Tallied(s.stats, effect))
    case CountActive => s.(stats := Tallied(s.stats, effect))
    case TurnAway => s.(stats := Tallied(s.stats, effect))
    case Settle(_) => s.(stats := Tallied(s.stats, effect))
    case Leave => s.(stats := Tallied(s.stats, effect))
    case Send(_) => s
    case _ => s.(profile := Written(s.profile, effect), issues := Recorded(s.issues, s.profile, effect))
  }

  function Book(g: Goroutine, effect: Effect, next: Pc): Goroutine {
    match effect
    case TurnAway => g.(pc := next, turnedAway := true)
    case Send(answer) => g.(pc := next, answers := g.answers + [answer])
    case Settle(success) => g.(pc := next, tallies := g.tallies + [success])
    case Acquire => g.(pc := next, locks := g.locks + 1)
    case Release => g.(pc := next, unlocks := g.unlocks + 1)
    case _ => g.(pc := next)
  }

  // ----- The steps of one goroutine; none where it is finished, or blocked in this state under this choice -----

  datatype Step = Step(effect: Effect, next: Pc)

  /** ServeMCPProxyRequest, up to the calls it makes. */
  function RequestStep(s: Shared, pc: RequestPc, choice: Choice): Option<Step> {
    match pc
    case Arriving => Some(Step(CountTotal, InRequest(Counted)))
    case Counted => Some(Step(CountActive, InRequest(Filtering)))
    case Filtering =>
      if choice == Refuse then Some(Step(TurnAway, InRequest(Leaving))) else Some(Step(Nothing, InRequest(Admission)))
    case Admission =>
      Some(Step(Nothing, if s.stopping || choice == Refuse then InRequest(Tally(false)) else InToken(false, TakingToken)))
    case ReadingBody(token) =>
      Some(Step(Nothing, InRequest(if choice == Refuse then Tally(false) else Sending(false, token))))
    case Sending(second, _) =>
      var next :=
        if !choice.Status? then Tally(false)
        else if choice.code == 401 then (if second then Tally(false) else OnUnauthorized)
        else Tally(choice.code < 400);
      Some(Step(Send(if choice.Status? then Some(choice.code) else None), InRequest(next)))
    case OnUnauthorized =>
      if s.lock != None then None
      else Some(Step(Nothing, InCall(Unauthorized, if s.profile.refreshExpire > s.now then Refresh else Reauthorize, Entering)))
    case Tally(success) => Some(Step(Settle(success), InRequest(Leaving)))
    case Leaving => Some(Step(Leave, InRequest(Finished)))
    case Finished => None
  }

  function WithToken(second: bool, token: string): Pc {
    InRequest(if second then Sending(true, token) else ReadingBody(token))
  }

  /** getMCPAccessToken. */
  function TokenStep(s: Shared, second: bool, pc: TokenPc, choice: Choice): Option<Step> {
    match pc
    case TakingToken =>
      if s.channel.Some? then Some(Step(Receive, InToken(second, CheckingToken(s.channel.value))))
      else Some(Step(Nothing, InToken(second, ReadingToken)))
    case ReadingToken =>
      if s.lock != None then None else Some(Step(Nothing, InToken(second, CheckingToken(s.profile.Info()))))
    case CheckingToken(info) =>
      if info.expiresAt > s.now then Some(Step(Nothing, InToken(second, PuttingBack(info))))
      else Some(Step(Nothing, InCall(if second then SecondToken else FirstToken, Refresh, Entering)))
    case PuttingBack(info) =>
      Some(Step(if s.channel.None? then Put(info) else Nothing, WithToken(second, info.token)))
    case AwaitingToken =>
      if choice == Timeout then Some(Step(Nothing, InRequest(Tally(false))))
      else if s.channel.None? then None
      else Some(Step(Receive, WithToken(second, s.channel.value.token)))
  }

  /** The ticker and checkAndRefresh. */
  function TickerStep(s: Shared, pc: TickerPc): Option<Step> {
    match pc
    case Idle => Some(Step(Nothing, InTicker(Inspecting)))
    case Inspecting =>
      if s.lock != None then None
      else
        var next :=
          if s.profile.refreshExpire - s.now < REFRESH_TOKEN_REFRESH_WINDOW then InCall(Ticker, Reauthorize, Entering)
          else if s.profile.accessExpire - s.now < ACCESS_TOKEN_REFRESH_WINDOW then InCall(Ticker, Refresh, Entering)
          else InTicker(Idle);
        Some(Step(Nothing, next))
  }

  /** refreshAccessToken and reauthorizeWithProxy up to the answer of the OAuth server, and the waiting for others. */
  function CallStep(s: Shared, c: Caller, op: Op, pc: CallPc, choice: Choice): Option<Step> {
    match pc
    case Entering => if s.lock != None then None else Some(Step(Acquire, InCall(c, op, Entered)))
    case Entered =>
      if s.Flag(op) then Some(Step(Nothing, InCall(c, op, Joining(s.Expire(op), s.Expire(op) > s.now))))
      else Some(Step(Raise(op), InCall(c, op, Started)))
    case Joining(seen, valid) => Some(Step(Release, InCall(c, op, if valid then Returning(true) else Waiting(seen))))
    case Waiting(seen) =>
      if choice == Timeout then Some(Step(Nothing, InCall(c, op, Returning(false))))
      else if s.lock != None then None
      else Some(Step(Nothing, InCall(c, op, if !s.Flag(op) && s.Expire(op) > seen then Returning(true) else Waiting(seen))))
    case Started => Some(Step(Release, InCall(c, op, Calling(1))))
    case Calling(attempt) =>
      var next :=
        if choice.Granted? then Storing(choice.access, choice.refresh, choice.expires)
        else if op == Refresh && choice != Permanent && attempt < MAX_OAUTH_ATTEMPTS then Calling(attempt + 1)
        else Failing(choice == Permanent);
      Some(Step(Nothing, InCall(c, op, next)))
    case Failing(permanent) => if s.lock != None then None else Some(Step(Acquire, InCall(c, op, Clearing(permanent))))
    case Clearing(permanent) => Some(Step(Lower(op), InCall(c, op, Cleared(permanent))))
    case Cleared(permanent) =>
      var next := if op == Refresh then Judging(permanent, s.profile.accessExpire) else Returning(false);
      Some(Step(Release, InCall(c, op, next)))
    case Judging(permanent, expire) =>
      Some(Step(Nothing, InCall(c, op, Returning(!permanent && expire - s.now > 0))))
    case _ => StoreStep(s, c, op, pc, choice)
  }

  /** Their ends: the profile is written one field at a time and saved, and sendToken offers its token. */
  function StoreStep(s: Shared, c: Caller, op: Op, pc: CallPc, choice: Choice): Option<Step> {
    match pc
    case Storing(access, refresh, expires) =>
      if s.lock != None then None
      else
        var issue := Issue(access, refresh, if op == Refresh then s.now + expires else expires);
        Some(Step(Acquire, InCall(c, op, Writing(0, issue, s.now + s.profile.refreshValidity))))
    case Writing(k, issue, refreshExpire) =>
      var next := InCall(c, op, Writing(k + 1, issue, refreshExpire));
      if k == 0 then Some(Step(WriteAccess(issue.access), next))
      else if k == 1 then Some(Step(WriteRefresh(issue.refresh), next))
      else if k == 2 then Some(Step(WriteAccessExpire(issue.accessExpire), next))
      else if k == 3 && op == Reauthorize then Some(Step(WriteRefreshExpire(refreshExpire), next))
      else Some(Step(Lower(op), InCall(c, op, Saving(1))))
    case Saving(attempt) =>
      var next :=
        if choice != Refuse then Saved(true)
        else if attempt == MAX_SAVE_FAILURES then Saved(false)
        else Saving(attempt + 1);
      Some(Step(Nothing, InCall(c, op, next)))
    case Saved(ok) => Some(Step(Release, InCall(c, op, if ok then Announcing else Returning(false))))
    case Announcing => if s.lock != None then None else Some(Step(Nothing, InCall(c, op, Offering(s.profile.Info()))))
    case Offering(info) =>
      if s.channel.None? then Some(Step(Put(info), InCall(c, op, Returning(true))))
      else Some(Step(Nothing, InCall(c, op, Draining(info))))
    case Draining(info) => Some(Step(Receive, InCall(c, op, Pushing(info))))
    case Pushing(info) =>
      if s.channel.Some? then None else Some(Step(Put(info), InCall(c, op, Returning(true))))
    case Returning(ok) => Some(Step(Nothing, AfterCall(c, ok)))
    case _ => None
  }

  function AfterCall(c: Caller, ok: bool): Pc {
    match c
    case FirstToken => if ok then InToken(false, AwaitingToken) else InRequest(Tally(false))
    case SecondToken => if ok then InToken(true, AwaitingToken) else InRequest(Tally(false))
    case Unauthorized => if ok then InToken(true, TakingToken) else InRequest(Tally(false))
    case Ticker => InTicker(Idle)
  }

  function StepOf(s: Shared, pc: Pc, choice: Choice): Option<Step> {
    match pc
    case InRequest(at) => RequestStep(s, at, choice)
    case InToken(second, at) => TokenStep(s, second, at, choice)
    case InTicker(at) => TickerStep(s, at)
    case InCall(c, op, at) => CallStep(s, c, op, at, choice)
  }

  // ----- The system -----

  datatype State = State(shared: Shared, gs: seq<Goroutine>)

  datatype Action = Run(id: nat, choice: Choice) | Elapse(seconds: nat) | Stop

  /** What follows an action; none if the action is not possible. */
  function Next(s: State, action: Action): Option<State> {
    match action
    case Elapse(seconds) => Some(s.(shared := s.shared.(now := s.shared.now + seconds)))
    case Stop => Some(s.(shared := s.shared.(stopping := true)))
    case Run(id, choice) =>
      if id >= |s.gs| then None
      else
        match StepOf(s.shared, s.gs[id].pc, choice)
        case None => None
        case Some(step) => Some(State(Apply(id, s.shared, step.effect), s.gs[id := Book(s.gs[id], step.effect, step.next)]))
  }

  /** A request that will arrive, or a ticker that will start by sending the token of the profile. */
  predicate IsFresh(g: Goroutine) {
    (g.pc == InRequest(Arriving) || g.pc == InCall(Ticker, Refresh, Announcing)) && g == Goroutine(g.pc, [], [], false, 0, 0)
  }

  /** Before anything runs. */
  predicate IsInitial(s: State) {
    && (forall i :: 0 <= i < |s.gs| ==> IsFresh(s.gs[i]))
    && s.shared.lock == None && !s.shared.refreshing && !s.shared.reauthorizing && s.shared.channel == None
    && s.shared.stats == Stats(0, 0, 0, 0, 0) && !s.shared.fault
    && var profile := s.shared.profile;
       s.shared.issues == [Issue(profile.access, profile.refresh, profile.accessExpire)]
  }

  /** The states of a run, one more than its actions. */
  predicate IsRun(states: seq<State>, actions: seq<Action>) {
    && |states| == |actions| + 1 && IsInitial(states[0])
    && forall i :: 0 <= i < |actions| ==> Next(states[i], actions[i]) == Some(states[i + 1])
  }

  // ----- What program counters say -----

  predicate Holds(pc: Pc) {
    pc.InCall? &&
    match pc.call
    case Entered | Joining(_, _) | Started | Clearing(_) | Cleared(_) | Writing(_, _, _) | Saving(_) | Saved(_) => true
    case _ => false
  }

  /** Between setting the flag of the operation and clearing it. */
  predicate InPhase(op: Op, pc: Pc) {
    pc.InCall? && pc.op == op &&
    match pc.call
    case Started | Calling(_) | Failing(_) | Clearing(_) | Storing(_, _, _) | Writing(_, _, _) => true
    case _ => false
  }

  /** A request that is counted, and neither tallied nor turned away. */
  predicate Untallied(pc: Pc) {
    match pc
    case InRequest(at) => !at.Arriving? && !at.Leaving? && !at.Finished?
    case InToken(_, _) => true
    case InTicker(_) => false
    case InCall(c, _, _) => c != Ticker
  }

  predicate IsActive(pc: Pc) {
    match pc
    case InRequest(at) => !at.Arriving? && !at.Counted? && !at.Finished?
    case InToken(_, _) => true
    case InTicker(_) => false
    case InCall(c, _, _) => c != Ticker
  }

  /** The upstream answers to a request before its outcome is known. */
  function AnswersSoFar(pc: Pc): seq<Answer> {
    var second :=
      match pc
      case InRequest(at) => at.OnUnauthorized? || (at.Sending? && at.second)
      case InToken(second, _) => second
      case InTicker(_) => false
      case InCall(c, _, _) => c == SecondToken || c == Unauthorized;
    if second then [Some(401)] else []
  }

  /** The upstream server was reached last with a status below 400. */
  predicate IsGood(answers: seq<Answer>) {
    answers != [] && answers[|answers| - 1].Some? && answers[|answers| - 1].value < 400
  }

  /** The token a goroutine has taken from the channel or read from the profile. */
  function InfoOf(pc: Pc): Option<TokenInfo> {
    match pc
    case InToken(_, at) => if at.CheckingToken? || at.PuttingBack? then Some(at.info) else None
    case InCall(_, _, at) => if at.Offering? || at.Draining? || at.Pushing? then Some(at.info) else None
    case _ => None
  }

  /** The token a request is going to send. */
  function SendTokenOf(pc: Pc): Option<string> {
    match pc
    case InRequest(at) => if at.ReadingBody? || at.Sending? then Some(at.token) else None
    case _ => None
  }

  // ----- Saving the profile -----

  /** Tries to save up to maxAttempts times; saves tells how each attempt ends. After as many failures it gives up, once.
      With no attempt allowed it reports success without having saved. */
  method RetrySaveProfile(saves: seq<bool>, maxAttempts: int) returns (saved: bool, attempts: nat, givenUp: nat)
    requires maxAttempts <= |saves|
    ensures saved <==> maxAttempts <= 0 || exists k :: 0 <= k < maxAttempts && saves[k]
    ensures attempts <= |saves| && forall k :: 0 <= k < attempts - 1 ==> !saves[k]
    ensures attempts == 0 <==> maxAttempts <= 0
    ensures attempts > 0 ==> if saved then saves[attempts - 1] else attempts == maxAttempts
    ensures givenUp == if saved then 0 else 1
  {
    saved, givenUp, attempts := true, 0, 0;
    var attempt := 1;
    while attempt <= maxAttempts
      invariant saved && givenUp == 0 && attempts == attempt - 1
      invariant if maxAttempts <= 0 then attempt == 1 else attempt <= maxAttempts
      invariant forall k :: 0 <= k < attempts ==> !saves[k]
    {
      attempts := attempts + 1;
      if saves[attempt - 1] {
        return;
      }
      if attempt == maxAttempts {
        saved, givenUp := false, 1;
        return;
      }
      attempt := attempt + 1;
    }
  }

  /** The steps of the transition system from an attempt on, when saving ends as saves tells: the place they come to. */
  function SavingEnds(s: Shared, c: Caller, op: Op, attempt: nat, saves: seq<bool>): Pc
    requires 1 <= attempt <= MAX_SAVE_FAILURES <= |saves|
    decreases MAX_SAVE_FAILURES - attempt
  {
    var step := StoreStep(s, c, op, Saving(attempt), if saves[attempt - 1] then Proceed else Refuse).value;
    if step.next.call.Saving? && attempt < step.next.call.attempt <= MAX_SAVE_FAILURES
    then SavingEnds(s, c, op, step.next.call.attempt, saves)
    else step.next
  }

  /** These steps are the retry loop: they come to the end that RetrySaveProfile reports for the same attempts. */
  lemma {:induction false} SavingFollowsRetry(s: Shared, c: Caller, op: Op, attempt: nat, saves: seq<bool>)
    requires 1 <= attempt <= MAX_SAVE_FAILURES <= |saves|
    ensures SavingEnds(s, c, op, attempt, saves) ==
      InCall(c, op, Saved(exists k :: attempt - 1 <= k < MAX_SAVE_FAILURES && saves[k]))
    decreases MAX_SAVE_FAILURES - attempt
  {
    if !saves[attempt - 1] && attempt < MAX_SAVE_FAILURES {
      SavingFollowsRetry(s, c, op, attempt + 1, saves);
    }
  }
}
