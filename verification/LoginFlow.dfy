/** One login attempt after another: the lock, the one-time code, the password, and what each leaves behind. */
module LoginFlow {
  import opened Types
  import opened Text
  import opened LoginPolicy
  import opened Totp

  /** The collaborators' answers to one submission. The clock is read at `lockAt` for the lock, at `checkAt` and
      `guardAt` for the code, and at `failAt` and `stateAt` when a failure is recorded. */
  datatype Submission = Submission(
    resolved: Result<Option<string>>, code: string, access: SecretAccess, password: Result<bool>, profile: Result<()>,
    lockAt: int, checkAt: int, guardAt: int, failAt: int, stateAt: int, lookups: nat, updates: nat)

  /** The same for the first step of the sign-in dialog, which asks for the password alone. */
  datatype PasswordStep = PasswordStep(
    resolved: Result<Option<string>>, verified: Result<bool>, enrolled: Result<bool>, derived: Result<bool>,
    profile: Result<()>,
    lockAt: int, failAt: int, stateAt: int, lookups: nat, updates: nat)

  datatype Outcome =
    | InvalidCredentials(remaining: int) | Locked(remaining: int) | InvalidTotp(remaining: int) | RequiresTotp | Success

  datatype LoginState = LoginState(rows: Rows, guard: Guard)

  function PresentationOf(username: string, a: Submission): Presentation {
    Presentation(username, a.code, a.access, a.checkAt, a.guardAt)
  }

  function Fail(s: LoginState, username: string, failAt: int, stateAt: int, updates: nat, asTotp: bool)
    : (LoginState, Result<Outcome>)
  {
    var (rows, r) := RecordFailure(s.rows, username, failAt, stateAt, updates);
    (s.(rows := rows), match r
      case Err(e) => Err(e)
      case Ok(state) => Ok(if asTotp then InvalidTotp(state.remaining) else InvalidCredentials(state.remaining)))
  }

  /** The steps after the code check. */
  function AfterCode(s: LoginState, username: string, a: Submission): (LoginState, Result<Outcome>) {
    match a.password
    case Err(e) => (s, Err(e))
    case Ok(false) => Fail(s, username, a.failAt, a.stateAt, a.updates, false)
    case Ok(true) =>
      match a.profile
      case Err(e) => (s, Err(e))
      case Ok(_) =>
        var (rows, r) := ResetFailures(s.rows, username, a.updates);
        (s.(rows := rows), match r case Err(e) => Err(e) case Ok(_) => Ok(Success))
  }

  /** The steps after the lock check. */
  function Authenticate(codes: CodeTable, s: LoginState, username: string, a: Submission)
    : (LoginState, Result<Outcome>)
  {
    if !IsValidCode(a.code) then Fail(s, username, a.failAt, a.stateAt, a.updates, true)
    else
      var (guard, totp) := Verify(codes, s.guard, PresentationOf(username, a));
      var checked := s.(guard := guard);
      match totp
      case Err(e) => (checked, Err(e))
      case Ok(false) => Fail(checked, username, a.failAt, a.stateAt, a.updates, true)
      case Ok(true) => AfterCode(checked, username, a)
  }

  function Attempt(codes: CodeTable, s: LoginState, a: Submission): (LoginState, Result<Outcome>) {
    match a.resolved
    case Err(e) => (s, Err(e))
    case Ok(None) => (s, Ok(InvalidCredentials(0)))
    case Ok(Some(username)) =>
      var (rows, r) := GetState(s.rows, username, a.lockAt, a.lookups);
      var looked := s.(rows := rows);
      match r
      case Err(e) => (looked, Err(e))
      case Ok(state) =>
        if IsLocked(state) then (looked, Ok(Locked(state.remaining))) else Authenticate(codes, looked, username, a)
  }

  method SubmitLogin(policy: AuthPolicyService, totp: TotpService, a: Submission) returns (r: Result<Outcome>)
    modifies policy, totp
    ensures (LoginState(policy.rows, totp.replayGuard), r) ==
      Attempt(totp.codes, LoginState(old(policy.rows), old(totp.replayGuard)), a)
  {
    match a.resolved {
      case Err(e) => return Err(e);
      case Ok(None) => return Ok(InvalidCredentials(0));
      case Ok(Some(username)) =>
        var locked := policy.State(username, a.lockAt, a.lookups);
        match locked {
          case Err(e) => return Err(e);
          case Ok(state) =>
            if IsLocked(state) { return Ok(Locked(state.remaining)); }
        }
        if !IsValidCode(a.code) {
          r := RecordAs(policy, username, a.failAt, a.stateAt, a.updates, true);
          return;
        }
        var totpOk := totp.VerifyLogin(PresentationOf(username, a));
        match totpOk {
          case Err(e) => return Err(e);
          case Ok(false) =>
            r := RecordAs(policy, username, a.failAt, a.stateAt, a.updates, true);
            return;
          case Ok(true) =>
        }
        match a.password {
          case Err(e) => return Err(e);
          case Ok(false) =>
            r := RecordAs(policy, username, a.failAt, a.stateAt, a.updates, false);
            return;
          case Ok(true) =>
        }
        match a.profile {
          case Err(e) => return Err(e);
          case Ok(_) =>
            var cleared := policy.ResetFailedAttempts(username, a.updates);
            match cleared {
              case Err(e) => return Err(e);
              case Ok(_) => return Ok(Success);
            }
        }
    }
  }

  method RecordAs(policy: AuthPolicyService, username: string, failAt: int, stateAt: int, updates: nat, asTotp: bool)
    returns (r: Result<Outcome>)
    modifies policy
    ensures forall guard ::
      (LoginState(policy.rows, guard), r) ==
      Fail(LoginState(old(policy.rows), guard), username, failAt, stateAt, updates, asTotp)
  {
    var recorded := policy.RecordFailedAttempt(username, failAt, stateAt, updates);
    match recorded {
      case Err(e) => return Err(e);
      case Ok(state) => return Ok(if asTotp then InvalidTotp(state.remaining) else InvalidCredentials(state.remaining));
    }
  }

  // ---- the password step ----

  function CheckVerified(s: LoginState, username: string, b: PasswordStep): (LoginState, Result<Outcome>) {
    match b.verified
    case Err(e) => (s, Err(e))
    case Ok(false) => Fail(s, username, b.failAt, b.stateAt, b.updates, false)
    case Ok(true) =>
      match b.enrolled
      case Err(e) => (s, Err(e))
      case Ok(true) => (s, Ok(RequiresTotp))
      case Ok(false) =>
        match b.derived
        case Err(e) => (s, Err(e))
        case Ok(false) => (s, Err(Denied))
        case Ok(true) =>
          match b.profile
          case Err(e) => (s, Err(e))
          case Ok(_) =>
            var (rows, r) := ResetFailures(s.rows, username, b.updates);
            (s.(rows := rows), match r case Err(e) => Err(e) case Ok(_) => Ok(Success))
  }

  /** The password step: it hands an enrolled user on to the code, and logs any other user in. */
  function TryPassword(s: LoginState, b: PasswordStep): (LoginState, Result<Outcome>) {
    match b.resolved
    case Err(e) => (s, Err(e))
    case Ok(None) => (s, Ok(InvalidCredentials(0)))
    case Ok(Some(username)) =>
      var (rows, r) := GetState(s.rows, username, b.lockAt, b.lookups);
      var looked := s.(rows := rows);
      match r
      case Err(e) => (looked, Err(e))
      case Ok(state) =>
        if IsLocked(state) then (looked, Ok(Locked(state.remaining))) else CheckVerified(looked, username, b)
  }

  method SubmitPassword(policy: AuthPolicyService, b: PasswordStep) returns (r: Result<Outcome>)
    modifies policy
    ensures forall guard ::
      (LoginState(policy.rows, guard), r) == TryPassword(LoginState(old(policy.rows), guard), b)
  {
    match b.resolved {
      case Err(e) => return Err(e);
      case Ok(None) => return Ok(InvalidCredentials(0));
      case Ok(Some(username)) =>
        var locked := policy.State(username, b.lockAt, b.lookups);
        match locked {
          case Err(e) => return Err(e);
          case Ok(state) =>
            if IsLocked(state) { return Ok(Locked(state.remaining)); }
        }
        match b.verified {
          case Err(e) => return Err(e);
          case Ok(false) =>
            r := RecordAs(policy, username, b.failAt, b.stateAt, b.updates, false);
            return;
          case Ok(true) =>
        }
        match b.enrolled {
          case Err(e) => return Err(e);
          case Ok(true) => return Ok(RequiresTotp);
          case Ok(false) =>
        }
        match b.derived {
          case Err(e) => return Err(e);
          case Ok(false) => return Err(Denied);
          case Ok(true) =>
        }
        match b.profile {
          case Err(e) => return Err(e);
          case Ok(_) =>
            var cleared := policy.ResetFailedAttempts(username, b.updates);
            match cleared {
              case Err(e) => return Err(e);
              case Ok(_) => return Ok(Success);
            }
        }
    }
  }

  // ---- what one attempt does to the counters ----

  function Failures(rows: Rows, username: string): int {
    if username in rows then rows[username].failed else 0
  }

  predicate SameCounter(before: Rows, after: Rows, username: string) {
    Failures(after, username) == Failures(before, username) &&
    (username in before ==> username in after && after[username] == before[username])
  }

  /** The failure of `username` was written, whether or not the call then returned normally. */
  predicate Counted(before: Rows, after: Rows, username: string, failAt: int) {
    Failures(after, username) == Failures(before, username) + 1 && username in after
      && after[username].last == Some(failAt)
  }

  function LockAt(rows: Rows, username: string, at: int): int {
    if username in rows then RemainingLock(rows[username].failed, rows[username].last, at) else 0
  }

  /** Recording touches one counter, and an `Ok` means that the failure of a named user was written. */
  lemma RecordOutcome(s: LoginState, name: string, failAt: int, stateAt: int, updates: nat, asTotp: bool,
                      username: string)
    ensures var (s', r) := Fail(s, name, failAt, stateAt, updates, asTotp);
      && s'.guard == s.guard
      && (name != username || Trim(name) == [] ==> SameCounter(s.rows, s'.rows, username))
      && (SameCounter(s.rows, s'.rows, username) || Counted(s.rows, s'.rows, username, failAt))
      && (r.Ok? && name == username && Trim(name) != [] ==> Counted(s.rows, s'.rows, username, failAt))
      && (r.Ok? ==> r.value.InvalidTotp? || r.value.InvalidCredentials?)
  {
  }

  /** What an announced outcome says of the counter of the user it concerns. */
  ghost predicate Announced(before: Rows, after: Rows, o: Outcome, failAt: int, username: string) {
    match o
    case Success => Failures(after, username) == 0
    case Locked(_) => SameCounter(before, after, username)
    case RequiresTotp => SameCounter(before, after, username)
    case InvalidTotp(_) => Counted(before, after, username, failAt)
    case InvalidCredentials(_) => Counted(before, after, username, failAt)
  }

  predicate Cleared(after: Rows, r: Result<Outcome>, username: string) {
    r == Ok(Success) && username in after && after[username] == PolicyRow(0, None)
  }

  /** What the steps after the lock check may do to the counter of `username`: count, clear or nothing. */
  ghost predicate CounterStep(before: Rows, after: Rows, r: Result<Outcome>, name: string, failAt: int,
                              username: string) {
    && (SameCounter(before, after, username) || Counted(before, after, username, failAt) || Cleared(after, r, username))
    && (name != username || Trim(name) == [] ==> SameCounter(before, after, username))
    && (r.Ok? && name == username && Trim(name) != [] ==> Announced(before, after, r.value, failAt, username))
  }

  lemma AfterCodeOutcome(s: LoginState, name: string, a: Submission, username: string)
    ensures var (s', r) := AfterCode(s, name, a); CounterStep(s.rows, s'.rows, r, name, a.failAt, username)
  {
    RecordOutcome(s, name, a.failAt, a.stateAt, a.updates, false, username);
  }

  lemma AuthenticateOutcome(codes: CodeTable, s: LoginState, name: string, a: Submission, username: string)
    ensures var (s', r) := Authenticate(codes, s, name, a); CounterStep(s.rows, s'.rows, r, name, a.failAt, username)
  {
    var checked := s.(guard := Verify(codes, s.guard, PresentationOf(name, a)).0);
    RecordOutcome(s, name, a.failAt, a.stateAt, a.updates, true, username);
    RecordOutcome(checked, name, a.failAt, a.stateAt, a.updates, true, username);
    AfterCodeOutcome(checked, name, a, username);
  }

  lemma VerifiedOutcome(s: LoginState, name: string, b: PasswordStep, username: string)
    ensures var (s', r) := CheckVerified(s, name, b);
      s'.guard == s.guard && CounterStep(s.rows, s'.rows, r, name, b.failAt, username)
  {
    RecordOutcome(s, name, b.failAt, b.stateAt, b.updates, false, username);
  }

  /** A call counts a failure, clears the counter or leaves it alone, and only for the name it resolves to; a failure is
      counted only for a user who was not locked, and a failure announced is a failure counted. */
  ghost predicate CountsRightly(before: Rows, after: Rows, r: Result<Outcome>, resolved: Result<Option<string>>,
                                lockAt: int, failAt: int, username: string) {
    && (|| SameCounter(before, after, username)
        || (&& Counted(before, after, username, failAt)
            && !IsLocked(PolicyState(Failures(before, username), LockAt(before, username, lockAt))))
        || Cleared(after, r, username))
    && (resolved != Ok(Some(username)) ==> SameCounter(before, after, username))
    && (resolved == Ok(Some(username)) && Trim(username) != [] && r.Ok? ==>
          Announced(before, after, r.value, failAt, username))
  }

  lemma AttemptOutcome(codes: CodeTable, s: LoginState, a: Submission, username: string)
    ensures var (s', r) := Attempt(codes, s, a);
      CountsRightly(s.rows, s'.rows, r, a.resolved, a.lockAt, a.failAt, username)
  {
    match a.resolved
    case Ok(Some(name)) =>
      var looked := s.(rows := GetState(s.rows, name, a.lockAt, a.lookups).0);
      assert SameCounter(s.rows, looked.rows, username);
      AuthenticateOutcome(codes, looked, name, a, username);
    case _ =>
  }

  lemma PasswordOutcome(s: LoginState, b: PasswordStep, username: string)
    ensures var (s', r) := TryPassword(s, b);
      s'.guard == s.guard && CountsRightly(s.rows, s'.rows, r, b.resolved, b.lockAt, b.failAt, username)
  {
    match b.resolved
    case Ok(Some(name)) =>
      var looked := s.(rows := GetState(s.rows, name, b.lockAt, b.lookups).0);
      assert SameCounter(s.rows, looked.rows, username);
      VerifiedOutcome(looked, name, b, username);
    case _ =>
  }

  // ---- runs ----

  /** Both steps of the dialog. Counters are stored; the replay cache is lost with the process. */
  datatype LoginEvent = Submit(a: Submission) | CheckPassword(b: PasswordStep) | ProcessRestart

  function StepLogin(codes: CodeTable, s: LoginState, e: LoginEvent): LoginState {
    match e
    case Submit(a) => Attempt(codes, s, a).0
    case CheckPassword(b) => TryPassword(s, b).0
    case ProcessRestart => s.(guard := map[])
  }

  function After(codes: CodeTable, es: seq<LoginEvent>): LoginState {
    if es == [] then LoginState(map[], map[]) else StepLogin(codes, After(codes, es[..|es| - 1]), es[|es| - 1])
  }

  function FailTime(e: LoginEvent): int {
    match e
    case Submit(a) => a.failAt
    case CheckPassword(b) => b.failAt
    case ProcessRestart => 0
  }

  function LockTime(e: LoginEvent): int {
    match e
    case Submit(a) => a.lockAt
    case CheckPassword(b) => b.lockAt
    case ProcessRestart => 0
  }

  function EndTime(e: LoginEvent): int {
    match e
    case Submit(a) => a.stateAt
    case CheckPassword(b) => b.stateAt
    case ProcessRestart => 0
  }

  /** When the failures of `username` that were counted since its counter was last cleared were recorded. */
  function FailureTimes(codes: CodeTable, es: seq<LoginEvent>, username: string): seq<int> {
    if es == [] then []
    else
      var head, e := es[..|es| - 1], es[|es| - 1];
      var earlier := FailureTimes(codes, head, username);
      var n, m := Failures(After(codes, head).rows, username), Failures(After(codes, es).rows, username);
      if m == n + 1 then earlier + [FailTime(e)] else if m == n then earlier else []
  }

  ghost predicate ReadingsForward(e: LoginEvent) {
    match e
    case Submit(a) => a.lockAt <= a.checkAt <= a.guardAt <= a.failAt <= a.stateAt
    case CheckPassword(b) => b.lockAt <= b.failAt <= b.stateAt
    case ProcessRestart => true
  }

  ghost predicate ClockForward(es: seq<LoginEvent>) {
    && (forall i :: 0 <= i < |es| ==> ReadingsForward(es[i]))
    && (forall i, j :: 0 <= i < j < |es| && !es[i].ProcessRestart? && !es[j].ProcessRestart? ==>
          EndTime(es[i]) <= LockTime(es[j]))
  }

  /** From the fifth failure on, consecutive failures are a whole lock window apart. */
  ghost predicate Spaced(ts: seq<int>) {
    && (forall i, j :: 0 <= i <= j < |ts| ==> ts[i] <= ts[j])
    && (forall i :: MAX_FAILED_ATTEMPTS <= i < |ts| ==> ts[i] - ts[i - 1] >= LOCK_WINDOW_SECS)
  }

  /** The stored counter is the number of failures since it was cleared, and the stored time that of the latest; and
      those failures are spaced. */
  lemma {:induction false} CounterIsHistory(codes: CodeTable, es: seq<LoginEvent>, username: string, now: int)
    requires ClockForward(es) && forall i :: 0 <= i < |es| && !es[i].ProcessRestart? ==> EndTime(es[i]) <= now
    ensures var ts, rows := FailureTimes(codes, es, username), After(codes, es).rows;
      && |ts| == Failures(rows, username) && Spaced(ts)
      && (ts != [] ==> rows[username].last == Some(ts[|ts| - 1]) && ts[|ts| - 1] <= now)
  {
    if es != [] {
      var n := |es| - 1;
      var head, e := es[..n], es[n];
      if e.ProcessRestart? {
        CounterIsHistory(codes, head, username, now);
      } else {
        CounterIsHistory(codes, head, username, LockTime(e));
        EventOutcome(codes, After(codes, head), e, username);
        var before := After(codes, head).rows;
        if Counted(before, After(codes, es).rows, username, FailTime(e)) {
          SpacedExtends(FailureTimes(codes, head, username), before, e, username);
        }
      }
    }
  }

  /** Either step of the dialog, for the counter of one user. */
  lemma EventOutcome(codes: CodeTable, s: LoginState, e: LoginEvent, username: string)
    requires !e.ProcessRestart?
    ensures var after := StepLogin(codes, s, e).rows;
      || SameCounter(s.rows, after, username)
      || (&& Counted(s.rows, after, username, FailTime(e))
          && !IsLocked(PolicyState(Failures(s.rows, username), LockAt(s.rows, username, LockTime(e)))))
      || (username in after && after[username] == PolicyRow(0, None))
  {
    match e
    case Submit(a) => AttemptOutcome(codes, s, a, username);
    case CheckPassword(b) => PasswordOutcome(s, b, username);
  }

  /** A failure recorded by a step that found the user unlocked keeps the spacing. */
  lemma SpacedExtends(ts: seq<int>, rows: Rows, e: LoginEvent, username: string)
    requires Spaced(ts) && |ts| == Failures(rows, username) && ReadingsForward(e) && !e.ProcessRestart?
    requires ts != [] ==> rows[username].last == Some(ts[|ts| - 1]) && ts[|ts| - 1] <= LockTime(e)
    requires !IsLocked(PolicyState(Failures(rows, username), LockAt(rows, username, LockTime(e))))
    ensures Spaced(ts + [FailTime(e)])
  {
  }

  lemma FailuresAreSpaced(codes: CodeTable, es: seq<LoginEvent>, username: string)
    requires ClockForward(es)
    ensures Spaced(FailureTimes(codes, es, username))
  {
    CounterIsHistory(codes, es, username, LatestReading(es));
  }

  /** Failures `i` to `j` number at most 5 + T/300, where T is the seconds between them. */
  ghost predicate WithinRate(ts: seq<int>, i: nat, j: nat)
    requires i <= j < |ts|
  {
    j - i + 1 <= MAX_FAILED_ATTEMPTS + (ts[j] - ts[i]) / LOCK_WINDOW_SECS
  }

  /** Main result. In any run from the first start on, across process restarts, the failures of a user that were
      recorded with no success between them number at most 5 + T/300 within any T seconds. */
  lemma FailureBound(codes: CodeTable, es: seq<LoginEvent>, username: string)
    requires ClockForward(es)
    ensures var ts := FailureTimes(codes, es, username); forall i: nat, j: nat :: i <= j < |ts| ==> WithinRate(ts, i, j)
  {
    FailuresAreSpaced(codes, es, username);
    SpacedRates(FailureTimes(codes, es, username));
  }

  lemma SpacedRates(ts: seq<int>)
    requires Spaced(ts)
    ensures forall i: nat, j: nat :: i <= j < |ts| ==> WithinRate(ts, i, j)
  {
    forall i: nat, j: nat | i <= j < |ts| ensures WithinRate(ts, i, j) {
      SpacedBound(ts, i, j);
    }
  }

  lemma {:induction false} SpacedBound(ts: seq<int>, i: nat, j: nat)
    requires Spaced(ts) && i <= j < |ts|
    ensures WithinRate(ts, i, j)
  {
    if i < j && j >= MAX_FAILED_ATTEMPTS {
      SpacedBound(ts, i, j - 1);
    }
  }

  function LatestReading(es: seq<LoginEvent>): (t: int)
    ensures forall i :: 0 <= i < |es| && !es[i].ProcessRestart? ==> EndTime(es[i]) <= t
  {
    if es == [] then 0
    else
      var t := LatestReading(es[..|es| - 1]);
      var e := es[|es| - 1];
      if t < EndTime(e) then EndTime(e) else t
  }

  // ---- the bound is attained ----

  function BurstTime(n: nat): int {
    if n < MAX_FAILED_ATTEMPTS then 0 else (n - MAX_FAILED_ATTEMPTS + 1) * LOCK_WINDOW_SECS
  }

  function WrongPassword(t: int): Submission {
    Submission(Ok(Some("ada")), "000000", NotEnrolled, Ok(false), Ok(()), t, t, t, t, t, 2, 4)
  }

  /** `n` wrong passwords, as early as the lock lets them through. */
  function Burst(n: nat): (es: seq<LoginEvent>)
    ensures |es| == n && forall i :: 0 <= i < n ==> es[i] == Submit(WrongPassword(BurstTime(i)))
  {
    if n == 0 then [] else Burst(n - 1) + [Submit(WrongPassword(BurstTime(n - 1)))]
  }

  predicate BurstRow(rows: Rows, n: nat) {
    if n == 0 then rows == map[] else "ada" in rows && rows["ada"] == PolicyRow(n, Some(BurstTime(n - 1)))
  }

  lemma BurstStep(codes: CodeTable, s: LoginState, n: nat)
    requires BurstRow(s.rows, n)
    ensures BurstRow(Attempt(codes, s, WrongPassword(BurstTime(n))).0.rows, n + 1)
  {
    var a := WrongPassword(BurstTime(n));
    TrimKeeps("ada");
    AttemptOutcome(codes, s, a, "ada");
    if n > 0 { RemainingLockExactly(n, BurstTime(n - 1), a.lockAt); }
    assert IsValidCode(a.code);
    var looked := s.(rows := GetState(s.rows, "ada", a.lockAt, a.lookups).0);
    assert Attempt(codes, s, a) == Authenticate(codes, looked, "ada", a);
  }

  lemma BurstClock(n: nat)
    ensures ClockForward(Burst(n))
  {
    assert forall i, j :: 0 <= i < j < n ==> BurstTime(i) <= BurstTime(j);
  }

  lemma BurstExtends(codes: CodeTable, head: seq<LoginEvent>, n: nat)
    requires BurstRow(After(codes, head).rows, n)
    ensures var es := head + [Submit(WrongPassword(BurstTime(n)))];
      && BurstRow(After(codes, es).rows, n + 1)
      && FailureTimes(codes, es, "ada") == FailureTimes(codes, head, "ada") + [BurstTime(n)]
  {
    var es := head + [Submit(WrongPassword(BurstTime(n)))];
    assert es[..|es| - 1] == head;
    BurstStep(codes, After(codes, head), n);
    assert After(codes, es).rows == Attempt(codes, After(codes, head), WrongPassword(BurstTime(n))).0.rows;
  }

  lemma {:induction false} BurstFailures(codes: CodeTable, n: nat)
    ensures BurstRow(After(codes, Burst(n)).rows, n)
    ensures |FailureTimes(codes, Burst(n), "ada")| == n
    ensures forall i :: 0 <= i < n ==> FailureTimes(codes, Burst(n), "ada")[i] == BurstTime(i)
  {
    if n > 0 {
      BurstFailures(codes, n - 1);
      BurstExtends(codes, Burst(n - 1), n - 1);
    }
  }

  /** `ts` holds as many failures as the bound allows for the time it spans. */
  ghost predicate Attains(ts: seq<int>, n: nat) {
    MAX_FAILED_ATTEMPTS <= n == |ts| && ts[n - 1] - ts[0] == (n - MAX_FAILED_ATTEMPTS) * LOCK_WINDOW_SECS
  }

  /** The bound is attained: for every n from 5 on, a run with a forward clock records n failures within 300(n-5)
      seconds. */
  lemma BoundIsAttained(codes: CodeTable, n: nat)
    requires n >= MAX_FAILED_ATTEMPTS
    ensures ClockForward(Burst(n)) && Attains(FailureTimes(codes, Burst(n), "ada"), n)
  {
    BurstClock(n);
    BurstFailures(codes, n);
    var ts := FailureTimes(codes, Burst(n), "ada");
    assert ts[0] == BurstTime(0) && ts[n - 1] == BurstTime(n - 1);
  }

  // ---- one login per time step ----

  /** What a submission presents to the code check, if it gets that far. */
  function Reached(s: LoginState, a: Submission): Presentation {
    match a
    case Submission(Ok(Some(username)), code, access, _, _, lockAt, checkAt, guardAt, _, _, lookups, _) =>
      var r := GetState(s.rows, username, lockAt, lookups).1;
      if r.Ok? && !IsLocked(r.value) then Presentation(username, code, access, checkAt, guardAt)
      else Presentation(username, "", Refused, checkAt, guardAt)
    case _ => Presentation("", "", Refused, a.checkAt, a.guardAt)
  }

  function EntryOf(s: LoginState, e: LoginEvent): Entry {
    match e
    case Submit(a) => Show(Reached(s, a))
    case CheckPassword(b) => Show(Presentation("", "", Refused, b.lockAt, b.lockAt))
    case ProcessRestart => Restarted
  }

  /** The run as the replay cache sees it. */
  function Entries(codes: CodeTable, es: seq<LoginEvent>): (xs: seq<Entry>)
    ensures |xs| == |es|
  {
    if es == [] then []
    else Entries(codes, es[..|es| - 1]) + [EntryOf(After(codes, es[..|es| - 1]), es[|es| - 1])]
  }

  /** Submission `i` ends in a login of a user enrolled under the own key. */
  predicate LogsIn(codes: CodeTable, es: seq<LoginEvent>, i: nat)
    requires i < |es| && es[i].Submit?
  {
    es[i].a.access.Readable? && Attempt(codes, After(codes, es[..i]), es[i].a).1 == Ok(Success)
  }

  lemma AuthenticateGuard(codes: CodeTable, s: LoginState, username: string, a: Submission)
    ensures var (s', r) := Authenticate(codes, s, username, a);
      && s'.guard == Verify(codes, s.guard, PresentationOf(username, a)).0
      && (r == Ok(Success) ==> Verify(codes, s.guard, PresentationOf(username, a)).1 == Ok(true) && IsValidCode(a.code))
  {
  }

  lemma AttemptGuard(codes: CodeTable, s: LoginState, a: Submission)
    ensures Attempt(codes, s, a).0.guard == Verify(codes, s.guard, Reached(s, a)).0
    ensures Attempt(codes, s, a).1 == Ok(Success) ==>
      a.resolved.Ok? && a.resolved.value.Some? && Reached(s, a) == PresentationOf(a.resolved.value.value, a) &&
      Verify(codes, s.guard, Reached(s, a)).1 == Ok(true) && IsValidCode(a.code)
  {
    if a.resolved.Ok? && a.resolved.value.Some? {
      var username := a.resolved.value.value;
      AuthenticateGuard(codes, s.(rows := GetState(s.rows, username, a.lockAt, a.lookups).0), username, a);
    }
  }

  lemma {:induction false} EntriesPrefix(codes: CodeTable, es: seq<LoginEvent>, i: nat)
    requires i <= |es|
    ensures Entries(codes, es)[..i] == Entries(codes, es[..i])
    ensures i < |es| ==> Entries(codes, es)[i] == EntryOf(After(codes, es[..i]), es[i])
  {
    var n := |es| - 1;
    if i < n {
      EntriesPrefix(codes, es[..n], i);
      assert es[..n][..i] == es[..i];
    } else if i == n + 1 {
      assert es[..i] == es;
    }
  }

  /** The cache after a run is what its presentations made of it since the process started. */
  lemma {:induction false} GuardOfRun(codes: CodeTable, es: seq<LoginEvent>)
    ensures After(codes, es).guard == GuardAfter(codes, Entries(codes, es))
  {
    if es != [] {
      var n := |es| - 1;
      GuardOfRun(codes, es[..n]);
      EntriesPrefix(codes, es, n);
      match es[n]
      case Submit(a) => AttemptGuard(codes, After(codes, es[..n]), a);
      case CheckPassword(b) => PasswordOutcome(After(codes, es[..n]), b, "");
      case ProcessRestart =>
    }
  }

  /** What submission `i` is to the cache, and whether the cache accepted it. */
  lemma EntryAt(codes: CodeTable, es: seq<LoginEvent>, i: nat)
    requires i < |es| && es[i].Submit?
    ensures var s := After(codes, es[..i]);
      var p := Reached(s, es[i].a);
      && Entries(codes, es)[i] == Show(p) && p.check == es[i].a.checkAt && p.record == es[i].a.guardAt
      && (Accepted(codes, Entries(codes, es), i) <==> Presented(codes, p) && Verify(codes, s.guard, p).1 == Ok(true))
  {
    EntriesPrefix(codes, es, i);
    GuardOfRun(codes, es[..i]);
  }

  predicate RestartBetween(es: seq<LoginEvent>, i: nat, j: nat)
    requires j <= |es|
  {
    exists r :: i < r < j && es[r].ProcessRestart?
  }

  /** Restarts and clock readings are those of the run. */
  predicate Mirrors(xs: seq<Entry>, es: seq<LoginEvent>) {
    && |xs| == |es|
    && (forall i :: 0 <= i < |es| ==> (xs[i].Restarted? <==> es[i].ProcessRestart?))
    && (forall i :: 0 <= i < |es| && es[i].Submit? ==>
          xs[i].p.check == es[i].a.checkAt && xs[i].p.record == es[i].a.guardAt)
    && (forall i :: 0 <= i < |es| && es[i].CheckPassword? ==> xs[i].p.check == xs[i].p.record == es[i].b.lockAt)
  }

  lemma {:induction false} EntriesMirror(codes: CodeTable, es: seq<LoginEvent>)
    ensures Mirrors(Entries(codes, es), es)
  {
    if es != [] { EntriesMirror(codes, es[..|es| - 1]); }
  }

  lemma MirroredClock(xs: seq<Entry>, es: seq<LoginEvent>, i: nat, j: nat)
    requires Mirrors(xs, es) && ClockForward(es) && j <= |es|
    ensures Totp.ClockForward(xs)
    ensures Totp.RestartBetween(xs, i, j) <==> RestartBetween(es, i, j)
  {
    if r :| i < r < j && es[r].ProcessRestart? { assert xs[r].Restarted?; }
  }

  lemma LoginIsAccepted(codes: CodeTable, es: seq<LoginEvent>, i: nat)
    requires i < |es| && es[i].Submit? && LogsIn(codes, es, i)
    ensures Accepted(codes, Entries(codes, es), i)
    ensures es[i].a.resolved.Ok? && es[i].a.resolved.value.Some?
    ensures Entries(codes, es)[i] == Show(PresentationOf(es[i].a.resolved.value.value, es[i].a))
  {
    var before := After(codes, es[..i]);
    EntryAt(codes, es, i);
    AttemptGuard(codes, before, es[i].a);
    AcceptedCodeIsPresented(codes, before.guard, Reached(before, es[i].a));
  }

  lemma AcceptedCodeIsPresented(codes: CodeTable, guard: Guard, p: Presentation)
    requires p.access.Readable? && Verify(codes, guard, p).1 == Ok(true)
    ensures Presented(codes, p)
  {
  }

  /** Main result. In any run with a forward clock, two logins of an enrolled user with a code that belongs to one
      time step, each with one reading for the check and the cache, have a restart of the process between them. */
  lemma OneLoginPerStep(codes: CodeTable, es: seq<LoginEvent>, i: nat, j: nat, username: string, step: int)
    requires ClockForward(es) && i < j < |es| && es[i].Submit? && es[j].Submit?
    requires LogsIn(codes, es, i) && LogsIn(codes, es, j)
    requires es[i].a.resolved == Ok(Some(username)) && es[j].a.resolved == Ok(Some(username))
    requires es[i].a.code == es[j].a.code && SoleStep(codes, PresentationOf(username, es[j].a), step)
    requires es[i].a.checkAt == es[i].a.guardAt && es[j].a.checkAt == es[j].a.guardAt
    ensures RestartBetween(es, i, j)
  {
    EntriesMirror(codes, es);
    MirroredClock(Entries(codes, es), es, i, j);
    LoginIsAccepted(codes, es, i);
    LoginIsAccepted(codes, es, j);
    SingleAcceptance(codes, Entries(codes, es), i, j, step);
  }

  /** Everything but the cache lets submission `j` of an enrolled user log in. */
  predicate OtherwiseLogsIn(codes: CodeTable, es: seq<LoginEvent>, j: nat)
    requires j < |es|
  {
    && es[j].Submit? && Presented(codes, Reached(After(codes, es[..j]), es[j].a))
    && es[j].a.password == Ok(true) && es[j].a.profile == Ok(()) && es[j].a.updates >= 3
  }

  lemma SucceedsIffFresh(codes: CodeTable, s: LoginState, a: Submission)
    requires Presented(codes, Reached(s, a)) && a.password == Ok(true) && a.profile == Ok(()) && a.updates >= 3
    ensures a.access.Readable? && (Attempt(codes, s, a).1 == Ok(Success) <==>
                                   Verify(codes, s.guard, Reached(s, a)).1 == Ok(true))
  {
  }

  /** The exact condition. A submission that presents again the code last accepted at `i`, for the same user and time
      step, logs in exactly if the process was restarted in between or the cache's clock reads a lifetime more. With one
      reading per call only a restart lets a code in twice. */
  lemma ReloginExactly(codes: CodeTable, es: seq<LoginEvent>, i: nat, j: nat, step: int)
    requires ClockForward(es) && i < j < |es| && es[i].Submit? && LogsIn(codes, es, i) && OtherwiseLogsIn(codes, es, j)
    requires var xs := Entries(codes, es); xs[i].Show? && xs[j].Show? && SamePair(xs[i].p, xs[j].p)
    requires forall k: nat :: i < k < j && Accepted(codes, Entries(codes, es), k) ==>
      !SamePair(Entries(codes, es)[k].p, Entries(codes, es)[j].p)
    ensures LogsIn(codes, es, j) <==> RestartBetween(es, i, j) || es[j].a.guardAt >= es[i].a.guardAt + REPLAY_TTL
    ensures es[i].a.checkAt == es[i].a.guardAt && es[j].a.checkAt == es[j].a.guardAt ==>
      SoleStep(codes, Entries(codes, es)[j].p, step) ==> (LogsIn(codes, es, j) <==> RestartBetween(es, i, j))
  {
    EntriesMirror(codes, es);
    MirroredClock(Entries(codes, es), es, i, j);
    LoginIsAccepted(codes, es, i);
    EntryAt(codes, es, j);
    SucceedsIffFresh(codes, After(codes, es[..j]), es[j].a);
    SecondAcceptanceExactly(codes, Entries(codes, es), i, j, step);
  }

  // ---- a code let in twice ----

  function CodeLogin(t: int, access: SecretAccess): Submission {
    Submission(Ok(Some("ada")), "000000", access, Ok(true), Ok(()), t, t, t, t, t, 2, 3)
  }

  /** A user without failures logs in with a valid code at an empty cache, and has no failures afterwards. */
  lemma FirstLogin(codes: CodeTable, s: LoginState, t: int, access: SecretAccess)
    requires access.Readable? || access.Legacy?
    requires codes("ada", 2) == "000000" && StepOf(t) == 2
    requires s.guard == map[] && ("ada" in s.rows ==> s.rows["ada"] == PolicyRow(0, None))
    ensures var (after, r) := Attempt(codes, s, CodeLogin(t, access));
      r == Ok(Success) && after.rows == s.rows["ada" := PolicyRow(0, None)] && (access.Legacy? ==> after.guard == map[])
  {
    TrimKeeps("ada");
    assert IsValidCode("000000");
    assert CheckCode(codes, "ada", "000000", t);
    var looked := s.(rows := GetState(s.rows, "ada", t, 2).0);
    assert Attempt(codes, s, CodeLogin(t, access)) == Authenticate(codes, looked, "ada", CodeLogin(t, access));
  }

  /** The code of step 2 logs in at second 60, and again at second 61 of a process started in between. */
  lemma RestartReplay(codes: CodeTable, es: seq<LoginEvent>)
    requires codes("ada", 2) == "000000"
    requires es == [Submit(CodeLogin(60, Readable)), ProcessRestart, Submit(CodeLogin(61, Readable))]
    ensures ClockForward(es) && LogsIn(codes, es, 0) && LogsIn(codes, es, 2)
    ensures AsCodeOf(codes, PresentationOf("ada", es[0].a), 2) && AsCodeOf(codes, PresentationOf("ada", es[2].a), 2)
    ensures es[0].a.checkAt == es[0].a.guardAt && es[2].a.checkAt == es[2].a.guardAt
  {
    var first, second := es[..1], es[..2];
    var start := After(codes, es[..0]);
    assert first[..0] == es[..0] && second[..1] == first;
    assert start == LoginState(map[], map[]);
    FirstLogin(codes, start, 60, Readable);
    assert After(codes, first) == Attempt(codes, start, CodeLogin(60, Readable)).0;
    assert After(codes, second) == After(codes, first).(guard := map[]);
    FirstLogin(codes, After(codes, second), 61, Readable);
  }

  /** With no restart between them: the first login finds the secret under the former development key and does not
      record the code; the second finds it under the user's own. */
  lemma LegacyReplay(codes: CodeTable, es: seq<LoginEvent>)
    requires codes("ada", 2) == "000000"
    requires es == [Submit(CodeLogin(60, Legacy)), Submit(CodeLogin(61, Readable))]
    ensures ClockForward(es) && LogsIn(codes, es, 1)
    ensures Attempt(codes, After(codes, es[..0]), es[0].a).1 == Ok(Success)
    ensures AsCodeOf(codes, PresentationOf("ada", es[0].a), 2) && AsCodeOf(codes, PresentationOf("ada", es[1].a), 2)
  {
    var first := es[..1];
    var start := After(codes, es[..0]);
    assert first[..0] == es[..0] && start == LoginState(map[], map[]);
    FirstLogin(codes, start, 60, Legacy);
    assert After(codes, first) == Attempt(codes, start, CodeLogin(60, Legacy)).0;
    FirstLogin(codes, After(codes, first), 61, Readable);
  }
}
