/** What each step of the sign-in dialog answers, exactly, and which answers lock an account over a run. */
module LoginAnswers {
  import opened Types
  import opened Text
  import opened LoginPolicy
  import opened Totp
  import opened LoginFlow

  function Answer(codes: CodeTable, s: LoginState, e: LoginEvent): Result<Outcome>
    requires !e.ProcessRestart?
  {
    if e.Submit? then Attempt(codes, s, e.a).1 else TryPassword(s, e.b).1
  }

  function Resolved(e: LoginEvent): Result<Option<string>>
    requires !e.ProcessRestart?
  {
    if e.Submit? then e.a.resolved else e.b.resolved
  }

  /** The SQL statements that succeed when the state is looked up, and when it is updated. */
  function Lookups(e: LoginEvent): nat
    requires !e.ProcessRestart?
  {
    if e.Submit? then e.a.lookups else e.b.lookups
  }

  function Updates(e: LoginEvent): nat
    requires !e.ProcessRestart?
  {
    if e.Submit? then e.a.updates else e.b.updates
  }

  /** The stored row of a name; a name without one counts as having no failures. */
  function RowOf(rows: Rows, name: string): PolicyRow {
    if name in rows then rows[name] else PolicyRow(0, None)
  }

  /** The stored failures of `name` refuse every attempt at second `at`. */
  predicate LockedAt(row: PolicyRow, at: int) {
    row.failed >= 5 && row.last.Some? && at - row.last.value < 300
  }

  lemma LockedExactly(rows: Rows, name: string, at: int)
    ensures IsLocked(StateOf(RowOf(rows, name), at)) <==> LockedAt(RowOf(rows, name), at)
    ensures LockedAt(RowOf(rows, name), at) && RowOf(rows, name).last.value <= at ==>
      LeftAt(rows, name, at) == RowOf(rows, name).last.value + 300 - at
  {
    var row := RowOf(rows, name);
    if row.last.Some? { RemainingLockExactly(row.failed, row.last.value, at); }
  }

  /** The seconds left to wait, as announced. */
  function LeftAt(rows: Rows, name: string, at: int): int {
    RemainingLock(RowOf(rows, name).failed, RowOf(rows, name).last, at)
  }

  /** The dialog gets as far as checking what was typed for `name`. */
  predicate Examined(s: LoginState, e: LoginEvent, name: string) {
    && !e.ProcessRestart? && Resolved(e) == Ok(Some(name)) && Trim(name) != [] && Lookups(e) >= 2
    && !LockedAt(RowOf(s.rows, name), LockTime(e))
  }

  /** The one-time code is refused: malformed, or the check says no. */
  predicate RefusesCode(codes: CodeTable, s: LoginState, a: Submission, name: string) {
    !IsValidCode(a.code) || Verify(codes, s.guard, PresentationOf(name, a)).1 == Ok(false)
  }

  predicate TakesCode(codes: CodeTable, s: LoginState, a: Submission, name: string) {
    IsValidCode(a.code) && Verify(codes, s.guard, PresentationOf(name, a)).1 == Ok(true)
  }

  /** What was typed is wrong: the code, or the password. */
  predicate Refuses(codes: CodeTable, s: LoginState, e: LoginEvent, name: string) {
    match e
    case Submit(a) => RefusesCode(codes, s, a, name) || (TakesCode(codes, s, a, name) && a.password == Ok(false))
    case CheckPassword(b) => b.verified == Ok(false)
    case ProcessRestart => false
  }

  /** Everything is right, and the step is the last one this user needs. */
  predicate Grants(codes: CodeTable, s: LoginState, e: LoginEvent, name: string) {
    match e
    case Submit(a) => TakesCode(codes, s, a, name) && a.password == Ok(true) && a.profile.Ok?
    case CheckPassword(b) => b.verified == Ok(true) && b.enrolled == Ok(false) && b.derived == Ok(true) && b.profile.Ok?
    case ProcessRestart => false
  }

  /** The calls that count a failure of `name`, and those that clear its failures. */
  predicate Counts(codes: CodeTable, s: LoginState, e: LoginEvent, name: string) {
    Examined(s, e, name) && Refuses(codes, s, e, name) && Updates(e) >= 2
  }

  predicate Clears(codes: CodeTable, s: LoginState, e: LoginEvent, name: string) {
    Examined(s, e, name) && Grants(codes, s, e, name) && Updates(e) >= 3
  }

  function Looked(s: LoginState, e: LoginEvent, name: string): LoginState
    requires !e.ProcessRestart?
  {
    s.(rows := GetState(s.rows, name, LockTime(e), Lookups(e)).0)
  }

  /** The look-up at most creates an empty row. */
  lemma LookedSame(s: LoginState, e: LoginEvent, name: string, other: string)
    requires !e.ProcessRestart?
    ensures Looked(s, e, name).guard == s.guard && RowOf(Looked(s, e, name).rows, other) == RowOf(s.rows, other)
  {
  }

  /** The look-up: without it nothing is decided, a locked user is turned away, and otherwise the step goes on. */
  lemma LookUp(codes: CodeTable, s: LoginState, e: LoginEvent, name: string)
    requires !e.ProcessRestart? && Resolved(e) == Ok(Some(name)) && Trim(name) != []
    ensures var looked := Looked(s, e, name);
      if Lookups(e) < 2 then StepLogin(codes, s, e) == looked && Answer(codes, s, e) == Err(Database)
      else if LockedAt(RowOf(s.rows, name), LockTime(e)) then
        StepLogin(codes, s, e) == looked && Answer(codes, s, e) == Ok(Locked(LeftAt(s.rows, name, LockTime(e))))
      else
        (StepLogin(codes, s, e), Answer(codes, s, e)) ==
        (if e.Submit? then Authenticate(codes, looked, name, e.a) else CheckVerified(looked, name, e.b))
  {
    LockedExactly(s.rows, name, LockTime(e));
  }

  /** Recording a failure of a named user: when it is written, and when it is announced. */
  lemma RecordedExactly(s: LoginState, name: string, failAt: int, stateAt: int, updates: nat, asTotp: bool)
    requires Trim(name) != []
    ensures var (after, r) := Fail(s, name, failAt, stateAt, updates, asTotp);
      && after.guard == s.guard
      && RowOf(after.rows, name) ==
           (if updates >= 2 then PolicyRow(RowOf(s.rows, name).failed + 1, Some(failAt)) else RowOf(s.rows, name))
      && (updates < 4 ==> r == Err(Database))
      && (updates >= 4 ==>
            var left := LeftAt(after.rows, name, stateAt);
            r == Ok(if asTotp then InvalidTotp(left) else InvalidCredentials(left)))
  {
  }

  lemma ClearedExactly(rows: Rows, name: string, updates: nat)
    requires Trim(name) != []
    ensures var (after, r) := ResetFailures(rows, name, updates);
      && (r.Ok? <==> updates >= 3)
      && RowOf(after, name) == if updates >= 3 then PolicyRow(0, None) else RowOf(rows, name)
  {
  }

  /** The row of `name` after a step. */
  function NextRow(codes: CodeTable, s: LoginState, e: LoginEvent, name: string): PolicyRow {
    if Counts(codes, s, e, name) then PolicyRow(RowOf(s.rows, name).failed + 1, Some(FailTime(e)))
    else if Clears(codes, s, e, name) then PolicyRow(0, None)
    else RowOf(s.rows, name)
  }

  /** The answer of a step for a named user, and what it leaves in that user's row; apart from which error of the
      storage or of the collaborators comes up, nothing is left open. */
  ghost predicate AnswersExactly(codes: CodeTable, s: LoginState, e: LoginEvent, name: string, after: LoginState,
                                 r: Result<Outcome>)
    requires !e.ProcessRestart?
  {
    && RowOf(after.rows, name) == NextRow(codes, s, e, name)
    && (r == Ok(Success) <==> Clears(codes, s, e, name))
    && (r == Ok(RequiresTotp) <==>
          Examined(s, e, name) && e.CheckPassword? && e.b.verified == Ok(true) && e.b.enrolled == Ok(true))
    && (r.Ok? && r.value.Locked? <==> Lookups(e) >= 2 && LockedAt(RowOf(s.rows, name), LockTime(e)))
    && (r.Ok? && r.value.Locked? ==> r.value.remaining == LeftAt(s.rows, name, LockTime(e)))
    && (r.Ok? && r.value.InvalidTotp? <==>
          Counts(codes, s, e, name) && Updates(e) >= 4 && e.Submit? && RefusesCode(codes, s, e.a, name))
    && (r.Ok? && r.value.InvalidCredentials? <==>
          Counts(codes, s, e, name) && Updates(e) >= 4 && (e.Submit? ==> !RefusesCode(codes, s, e.a, name)))
    && (r.Ok? && (r.value.InvalidTotp? || r.value.InvalidCredentials?) ==>
          r.value.remaining == LeftAt(after.rows, name, EndTime(e)))
  }

  /** A code that is refused. */
  lemma RefusedCode(codes: CodeTable, s: LoginState, name: string, a: Submission)
    requires Trim(name) != [] && RefusesCode(codes, s, a, name)
    ensures Authenticate(codes, s, name, a).0.rows == Fail(s, name, a.failAt, a.stateAt, a.updates, true).0.rows
    ensures Authenticate(codes, s, name, a).1 == Fail(s, name, a.failAt, a.stateAt, a.updates, true).1
  {
  }

  /** What follows a code that is taken. */
  lemma AfterCodeExactly(s: LoginState, name: string, a: Submission)
    requires Trim(name) != []
    ensures var (after, r) := AfterCode(s, name, a);
      if a.password == Ok(false) then (after, r) == Fail(s, name, a.failAt, a.stateAt, a.updates, false)
      else
        && (r == Ok(Success) <==> a.password == Ok(true) && a.profile.Ok? && a.updates >= 3)
        && (r == Ok(Success) || r.Err?)
        && RowOf(after.rows, name) == if r == Ok(Success) then PolicyRow(0, None) else RowOf(s.rows, name)
  {
    ClearedExactly(s.rows, name, a.updates);
  }

  lemma CodeAnswers(codes: CodeTable, s: LoginState, e: LoginEvent, name: string)
    requires e.Submit? && Resolved(e) == Ok(Some(name)) && Trim(name) != []
    ensures AnswersExactly(codes, s, e, name, StepLogin(codes, s, e), Answer(codes, s, e))
  {
    LookUp(codes, s, e, name);
    LookedSame(s, e, name, name);
    var a, looked := e.a, Looked(s, e, name);
    if Examined(s, e, name) {
      if RefusesCode(codes, s, a, name) {
        RefusedCode(codes, looked, name, a);
        RecordedExactly(looked, name, a.failAt, a.stateAt, a.updates, true);
      } else if TakesCode(codes, s, a, name) {
        var checked := looked.(guard := Verify(codes, s.guard, PresentationOf(name, a)).0);
        assert Authenticate(codes, looked, name, a) == AfterCode(checked, name, a);
        AfterCodeExactly(checked, name, a);
        RecordedExactly(checked, name, a.failAt, a.stateAt, a.updates, false);
      }
    }
  }

  lemma PasswordAnswers(codes: CodeTable, s: LoginState, e: LoginEvent, name: string)
    requires e.CheckPassword? && Resolved(e) == Ok(Some(name)) && Trim(name) != []
    ensures AnswersExactly(codes, s, e, name, StepLogin(codes, s, e), Answer(codes, s, e))
  {
    LookUp(codes, s, e, name);
    LookedSame(s, e, name, name);
    RecordedExactly(Looked(s, e, name), name, e.b.failAt, e.b.stateAt, e.b.updates, false);
    ClearedExactly(Looked(s, e, name).rows, name, e.b.updates);
  }

  /** An identifier that resolves to nobody is refused without a trace. */
  lemma UnknownRefused(codes: CodeTable, s: LoginState, e: LoginEvent)
    requires !e.ProcessRestart? && Resolved(e) == Ok(None)
    ensures StepLogin(codes, s, e) == s && Answer(codes, s, e) == Ok(InvalidCredentials(0))
  {
  }

  // ---- over runs ----

  /** When the refusals of `name` since its last success were recorded, by either step. */
  function RefusalTimes(codes: CodeTable, es: seq<LoginEvent>, name: string): seq<int> {
    if es == [] then []
    else
      var head, e := es[..|es| - 1], es[|es| - 1];
      if Counts(codes, After(codes, head), e, name) then RefusalTimes(codes, head, name) + [FailTime(e)]
      else if Clears(codes, After(codes, head), e, name) then []
      else RefusalTimes(codes, head, name)
  }

  /** The row that such refusals make. */
  function RowFor(ts: seq<int>): PolicyRow {
    if ts == [] then PolicyRow(0, None) else PolicyRow(|ts|, Some(ts[|ts| - 1]))
  }

  lemma StepRow(codes: CodeTable, s: LoginState, e: LoginEvent, name: string)
    requires Trim(name) != []
    ensures RowOf(StepLogin(codes, s, e).rows, name) == NextRow(codes, s, e, name)
  {
    if !e.ProcessRestart? {
      if Resolved(e) == Ok(Some(name)) {
        if e.Submit? { CodeAnswers(codes, s, e, name); } else { PasswordAnswers(codes, s, e, name); }
      } else {
        OthersLeaveRow(codes, s, e, name);
      }
    }
  }

  lemma OtherFail(s: LoginState, m: string, failAt: int, stateAt: int, updates: nat, asTotp: bool, name: string)
    requires m != name
    ensures RowOf(Fail(s, m, failAt, stateAt, updates, asTotp).0.rows, name) == RowOf(s.rows, name)
  {
  }

  lemma OtherAfterCode(s: LoginState, m: string, a: Submission, name: string)
    requires m != name
    ensures RowOf(AfterCode(s, m, a).0.rows, name) == RowOf(s.rows, name)
  {
    OtherFail(s, m, a.failAt, a.stateAt, a.updates, false, name);
  }

  lemma OtherAuthenticate(codes: CodeTable, s: LoginState, m: string, a: Submission, name: string)
    requires m != name
    ensures RowOf(Authenticate(codes, s, m, a).0.rows, name) == RowOf(s.rows, name)
  {
    var checked := s.(guard := Verify(codes, s.guard, PresentationOf(m, a)).0);
    OtherFail(s, m, a.failAt, a.stateAt, a.updates, true, name);
    OtherFail(checked, m, a.failAt, a.stateAt, a.updates, true, name);
    OtherAfterCode(checked, m, a, name);
  }

  lemma OtherVerified(s: LoginState, m: string, b: PasswordStep, name: string)
    requires m != name
    ensures RowOf(CheckVerified(s, m, b).0.rows, name) == RowOf(s.rows, name)
  {
    OtherFail(s, m, b.failAt, b.stateAt, b.updates, false, name);
  }

  lemma OthersLeaveRow(codes: CodeTable, s: LoginState, e: LoginEvent, name: string)
    requires !e.ProcessRestart? && Resolved(e) != Ok(Some(name))
    ensures RowOf(StepLogin(codes, s, e).rows, name) == RowOf(s.rows, name)
  {
    match Resolved(e)
    case Ok(Some(m)) =>
      var looked := Looked(s, e, m);
      LookedSame(s, e, m, name);
      if e.Submit? { OtherAuthenticate(codes, looked, m, e.a, name); } else { OtherVerified(looked, m, e.b, name); }
    case _ =>
  }

  /** Over any run, whatever the clock, the row of a name is the account of its refusals since the last success. */
  lemma {:induction false} RunCounts(codes: CodeTable, es: seq<LoginEvent>, name: string)
    requires Trim(name) != []
    ensures RowOf(After(codes, es).rows, name) == RowFor(RefusalTimes(codes, es, name))
  {
    if es != [] {
      var head := es[..|es| - 1];
      RunCounts(codes, head, name);
      StepRow(codes, After(codes, head), es[|es| - 1], name);
    }
  }

  lemma TurnedAway(codes: CodeTable, s: LoginState, e: LoginEvent, name: string)
    requires !e.ProcessRestart? && Resolved(e) == Ok(Some(name)) && Trim(name) != [] && Lookups(e) >= 2
    ensures var r := Answer(codes, s, e);
      && (r.Ok? && r.value.Locked? <==> LockedAt(RowOf(s.rows, name), LockTime(e)))
      && (r.Ok? && r.value.Locked? ==> r.value.remaining == LeftAt(s.rows, name, LockTime(e)))
  {
    if e.Submit? { CodeAnswers(codes, s, e, name); } else { PasswordAnswers(codes, s, e, name); }
  }

  /** Main theorem. After any run, across process restarts, an attempt at a name is turned away as locked exactly if at
      least five refusals of that name, by either step, came with no success since, the last less than 300 seconds
      before. */
  lemma FiveRefusalsLock(codes: CodeTable, es: seq<LoginEvent>, e: LoginEvent, name: string)
    requires !e.ProcessRestart? && Resolved(e) == Ok(Some(name)) && Trim(name) != [] && Lookups(e) >= 2
    ensures var ts, r := RefusalTimes(codes, es, name), Answer(codes, After(codes, es), e);
      && (r.Ok? && r.value.Locked? <==> |ts| >= 5 && LockTime(e) - ts[|ts| - 1] < 300)
      && (r.Ok? && r.value.Locked? && ts[|ts| - 1] <= LockTime(e) ==>
            r.value.remaining == ts[|ts| - 1] + 300 - LockTime(e))
  {
    RunCounts(codes, es, name);
    LockedExactly(After(codes, es).rows, name, LockTime(e));
    TurnedAway(codes, After(codes, es), e, name);
  }

  /** The refusals so defined are the failures of the rate bound. */
  lemma {:induction false} RefusalsAreFailures(codes: CodeTable, es: seq<LoginEvent>, name: string)
    requires Trim(name) != []
    ensures RefusalTimes(codes, es, name) == FailureTimes(codes, es, name)
  {
    if es != [] {
      RefusalsAreFailures(codes, es[..|es| - 1], name);
      RunCounts(codes, es[..|es| - 1], name);
      RunCounts(codes, es, name);
    }
  }
}
