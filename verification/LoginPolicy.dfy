/** Login throttling: failure counters, back-off and the lock window, as persisted per user name. */
module LoginPolicy {
  import opened Types
  import opened Text

  const MAX_FAILED_ATTEMPTS := 5
  const LOCK_WINDOW_SECS := 5 * 60
  const BACKOFF_MAX_SECS := 30
  const I64_MIN := -0x8000_0000_0000_0000
  const I64_MAX := 0x7fff_ffff_ffff_ffff

  datatype PolicyRow = PolicyRow(failed: int, last: Option<int>)

  type Rows = map<string, PolicyRow>

  datatype PolicyState = PolicyState(failed: int, remaining: int)

  function Pow2(n: nat): (p: nat)
    ensures p > 0
  {
    if n == 0 then 1 else 2 * Pow2(n - 1)
  }

  function Max(a: int, b: int): int {
    if a < b then b else a
  }

  function BackoffDelay(failed: int): int {
    if failed <= 0 then 0
    else
      var value := Pow2(if failed - 1 > 30 then 30 else failed - 1);
      if value < BACKOFF_MAX_SECS then value else BACKOFF_MAX_SECS
  }

  /** Subtraction of 64-bit seconds. */
  function SaturatingSub(a: int, b: int): int {
    if a - b < I64_MIN then I64_MIN else if a - b > I64_MAX then I64_MAX else a - b
  }

  function RemainingLock(failed: int, last: Option<int>, now: int): int {
    match last
    case None => 0
    case Some(at) =>
      var elapsed := SaturatingSub(now, at);
      var window := if failed >= MAX_FAILED_ATTEMPTS && elapsed < LOCK_WINDOW_SECS then LOCK_WINDOW_SECS - elapsed
        else 0;
      var backoff := BackoffDelay(failed);
      if backoff > elapsed then Max(window, backoff - elapsed) else window
  }

  predicate IsLocked(s: PolicyState) {
    s.failed >= MAX_FAILED_ATTEMPTS && s.remaining > 0
  }

  // ---- what the remaining time means ----

  /** The seconds to wait after the last of `failed` failures. */
  function LockDuration(failed: int): int {
    if failed <= 0 then 0
    else if failed >= MAX_FAILED_ATTEMPTS then LOCK_WINDOW_SECS
    else Pow2(failed - 1)
  }

  lemma {:induction false} Pow2Grows(m: nat, n: nat)
    requires m <= n
    ensures Pow2(m) <= Pow2(n)
  {
    if m < n { Pow2Grows(m, n - 1); }
  }

  /** Back-off and window together are one deadline after the last failure; the back-off never outlasts the window. */
  lemma RemainingLockExactly(failed: int, at: int, now: int)
    ensures RemainingLock(failed, Some(at), now) == Max(0, LockDuration(failed) - SaturatingSub(now, at))
    ensures failed < MAX_FAILED_ATTEMPTS ==> LockDuration(failed) == BackoffDelay(failed)
    ensures BackoffDelay(failed) <= LockDuration(failed)
  {
    if failed > MAX_FAILED_ATTEMPTS {
      Pow2Grows(5, if failed - 1 > 30 then 30 else failed - 1);
    }
    assert Pow2(5) == 32 && Pow2(4) == 16 && Pow2(3) == 8 && Pow2(2) == 4 && Pow2(1) == 2 by {
      assert Pow2(2) == 4 && Pow2(3) == 8;
    }
  }

  /** The remaining time counts down second by second, never shrinks with a further failure, and blocks a login exactly
      from the fifth failure on, for 300 seconds: the shorter back-offs are shown but never enforced. */
  lemma RemainingLockLaws(failed: int, more: int, at: int, now: int, later: int)
    requires I64_MIN <= now - at && later - at <= I64_MAX && now <= later && failed <= more
    ensures RemainingLock(failed, Some(at), later) == Max(0, RemainingLock(failed, Some(at), now) - (later - now))
    ensures RemainingLock(failed, Some(at), now) <= RemainingLock(more, Some(at), now)
    ensures IsLocked(PolicyState(failed, RemainingLock(failed, Some(at), now))) <==>
      failed >= MAX_FAILED_ATTEMPTS && now - at < LOCK_WINDOW_SECS
  {
    RemainingLockExactly(failed, at, now);
    RemainingLockExactly(failed, at, later);
    RemainingLockExactly(more, at, now);
    if 0 < failed {
      Pow2Grows(failed - 1, more - 1);
      if failed < MAX_FAILED_ATTEMPTS { Pow2Grows(failed - 1, 3); }
      assert Pow2(3) == 8;
    }
  }

  // ---- the service ----

  function EnsureRow(rows: Rows, username: string): Rows {
    if username in rows then rows else rows[username := PolicyRow(0, None)]
  }

  function StateOf(row: PolicyRow, now: int): PolicyState {
    PolicyState(row.failed, RemainingLock(row.failed, row.last, now))
  }

  /** `statements` is the number of SQL statements that succeed before the storage fails. */
  function GetState(rows: Rows, username: string, now: int, statements: nat): (Rows, Result<PolicyState>) {
    if Trim(username) == [] then (rows, Ok(PolicyState(0, 0)))
    else if statements < 1 then (rows, Err(Database))
    else
      var ensured := EnsureRow(rows, username);
      (ensured, if statements < 2 then Err(Database) else Ok(StateOf(ensured[username], now)))
  }

  /** The failure is written at `now`; the state returned is read at `later`. */
  function RecordFailure(rows: Rows, username: string, now: int, later: int, statements: nat)
    : (Rows, Result<PolicyState>)
  {
    if Trim(username) == [] then (rows, Ok(PolicyState(1, 0)))
    else if statements < 1 then (rows, Err(Database))
    else
      var ensured := EnsureRow(rows, username);
      if statements < 2 then (ensured, Err(Database))
      else GetState(ensured[username := PolicyRow(ensured[username].failed + 1, Some(now))], username, later,
                    statements - 2)
  }

  function ResetFailures(rows: Rows, username: string, statements: nat): (Rows, Result<()>) {
    if Trim(username) == [] then (rows, Ok(()))
    else if statements < 1 then (rows, Err(Database))
    else if statements < 3 then (EnsureRow(rows, username), Err(Database))
    else (rows[username := PolicyRow(0, None)], Ok(()))
  }

  class AuthPolicyService {
    var rows: Rows

    constructor ()
      ensures rows == map[]
    {
      rows := map[];
    }

    method EnsureRowExists(username: string)
      modifies this
      ensures rows == EnsureRow(old(rows), username)
    {
      if username !in rows { rows := rows[username := PolicyRow(0, None)]; }
    }

    method State(username: string, now: int, statements: nat) returns (r: Result<PolicyState>)
      modifies this
      ensures (rows, r) == GetState(old(rows), username, now, statements)
    {
      if Trim(username) == [] { return Ok(PolicyState(0, 0)); }
      if statements < 1 { return Err(Database); }
      EnsureRowExists(username);
      if statements < 2 { return Err(Database); }
      return Ok(StateOf(rows[username], now));
    }

    method RecordFailedAttempt(username: string, now: int, later: int, statements: nat) returns (r: Result<PolicyState>)
      modifies this
      ensures (rows, r) == RecordFailure(old(rows), username, now, later, statements)
    {
      if Trim(username) == [] { return Ok(PolicyState(1, 0)); }
      if statements < 1 { return Err(Database); }
      EnsureRowExists(username);
      if statements < 2 { return Err(Database); }
      rows := rows[username := PolicyRow(rows[username].failed + 1, Some(now))];
      r := State(username, later, statements - 2);
    }

    method ResetFailedAttempts(username: string, statements: nat) returns (r: Result<()>)
      modifies this
      ensures (rows, r) == ResetFailures(old(rows), username, statements)
    {
      if Trim(username) == [] { return Ok(()); }
      if statements < 1 { return Err(Database); }
      EnsureRowExists(username);
      if statements < 3 { return Err(Database); }
      rows := rows[username := PolicyRow(0, None)];
      assert rows == old(rows)[username := PolicyRow(0, None)];
      return Ok(());
    }
  }
}
