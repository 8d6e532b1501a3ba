/** One-time codes: the check against the current time step and the cache that refuses a code used before. */
module Totp {
  import opened Types

  const DIGITS := 6
  const STEP := 30
  const SKEW := 1
  const REPLAY_TTL := STEP * 3

  predicate IsDigit(c: char) {
    '0' <= c <= '9'
  }

  predicate IsValidCode(code: string) {
    |code| == DIGITS && forall i :: 0 <= i < |code| ==> IsDigit(code[i])
  }

  function DigitOf(n: nat): char
    requires n < 10
  {
    '0' + n as char
  }

  /** The last `k` decimal digits of `n`. */
  function Printed(n: nat, k: nat): (s: string)
    ensures |s| == k && forall i :: 0 <= i < k ==> IsDigit(s[i])
  {
    if k == 0 then "" else Printed(n / 10, k - 1) + [DigitOf(n % 10)]
  }

  function Pow10(k: nat): nat {
    if k == 0 then 1 else 10 * Pow10(k - 1)
  }

  function NumberOf(s: string): (n: nat)
    requires forall i :: 0 <= i < |s| ==> IsDigit(s[i])
    ensures n < Pow10(|s|)
  {
    if s == "" then 0
    else
      var last := s[|s| - 1];
      assert IsDigit(last);
      NumberOf(s[..|s| - 1]) * 10 + (last - '0') as nat
  }

  lemma {:induction false} PrintedNumber(s: string)
    requires forall i :: 0 <= i < |s| ==> IsDigit(s[i])
    ensures Printed(NumberOf(s), |s|) == s
  {
    if s != "" {
      var k := |s| - 1;
      PrintedNumber(s[..k]);
      assert s == s[..k] + [s[k]];
      assert NumberOf(s) / 10 == NumberOf(s[..k]) && NumberOf(s) % 10 == (s[k] - '0') as nat;
    }
  }

  /** A code is well formed exactly if it is a number below a million printed with six digits. */
  lemma ValidCodeExactly(code: string)
    ensures IsValidCode(code) <==> exists n: nat :: n < 1_000_000 && code == Printed(n, 6)
  {
    if IsValidCode(code) {
      PrintedNumber(code);
      assert Pow10(6) == 1_000_000 by { assert Pow10(3) == 1_000; }
    }
  }

  function ReplayKey(username: string, code: string): string {
    username + ":" + code
  }

  /** User names may contain colons, but a code has six characters, so a key names one user and one code. */
  lemma ReplayKeyInjective(u: string, code: string, v: string, other: string)
    requires IsValidCode(code) && IsValidCode(other)
    ensures ReplayKey(u, code) == ReplayKey(v, other) <==> u == v && code == other
  {
    var k, l := ReplayKey(u, code), ReplayKey(v, other);
    if k == l {
      assert u == k[..|k| - DIGITS - 1] && v == l[..|l| - DIGITS - 1];
      assert code == k[|k| - DIGITS..] && other == l[|l| - DIGITS..];
    }
  }

  // ---- the replay cache ----

  /** Keys with the second at which they expire. */
  type Guard = map<string, int>

  function Purge(guard: Guard, now: int): Guard {
    map k | k in guard && guard[k] > now :: guard[k]
  }

  function RejectReplayAndRecord(guard: Guard, username: string, code: string, now: int): (Guard, bool) {
    var kept := Purge(guard, now);
    var key := ReplayKey(username, code);
    if key in kept then (kept, false) else (kept[key := now + REPLAY_TTL], true)
  }

  // ---- the code check ----

  /** The code each user's secret yields for each time step. */
  type CodeTable = (string, int) -> string

  function StepOf(time: int): int {
    time / STEP
  }

  /** A clock reading at which the code of `step` is still, or already, accepted. */
  predicate InWindow(step: int, time: int) {
    -SKEW <= step - StepOf(time) <= SKEW
  }

  predicate CheckCode(codes: CodeTable, username: string, code: string, time: int) {
    exists step :: StepOf(time) - SKEW <= step <= StepOf(time) + SKEW && codes(username, step) == code
  }

  /** What the stored secret and the password give a presentation to work with; `Legacy` is a secret still sealed under
      the former development key, whose codes are checked without the cache. */
  datatype SecretAccess = NotEnrolled | Refused | Failed(error: AppError) | Legacy | Readable

  /** One call of the login check: `check` is the clock reading of the code check, `record` that of the replay cache. */
  datatype Presentation = Presentation(username: string, code: string, access: SecretAccess, check: int, record: int)

  function Verify(codes: CodeTable, guard: Guard, p: Presentation): (Guard, Result<bool>) {
    if !IsValidCode(p.code) then (guard, Ok(false))
    else match p.access
      case NotEnrolled => (guard, Ok(true))
      case Refused => (guard, Ok(false))
      case Failed(e) => (guard, Err(e))
      case Legacy => (guard, Ok(CheckCode(codes, p.username, p.code, p.check)))
      case Readable =>
        if !CheckCode(codes, p.username, p.code, p.check) then (guard, Ok(false))
        else
          var (guard', isNew) := RejectReplayAndRecord(guard, p.username, p.code, p.record);
          (guard', Ok(isNew))
  }

  /** The presentation holds the code of `step` while its window is open. */
  predicate AsCodeOf(codes: CodeTable, p: Presentation, step: int) {
    p.code == codes(p.username, step) && InWindow(step, p.check)
  }

  /** The code of a step is accepted from 30 seconds before the step begins until 30 seconds after it ends. */
  lemma CheckExactly(codes: CodeTable, username: string, code: string, time: int)
    ensures CheckCode(codes, username, code, time) <==>
      exists step :: codes(username, step) == code && 30 * step - 30 <= time < 30 * step + 60
  {
  }

  /** What a presentation needs: a well-formed code, and for an enrolled user the code of a step whose window is open
      and, unless the secret is still under the former key, no live entry in the cache. Only the last kind is
      recorded. */
  lemma VerifyExactly(codes: CodeTable, guard: Guard, p: Presentation)
    ensures var (after, r) := Verify(codes, guard, p);
      && (r == Ok(true) <==>
            && IsValidCode(p.code)
            && (|| p.access.NotEnrolled?
                || (p.access.Legacy? && exists step :: AsCodeOf(codes, p, step))
                || (&& p.access.Readable? && (exists step :: AsCodeOf(codes, p, step))
                    && ReplayKey(p.username, p.code) !in Purge(guard, p.record))))
      && (r.Err? <==> IsValidCode(p.code) && p.access.Failed?)
      && (!Presented(codes, p) ==> after == guard)
      && (r == Ok(true) && p.access.Readable? ==>
            after == Purge(guard, p.record)[ReplayKey(p.username, p.code) := p.record + 90])
  {
    if CheckCode(codes, p.username, p.code, p.check) {
      var step :| InWindow(step, p.check) && codes(p.username, step) == p.code;
      assert AsCodeOf(codes, p, step);
    }
    if step :| AsCodeOf(codes, p, step) { assert codes(p.username, step) == p.code; }
  }

  /** Reaching the cache means holding the code of a step whose window is open. */
  lemma PresentedExactly(codes: CodeTable, p: Presentation)
    ensures Presented(codes, p) <==> IsValidCode(p.code) && p.access.Readable? && exists step ::
      AsCodeOf(codes, p, step)
  {
    if CheckCode(codes, p.username, p.code, p.check) {
      var step :| InWindow(step, p.check) && codes(p.username, step) == p.code;
      assert AsCodeOf(codes, p, step);
    }
    if step :| AsCodeOf(codes, p, step) { assert codes(p.username, step) == p.code; }
  }

  // ---- runs ----

  /** What happens to the cache: a presentation, or a new process, which starts with an empty one. */
  datatype Entry = Show(p: Presentation) | Restarted

  function GuardAfter(codes: CodeTable, xs: seq<Entry>): Guard {
    if xs == [] then map[]
    else match xs[|xs| - 1]
      case Show(p) => Verify(codes, GuardAfter(codes, xs[..|xs| - 1]), p).0
      case Restarted => map[]
  }

  /** The presentation reaches the replay cache with a code that is valid now. */
  predicate Presented(codes: CodeTable, p: Presentation) {
    IsValidCode(p.code) && p.access.Readable? && CheckCode(codes, p.username, p.code, p.check)
  }

  /** Entry `i` of the run was checked against the user's secret and accepted. */
  predicate Accepted(codes: CodeTable, xs: seq<Entry>, i: nat)
    requires i < |xs|
  {
    xs[i].Show? && Presented(codes, xs[i].p) && Verify(codes, GuardAfter(codes, xs[..i]), xs[i].p).1 == Ok(true)
  }

  predicate SamePair(p: Presentation, q: Presentation) {
    p.username == q.username && p.code == q.code
  }

  /** The clock never runs backwards, within a call or from one call to the next. */
  ghost predicate ClockForward(xs: seq<Entry>) {
    && (forall i :: 0 <= i < |xs| && xs[i].Show? ==> xs[i].p.check <= xs[i].p.record)
    && (forall i, j :: 0 <= i < j < |xs| && xs[i].Show? && xs[j].Show? ==> xs[i].p.record <= xs[j].p.check)
  }

  predicate RestartBetween(xs: seq<Entry>, i: nat, j: nat)
    requires j <= |xs|
  {
    exists r :: i < r < j && xs[r].Restarted?
  }

  /** Among the first `n` entries, `i` accepted the pair in the process still running, less than the lifetime before
      `now`. */
  predicate AcceptedRecently(codes: CodeTable, xs: seq<Entry>, i: nat, n: nat, username: string, code: string, now: int)
    requires n <= |xs|
  {
    && i < n && Accepted(codes, xs, i) && xs[i].p.username == username && xs[i].p.code == code
    && now < xs[i].p.record + REPLAY_TTL && !RestartBetween(xs, i, n)
  }

  ghost predicate RecentlyAccepted(codes: CodeTable, xs: seq<Entry>, n: nat, username: string, code: string, now: int)
    requires n <= |xs|
  {
    exists i: nat :: AcceptedRecently(codes, xs, i, n, username, code, now)
  }

  lemma AcceptedPrefix(codes: CodeTable, xs: seq<Entry>, n: nat)
    requires n <= |xs|
    ensures forall i: nat :: i < n ==> (Accepted(codes, xs[..n], i) <==> Accepted(codes, xs, i))
  {
    forall i: nat | i < n ensures Accepted(codes, xs[..n], i) <==> Accepted(codes, xs, i) {
      assert xs[..n][..i] == xs[..i];
    }
  }

  /** An earlier entry counts as before after one more entry that is no restart; after a restart none does. */
  lemma RecentExtends(codes: CodeTable, xs: seq<Entry>, i: nat, username: string, code: string, now: int)
    requires xs != [] && i < |xs| - 1
    ensures AcceptedRecently(codes, xs, i, |xs|, username, code, now) <==>
      xs[|xs| - 1].Show? && AcceptedRecently(codes, xs[..|xs| - 1], i, |xs| - 1, username, code, now)
  {
    var n := |xs| - 1;
    AcceptedPrefix(codes, xs, n);
    assert RestartBetween(xs, i, |xs|) <==> RestartBetween(xs[..n], i, n) || xs[n].Restarted? by {
      assert forall r :: i < r < n ==> xs[..n][r] == xs[r];
      if xs[n].Restarted? { assert i < n < |xs|; }
    }
  }

  /** At any later second, the cache after a run holds a live entry for a pair exactly when the process accepted it
      recently. */
  lemma {:induction false} GuardIsHistory(codes: CodeTable, xs: seq<Entry>, username: string, code: string, now: int)
    requires ClockForward(xs) && IsValidCode(code)
    requires forall i :: 0 <= i < |xs| && xs[i].Show? ==> xs[i].p.record <= now
    ensures ReplayKey(username, code) in Purge(GuardAfter(codes, xs), now) <==>
      RecentlyAccepted(codes, xs, |xs|, username, code, now)
  {
    if xs != [] {
      var n := |xs| - 1;
      var head := xs[..n];
      GuardIsHistory(codes, head, username, code, now);
      forall i: nat | i < n
        ensures AcceptedRecently(codes, xs, i, |xs|, username, code, now) <==>
          xs[n].Show? && AcceptedRecently(codes, head, i, n, username, code, now)
      {
        RecentExtends(codes, xs, i, username, code, now);
      }
      if xs[n].Show? {
        GuardGrows(codes, head, xs[n].p, username, code, now);
        assert head == xs[..n];
        if RecentlyAccepted(codes, head, n, username, code, now) {
          var i: nat :| AcceptedRecently(codes, head, i, n, username, code, now);
          assert AcceptedRecently(codes, xs, i, |xs|, username, code, now);
        }
        if Accepted(codes, xs, n) && xs[n].p.username == username && xs[n].p.code == code
          && now < xs[n].p.record + REPLAY_TTL {
          assert AcceptedRecently(codes, xs, n, |xs|, username, code, now);
        }
      }
    }
  }

  /** One presentation keeps the live entries and adds its own if it is accepted. */
  lemma GuardGrows(codes: CodeTable, xs: seq<Entry>, p: Presentation, username: string, code: string, now: int)
    requires IsValidCode(code) && p.record <= now
    ensures var (guard, r) := Verify(codes, GuardAfter(codes, xs), p);
      ReplayKey(username, code) in Purge(guard, now) <==>
        || ReplayKey(username, code) in Purge(GuardAfter(codes, xs), now)
        || (Presented(codes, p) && r == Ok(true) && p.username == username && p.code == code
            && now < p.record + REPLAY_TTL)
  {
    if Presented(codes, p) { ReplayKeyInjective(username, code, p.username, p.code); }
  }

  /** Main result. In any run with a forward clock, a presented code is accepted exactly when the same process had not
      accepted the same code of the same user during the last 90 seconds. */
  lemma AcceptedExactly(codes: CodeTable, xs: seq<Entry>, j: nat)
    requires ClockForward(xs) && j < |xs| && xs[j].Show?
    ensures Accepted(codes, xs, j) <==>
      Presented(codes, xs[j].p) && !RecentlyAccepted(codes, xs, j, xs[j].p.username, xs[j].p.code, xs[j].p.record)
  {
    var p := xs[j].p;
    if Presented(codes, p) {
      GuardIsHistory(codes, xs[..j], p.username, p.code, p.record);
      AcceptedPrefix(codes, xs, j);
      forall i: nat | i < j
        ensures AcceptedRecently(codes, xs[..j], i, j, p.username, p.code, p.record) <==>
          AcceptedRecently(codes, xs, i, j, p.username, p.code, p.record)
      {
        assert forall r :: i < r < j ==> xs[..j][r] == xs[r];
      }
      assert RecentlyAccepted(codes, xs[..j], j, p.username, p.code, p.record) <==>
        RecentlyAccepted(codes, xs, j, p.username, p.code, p.record);
    }
  }

  // ---- one acceptance per time step (section 5.2 of RFC 6238) ----

  /** The code belongs to this step alone in the user's table. */
  ghost predicate SoleStep(codes: CodeTable, p: Presentation, step: int) {
    forall s :: codes(p.username, s) == p.code <==> s == step
  }

  /** An acceptance of such a code puts the clock into the window of its step. */
  lemma AcceptedInWindow(codes: CodeTable, xs: seq<Entry>, i: nat, step: int)
    requires i < |xs| && Accepted(codes, xs, i) && SoleStep(codes, xs[i].p, step)
    ensures AsCodeOf(codes, xs[i].p, step)
  {
    PresentedExactly(codes, xs[i].p);
    var s :| AsCodeOf(codes, xs[i].p, s);
    assert codes(xs[i].p.username, s) == xs[i].p.code;
  }

  /** The lifetime of 90 seconds is the least that outlasts the window of every time step. */
  lemma LifetimeCoversWindow(ttl: int)
    ensures (forall step, first, second :: InWindow(step, first) && InWindow(step, second) ==>
             second < first + ttl) <==>
      ttl >= REPLAY_TTL
  {
    if ttl < REPLAY_TTL {
      assert InWindow(1, 0) && InWindow(1, 89) && !(89 < 0 + ttl);
    }
  }

  /** A second acceptance of one step's code by one process needs the cache's clock readings to lie a lifetime apart,
      although both code checks fell into the window of the step. */
  lemma SecondAcceptance(codes: CodeTable, xs: seq<Entry>, i: nat, j: nat, step: int)
    requires ClockForward(xs) && i < j < |xs| && Accepted(codes, xs, i) && Accepted(codes, xs, j)
    requires SamePair(xs[i].p, xs[j].p) && SoleStep(codes, xs[j].p, step) && !RestartBetween(xs, i, j)
    ensures xs[j].p.record >= xs[i].p.record + REPLAY_TTL
    ensures xs[j].p.check < xs[i].p.check + REPLAY_TTL
    ensures xs[j].p.record - xs[j].p.check > xs[i].p.record - xs[i].p.check
  {
    var q := xs[j].p;
    AcceptedExactly(codes, xs, j);
    assert !AcceptedRecently(codes, xs, i, j, q.username, q.code, q.record);
    AcceptedInWindow(codes, xs, i, step);
    AcceptedInWindow(codes, xs, j, step);
    LifetimeCoversWindow(REPLAY_TTL);
  }

  /** With one clock reading per call, a code that belongs to one time step is accepted twice only across a restart of
      the process. */
  lemma SingleAcceptance(codes: CodeTable, xs: seq<Entry>, i: nat, j: nat, step: int)
    requires ClockForward(xs) && i < j < |xs| && Accepted(codes, xs, i) && Accepted(codes, xs, j)
    requires SamePair(xs[i].p, xs[j].p) && SoleStep(codes, xs[j].p, step)
    requires xs[i].p.check == xs[i].p.record && xs[j].p.check == xs[j].p.record
    ensures RestartBetween(xs, i, j)
  {
    if !RestartBetween(xs, i, j) { SecondAcceptance(codes, xs, i, j, step); }
  }

  /** The exact condition. A call presenting again a code that was last accepted at `i` is accepted exactly when the
      process was restarted in between or its second clock reading comes a lifetime later; with one reading per call the
      latter cannot be for a code that belongs to one step. */
  lemma SecondAcceptanceExactly(codes: CodeTable, xs: seq<Entry>, i: nat, j: nat, step: int)
    requires ClockForward(xs) && i < j < |xs| && Accepted(codes, xs, i) && xs[j].Show?
    requires Presented(codes, xs[j].p) && SamePair(xs[i].p, xs[j].p)
    requires forall k: nat :: i < k < j && Accepted(codes, xs, k) ==> !SamePair(xs[k].p, xs[j].p)
    ensures Accepted(codes, xs, j) <==> RestartBetween(xs, i, j) || xs[j].p.record >= xs[i].p.record + REPLAY_TTL
    ensures SoleStep(codes, xs[j].p, step) && xs[i].p.check == xs[i].p.record && xs[j].p.check == xs[j].p.record ==>
      (Accepted(codes, xs, j) <==> RestartBetween(xs, i, j))
  {
    var q := xs[j].p;
    AcceptedExactly(codes, xs, j);
    forall k: nat | AcceptedRecently(codes, xs, k, j, q.username, q.code, q.record)
      ensures AcceptedRecently(codes, xs, i, j, q.username, q.code, q.record)
    {
      assert SamePair(xs[k].p, q) && k <= i;
      EarlierRestart(xs, k, i, j);
    }
    assert RecentlyAccepted(codes, xs, j, q.username, q.code, q.record) <==>
      AcceptedRecently(codes, xs, i, j, q.username, q.code, q.record);
    if SoleStep(codes, q, step) && xs[i].p.check == xs[i].p.record && q.check == q.record && Accepted(codes, xs, j) {
      SingleAcceptance(codes, xs, i, j, step);
    }
  }

  lemma EarlierRestart(xs: seq<Entry>, k: nat, i: nat, j: nat)
    requires k <= i <= j <= |xs|
    ensures RestartBetween(xs, i, j) ==> RestartBetween(xs, k, j)
  {
  }

  /** A double acceptance within one process: the first call in the first second of the window, the second in its last
      second, with the second boundary falling between its two clock readings. */
  lemma DoubleAcceptanceExample()
    ensures var codes: CodeTable := (u: string, step: int) => if step == 2 then "000000" else "123456";
      var xs := [Show(Presentation("ada", "000000", Readable, 30, 30)),
                 Show(Presentation("ada", "000000", Readable, 119, 120))];
      && ClockForward(xs) && !RestartBetween(xs, 0, 1) && SamePair(xs[0].p, xs[1].p) && SoleStep(codes, xs[1].p, 2)
      && Accepted(codes, xs, 0) && Accepted(codes, xs, 1)
  {
    var codes: CodeTable := (u: string, step: int) => if step == 2 then "000000" else "123456";
    var xs := [Show(Presentation("ada", "000000", Readable, 30, 30)),
               Show(Presentation("ada", "000000", Readable, 119, 120))];
    assert codes("ada", 2) == "000000";
    assert Presented(codes, xs[0].p) && Presented(codes, xs[1].p);
    AcceptedExactly(codes, xs, 0);
    AcceptedExactly(codes, xs, 1);
  }

  /** The TOTP service's share of a login: the cache is the only state it keeps, and a restart empties it. */
  class TotpService {
    const codes: CodeTable
    var replayGuard: Guard

    constructor (codes: CodeTable)
      ensures this.codes == codes && replayGuard == GuardAfter(codes, [])
    {
      this.codes := codes;
      replayGuard := map[];
    }

    method RejectReplay(username: string, code: string, now: int) returns (isNew: bool)
      modifies this
      ensures (replayGuard, isNew) == RejectReplayAndRecord(old(replayGuard), username, code, now)
    {
      replayGuard := map k | k in replayGuard && replayGuard[k] > now :: replayGuard[k];
      var key := ReplayKey(username, code);
      if key in replayGuard { return false; }
      replayGuard := replayGuard[key := now + REPLAY_TTL];
      return true;
    }

    method VerifyLogin(p: Presentation) returns (r: Result<bool>)
      modifies this
      ensures (replayGuard, r) == Verify(codes, old(replayGuard), p)
    {
      if !IsValidCode(p.code) { return Ok(false); }
      match p.access {
        case NotEnrolled => return Ok(true);
        case Refused => return Ok(false);
        case Failed(e) => return Err(e);
        case Legacy => return Ok(CheckCode(codes, p.username, p.code, p.check));
        case Readable =>
          if !CheckCode(codes, p.username, p.code, p.check) { return Ok(false); }
          var isNew := RejectReplay(p.username, p.code, p.record);
          return Ok(isNew);
      }
    }
  }
}
