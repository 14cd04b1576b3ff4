/**
 Logging in, with the counter of failed attempts and the lock on the account.  Checking a password is
 a parameter, each login reads the clock twice, and the updates of the user table can fail, which the
 login does not notice.  Times are in nanoseconds.
 */
module Login {
  import opened Wrappers

  const MAX_FAILED_ATTEMPTS: nat := 5
  const LOCKOUT_DURATION: nat := 900_000_000_000

  datatype Account = Account(passwordHash: string, failedAttempts: nat, lockedUntil: Option<int>)

  /** Which updates of the table fail. */
  datatype Losses = Losses(increment: bool, lock: bool, reset: bool)

  const NO_LOSSES := Losses(false, false, false)

  /** One call of Login: `now` is read for the test of the lock, `later` when a lock is set. */
  datatype Attempt = Attempt(username: string, password: string, now: int, later: int, losses: Losses)

  datatype Outcome = UnknownUser | StillLocked | WrongPassword | LockedNow | LoggedIn

  type Check = (string, string) -> bool

  predicate IsLocked(a: Account, now: int) {
    a.lockedUntil.Some? && now < a.lockedUntil.value
  }

  function Counted(a: Account, lost: bool): Account {
    if lost then a else a.(failedAttempts := a.failedAttempts + 1)
  }

  function LockedFor(a: Account, until: int, lost: bool): Account {
    if lost then a else a.(lockedUntil := Some(until))
  }

  function Cleared(a: Account, lost: bool): Account {
    if lost then a else a.(failedAttempts := 0, lockedUntil := None)
  }

  /** Whether an account is locked goes by the counter that was read, plus one. */
  function LoginOf(a: Account, check: Check, x: Attempt): (Account, Outcome) {
    if IsLocked(a, x.now) then (a, StillLocked)
    else if !check(a.passwordHash, x.password) then
      var failed := Counted(a, x.losses.increment);
      if a.failedAttempts + 1 >= MAX_FAILED_ATTEMPTS then
        (LockedFor(failed, x.later + LOCKOUT_DURATION, x.losses.lock), LockedNow)
      else (failed, WrongPassword)
    else if a.failedAttempts > 0 then (Cleared(a, x.losses.reset), LoggedIn)
    else (a, LoggedIn)
  }

  // ---------------------------------------------------------------------------------------------
  // The service
  // ---------------------------------------------------------------------------------------------

  type Accounts = map<string, Account>

  class UserRepository {
    var accounts: Accounts

    constructor (accounts: Accounts)
      ensures this.accounts == accounts
    {
      this.accounts := accounts;
    }

    method FindByUsername(username: string) returns (user: Option<Account>)
      ensures user == if username in accounts then Some(accounts[username]) else None
    {
      user := if username in accounts then Some(accounts[username]) else None;
    }

    method IncrementFailedAttempts(username: string, fails: bool)
      modifies this
      ensures accounts == if username !in old(accounts) then old(accounts)
                          else old(accounts)[username := Counted(old(accounts)[username], fails)]
    {
      if username in accounts && !fails {
        var a := accounts[username];
        accounts := accounts[username := a.(failedAttempts := a.failedAttempts + 1)];
      }
    }

    method LockAccount(username: string, until: int, fails: bool)
      modifies this
      ensures accounts == if username !in old(accounts) then old(accounts)
                          else old(accounts)[username := LockedFor(old(accounts)[username], until, fails)]
    {
      if username in accounts && !fails {
        accounts := accounts[username := accounts[username].(lockedUntil := Some(until))];
      }
    }

    method ResetFailedAttempts(username: string, fails: bool)
      modifies this
      ensures accounts == if username !in old(accounts) then old(accounts)
                          else old(accounts)[username := Cleared(old(accounts)[username], fails)]
    {
      if username in accounts && !fails {
        accounts := accounts[username := accounts[username].(failedAttempts := 0, lockedUntil := None)];
      }
    }
  }

  /** One login against the table: only the row of that user changes. */
  function ServeOf(accounts: Accounts, check: Check, x: Attempt): (Accounts, Outcome) {
    if x.username !in accounts then (accounts, UnknownUser)
    else
      var (a, outcome) := LoginOf(accounts[x.username], check, x);
      (accounts[x.username := a], outcome)
  }

  /** The lock of an account is on at that moment. */
  predicate LockIsOn(a: Account, now: int) {
    match a.lockedUntil
    case None => false
    case Some(until) => now < until
  }

  /**
   Exactly when a login gives which answer: it succeeds for a known user whose lock is not on and whose
   password checks; the fifth failure in a row, and each one after it, reports a lock.
   */
  lemma LoginAnswers(accounts: Accounts, check: Check, x: Attempt)
    ensures var outcome := ServeOf(accounts, check, x).1;
            if x.username !in accounts then outcome == UnknownUser
            else
              var a := accounts[x.username];
              && (outcome == StillLocked <==> LockIsOn(a, x.now))
              && (outcome == LoggedIn <==> !LockIsOn(a, x.now) && check(a.passwordHash, x.password))
              && (outcome == WrongPassword <==>
                    !LockIsOn(a, x.now) && !check(a.passwordHash, x.password) && a.failedAttempts < 4)
              && (outcome == LockedNow <==>
                    !LockIsOn(a, x.now) && !check(a.passwordHash, x.password) && a.failedAttempts >= 4)
  {
  }

  /**
   What a login leaves when its updates are stored: after a success nothing counts and there is no lock,
   unless nothing was counted; a failed check counts one more, and the one that reports a lock sets it for
   15 minutes; any other login changes nothing.
   */
  lemma LoginLeaves(accounts: Accounts, check: Check, x: Attempt)
    requires x.username in accounts && x.losses == NO_LOSSES
    ensures var (after, outcome) := ServeOf(accounts, check, x);
            var a, b := accounts[x.username], after[x.username];
            && after.Keys == accounts.Keys && (forall u :: u in accounts && u != x.username ==> after[u] == accounts[u])
            && b.passwordHash == a.passwordHash
            && (outcome == LoggedIn ==> b.failedAttempts == 0 && (a.failedAttempts > 0 ==> b.lockedUntil == None))
            && (outcome == WrongPassword ==> b.failedAttempts == a.failedAttempts + 1 && b.lockedUntil == a.lockedUntil)
            && (outcome == LockedNow ==>
                  b.failedAttempts == a.failedAttempts + 1 && b.lockedUntil == Some(x.later + 15 * 60 * 1_000_000_000))
            && (outcome == StillLocked ==> b == a)
  {
  }

  lemma SecondUpdateWins(accounts: Accounts, username: string, a: Account, b: Account)
    ensures accounts[username := a][username := b] == accounts[username := b]
  {
  }

  class AuthService {
    const users: UserRepository
    const check: Check

    constructor (users: UserRepository, check: Check)
      ensures this.users == users && this.check == check
    {
      this.users, this.check := users, check;
    }

    method Login(x: Attempt) returns (outcome: Outcome)
      modifies users
      ensures (users.accounts, outcome) == ServeOf(old(users.accounts), check, x)
    {
      var found := users.FindByUsername(x.username);
      if found == None {
        return UnknownUser;
      }
      var user := found.value;
      ghost var before := users.accounts;
      assert before[x.username := user] == before;
      if user.lockedUntil.Some? && x.now < user.lockedUntil.value {
        return StillLocked;
      }
      if !check(user.passwordHash, x.password) {
        users.IncrementFailedAttempts(x.username, x.losses.increment);
        var newCount := user.failedAttempts + 1;
        if newCount >= MAX_FAILED_ATTEMPTS {
          users.LockAccount(x.username, x.later + LOCKOUT_DURATION, x.losses.lock);
          SecondUpdateWins(before, x.username, Counted(user, x.losses.increment), users.accounts[x.username]);
          return LockedNow;
        }
        return WrongPassword;
      }
      if user.failedAttempts > 0 {
        users.ResetFailedAttempts(x.username, x.losses.reset);
      }
      outcome := LoggedIn;
    }
  }

  // ---------------------------------------------------------------------------------------------
  // Runs
  // ---------------------------------------------------------------------------------------------

  /** The table after a run of logins. */
  function ServeAll(accounts: Accounts, check: Check, run: seq<Attempt>): Accounts {
    if run == [] then accounts
    else ServeOf(ServeAll(accounts, check, run[..|run| - 1]), check, run[|run| - 1]).0
  }

  /** One account after a run of logins of its user. */
  function After(a: Account, check: Check, run: seq<Attempt>): Account {
    if run == [] then a else LoginOf(After(a, check, run[..|run| - 1]), check, run[|run| - 1]).0
  }

  function Outcomes(a: Account, check: Check, run: seq<Attempt>): (outcomes: seq<Outcome>)
    ensures |outcomes| == |run|
  {
    if run == [] then []
    else
      var earlier := run[..|run| - 1];
      Outcomes(a, check, earlier) + [LoginOf(After(a, check, earlier), check, run[|run| - 1]).1]
  }

  /** The logins of one user, in order. */
  function Of(username: string, run: seq<Attempt>): seq<Attempt> {
    if run == [] then []
    else
      Of(username, run[..|run| - 1]) + if run[|run| - 1].username == username then [run[|run| - 1]] else []
  }

  /** What happens to an account depends on the logins of its own user alone. */
  lemma {:induction false} OnlyOwnLoginsMatter(accounts: Accounts, check: Check, run: seq<Attempt>, username: string)
    requires username in accounts
    ensures username in ServeAll(accounts, check, run)
    ensures ServeAll(accounts, check, run)[username] == After(accounts[username], check, Of(username, run))
  {
    if run != [] {
      var earlier := run[..|run| - 1];
      OnlyOwnLoginsMatter(accounts, check, earlier, username);
      if run[|run| - 1].username == username {
        assert Of(username, run)[..|Of(username, run)| - 1] == Of(username, earlier);
      } else {
        assert Of(username, run) == Of(username, earlier);
      }
    }
  }

  predicate IsFailedCheck(outcome: Outcome) {
    outcome == WrongPassword || outcome == LockedNow
  }

  /** The failed password checks after the last success. */
  function FailuresSinceSuccess(outcomes: seq<Outcome>): nat {
    if outcomes == [] then 0
    else
      var last := outcomes[|outcomes| - 1];
      if last == LoggedIn then 0
      else FailuresSinceSuccess(outcomes[..|outcomes| - 1]) + if IsFailedCheck(last) then 1 else 0
  }

  lemma OneMoreLogin(a: Account, check: Check, earlier: seq<Attempt>, x: Attempt)
    ensures var (after, outcome) := LoginOf(After(a, check, earlier), check, x);
            && After(a, check, earlier + [x]) == after
            && Outcomes(a, check, earlier + [x]) == Outcomes(a, check, earlier) + [outcome]
            && FailedCheckTimes(a, check, earlier + [x]) ==
               FailedCheckTimes(a, check, earlier) + if IsFailedCheck(outcome) then [x.now] else []
  {
    assert (earlier + [x])[..|earlier + [x]| - 1] == earlier;
  }

  lemma OutcomesStep(a: Account, check: Check, run: seq<Attempt>)
    requires run != []
    ensures var n := |run| - 1;
            && Outcomes(a, check, run)[..n] == Outcomes(a, check, run[..n])
            && Outcomes(a, check, run)[n] == LoginOf(After(a, check, run[..n]), check, run[n]).1
  {
  }

  /** The stored counter is the number of failed checks since the last success. */
  lemma {:induction false} CounterCountsFailures(a: Account, check: Check, run: seq<Attempt>)
    requires a.failedAttempts == 0 && forall x :: x in run ==> !x.losses.increment && !x.losses.reset
    ensures After(a, check, run).failedAttempts == FailuresSinceSuccess(Outcomes(a, check, run))
  {
    if run != [] {
      CounterCountsFailures(a, check, run[..|run| - 1]);
      OutcomesStep(a, check, run);
      assert run[|run| - 1] in run;
    }
  }

  /** The clock never goes back, within a login or from one to the next. */
  ghost predicate ClockIsMonotone(run: seq<Attempt>) {
    run == [] ||
    var last := run[|run| - 1];
    && last.now <= last.later
    && (forall x :: x in run[..|run| - 1] ==> x.later <= last.now)
    && ClockIsMonotone(run[..|run| - 1])
  }

  lemma {:induction false} OwnLoginsAreMonotone(username: string, run: seq<Attempt>)
    requires ClockIsMonotone(run)
    ensures ClockIsMonotone(Of(username, run))
    ensures forall x :: x in Of(username, run) ==> x in run
  {
    if run != [] {
      var earlier, own := run[..|run| - 1], Of(username, run);
      OwnLoginsAreMonotone(username, earlier);
      if run[|run| - 1].username == username {
        assert own[..|own| - 1] == Of(username, earlier);
      } else {
        assert own == Of(username, earlier);
      }
    }
  }

  /** When the failed checks of a run happened. */
  function FailedCheckTimes(a: Account, check: Check, run: seq<Attempt>): seq<int> {
    if run == [] then []
    else
      var earlier := run[..|run| - 1];
      FailedCheckTimes(a, check, earlier)
      + if IsFailedCheck(LoginOf(After(a, check, earlier), check, run[|run| - 1]).1) then [run[|run| - 1].now] else []
  }

  /** From the fifth failed check on, each one locks the account until a full lockout later. */
  ghost predicate PacedSoFar(times: seq<int>, after: Account) {
    && after.failedAttempts >= |times|
    && (|times| >= MAX_FAILED_ATTEMPTS ==>
          && after.lockedUntil.Some?
          && after.lockedUntil.value >= times[|times| - 1] + LOCKOUT_DURATION
          && times[|times| - 1] - times[0] >= (|times| - MAX_FAILED_ATTEMPTS) * LOCKOUT_DURATION)
  }

  lemma FailedCheckKeepsPace(times: seq<int>, before: Account, check: Check, x: Attempt)
    requires PacedSoFar(times, before) && x.now <= x.later
    requires forall t :: t in times ==> t <= x.now
    requires IsFailedCheck(LoginOf(before, check, x).1) && !x.losses.increment && !x.losses.lock
    ensures PacedSoFar(times + [x.now], LoginOf(before, check, x).0)
  {
    var next := times + [x.now];
    if |times| >= MAX_FAILED_ATTEMPTS {
      assert next[|next| - 1] - next[0] >= LOCKOUT_DURATION + (|times| - MAX_FAILED_ATTEMPTS) * LOCKOUT_DURATION;
    } else if times != [] {
      assert times[0] in times;
    }
  }

  /** No failed check goes uncounted and no lock is lost. */
  predicate IsRecorded(run: seq<Attempt>) {
    forall x :: x in run ==> !x.losses.increment && !x.losses.lock
  }

  lemma {:induction false} LocksPaceChecks(a: Account, check: Check, run: seq<Attempt>)
    requires ClockIsMonotone(run) && IsRecorded(run) && LoggedIn !in Outcomes(a, check, run)
    ensures PacedSoFar(FailedCheckTimes(a, check, run), After(a, check, run))
    ensures forall t :: t in FailedCheckTimes(a, check, run) ==> exists x :: x in run && t == x.now
  {
    if run != [] {
      var earlier, x := run[..|run| - 1], run[|run| - 1];
      OutcomesStep(a, check, run);
      assert LoggedIn !in Outcomes(a, check, earlier) by {
        assert forall o :: o in Outcomes(a, check, run)[..|run| - 1] ==> o in Outcomes(a, check, run);
      }
      LocksPaceChecks(a, check, earlier);
      var before, times := After(a, check, earlier), FailedCheckTimes(a, check, earlier);
      assert LoginOf(before, check, x).1 != LoggedIn by {
        assert Outcomes(a, check, run)[|run| - 1] in Outcomes(a, check, run);
      }
      TimesAreBefore(earlier);
      assert x in run;
      if IsFailedCheck(LoginOf(before, check, x).1) {
        FailedCheckKeepsPace(times, before, check, x);
      }
    }
  }

  lemma {:induction false} TimesAreBefore(run: seq<Attempt>)
    requires ClockIsMonotone(run)
    ensures forall x :: x in run ==> x.now <= x.later
  {
    if run != [] {
      TimesAreBefore(run[..|run| - 1]);
    }
  }

  /**
   However logins are timed, a stretch of them without a success checks the password in vain at most
   five times plus once for each full lockout between the first and the last of these checks.
   */
  lemma LockoutBoundsChecks(a: Account, check: Check, run: seq<Attempt>)
    requires ClockIsMonotone(run) && IsRecorded(run) && LoggedIn !in Outcomes(a, check, run)
    ensures var times := FailedCheckTimes(a, check, run);
            times != [] ==>
              |times| <= MAX_FAILED_ATTEMPTS + (times[|times| - 1] - times[0]) / LOCKOUT_DURATION
  {
    LocksPaceChecks(a, check, run);
    var times := FailedCheckTimes(a, check, run);
    if |times| >= MAX_FAILED_ATTEMPTS {
      Floor(times[|times| - 1] - times[0], |times| - MAX_FAILED_ATTEMPTS);
    } else if times != [] {
      FailedTimesIncrease(a, check, run);
    }
  }

  lemma Floor(t: int, k: nat)
    requires t >= k * LOCKOUT_DURATION
    ensures t / LOCKOUT_DURATION >= k
  {
  }

  lemma {:induction false} FailedTimesIncrease(a: Account, check: Check, run: seq<Attempt>)
    requires ClockIsMonotone(run)
    ensures var times := FailedCheckTimes(a, check, run);
            && (times != [] ==> times[0] <= times[|times| - 1])
            && (forall t :: t in times ==> exists x :: x in run && t == x.now)
  {
    if run != [] {
      var earlier := run[..|run| - 1];
      FailedTimesIncrease(a, check, earlier);
      TimesAreBefore(earlier);
      var times := FailedCheckTimes(a, check, earlier);
      if times != [] {
        assert times[0] in times;
      }
    }
  }

  /** The bound for one user of a service that serves many: from any point of a run to any later one. */
  lemma LockoutBoundsServedChecks(accounts: Accounts, check: Check, before: seq<Attempt>, stretch: seq<Attempt>,
                                  username: string)
    requires username in accounts && ClockIsMonotone(stretch) && IsRecorded(stretch)
    requires var a := ServeAll(accounts, check, before);
             username in a && LoggedIn !in Outcomes(a[username], check, Of(username, stretch))
    ensures var a := ServeAll(accounts, check, before)[username];
            var times := FailedCheckTimes(a, check, Of(username, stretch));
            times != [] ==>
              |times| <= MAX_FAILED_ATTEMPTS + (times[|times| - 1] - times[0]) / LOCKOUT_DURATION
  {
    OwnLoginsAreMonotone(username, stretch);
    LockoutBoundsChecks(ServeAll(accounts, check, before)[username], check, Of(username, stretch));
  }

  // ---------------------------------------------------------------------------------------------
  // The bound is reached
  // ---------------------------------------------------------------------------------------------

  /** Five guesses at once, then one whenever the lock runs out. */
  function Patient(username: string, guess: string, n: nat): seq<Attempt> {
    if n == 0 then []
    else
      Patient(username, guess, n - 1) + [Attempt(username, guess, LastGuess(n), LastGuess(n), NO_LOSSES)]
  }

  /** Guessing patiently gets every guess checked, so the bound cannot be improved. */
  lemma {:induction false} PatientGuessesAreChecked(a: Account, check: Check, username: string, guess: string, n: nat)
    requires a.failedAttempts == 0 && a.lockedUntil == None && !check(a.passwordHash, guess)
    ensures var run := Patient(username, guess, n);
            var times := FailedCheckTimes(a, check, run);
            && |times| == n && ClockIsMonotone(run) && LoggedIn !in Outcomes(a, check, run)
            && (n >= MAX_FAILED_ATTEMPTS ==>
                  n == MAX_FAILED_ATTEMPTS + (times[|times| - 1] - times[0]) / LOCKOUT_DURATION)
  {
    PatientRun(a, check, username, guess, n);
    if n >= MAX_FAILED_ATTEMPTS {
      Quotient(n - MAX_FAILED_ATTEMPTS);
    }
  }

  lemma Quotient(k: nat)
    ensures (k * LOCKOUT_DURATION) / LOCKOUT_DURATION == k
  {
  }

  function LastGuess(n: nat): int {
    if n <= MAX_FAILED_ATTEMPTS then 0 else (n - MAX_FAILED_ATTEMPTS) * LOCKOUT_DURATION
  }

  function Guessed(a: Account, n: nat): Account {
    a.(failedAttempts := n,
       lockedUntil := if n < MAX_FAILED_ATTEMPTS then None else Some(LastGuess(n) + LOCKOUT_DURATION))
  }

  lemma OneMoreGuess(a: Account, check: Check, x: Attempt, n: nat)
    requires n > 0 && !check(a.passwordHash, x.password) && x.now == x.later == LastGuess(n) && x.losses == NO_LOSSES
    ensures var (after, outcome) := LoginOf(Guessed(a, n - 1), check, x);
            after == Guessed(a, n) && IsFailedCheck(outcome)
  {
  }

  lemma LaterLogin(earlier: seq<Attempt>, x: Attempt, t: int)
    requires ClockIsMonotone(earlier) && t <= x.now == x.later && forall y :: y in earlier ==> y.later <= t
    ensures ClockIsMonotone(earlier + [x])
    ensures forall y :: y in earlier + [x] ==> y.later <= x.later
  {
    assert (earlier + [x])[..|earlier + [x]| - 1] == earlier;
  }

  ghost predicate AreGuessTimes(times: seq<int>, n: nat) {
    |times| == n && (n > 0 ==> times[0] == 0 && times[n - 1] == LastGuess(n))
  }

  lemma OneMoreTime(times: seq<int>, n: nat)
    requires n > 0 && AreGuessTimes(times, n - 1)
    ensures AreGuessTimes(times + [LastGuess(n)], n)
  {
  }

  /** What a run of n patient guesses comes to. */
  ghost predicate IsPatientRun(a: Account, check: Check, run: seq<Attempt>, n: nat) {
    && ClockIsMonotone(run) && (forall x :: x in run ==> x.later <= LastGuess(n))
    && After(a, check, run) == Guessed(a, n)
    && LoggedIn !in Outcomes(a, check, run)
    && AreGuessTimes(FailedCheckTimes(a, check, run), n)
  }

  lemma PatientStep(a: Account, check: Check, earlier: seq<Attempt>, x: Attempt, n: nat)
    requires n > 0 && !check(a.passwordHash, x.password) && x.now == x.later == LastGuess(n) && x.losses == NO_LOSSES
    requires IsPatientRun(a, check, earlier, n - 1)
    ensures IsPatientRun(a, check, earlier + [x], n)
  {
    OneMoreLogin(a, check, earlier, x);
    OneMoreGuess(a, check, x, n);
    assert LastGuess(n - 1) <= LastGuess(n);
    LaterLogin(earlier, x, LastGuess(n - 1));
    OneMoreTime(FailedCheckTimes(a, check, earlier), n);
  }

  lemma {:induction false} PatientRun(a: Account, check: Check, username: string, guess: string, n: nat)
    requires a.failedAttempts == 0 && a.lockedUntil == None && !check(a.passwordHash, guess)
    ensures IsPatientRun(a, check, Patient(username, guess, n), n)
  {
    if n > 0 {
      PatientRun(a, check, username, guess, n - 1);
      PatientStep(a, check, Patient(username, guess, n - 1),
                  Attempt(username, guess, LastGuess(n), LastGuess(n), NO_LOSSES), n);
    }
  }

  // ---------------------------------------------------------------------------------------------
  // The bound needs the table
  // ---------------------------------------------------------------------------------------------

  /** The same guess n times. */
  function Again(x: Attempt, n: nat): seq<Attempt> {
    if n == 0 then [] else Again(x, n - 1) + [x]
  }

  /** n guesses at one moment were all checked; the account is as it was, but for a counter that counts. */
  ghost predicate IsFreeRun(a: Account, check: Check, x: Attempt, run: seq<Attempt>, n: nat) {
    && ClockIsMonotone(run) && (forall y :: y in run ==> y == x) && LoggedIn !in Outcomes(a, check, run)
    && After(a, check, run) == (if x.losses.increment then a else a.(failedAttempts := n))
    && |FailedCheckTimes(a, check, run)| == n
    && (forall t :: t in FailedCheckTimes(a, check, run) ==> t == x.now)
  }

  lemma OneMoreFreeGuess(a: Account, check: Check, x: Attempt, run: seq<Attempt>, n: nat)
    requires a.failedAttempts == 0 && a.lockedUntil == None && !check(a.passwordHash, x.password)
    requires (x.losses.increment || x.losses.lock) && x.now == x.later && IsFreeRun(a, check, x, run, n)
    ensures IsFreeRun(a, check, x, run + [x], n + 1)
  {
    OneMoreLogin(a, check, run, x);
    LaterLogin(run, x, x.now);
  }

  lemma NoGuessIsFree(a: Account, check: Check, x: Attempt)
    requires a.failedAttempts == 0
    ensures IsFreeRun(a, check, x, [], 0)
  {
  }

  /** When the updates of the counter fail, or those of the lock, any number of guesses is checked at one moment. */
  lemma {:induction false} UnrecordedGuessesAreFree(a: Account, check: Check, x: Attempt, n: nat)
    requires a.failedAttempts == 0 && a.lockedUntil == None && !check(a.passwordHash, x.password)
    requires (x.losses.increment || x.losses.lock) && x.now == x.later
    ensures IsFreeRun(a, check, x, Again(x, n), n)
  {
    if n == 0 {
      NoGuessIsFree(a, check, x);
    } else {
      UnrecordedGuessesAreFree(a, check, x, n - 1);
      OneMoreFreeGuess(a, check, x, Again(x, n - 1), n - 1);
    }
  }

  /** A run in which no other updates are lost than those that may be. */
  predicate LosesAtMost(run: seq<Attempt>, may: Losses) {
    forall x :: x in run ==> (x.losses.increment ==> may.increment) && (x.losses.lock ==> may.lock)
  }

  /** A run without a success keeps the bound on its failed checks. */
  ghost predicate KeepsBound(a: Account, check: Check, run: seq<Attempt>) {
    var times := FailedCheckTimes(a, check, run);
    LoggedIn !in Outcomes(a, check, run) && times != [] ==>
      |times| <= MAX_FAILED_ATTEMPTS + (times[|times| - 1] - times[0]) / LOCKOUT_DURATION
  }

  /** One guess too many at one moment. */
  lemma FreeRunBreaksBound(a: Account, check: Check, x: Attempt, run: seq<Attempt>, n: nat)
    requires n > MAX_FAILED_ATTEMPTS && IsFreeRun(a, check, x, run, n)
    ensures !KeepsBound(a, check, run)
  {
    var times := FailedCheckTimes(a, check, run);
    assert times[0] in times && times[n - 1] in times;
  }

  /**
   The bound holds of every account and every run with a clock that does not go back if and only if
   neither the counter nor the lock may be lost, provided that some guess is wrong.
   */
  lemma BoundNeedsBothUpdates(check: Check, may: Losses, hash: string, guess: string)
    requires !check(hash, guess)
    ensures (forall a, run :: ClockIsMonotone(run) && LosesAtMost(run, may) ==> KeepsBound(a, check, run))
            <==> !may.increment && !may.lock
  {
    if may.increment || may.lock {
      var a, x := Account(hash, 0, None), Attempt("", guess, 0, 0, may);
      var n := MAX_FAILED_ATTEMPTS + 1;
      UnrecordedGuessesAreFree(a, check, x, n);
      FreeRunBreaksBound(a, check, x, Again(x, n), n);
      assert LosesAtMost(Again(x, n), may);
    } else {
      forall a, run | ClockIsMonotone(run) && LosesAtMost(run, may) ensures KeepsBound(a, check, run) {
        if LoggedIn !in Outcomes(a, check, run) {
          LockoutBoundsChecks(a, check, run);
        }
      }
    }
  }
}
