/**
  The password route of the site (`POST /api/verify-password`) and the
  in-memory limiter behind it: failed attempts are counted per client
  address in `failedAttempts`, five of them get the address banned, a
  correct password clears the count, and a periodic sweep forgets entries
  that have been quiet for ten minutes.

  The ban store is reached through two oracles. `isIpBanned` answers `None`
  when the lookup throws. The store catches its own query errors and answers
  "not banned" then, so `None` stands only for a failure to create the
  database client. `banIp` answers `false` when recording the ban throws.
  Either failure ends in the route's `catch`, status 500. The clock
  (`Date.now()`) is the parameter `now`, in milliseconds.
*/
module VerifyPassword {
  import opened Common
  import ClientIp

  const CorrectPassword: string := "133110"
  const MaxAttempts: int := 5
  /** The length of a ban, in hours, handed to the ban store. */
  const BanHours: int := 24
  /** Entries whose last failure is older than this many milliseconds are swept. */
  const StaleAfter: int := 10 * 60 * 1000

  /** One entry of `failedAttempts`. */
  datatype Attempts = Attempts(count: int, lastAttempt: int)

  /** The request body: `Unreadable` when `req.json()` throws or yields a
      value that cannot be destructured; otherwise the `password` field,
      `None` when it is absent or not a string. */
  datatype RequestBody = Unreadable | Body(password: Option<string>)

  /** The responses of the route. */
  datatype Reply =
    | AlreadyBanned                   // { error, banned: true }, 403
    | Verified                        // { success: true }, 200
    | NowBanned                       // { error, banned: true, attemptsRemaining: 0 }, 403
    | Incorrect(attemptsRemaining: int) // { error, attemptsRemaining }, 401
    | Failed                          // { error }, 500
  {
    function Status(): int {
      match this
      case AlreadyBanned => 403
      case Verified => 200
      case NowBanned => 403
      case Incorrect(_) => 401
      case Failed => 500
    }

    predicate Banned() {
      AlreadyBanned? || NowBanned?
    }
  }

  /** The failure count of `ip`, 0 when it has no entry. */
  function CountOf(m: map<string, Attempts>, ip: string): int {
    if ip in m then m[ip].count else 0
  }

  /** The map after a wrong password from `ip` at time `now`. */
  function RecordFailure(m: map<string, Attempts>, ip: string, now: int): (m': map<string, Attempts>)
    ensures m'.Keys == m.Keys + {ip}
    ensures m'[ip] == Attempts(CountOf(m, ip) + 1, now)
    ensures forall other :: other in m && other != ip ==> m'[other] == m[other]
  {
    m[ip := Attempts(CountOf(m, ip) + 1, now)]
  }

  /** The reply to a wrong password once the count has reached `count`,
      when the ban, if one is due, has been recorded. */
  function FailureReply(count: int): (r: Reply)
    ensures r == NowBanned <==> count >= MaxAttempts
    ensures r != NowBanned ==> r == Incorrect(MaxAttempts - count)
  {
    if count >= MaxAttempts then NowBanned else Incorrect(MaxAttempts - count)
  }

  /** Every stored entry records at least one failure. */
  predicate CountsPositive(m: map<string, Attempts>) {
    forall ip :: ip in m ==> m[ip].count >= 1
  }

  /** An entry is stale when its last failure is more than ten minutes before `now`. */
  predicate Stale(a: Attempts, now: int) {
    a.lastAttempt < now - StaleAfter
  }

  /** The map after the sweep at time `now`. */
  function Swept(m: map<string, Attempts>, now: int): (m': map<string, Attempts>)
    ensures forall ip :: ip in m' <==> ip in m && !Stale(m[ip], now)
    ensures forall ip :: ip in m' ==> m'[ip] == m[ip]
  {
    map ip | ip in m && !Stale(m[ip], now) :: m[ip]
  }

  /** The module-level state of the route. */
  class PasswordGate {
    var failedAttempts: map<string, Attempts>

    predicate Valid()
      reads this
    {
      CountsPositive(failedAttempts)
    }

    constructor ()
      ensures failedAttempts == map[]
      ensures Valid()
    {
      failedAttempts := map[];
    }

    /** `POST`: `reply` is the response; `banRequested` says whether `banIp`
        was called. */
    method Post(
      forwarded: Option<string>,
      realIp: Option<string>,
      isIpBanned: string -> Option<bool>,
      body: RequestBody,
      now: int,
      banIp: (string, int) -> bool)
      returns (reply: Reply, banRequested: bool)
      requires Valid()
      modifies this
      ensures Valid()
      ensures var ip := ClientIp.GetClientIp(forwarded, realIp);
              var lookup := isIpBanned(ip);
              && (lookup.None? ==> reply == Failed && failedAttempts == old(failedAttempts))
              && (lookup == Some(true) ==> reply == AlreadyBanned && failedAttempts == old(failedAttempts))
              && (lookup == Some(false) && body.Unreadable? ==>
                    reply == Failed && failedAttempts == old(failedAttempts))
              && (lookup == Some(false) && body.Body? && body.password == Some(CorrectPassword) ==>
                    reply == Verified && failedAttempts == old(failedAttempts) - {ip})
              && (lookup == Some(false) && body.Body? && body.password != Some(CorrectPassword) ==>
                    && failedAttempts == RecordFailure(old(failedAttempts), ip, now)
                    && banRequested == (failedAttempts[ip].count >= MaxAttempts)
                    && reply == (if banRequested && !banIp(ip, BanHours) then Failed
                                 else FailureReply(failedAttempts[ip].count)))
              && (banRequested ==> lookup == Some(false) && body.Body? && body.password != Some(CorrectPassword))
    {
      banRequested := false;
      var ip := ClientIp.GetClientIp(forwarded, realIp);
      var alreadyBanned := isIpBanned(ip);
      if alreadyBanned.None? {
        reply := Failed;
        return;
      }
      if alreadyBanned.value {
        reply := AlreadyBanned;
        return;
      }
      if body.Unreadable? {
        reply := Failed;
        return;
      }
      if body.password == Some(CorrectPassword) {
        failedAttempts := failedAttempts - {ip};
        reply := Verified;
        return;
      }
      var attempts := if ip in failedAttempts then failedAttempts[ip] else Attempts(0, 0);
      attempts := attempts.(count := attempts.count + 1);
      attempts := attempts.(lastAttempt := now);
      failedAttempts := failedAttempts[ip := attempts];
      if attempts.count >= MaxAttempts {
        banRequested := true;
        if banIp(ip, BanHours) {
          reply := NowBanned;
        } else {
          reply := Failed;
        }
        return;
      }
      reply := Incorrect(MaxAttempts - attempts.count);
    }

    /** The body of the ten-minute cleanup timer: deletes, while walking the
        entries, every one whose last failure is older than ten minutes. */
    method Sweep(now: int)
      requires Valid()
      modifies this
      ensures Valid()
      ensures failedAttempts == Swept(old(failedAttempts), now)
    {
      var tenMinutesAgo := now - StaleAfter;
      var pending := failedAttempts.Keys;
      ghost var before := failedAttempts;
      while pending != {}
        invariant pending <= before.Keys
        invariant forall ip :: ip in failedAttempts ==> ip in before && failedAttempts[ip] == before[ip]
        invariant forall ip :: ip in pending ==> ip in failedAttempts
        invariant forall ip :: ip in before && ip !in pending ==>
                    (ip in failedAttempts <==> !Stale(before[ip], now))
        decreases |pending|
      {
        var ip :| ip in pending;
        if failedAttempts[ip].lastAttempt < tenMinutesAgo {
          failedAttempts := failedAttempts - {ip};
        }
        pending := pending - {ip};
      }
      assert failedAttempts == Swept(before, now);
    }
  }

  // ---------------------------------------------------------------------
  // Properties
  // ---------------------------------------------------------------------

  /** A wrong password that does not ban tells how many tries are left:
      one to four. */
  lemma AttemptsRemainingRange(m: map<string, Attempts>, ip: string, now: int)
    requires CountsPositive(m)
    requires FailureReply(RecordFailure(m, ip, now)[ip].count).Incorrect?
    ensures 1 <= FailureReply(RecordFailure(m, ip, now)[ip].count).attemptsRemaining <= 4
  {
  }

  /** A failure keeps every count at one or more. */
  lemma RecordFailureKeepsCountsPositive(m: map<string, Attempts>, ip: string, now: int)
    requires CountsPositive(m)
    ensures CountsPositive(RecordFailure(m, ip, now))
  {
  }

  /** `n` wrong passwords from `ip`, at the times `nows`, with nothing in between. */
  function Failures(m: map<string, Attempts>, ip: string, nows: seq<int>): map<string, Attempts>
    decreases |nows|
  {
    if nows == [] then m else Failures(RecordFailure(m, ip, nows[0]), ip, nows[1..])
  }

  /** Each wrong password adds one to the count, and the entry remembers the
      time of the last one. */
  lemma {:induction false} FailuresCount(m: map<string, Attempts>, ip: string, nows: seq<int>)
    requires nows != []
    ensures ip in Failures(m, ip, nows)
    ensures Failures(m, ip, nows)[ip] == Attempts(CountOf(m, ip) + |nows|, nows[|nows| - 1])
    decreases |nows|
  {
    var m1 := RecordFailure(m, ip, nows[0]);
    if |nows| > 1 {
      FailuresCount(m1, ip, nows[1..]);
    }
  }

  /** From a clean slate, the fifth wrong password in a row gets the address
      banned, and the four before it report 4, 3, 2 and 1 tries left. */
  lemma FifthFailureBans(m: map<string, Attempts>, ip: string, nows: seq<int>)
    requires ip !in m
    requires 1 <= |nows| <= 5
    ensures ip in Failures(m, ip, nows)
    ensures var count := Failures(m, ip, nows)[ip].count;
            && count == |nows|
            && (|nows| == 5 ==> FailureReply(count) == NowBanned)
            && (|nows| < 5 ==> FailureReply(count) == Incorrect(5 - |nows|))
  {
    FailuresCount(m, ip, nows);
  }

  /** Sweeping twice at the same time changes nothing more. */
  lemma SweptIdempotent(m: map<string, Attempts>, now: int)
    ensures Swept(Swept(m, now), now) == Swept(m, now)
  {
  }

  /** A later sweep subsumes an earlier one. */
  lemma LaterSweepSubsumes(m: map<string, Attempts>, t1: int, t2: int)
    requires t1 <= t2
    ensures Swept(Swept(m, t1), t2) == Swept(m, t2)
  {
    var a := Swept(Swept(m, t1), t2);
    var b := Swept(m, t2);
    assert forall ip :: ip in a <==> ip in b;
  }

  /** The sweep keeps every count positive. */
  lemma SweptKeepsCountsPositive(m: map<string, Attempts>, now: int)
    requires CountsPositive(m)
    ensures CountsPositive(Swept(m, now))
  {
  }
}
