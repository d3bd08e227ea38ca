/** The gate: members show a short-lived QR token, the gate scans it, checks
    the membership and records an IN or OUT passage. Whether a member is
    inside is never stored: it is the direction of the member's last passage. */
module QrService {
  import opened Base
  import opened Tokens
  import opened MembershipRepository
  import opened AttendanceRepository
  import opened MembershipService

  /** Lifetime of a QR token, in seconds. */
  const QrTtl: int := 60

  const In: string := "in"
  const Out: string := "out"
  const QrSource: string := "qr"

  const InvalidQr: string := "invalid_qr"
  const MembershipRequired: string := "membership_required"
  const MembershipExpired: string := "membership_expired"

  datatype QrCodeResponse = QrCodeResponse(token: string, expiresAt: Instant, membershipStatus: string)

  /** A refused scan carries a reason; an accepted one the direction and instant. */
  datatype ScanResponse = ScanResponse(accepted: bool, reason: string, direction: string, occurredAt: Option<Instant>)

  function Refused(reason: string): ScanResponse
  {
    ScanResponse(false, reason, "", None)
  }

  function Accepted(direction: string, at: Instant): ScanResponse
  {
    ScanResponse(true, "", direction, Some(at))
  }

  /** The toggle: OUT exactly after an IN passage; IN after an OUT passage,
      with no passage at all, and when the lookup failed. */
  function NextDirection(last: Result<AttendanceLog>): (d: string)
    ensures d == In || d == Out
    ensures d == Out <==> last.Ok? && last.value.direction == In
  {
    if last.Ok? && last.value.direction == In then Out else In
  }

  /** The status shown with the QR code: active only while `now` is strictly before the end. */
  function CodeStatus(current: Result<Membership>, now: Instant): (s: string)
    ensures s == Active || s == Expired
    ensures s == Active <==> current.Ok? && current.value.status == Active && now < current.value.endsAt
  {
    if current.Ok? && current.value.status == Active && now < current.value.endsAt then Active else Expired
  }

  /** The scan's membership test: the stored status is active and `now` is not after the end. */
  predicate ScanAdmits(m: Membership, now: Instant)
  {
    !(m.status != Active || now > m.endsAt)
  }

  /** The scan's test is the normalised status of the membership view. */
  lemma ScanAdmitsIsNormalized(m: Membership, now: Instant)
    ensures ScanAdmits(m, now) <==> NormalizeStatus(Some(m), now) == Active
  {
  }

  /** The two boundaries differ at the end instant: there the gate still
      admits the member while the QR code page already says "expired". Before
      it they agree on "active", after it on "expired". */
  lemma EndInstantBoundary(m: Membership, now: Instant)
    requires m.status == Active
    ensures now == m.endsAt ==> ScanAdmits(m, now) && CodeStatus(Ok(m), now) == Expired
    ensures now != m.endsAt ==> (ScanAdmits(m, now) <==> CodeStatus(Ok(m), now) == Active)
  {
  }

  /** The passage an admitted scan of `userId` at `now` records. */
  function Passage(rows: seq<AttendanceLog>, userId: nat, now: Instant, lastFault: Option<string>): (log: AttendanceLog)
    ensures log.userId == userId && log.source == QrSource && log.occurredAt == now
    ensures log.direction == NextDirection(LastLookup(rows, userId, lastFault))
  {
    AttendanceLog(userId, NextDirection(LastLookup(rows, userId, lastFault)), QrSource, now)
  }

  /** The ledger after `times` admitted scans of one user, with no failures. */
  function Replay(rows: seq<AttendanceLog>, userId: nat, times: seq<Instant>): seq<AttendanceLog>
    decreases |times|
  {
    if times == [] then rows
    else Replay(rows + [Passage(rows, userId, times[0], None)], userId, times[1..])
  }

  function Flip(d: string): string
  {
    if d == In then Out else In
  }

  predicate Nondecreasing(times: seq<Instant>)
  {
    forall i, j :: 0 <= i < j < |times| ==> times[i] <= times[j]
  }

  /** No recorded passage of the user is later than any of the scan instants. */
  predicate NoneLater(rows: seq<AttendanceLog>, userId: nat, times: seq<Instant>)
  {
    forall x, k :: x in rows && x.userId == userId && 0 <= k < |times| ==> x.occurredAt <= times[k]
  }

  /** The direction of the k-th of a run of scans whose first goes `first`. */
  function Alternating(first: string, k: nat): string
  {
    if k % 2 == 0 then first else Flip(first)
  }

  lemma NoneLaterStep(rows: seq<AttendanceLog>, log: AttendanceLog, userId: nat, times: seq<Instant>)
    requires times != [] && Nondecreasing(times) && NoneLater(rows, userId, times)
    requires log.occurredAt == times[0]
    ensures Nondecreasing(times[1..]) && NoneLater(rows + [log], userId, times[1..])
  {
    forall x, k | x in rows + [log] && x.userId == userId && 0 <= k < |times[1..]|
      ensures x.occurredAt <= times[1..][k]
    {
      assert times[1..][k] == times[k + 1];
      if x != log {
        assert x in rows;
      }
    }
  }

  lemma AlternatingShift(first: string, k: nat)
    requires first == In || first == Out
    requires k > 0
    ensures Alternating(Flip(first), k - 1) == Alternating(first, k)
  {
  }

  /** `out` is `rows` followed by one passage of the user per instant of
      `times`, alternating direction from `first`. */
  ghost predicate RunAfter(rows: seq<AttendanceLog>, out: seq<AttendanceLog>, userId: nat, times: seq<Instant>,
                           first: string)
  {
    && |out| == |rows| + |times|
    && out[..|rows|] == rows
    && forall k :: 0 <= k < |times| ==>
         out[|rows| + k] == AttendanceLog(userId, Alternating(first, k), QrSource, times[k])
  }

  /** Scans of one member at non-decreasing instants, none earlier than the
      member's recorded passages, append one passage each, alternating
      direction from the one the first scan picks. */
  lemma {:induction false} ReplayAlternates(rows: seq<AttendanceLog>, userId: nat, times: seq<Instant>)
    requires Nondecreasing(times) && NoneLater(rows, userId, times)
    ensures RunAfter(rows, Replay(rows, userId, times), userId, times, NextDirection(LastLookup(rows, userId, None)))
    decreases |times|
  {
    if times != [] {
      var first := NextDirection(LastLookup(rows, userId, None));
      var log := Passage(rows, userId, times[0], None);
      var next := rows + [log];
      assert NextDirection(LastLookup(next, userId, None)) == Flip(first) by {
        assert NoneLater(rows, userId, times);
        assert forall x :: x in rows && x.userId == userId ==> x.occurredAt <= times[0];
        AppendBecomesLast(rows, log);
      }
      NoneLaterStep(rows, log, userId, times);
      ReplayAlternates(next, userId, times[1..]);
      var out := Replay(next, userId, times[1..]);
      assert Replay(rows, userId, times) == out;
      ShiftRun(rows, log, out, userId, times, first);
    } else {
      assert rows[..|rows|] == rows;
    }
  }

  /** One step of the induction: a run after `rows + [log]` that starts with
      the flipped direction is a run after `rows` that starts with `first`. */
  lemma ShiftRun(rows: seq<AttendanceLog>, log: AttendanceLog, out: seq<AttendanceLog>, userId: nat,
                 times: seq<Instant>, first: string)
    requires times != [] && (first == In || first == Out)
    requires log == AttendanceLog(userId, first, QrSource, times[0])
    requires RunAfter(rows + [log], out, userId, times[1..], Flip(first))
    ensures RunAfter(rows, out, userId, times, first)
  {
    forall k | 0 <= k < |times|
      ensures out[|rows| + k] == AttendanceLog(userId, Alternating(first, k), QrSource, times[k])
    {
      if k == 0 {
        assert out[|rows|] == out[..|rows| + 1][|rows|];
      } else {
        assert out[|rows| + k] == out[|rows + [log]| + (k - 1)];
        assert times[1..][k - 1] == times[k];
        AlternatingShift(first, k);
      }
    }
    assert out[..|rows|] == out[..|rows| + 1][..|rows|];
  }

  /** A member with no recorded passage who scans repeatedly goes IN, OUT, IN, ...: the k-th scan is IN iff k is even. */
  lemma ScansAlternate(rows: seq<AttendanceLog>, userId: nat, times: seq<Instant>)
    requires Nondecreasing(times)
    requires forall x :: x in rows ==> x.userId != userId
    ensures var out := Replay(rows, userId, times);
            && |out| == |rows| + |times|
            && forall k :: 0 <= k < |times| ==> (out[|rows| + k].direction == In <==> k % 2 == 0)
  {
    assert LastLookup(rows, userId, None) == Err(RecordNotFound);
    assert NoneLater(rows, userId, times);
    ReplayAlternates(rows, userId, times);
    var out := Replay(rows, userId, times);
    forall k | 0 <= k < |times|
      ensures out[|rows| + k].direction == In <==> k % 2 == 0
    {
      assert out[|rows| + k].direction == Alternating(In, k);
      assert Out != In;
    }
  }

  class QrService {
    const memberships: MembershipTable
    const attendance: AttendanceLedger

    constructor (memberships: MembershipTable, attendance: AttendanceLedger)
      ensures this.memberships == memberships && this.attendance == attendance
    {
      this.memberships := memberships;
      this.attendance := attendance;
    }

    /** qrService.GetMyQRCode: a QR token valid for QrTtl seconds and the membership status. */
    method GetMyQRCode(userId: nat, now: Instant, latestFault: Option<string>, sign: Signer) returns (r: Result<QrCodeResponse>)
      ensures sign(Claims(userId, QrType, now + QrTtl)).Err? ==> r == Err(sign(Claims(userId, QrType, now + QrTtl)).error)
      ensures r.Ok? ==> r.value.token == sign(Claims(userId, QrType, now + QrTtl)).value
      ensures r.Ok? ==> r.value.expiresAt == now + QrTtl
      ensures r.Ok? ==> r.value.membershipStatus == CodeStatus(LatestLookup(memberships.rows, userId, latestFault), now)
      ensures sign(Claims(userId, QrType, now + QrTtl)).Ok? ==> r.Ok?
    {
      var status := Expired;
      var current := memberships.FindLatestByUserID(userId, latestFault);
      if current.Ok? {
        if current.value.status == Active && now < current.value.endsAt {
          status := Active;
        }
      }
      var token := NewToken(sign, userId, QrType, QrTtl, now);
      if token.Err? {
        return Err(token.error);
      }
      r := Ok(QrCodeResponse(token.value, now + QrTtl, status));
    }

    /** qrService.Scan: the decision tree, and the one passage an admitted scan records. */
    method Scan(token: string, now: Instant, verify: Verifier,
                latestFault: Option<string>, lastFault: Option<string>, createFault: Option<string>)
      returns (r: Result<ScanResponse>)
      modifies attendance
      ensures var claims := ParseToken(verify, token, QrType);
              claims.Err? ==> r == Ok(Refused(InvalidQr)) && attendance.rows == old(attendance.rows)
      ensures var claims := ParseToken(verify, token, QrType);
              claims.Ok? ==>
                var current := LatestLookup(memberships.rows, claims.value.userId, latestFault);
                && (current == Err(RecordNotFound) ==> r == Ok(Refused(MembershipRequired)) && attendance.rows == old(attendance.rows))
                && (current.Err? && current.error != RecordNotFound ==> r == Err(current.error) && attendance.rows == old(attendance.rows))
                && (current.Ok? && !ScanAdmits(current.value, now) ==> r == Ok(Refused(MembershipExpired)) && attendance.rows == old(attendance.rows))
                && (current.Ok? && ScanAdmits(current.value, now) ==>
                      var log := Passage(old(attendance.rows), claims.value.userId, now, lastFault);
                      && (createFault.Some? ==> r == Err(Driver(createFault.value)) && attendance.rows == old(attendance.rows))
                      && (createFault.None? ==> r == Ok(Accepted(log.direction, now)) && attendance.rows == old(attendance.rows) + [log]))
      ensures r.Ok? && r.value.accepted ==> |attendance.rows| == |old(attendance.rows)| + 1
      ensures !(r.Ok? && r.value.accepted) ==> attendance.rows == old(attendance.rows)
    {
      var claims := ParseToken(verify, token, QrType);
      if claims.Err? {
        return Ok(Refused(InvalidQr));
      }
      var userId := claims.value.userId;
      var current := memberships.FindLatestByUserID(userId, latestFault);
      if current.Err? {
        if current.error == RecordNotFound {
          return Ok(Refused(MembershipRequired));
        }
        return Err(current.error);
      }
      if current.value.status != Active || now > current.value.endsAt {
        return Ok(Refused(MembershipExpired));
      }
      var nextDirection := In;
      var last := attendance.FindLastByUserID(userId, lastFault);
      if last.Ok? {
        if last.value.direction == In {
          nextDirection := Out;
        }
      }
      var log := AttendanceLog(userId, nextDirection, QrSource, now);
      var err := attendance.Create(log, createFault);
      if err.Some? {
        return Err(err.value);
      }
      r := Ok(Accepted(nextDirection, now));
    }
  }
}
