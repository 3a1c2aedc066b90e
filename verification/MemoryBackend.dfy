/**
 The in-memory path of server/internal/db/db.go, used without a database. It
 prunes expired entries eagerly, keeps no tokens and keeps times in
 nanoseconds, where the SQL path keeps microseconds. Both are compared with a
 record that keeps every expiry exactly as it was handed in and prunes nothing.
 */
module MemoryBackend {
  import opened Common
  import opened Enrollment

  datatype Memory = Memory(claims: map<Node, int>, nonces: map<Nonce, int>)

  /** The claims that are still ahead of `now`. */
  function LiveClaims(claims: map<Node, int>, now: int): map<Node, int> {
    map k | k in claims && claims[k] > now :: claims[k]
  }

  /** The nonces whose expiry is not before `now`. */
  function LiveNonces(nonces: map<Nonce, int>, now: int): map<Nonce, int> {
    map k | k in nonces && nonces[k] >= now :: nonces[k]
  }

  /** An EnrollNode or RevokeEnrollment call; `again` is the clock reading for the nonces. */
  datatype Call = Call(op: Op, again: int)

  predicate Supported(c: Call) {
    !c.op.Rotate? && c.op.now <= c.again
  }

  function MemoryExecute(m: Memory, c: Call): (Memory, Result)
    requires Supported(c)
  {
    match c.op
    case Enroll(mac, now, nonce, nonceExpires, _, expires) =>
      var claims := LiveClaims(m.claims, now);
      if mac in claims then (Memory(claims, m.nonces), AlreadyEnrolled)
      else
        var nonces := LiveNonces(m.nonces, c.again);
        if nonce in nonces then (Memory(claims, nonces), NonceUsed)
        else (Memory(claims[mac := expires], nonces[nonce := nonceExpires]), Enrolled)
    case Revoke(mac, _) => (m.(claims := m.claims - {mac}), Revoked)
  }

  class MemoryStore {
    var claims: map<Node, int>
    var nonces: map<Nonce, int>

    function View(): Memory
      reads this
    {
      Memory(claims, nonces)
    }

    constructor ()
      ensures View() == Memory(map[], map[])
    {
      claims, nonces := map[], map[];
    }

    method PruneClaims(now: int)
      modifies this`claims
      ensures claims == LiveClaims(old(claims), now)
    {
      var pending := claims.Keys;
      while pending != {}
        invariant pending <= claims.Keys <= old(claims).Keys
        invariant forall k | k in claims :: claims[k] == old(claims)[k]
        invariant forall k | k in old(claims) && k !in pending :: k in claims <==> old(claims)[k] > now
        decreases pending
      {
        var k :| k in pending;
        pending := pending - {k};
        if !(now < claims[k]) {
          claims := claims - {k};
        }
      }
    }

    /** ConsumeRegistrationNonce without a database. */
    method ConsumeNonce(nonce: Nonce, expires: int, now: int) returns (unused: bool)
      modifies this`nonces
      ensures unused <==> nonce !in LiveNonces(old(nonces), now)
      ensures nonces == if unused then LiveNonces(old(nonces), now)[nonce := expires] else LiveNonces(old(nonces), now)
    {
      var pending := nonces.Keys;
      while pending != {}
        invariant pending <= nonces.Keys <= old(nonces).Keys
        invariant forall k | k in nonces :: nonces[k] == old(nonces)[k]
        invariant forall k | k in old(nonces) && k !in pending :: k in nonces <==> old(nonces)[k] >= now
        decreases pending
      {
        var k :| k in pending;
        pending := pending - {k};
        if nonces[k] < now {
          nonces := nonces - {k};
        }
      }
      assert nonces == LiveNonces(old(nonces), now);
      unused := nonce !in nonces;
      if unused {
        nonces := nonces[nonce := expires];
      }
    }

    method EnrollNode(mac: Node, nonce: Nonce, nonceExpires: int, token: Token, expires: int, now: int, again: int)
      returns (r: Result)
      requires now <= again
      modifies this
      ensures (View(), r) == MemoryExecute(old(View()), Call(Enroll(mac, now, nonce, nonceExpires, token, expires), again))
    {
      PruneClaims(now);
      if mac in claims { return AlreadyEnrolled; }
      var unused := ConsumeNonce(nonce, nonceExpires, again);
      if !unused { return NonceUsed; }
      claims := claims[mac := expires];
      return Enrolled;
    }

    method RevokeEnrollment(mac: Node, now: int) returns (r: Result)
      modifies this
      ensures (View(), r) == MemoryExecute(old(View()), Call(Revoke(mac, now), now))
    {
      claims := claims - {mac};
      return Revoked;
    }
  }

  // ----- the record -----

  /** The expiries of all enrollments not revoked since, expired or not. */
  datatype Record = Record(claims: map<Node, int>, nonces: map<Nonce, int>)

  const NoRecord: Record := Record(map[], map[])

  predicate RecordClaimed(x: Record, op: Op) {
    op.mac in x.claims && x.claims[op.mac] > op.now
  }

  /** One call on the record. */
  function RecordExecute(x: Record, c: Call): (Record, Result)
    requires Supported(c)
  {
    match c.op
    case Enroll(mac, now, nonce, nonceExpires, _, expires) =>
      if RecordClaimed(x, c.op) then (x, AlreadyEnrolled)
      else if nonce in x.nonces && x.nonces[nonce] >= c.again then (x, NonceUsed)
      else (Record(x.claims[mac := expires], x.nonces[nonce := nonceExpires]), Enrolled)
    case Revoke(mac, _) => (x.(claims := x.claims - {mac}), Revoked)
  }

  // ----- pruning changes no answer -----

  /** The memory holds the entries of the record that are live at `now`, and maybe expired ones. */
  ghost predicate HoldsLive(m: Memory, x: Record, now: int) {
    && (forall k | k in m.claims :: k in x.claims && m.claims[k] == x.claims[k])
    && (forall k | k in x.claims && x.claims[k] > now :: k in m.claims)
    && (forall k | k in m.nonces :: k in x.nonces && m.nonces[k] == x.nonces[k])
    && (forall k | k in x.nonces && x.nonces[k] >= now :: k in m.nonces)
  }

  lemma MemoryIsRecord(m: Memory, x: Record, now: int, c: Call)
    requires Supported(c) && HoldsLive(m, x, now) && now <= c.op.now
    ensures MemoryExecute(m, c).1 == RecordExecute(x, c).1
    ensures HoldsLive(MemoryExecute(m, c).0, RecordExecute(x, c).0, c.again)
  { }

  // ----- the SQL backend against the record -----

  /** The call as the database sees it: all its times are whole microseconds. */
  function Cut(c: Call): Op
    requires Supported(c)
  {
    match c.op
    case Enroll(mac, now, nonce, nonceExpires, token, expires) =>
      Enroll(mac, Stored(now), nonce, Stored(nonceExpires), token, Stored(expires))
    case Revoke(mac, now) => Revoke(mac, Stored(now))
  }

  /** The tables hold the record's claims, and those of its nonces that are live at `now`, cut to microseconds. */
  ghost predicate HoldsCut(t: Tables, x: Record, now: int) {
    && t.claims.Keys == x.claims.Keys
    && (forall k | k in t.claims :: t.claims[k] == Stored(x.claims[k]))
    && (forall k | k in t.nonces :: k in x.nonces && t.nonces[k] == Stored(x.nonces[k]))
    && (forall k | k in x.nonces && Stored(x.nonces[k]) >= Stored(now) :: k in t.nonces)
  }

  /** The node's claim runs out within the microsecond of the call, after it. */
  predicate ClaimStraddles(x: Record, op: Op) {
    RecordClaimed(x, op) && Stored(x.claims[op.mac]) <= Stored(op.now)
  }

  /** The nonce of an unclaimed node runs out in or after the microsecond of the first reading and before the second. */
  predicate NonceStraddles(x: Record, c: Call)
    requires c.op.Enroll?
  {
    !RecordClaimed(x, c.op) && c.op.nonce in x.nonces && Stored(c.op.now) <= Stored(x.nonces[c.op.nonce])
    && x.nonces[c.op.nonce] < c.again
  }

  predicate Straddles(x: Record, c: Call) {
    c.op.Enroll? && (ClaimStraddles(x, c.op) || NonceStraddles(x, c))
  }

  lemma StoredMonotone(a: int, b: int)
    requires a <= b
    ensures Stored(a) <= Stored(b) && Stored(a) <= a < Stored(a) + MICROSECOND
  { }

  /** One call: the database answers as the record exactly when no expiry straddles the readings. */
  lemma SameAnswerIff(x: Record, t: Tables, now: int, c: Call)
    requires Supported(c) && HoldsCut(t, x, now) && now <= c.op.now
    ensures Execute(t, Cut(c)).1 == RecordExecute(x, c).1 <==> !Straddles(x, c)
  {
    StoredMonotone(now, c.op.now);
    if c.op.Enroll? {
      var op := Cut(c);
      if op.mac in x.claims && x.claims[op.mac] <= c.op.now {
        StoredMonotone(x.claims[op.mac], c.op.now);
      }
      if op.nonce in x.nonces && c.again <= x.nonces[op.nonce] {
        StoredMonotone(c.op.now, x.nonces[op.nonce]);
      }
    }
  }

  /** After such a call the tables still hold the record. */
  lemma AgreementKept(x: Record, t: Tables, now: int, c: Call)
    requires Supported(c) && HoldsCut(t, x, now) && now <= c.op.now && !Straddles(x, c)
    ensures HoldsCut(Execute(t, Cut(c)).0, RecordExecute(x, c).0, c.again)
  {
    SameAnswerIff(x, t, now, c);
    StoredMonotone(now, c.op.now);
    StoredMonotone(c.op.now, c.again);
  }

  // ----- whole runs -----

  /** The clock never goes back within a call or from one call to the next. */
  ghost predicate MonotoneCalls(calls: seq<Call>) {
    && (forall i | 0 <= i < |calls| :: Supported(calls[i]))
    && (forall i, j | 0 <= i < j < |calls| :: calls[i].again <= calls[j].op.now)
  }

  ghost function CutOps(calls: seq<Call>): seq<Op>
    requires MonotoneCalls(calls)
  {
    seq(|calls|, i requires 0 <= i < |calls| => Cut(calls[i]))
  }

  ghost function MemoryAfter(calls: seq<Call>, i: nat): Memory
    requires i <= |calls| && MonotoneCalls(calls)
  {
    if i == 0 then Memory(map[], map[]) else MemoryExecute(MemoryAfter(calls, i - 1), calls[i - 1]).0
  }

  ghost function RecordAfter(calls: seq<Call>, i: nat): Record
    requires i <= |calls| && MonotoneCalls(calls)
  {
    if i == 0 then NoRecord else RecordExecute(RecordAfter(calls, i - 1), calls[i - 1]).0
  }

  /** The last clock reading before call i. */
  ghost function LastReading(calls: seq<Call>, i: nat): int
    requires i <= |calls| && calls != []
  {
    if i == 0 then calls[0].op.now else calls[i - 1].again
  }

  /** Eager pruning changes no answer: in every run the memory answers as the record. */
  lemma {:induction false} MemoryAnswersAsRecord(calls: seq<Call>, i: nat)
    requires i < |calls| && MonotoneCalls(calls)
    ensures HoldsLive(MemoryAfter(calls, i), RecordAfter(calls, i), LastReading(calls, i))
    ensures MemoryExecute(MemoryAfter(calls, i), calls[i]).1 == RecordExecute(RecordAfter(calls, i), calls[i]).1
  {
    if i > 0 {
      MemoryAnswersAsRecord(calls, i - 1);
      MemoryIsRecord(MemoryAfter(calls, i - 1), RecordAfter(calls, i - 1), LastReading(calls, i - 1), calls[i - 1]);
    }
    MemoryIsRecord(MemoryAfter(calls, i), RecordAfter(calls, i), LastReading(calls, i), calls[i]);
  }

  ghost predicate SameAnswer(calls: seq<Call>, i: nat)
    requires i < |calls| && MonotoneCalls(calls)
  {
    MemoryExecute(MemoryAfter(calls, i), calls[i]).1 == ResultAt(Empty, CutOps(calls), i)
  }

  ghost predicate StraddlesAt(calls: seq<Call>, i: nat)
    requires i < |calls| && MonotoneCalls(calls)
  {
    Straddles(RecordAfter(calls, i), calls[i])
  }

  lemma {:induction false} TablesHoldRecord(calls: seq<Call>, i: nat)
    requires i < |calls| && MonotoneCalls(calls) && forall k: nat | k < i :: !StraddlesAt(calls, k)
    ensures HoldsCut(Before(Empty, CutOps(calls), i), RecordAfter(calls, i), LastReading(calls, i))
  {
    if i > 0 {
      TablesHoldRecord(calls, i - 1);
      BeforeNext(Empty, CutOps(calls), i - 1);
      assert !StraddlesAt(calls, i - 1);
      AgreementKept(RecordAfter(calls, i - 1), Before(Empty, CutOps(calls), i - 1), LastReading(calls, i - 1), calls[i - 1]);
    } else {
      assert CutOps(calls)[..0] == [];
    }
  }

  /** The first call at which an expiry straddles the readings is the first that the backends answer differently. */
  lemma FirstDifference(calls: seq<Call>, i: nat)
    requires i < |calls| && MonotoneCalls(calls) && forall k: nat | k < i :: !StraddlesAt(calls, k)
    ensures SameAnswer(calls, i) <==> !StraddlesAt(calls, i)
  {
    MemoryAnswersAsRecord(calls, i);
    TablesHoldRecord(calls, i);
    SameAnswerIff(RecordAfter(calls, i), Before(Empty, CutOps(calls), i), LastReading(calls, i), calls[i]);
  }

  /** From empty stores both backends answer a whole run alike exactly when no expiry straddles the readings of a call. */
  lemma {:induction false} BackendsAgreeIff(calls: seq<Call>, n: nat)
    requires n <= |calls| && MonotoneCalls(calls)
    ensures (forall i: nat | i < n :: SameAnswer(calls, i)) <==> (forall i: nat | i < n :: !StraddlesAt(calls, i))
  {
    if n > 0 {
      BackendsAgreeIff(calls, n - 1);
      if forall i: nat | i < n - 1 :: !StraddlesAt(calls, i) {
        FirstDifference(calls, n - 1);
      }
    }
  }

  // ----- runs that the backends answer differently -----

  /** What both backends hold after a first enrollment. */
  lemma FirstCall(calls: seq<Call>, op: Op)
    requires MonotoneCalls(calls) && calls != [] && calls[0] == Call(op, op.now) && op.Enroll?
    ensures RecordAfter(calls, 1) == Record(map[op.mac := op.expires], map[op.nonce := op.nonceExpires])
    ensures !StraddlesAt(calls, 0)
    ensures var t := Before(Empty, CutOps(calls), 1);
            t.claims == map[op.mac := Stored(op.expires)] && t.nonces == map[op.nonce := Stored(op.nonceExpires)]
  {
    assert RecordAfter(calls, 0) == NoRecord;
    BeforeNext(Empty, CutOps(calls), 0);
    assert CutOps(calls)[..0] == [];
  }

  /** A second enrollment of the node, with another nonce, at a time at which the claim is live for memory alone. */
  lemma SecondClaim(calls: seq<Call>, first: Op, second: Op)
    requires first.Enroll? && second.Enroll? && first.mac == second.mac && first.nonce != second.nonce
    requires calls == [Call(first, first.now), Call(second, second.now)] && first.now <= second.now < first.expires
    requires Stored(first.expires) <= Stored(second.now)
    ensures MonotoneCalls(calls)
    ensures MemoryExecute(MemoryAfter(calls, 1), calls[1]).1 == AlreadyEnrolled
    ensures ResultAt(Empty, CutOps(calls), 1) == Enrolled
  {
    assert Supported(calls[0]) && Supported(calls[1]);
    FirstCall(calls, first);
    MemoryAnswersAsRecord(calls, 1);
    assert CutOps(calls)[1] == Cut(calls[1]);
  }

  /** A claim that runs out 499 nanoseconds after a second enrollment still counts in memory, but not in the database. */
  lemma ClaimsDiffer(mac: Node, a: Token, b: Token)
    ensures var first, second := Enroll(mac, 0, "x", 10 * MINUTE, a, 7 * DAY + 1999),
                                 Enroll(mac, 7 * DAY + 1500, "y", 7 * DAY + 10 * MINUTE, b, 14 * DAY);
            var calls := [Call(first, 0), Call(second, second.now)];
            && MonotoneCalls(calls)
            && MemoryExecute(MemoryAfter(calls, 1), calls[1]).1 == AlreadyEnrolled
            && ResultAt(Empty, CutOps(calls), 1) == Enrolled
  {
    var first, second := Enroll(mac, 0, "x", 10 * MINUTE, a, 7 * DAY + 1999),
                         Enroll(mac, 7 * DAY + 1500, "y", 7 * DAY + 10 * MINUTE, b, 14 * DAY);
    SecondClaim([Call(first, 0), Call(second, second.now)], first, second);
  }

  /** A nonce that runs out between the two readings is refused by the database and accepted in memory. */
  lemma NoncesDiffer(mac: Node, other: Node, a: Token, b: Token)
    requires mac != other
    ensures var first, second := Enroll(mac, 0, "x", 10 * MINUTE, a, 7 * DAY),
                                 Enroll(other, 10 * MINUTE, "x", 20 * MINUTE, b, 8 * DAY);
            var calls := [Call(first, 0), Call(second, 10 * MINUTE + 1)];
            && MonotoneCalls(calls)
            && MemoryExecute(MemoryAfter(calls, 1), calls[1]).1 == Enrolled
            && ResultAt(Empty, CutOps(calls), 1) == NonceUsed
  {
    var first, second := Enroll(mac, 0, "x", 10 * MINUTE, a, 7 * DAY), Enroll(other, 10 * MINUTE, "x", 20 * MINUTE, b, 8 * DAY);
    var calls := [Call(first, 0), Call(second, 10 * MINUTE + 1)];
    FirstCall(calls, first);
    MemoryAnswersAsRecord(calls, 1);
    assert Before(Empty, CutOps(calls), 1).nonces["x"] == 10 * MINUTE;
  }
}
