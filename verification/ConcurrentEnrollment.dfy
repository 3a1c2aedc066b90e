/**
 The guarantees of serial enrollment runs, carried over to every interleaving of
 transactions. `log` lists the finished calls in the order in which they
 finished, which for one node is the order in which they took its lock.
 */
module ConcurrentEnrollment {
  import opened Enrollment
  import opened EnrollmentHistory
  import opened TokenLines
  import opened Transactions
  import opened NodeSerializability

  // ----- a finished call in the serial run of the node tables -----

  lemma NodeHistory(clock: int, acts: seq<Action>)
    ensures var s := After(clock, acts);
            var ops := NodeOps(s.log, clock);
            && SameRows(s.committed, Before(Empty, ops, |ops|))
            && forall i | 0 <= i < |ops| :: Decided(s.log)[i].result == ResultAt(Empty, ops, i)
  {
    NodeSerializable(clock, acts);
    var ops := NodeOps(After(clock, acts).log, clock);
    assert ops[..|ops|] == ops;
  }

  /** A decided call and its answer, at its position in the serial run. */
  lemma CallAt(clock: int, acts: seq<Action>, i: nat)
    requires i < |After(clock, acts).log| && After(clock, acts).log[i].result != NonceUsed
    ensures var log := After(clock, acts).log;
            var ops, p := NodeOps(log, clock), Position(log, i);
            && p < |ops| && ops[p] == Spent(log[i].op, clock) && ResultAt(Empty, ops, p) == log[i].result
            && Decided(log)[p] == log[i]
  {
    NodeHistory(clock, acts);
    DecidedAt(After(clock, acts).log, i);
  }

  /** The log entry behind a call of the serial run lies between the same log entries. */
  lemma OriginBetween(log: seq<Entry>, i: nat, j: nat, q: nat) returns (z: nat)
    requires i <= j <= |log| && Position(log, i) <= q < Position(log, j)
    ensures i <= z < j && log[z].result != NonceUsed && Position(log, z) == q
    ensures q < |Decided(log)| && Decided(log)[q] == log[z]
  {
    assert log[..|log|] == log;
    if j < |log| {
      PositionsGrow(log, j, |log|);
    }
    z := DecidedOrigin(log, q);
    if z < i {
      PositionsGrow(log, z, i);
    } else if j < z {
      PositionsGrow(log, j, z);
    }
  }

  /** The log entries behind two calls of the serial run stand in the same order. */
  lemma OriginsOrdered(log: seq<Entry>, k: nat, l: nat) returns (i: nat, j: nat)
    requires k < l < |Decided(log)|
    ensures i < j < |log| && Decided(log)[k] == log[i] && Decided(log)[l] == log[j]
  {
    i := DecidedOrigin(log, k);
    assert log[..|log|] == log;
    j := OriginBetween(log, i, |log|, l);
  }

  /** The serial run up to call j of the log. */
  lemma NodeOpsBefore(log: seq<Entry>, j: nat, start: int)
    requires j <= |log|
    ensures Position(log, j) <= |NodeOps(log, start)| && NodeOps(log[..j], start) == NodeOps(log, start)[..Position(log, j)]
  {
    PrefixDecided(log, j);
  }

  lemma FreshDecided(log: seq<Entry>, start: int)
    requires Fresh(Ops(log))
    ensures Fresh(NodeOps(log, start))
  {
    var ops := NodeOps(log, start);
    forall k, l | 0 <= k < l < |ops| && !ops[k].Revoke? && !ops[l].Revoke? ensures ops[k].token != ops[l].token {
      var i, j := OriginsOrdered(log, k, l);
      assert Ops(log)[i].token != Ops(log)[j].token;
    }
  }

  /** The entry hands out a token of the node. */
  predicate HandsOut(e: Entry, mac: Node) {
    e.op.mac == mac && !e.op.Revoke? && e.result in {Enrolled, Rotated}
  }

  /** Every token handed out to the node outlives the start of the transaction that stores it. */
  ghost predicate OutlivingLog(log: seq<Entry>, mac: Node) {
    forall k | 0 <= k < |log| && HandsOut(log[k], mac) :: log[k].op.now <= log[k].op.expires
  }

  /** The log entry behind a grant of the serial run. */
  lemma GrantOrigin(clock: int, acts: seq<Action>, k: nat, mac: Node) returns (z: nat)
    requires Grants(Empty, NodeOps(After(clock, acts).log, clock), k, mac)
    ensures var log := After(clock, acts).log;
            && z < |log| && HandsOut(log[z], mac) && Position(log, z) == k
            && NodeOps(log, clock)[k] == Spent(log[z].op, clock)
  {
    NodeHistory(clock, acts);
    z := DecidedOrigin(After(clock, acts).log, k);
  }

  lemma OutlivingDecided(clock: int, acts: seq<Action>, mac: Node)
    requires OutlivingLog(After(clock, acts).log, mac)
    ensures Outliving(Empty, NodeOps(After(clock, acts).log, clock), mac)
  {
    var ops := NodeOps(After(clock, acts).log, clock);
    forall k | Grants(Empty, ops, k, mac) ensures ops[k].now <= ops[k].expires {
      var z := GrantOrigin(clock, acts, k, mac);
    }
  }

  // ----- the latest enrollment in the log -----

  predicate Enrolls(e: Entry, mac: Node) {
    e.op.Enroll? && e.op.mac == mac && e.result == Enrolled
  }

  predicate Rotates(e: Entry, mac: Node) {
    e.op.Rotate? && e.op.mac == mac && e.result == Rotated
  }

  /** When the latest enrollment among the first i finished calls started. */
  function LastEnrolled(log: seq<Entry>, i: nat, mac: Node): int
    requires i <= |log|
  {
    if i == 0 then 0 else if Enrolls(log[i - 1], mac) then log[i - 1].op.now else LastEnrolled(log, i - 1, mac)
  }

  lemma PositionNext(log: seq<Entry>, i: nat)
    requires i < |log|
    ensures Position(log, i + 1) == Position(log, i) + if log[i].result == NonceUsed then 0 else 1
  {
    assert log[..i + 1][..i] == log[..i];
  }

  lemma EnrollsAtPosition(clock: int, acts: seq<Action>, i: nat, mac: Node)
    requires i < |After(clock, acts).log| && After(clock, acts).log[i].result != NonceUsed
    ensures var log := After(clock, acts).log;
            EnrollsAt(Empty, NodeOps(log, clock), Position(log, i), mac) <==> Enrolls(log[i], mac)
  {
    CallAt(clock, acts, i);
  }

  lemma {:induction false} LastEnrolledAt(clock: int, acts: seq<Action>, i: nat, mac: Node)
    requires i <= |After(clock, acts).log|
    ensures var log := After(clock, acts).log;
            && Position(log, i) <= |NodeOps(log, clock)|
            && LastEnroll(NodeOps(log, clock), Position(log, i), mac) == LastEnrolled(log, i, mac)
  {
    var log := After(clock, acts).log;
    NodeOpsBefore(log, i, clock);
    if i == 0 {
      assert log[..0] == [];
    } else {
      LastEnrolledAt(clock, acts, i - 1, mac);
      PositionNext(log, i - 1);
      if log[i - 1].result != NonceUsed {
        CallAt(clock, acts, i - 1);
        EnrollsAtPosition(clock, acts, i - 1, mac);
      }
    }
  }

  /** No rotation that succeeded started before the latest enrollment that finished before it. */
  ghost predicate InOrderLog(log: seq<Entry>, mac: Node) {
    forall k | 0 <= k < |log| && Rotates(log[k], mac) :: LastEnrolled(log, k, mac) <= log[k].op.now
  }

  lemma InOrderDecided(clock: int, acts: seq<Action>, mac: Node)
    requires InOrderLog(After(clock, acts).log, mac)
    ensures var ops := NodeOps(After(clock, acts).log, clock); InOrder(ops, |ops|, mac)
  {
    var log := After(clock, acts).log;
    var ops := NodeOps(log, clock);
    forall k | 0 <= k < |ops| && ops[k].Rotate? && Grants(Empty, ops, k, mac) ensures LastEnroll(ops, k, mac) <= ops[k].now {
      var z := GrantOrigin(clock, acts, k, mac);
      CallAt(clock, acts, z);
      LastEnrolledAt(clock, acts, z, mac);
      RotationRotates(Before(Empty, ops, k), ops[k]);
    }
  }

  lemma RotationRotates(t: Tables, op: Op)
    requires op.Rotate? && Execute(t, op).1 in {Enrolled, Rotated}
    ensures Execute(t, op).1 == Rotated
  { }

  // ----- what every interleaving keeps -----

  /** Where the committed rows and the latest enrollment stand in the serial run. */
  lemma CommittedRows(clock: int, acts: seq<Action>, mac: Node)
    ensures var s := After(clock, acts);
            var ops := NodeOps(s.log, clock);
            && SameRows(s.committed, Before(Empty, ops, |ops|))
            && LastEnroll(ops, |ops|, mac) == LastEnrolled(s.log, |s.log|, mac)
  {
    var log := After(clock, acts).log;
    NodeHistory(clock, acts);
    LastEnrolledAt(clock, acts, |log|, mac);
    assert log[..|log|] == log;
  }

  /**
   A node has at most one token that is live since its latest enrollment, and
   its tokens are covered by its claim, when no rotation started before the
   latest enrollment that finished before it.
   */
  lemma InterleavingsKeepOneToken(clock: int, acts: seq<Action>, mac: Node)
    requires OutlivingLog(After(clock, acts).log, mac) && InOrderLog(After(clock, acts).log, mac)
    ensures var s := After(clock, acts);
            Single(s.committed, mac, LastEnrolled(s.log, |s.log|, mac)) && FullyCovered(s.committed, mac)
  {
    var ops := NodeOps(After(clock, acts).log, clock);
    CommittedRows(clock, acts, mac);
    OutlivingDecided(clock, acts, mac);
    InOrderDecided(clock, acts, mac);
    TokensFromEmpty(ops, |ops|, mac);
  }

  /** Of all requests that race to redeem one token, the first to take the lock wins alone. */
  lemma InterleavingsRedeemOnce(clock: int, acts: seq<Action>, i: nat, j: nat)
    requires i < j < |After(clock, acts).log|
    requires Fresh(Ops(After(clock, acts).log))
    requires var log := After(clock, acts).log;
             log[i].op.Rotate? && log[j].op.Rotate? && log[i].op.mac == log[j].op.mac
             && log[i].op.presented == log[j].op.presented && log[i].result == Rotated
    ensures After(clock, acts).log[j].result == Reused
    ensures After(clock, acts).log[i].ticket < After(clock, acts).log[j].ticket
  {
    var log := After(clock, acts).log;
    RotationsDecided(clock, acts, j);
    CallAt(clock, acts, i);
    CallAt(clock, acts, j);
    PositionsGrow(log, i, j);
    FreshDecided(log, clock);
    RedeemedAtMostOnce(NodeOps(log, clock), Position(log, i), Position(log, j));
    NodeSerializable(clock, acts);
  }

  /** Only enrollments are refused for a nonce. */
  lemma RotationsDecided(clock: int, acts: seq<Action>, i: nat)
    requires i < |After(clock, acts).log| && !After(clock, acts).log[i].op.Enroll?
    ensures After(clock, acts).log[i].result != NonceUsed
  {
    NodeSerializable(clock, acts);
  }

  /** When the log has no enrollment of the node after call i, neither has the serial run. */
  lemma NoneEnrollsAfter(clock: int, acts: seq<Action>, i: nat, mac: Node, k: nat)
    requires var log := After(clock, acts).log;
             && i < |log| && forall x | i < x < |log| && log[x].op.mac == mac :: log[x].result != Enrolled
    requires var log := After(clock, acts).log; Position(log, i) < k < |NodeOps(log, clock)|
    ensures !EnrollsAt(Empty, NodeOps(After(clock, acts).log, clock), k, mac)
  {
    var log := After(clock, acts).log;
    assert log[..|log|] == log;
    NodeHistory(clock, acts);
    var z := OriginBetween(log, i, |log|, k);
  }

  /**
   No replacement issued by a concurrent request survives a revocation or a
   detected reuse: unless the node enrolls again, it ends up without tokens.
   */
  lemma NoReplacementSurvives(clock: int, acts: seq<Action>, i: nat, mac: Node)
    requires i < |After(clock, acts).log|
    requires var log := After(clock, acts).log;
             && log[i].op.mac == mac && log[i].result in {Reused, Revoked}
             && forall k | i < k < |log| && log[k].op.mac == mac :: log[k].result != Enrolled
    ensures RowsOf(After(clock, acts).committed, mac) == {}
  {
    var log := After(clock, acts).log;
    var ops, p := NodeOps(log, clock), Position(log, i);
    NodeHistory(clock, acts);
    CallAt(clock, acts, i);
    forall k | p < k < |ops| ensures !EnrollsAt(Empty, ops, k, mac) {
      NoneEnrollsAfter(clock, acts, i, mac, k);
    }
    WipeLocksOut(Empty, ops, p, |ops|, mac);
    assert RowsOf(After(clock, acts).committed, mac) == RowsOf(Before(Empty, ops, |ops|), mac);
  }

  predicate RevokesNode(e: Entry, mac: Node) {
    e.op.mac == mac && e.op.Revoke?
  }

  /** An enrollment is refused as "already enrolled" exactly when the serial run finds its node claimed. */
  lemma ClaimDecides(clock: int, acts: seq<Action>, j: nat)
    requires j < |After(clock, acts).log| && After(clock, acts).log[j].op.Enroll?
    ensures var log := After(clock, acts).log;
            log[j].result == AlreadyEnrolled <==>
            Claimed(Replay(Empty, NodeOps(log[..j], clock)), log[j].op.mac, log[j].op.now)
  {
    var log := After(clock, acts).log;
    NodeSerializable(clock, acts);
    NodeOpsBefore(log, j, clock);
    if log[j].result != NonceUsed {
      CallAt(clock, acts, j);
    }
  }

  /** An earlier call handed the node a token that is unexpired at `now`, and the node was not revoked since. */
  ghost predicate Standing(log: seq<Entry>, k: int, j: int, mac: Node, now: int) {
    && 0 <= k < j <= |log| && HandsOut(log[k], mac) && log[k].op.expires > now
    && forall x | k < x < j :: !RevokesNode(log[x], mac)
  }

  lemma StandingFromLog(clock: int, acts: seq<Action>, k: nat, j: nat, mac: Node, now: int)
    requires Standing(After(clock, acts).log, k, j, mac, now)
    ensures var log := After(clock, acts).log;
            Stands(NodeOps(log, clock), Position(log, k), Position(log, j), mac, now)
  {
    var log := After(clock, acts).log;
    NodeOpsBefore(log, j, clock);
    CallAt(clock, acts, k);
    PositionsGrow(log, k, j);
    forall q | Position(log, k) <= q < Position(log, j) ensures !RevokesAt(NodeOps(log, clock), q, mac) {
      var z := OriginBetween(log, k, j, q);
    }
  }

  lemma StandingFromOps(clock: int, acts: seq<Action>, q: nat, j: nat, mac: Node, now: int) returns (k: nat)
    requires j <= |After(clock, acts).log|
    requires var log := After(clock, acts).log; Stands(NodeOps(log, clock), q, Position(log, j), mac, now)
    ensures Standing(After(clock, acts).log, k, j, mac, now)
  {
    var log := After(clock, acts).log;
    assert log[..0] == [];
    k := OriginBetween(log, 0, j, q);
    CallAt(clock, acts, k);
    forall x | k < x < j ensures !RevokesNode(log[x], mac) {
      if RevokesNode(log[x], mac) {
        RotationsDecided(clock, acts, x);
        CallAt(clock, acts, x);
        PositionsGrow(log, k, x);
        PositionsGrow(log, x, j);
        assert RevokesAt(NodeOps(log, clock), Position(log, x), mac);
      }
    }
  }

  /**
   An enrollment is refused as "already enrolled" exactly when some earlier
   enrollment or rotation of the node set an expiry that has not passed and the
   node was not revoked since.
   */
  lemma InterleavedEnrollRefusedIff(clock: int, acts: seq<Action>, j: nat)
    requires j < |After(clock, acts).log| && After(clock, acts).log[j].op.Enroll?
    requires OutlivingLog(After(clock, acts).log, After(clock, acts).log[j].op.mac)
    ensures var log := After(clock, acts).log;
            log[j].result == AlreadyEnrolled <==> exists k :: Standing(log, k, j, log[j].op.mac, log[j].op.now)
  {
    var log := After(clock, acts).log;
    var mac, now := log[j].op.mac, log[j].op.now;
    NodeOpsBefore(log, j, clock);
    ClaimDecides(clock, acts, j);
    OutlivingDecided(clock, acts, mac);
    OutlivingLingers(Empty, NodeOps(log, clock), 0, Position(log, j), mac, now);
    ClaimedIffStands(NodeOps(log, clock), Position(log, j), mac, now);
    forall k | Standing(log, k, j, mac, now) ensures log[j].result == AlreadyEnrolled {
      StandingFromLog(clock, acts, k, j, mac, now);
    }
    if log[j].result == AlreadyEnrolled {
      var q :| Stands(NodeOps(log, clock), q, Position(log, j), mac, now);
      var k := StandingFromOps(clock, acts, q, j, mac, now);
    }
  }

  /** Two enrollments of a node are separated by a revocation or by the passing of every expiry set since the first. */
  lemma InterleavedEnrollmentsSeparated(clock: int, acts: seq<Action>, k: nat, j: nat, mac: Node)
    requires k < j < |After(clock, acts).log|
    requires var log := After(clock, acts).log;
             OutlivingLog(log, mac) && HandsOut(log[k], mac) && Enrolls(log[j], mac)
    ensures var log := After(clock, acts).log;
            log[k].op.expires <= log[j].op.now || exists z :: k < z < j && RevokesNode(log[z], mac)
  {
    var log := After(clock, acts).log;
    InterleavedEnrollRefusedIff(clock, acts, j);
    assert !Standing(log, k, j, mac, log[j].op.now);
  }

  /** Every token that is live since the latest enrollment of its node descends from it by rotations. */
  lemma InterleavedTokenDescends(clock: int, acts: seq<Action>, r: TokenRow) returns (root: nat, k: nat)
    requires OutlivingLog(After(clock, acts).log, r.mac) && InOrderLog(After(clock, acts).log, r.mac)
    requires var s := After(clock, acts); r in s.committed.tokens && r.expires > LastEnrolled(s.log, |s.log|, r.mac)
    ensures var log := After(clock, acts).log; Descent(NodeOps(log, clock), |Decided(log)|, r, root, k)
  {
    var ops := NodeOps(After(clock, acts).log, clock);
    CommittedRows(clock, acts, r.mac);
    OutlivingDecided(clock, acts, r.mac);
    InOrderDecided(clock, acts, r.mac);
    InOrderRedeemsLive(ops, |ops|, r.mac);
    root, k := LiveTokenDescends(ops, |ops|, r);
  }

  /** The entry takes the token away from its node. */
  predicate TakesAway(e: Entry, mac: Node, token: Token) {
    e.op.mac == mac && (e.op.Revoke? || (e.op.Rotate? && (e.op.presented == token || e.result == Reused)))
  }

  /**
   A token that was handed out and neither redeemed nor revoked rotates exactly
   when its transaction starts before the stored expiry, whatever runs beside it.
   */
  lemma InterleavedTokenRotatesIff(clock: int, acts: seq<Action>, k: nat, j: nat, mac: Node)
    requires k < j < |After(clock, acts).log|
    requires var log := After(clock, acts).log;
             && Fresh(Ops(log)) && HandsOut(log[k], mac)
             && log[j].op.Rotate? && log[j].op.mac == mac && log[j].op.presented == log[k].op.token
             && forall x | k < x < j :: !TakesAway(log[x], mac, log[k].op.token)
    ensures var log := After(clock, acts).log;
            log[j].result == Rotated <==> log[j].op.now < log[k].op.expires
  {
    var log := After(clock, acts).log;
    var ops, p := NodeOps(log, clock), Position(log, k);
    FreshDecided(log, clock);
    RotationsDecided(clock, acts, j);
    CallAt(clock, acts, k);
    CallAt(clock, acts, j);
    PositionsGrow(log, k, j);
    forall q | p < q < Position(log, j) ensures !Removes(Empty, ops, q, mac, ops[p].token) {
      var z := OriginBetween(log, k, j, q);
      CallAt(clock, acts, z);
    }
    GenuineTokenRotatesIff(ops, p, Position(log, j), mac);
  }
}
