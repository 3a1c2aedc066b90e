/**
 The exact condition for one live token per node over interleavings: a node has
 one live token in every state of a run if and only if no rotation redeems a
 token handed out before the latest enrollment.
 */
module ConcurrentLines {
  import opened Enrollment
  import opened EnrollmentHistory
  import opened TokenLines
  import opened Transactions
  import opened NodeSerializability
  import opened ConcurrentEnrollment

  // ----- the condition in the log and in the serial run -----

  /** Every token handed out expires after its own start and after the start of the latest enrollment. */
  ghost predicate LastingLog(log: seq<Entry>, mac: Node) {
    forall k | 0 <= k < |log| && HandsOut(log[k], mac) ::
      log[k].op.now < log[k].op.expires && LastEnrolled(log, k, mac) < log[k].op.expires
  }

  /** Entry k redeems a token that was handed out before the latest enrollment. */
  ghost predicate RedeemsOlderEntry(log: seq<Entry>, k: int, mac: Node) {
    0 <= k < |log| && Rotates(log[k], mac) &&
    exists p, e :: 0 <= p < e < k && HandsOut(log[p], mac) && log[p].op.token == log[k].op.presented && Enrolls(log[e], mac)
  }

  lemma LastingDecided(clock: int, acts: seq<Action>, mac: Node)
    requires LastingLog(After(clock, acts).log, mac)
    ensures Lasting(NodeOps(After(clock, acts).log, clock), mac)
  {
    var ops := NodeOps(After(clock, acts).log, clock);
    forall k | Grants(Empty, ops, k, mac) ensures ops[k].now < ops[k].expires && LastEnroll(ops, k, mac) < ops[k].expires {
      var z := GrantOrigin(clock, acts, k, mac);
      LastEnrolledAt(clock, acts, z, mac);
    }
  }

  lemma OlderFromLog(clock: int, acts: seq<Action>, k: nat, mac: Node)
    requires RedeemsOlderEntry(After(clock, acts).log, k, mac)
    ensures var log := After(clock, acts).log; RedeemsOlder(NodeOps(log, clock), Position(log, k), mac)
  {
    var log := After(clock, acts).log;
    var p, e :| 0 <= p < e < k && HandsOut(log[p], mac) && log[p].op.token == log[k].op.presented && Enrolls(log[e], mac);
    CallAt(clock, acts, p);
    CallAt(clock, acts, e);
    CallAt(clock, acts, k);
    PositionsGrow(log, p, e);
    PositionsGrow(log, e, k);
    var ops := NodeOps(log, clock);
    assert Grants(Empty, ops, Position(log, p), mac) && EnrollsAt(Empty, ops, Position(log, e), mac);
  }

  lemma OlderFromOps(clock: int, acts: seq<Action>, q: nat, mac: Node) returns (k: nat)
    requires RedeemsOlder(NodeOps(After(clock, acts).log, clock), q, mac)
    ensures RedeemsOlderEntry(After(clock, acts).log, k, mac)
  {
    var log := After(clock, acts).log;
    var ops := NodeOps(log, clock);
    var p, e :| 0 <= p < e < q && Grants(Empty, ops, p, mac) && ops[p].token == ops[q].presented && EnrollsAt(Empty, ops, e, mac);
    k := GrantOrigin(clock, acts, q, mac);
    CallAt(clock, acts, k);
    RotationRotates(Before(Empty, ops, q), ops[q]);
    assert log[..0] == [];
    var y := OriginBetween(log, 0, k, e);
    CallAt(clock, acts, y);
    var x := OriginBetween(log, 0, y, p);
    CallAt(clock, acts, x);
    assert HandsOut(log[x], mac) && Enrolls(log[y], mac);
  }

  // ----- the states of a run and the positions of the serial run -----

  lemma NextLog(s: Sys, a: Action)
    ensures Next(s, a).log == s.log || (|Next(s, a).log| == |s.log| + 1 && Next(s, a).log[..|s.log|] == s.log)
  { }

  lemma {:induction false} LogGrows(clock: int, acts: seq<Action>, i: nat)
    requires i <= |acts|
    ensures var l, log := After(clock, acts[..i]).log, After(clock, acts).log; |l| <= |log| && l == log[..|l|]
  {
    if i == |acts| {
      assert acts[..i] == acts;
    } else {
      var n := |acts| - 1;
      LogGrows(clock, acts[..n], i);
      assert acts[..n][..i] == acts[..i];
      NextLog(After(clock, acts[..n]), acts[n]);
      var l, m, log := After(clock, acts[..i]).log, After(clock, acts[..n]).log, After(clock, acts).log;
      assert m == log[..|m|] && log[..|m|][..|l|] == log[..|l|];
    }
  }

  /** The log reaches every length up to its last one. */
  lemma {:induction false} LengthReached(clock: int, acts: seq<Action>, n: nat) returns (i: nat)
    requires n <= |After(clock, acts).log|
    ensures i <= |acts| && |After(clock, acts[..i]).log| == n
  {
    if |After(clock, acts).log| == n {
      i := |acts|;
      assert acts[..i] == acts;
    } else {
      var m := |acts| - 1;
      NextLog(After(clock, acts[..m]), acts[m]);
      i := LengthReached(clock, acts[..m], n);
      assert acts[..m][..i] == acts[..i];
    }
  }

  lemma {:induction false} LastEnrolledPrefix(log: seq<Entry>, n: nat, i: nat, mac: Node)
    requires i <= n <= |log|
    ensures LastEnrolled(log[..n], i, mac) == LastEnrolled(log, i, mac)
  {
    if i > 0 {
      LastEnrolledPrefix(log, n, i - 1, mac);
    }
  }

  /** After i steps the node has one token that is live since its latest enrollment. */
  ghost predicate SingleAt(clock: int, acts: seq<Action>, i: nat, mac: Node)
    requires i <= |acts|
  {
    var s := After(clock, acts[..i]);
    Single(s.committed, mac, LastEnrolled(s.log, |s.log|, mac))
  }

  /** The same at a position of the serial run. */
  ghost predicate SingleBefore(ops: seq<Op>, q: nat, mac: Node)
    requires q <= |ops|
  {
    Single(Before(Empty, ops, q), mac, LastEnroll(ops, q, mac))
  }

  lemma SingleAtPosition(clock: int, acts: seq<Action>, i: nat, mac: Node)
    requires i <= |acts| && |After(clock, acts[..i]).log| <= |After(clock, acts).log|
    ensures var log := After(clock, acts).log;
            var q := Position(log, |After(clock, acts[..i]).log|);
            q <= |NodeOps(log, clock)| && (SingleAt(clock, acts, i, mac) <==> SingleBefore(NodeOps(log, clock), q, mac))
  {
    var s, log := After(clock, acts[..i]), After(clock, acts).log;
    LogGrows(clock, acts, i);
    NodeOpsBefore(log, |s.log|, clock);
    CommittedRows(clock, acts[..i], mac);
    LastEnrolledAt(clock, acts, |s.log|, mac);
    LastEnrolledPrefix(log, |s.log|, |s.log|, mac);
    assert NodeOps(s.log, clock)[..|NodeOps(s.log, clock)|] == NodeOps(s.log, clock);
  }

  /** Every position of the serial run is reached by some state. */
  lemma PositionReached(clock: int, acts: seq<Action>, q: nat) returns (i: nat)
    requires q <= |NodeOps(After(clock, acts).log, clock)|
    ensures i <= |acts| && |After(clock, acts[..i]).log| <= |After(clock, acts).log|
    ensures Position(After(clock, acts).log, |After(clock, acts[..i]).log|) == q
  {
    var log := After(clock, acts).log;
    assert log[..|log|] == log;
    var n := |log|;
    if q < |Decided(log)| {
      n := DecidedOrigin(log, q);
    }
    i := LengthReached(clock, acts, n);
  }

  /** One live token in every state of a run, exactly when no rotation redeems a token older than the latest enrollment. */
  lemma InterleavedOneTokenIff(clock: int, acts: seq<Action>, mac: Node)
    requires Fresh(Ops(After(clock, acts).log)) && LastingLog(After(clock, acts).log, mac)
    ensures (forall i: nat | i <= |acts| :: SingleAt(clock, acts, i, mac))
       <==> (forall k: nat | k < |After(clock, acts).log| :: !RedeemsOlderEntry(After(clock, acts).log, k, mac))
  {
    var log := After(clock, acts).log;
    var ops := NodeOps(log, clock);
    FreshDecided(log, clock);
    LastingDecided(clock, acts, mac);
    OneLiveTokenIff(ops, |ops|, mac);
    if k: nat :| k < |log| && RedeemsOlderEntry(log, k, mac) {
      OlderFromLog(clock, acts, k, mac);
      assert RedeemsOlder(ops, Position(log, k), mac);
      var q: nat :| q <= |ops| && !Single(Before(Empty, ops, q), mac, LastEnroll(ops, q, mac));
      var i := PositionReached(clock, acts, q);
      SingleAtPosition(clock, acts, i, mac);
    } else {
      forall q: nat | q < |ops| ensures !RedeemsOlder(ops, q, mac) {
        if RedeemsOlder(ops, q, mac) {
          var k := OlderFromOps(clock, acts, q, mac);
        }
      }
      forall i: nat | i <= |acts| ensures SingleAt(clock, acts, i, mac) {
        LogGrows(clock, acts, i);
        SingleAtPosition(clock, acts, i, mac);
      }
    }
  }
}
