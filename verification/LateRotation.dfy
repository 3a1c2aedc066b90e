/**
 A run that leaves a node with two live tokens: a rotation that started before
 its token expired gets the node's lock only after a new enrollment, which has
 found that token expired.
 */
module LateRotation {
  import opened Enrollment
  import opened EnrollmentHistory
  import opened Transactions
  import opened Serializability

  /** Enrollment, a rotation that starts in its lifetime, and a second enrollment that starts after it. */
  predicate Late(first: Op, rotation: Op, second: Op) {
    && first.Enroll? && rotation.Rotate? && second.Enroll? && first.mac == rotation.mac == second.mac
    && rotation.presented == first.token && first.token != second.token && second.token != rotation.token
    && first.now <= rotation.now < first.expires <= second.now < second.expires && second.now < rotation.expires
    && first.nonce != second.nonce
  }

  /** In the order of the locks all three calls succeed and two tokens are live. */
  lemma LateKeepsTwo(first: Op, rotation: Op, second: Op)
    requires Late(first, rotation, second)
    ensures var (t1, r1) := Execute(Empty, first);
            var (t2, r2) := Execute(t1, second);
            var (t3, r3) := Execute(t2, rotation);
            r1 == Enrolled && r2 == Enrolled && r3 == Rotated && !Single(t3, first.mac, second.now)
  {
    var t1 := Execute(Empty, first).0;
    var t2 := Execute(t1, second).0;
    var a, b := TokenRow(first.mac, first.token, first.expires), TokenRow(first.mac, second.token, second.expires);
    assert a in Redeemable(t2, first.mac, rotation.presented, rotation.now);
    assert b in t2.tokens && b !in Redeemable(t2, first.mac, rotation.presented, rotation.now);
    var t3 := Execute(t2, rotation).0;
    assert b in t3.tokens && TokenRow(first.mac, rotation.token, rotation.expires) in t3.tokens;
  }

  ghost predicate Reached(clock: int, s: Sys) {
    exists acts :: After(clock, acts) == s
  }

  lemma Goes(clock: int, s: Sys, acts: seq<Action>) returns (s': Sys)
    requires Reached(clock, s)
    ensures s' == RunFrom(s, acts) && Reached(clock, s')
  {
    var before :| After(clock, before) == s;
    RunFromThen(Initial(clock), before, acts);
    s' := RunFrom(s, acts);
    assert After(clock, before + acts) == s';
  }

  /** The clock moves on and a call starts. */
  lemma GoesToStart(clock: int, s: Sys, id: TxId, op: Op) returns (s': Sys)
    requires Reached(clock, s) && id !in s.txs && s.clock <= op.now
    ensures s' == s.(clock := op.now, txs := s.txs[id := Tx(op, Waiting, 0, NoWrites)]) && Reached(clock, s')
  {
    var tick := [Tick(op.now - s.clock)];
    assert tick[..0] == [];
    s' := Goes(clock, s, tick);
    var start := [Start(id, op)];
    assert start[..0] == [];
    s' := Goes(clock, s', start);
  }

  lemma GoesToEnd(clock: int, s: Sys, id: TxId) returns (s': Sys)
    requires Reached(clock, s) && OthersWait(s, id) && s.txs[id].pc == Waiting && s.txs[id].writes == NoWrites
    ensures s' == Completed(s, id, s.tickets).(tickets := s.tickets + 1) && Reached(clock, s')
  {
    var acts := CompletesAlone(s, id);
    s' := Goes(clock, s, acts);
  }

  /** For all such calls there is an interleaving that leaves two live tokens. */
  lemma LateRotationKeepsTwoTokens(first: Op, rotation: Op, second: Op) returns (s: Sys)
    requires Late(first, rotation, second)
    ensures Reached(first.now, s) && !Single(s.committed, first.mac, second.now)
    ensures s.log == [Entry(first, Enrolled, 0), Entry(second, Enrolled, 1), Entry(rotation, Rotated, 2)]
  {
    var clock := first.now;
    LateKeepsTwo(first, rotation, second);
    assert After(clock, []) == Initial(clock);
    s := GoesToStart(clock, Initial(clock), 0, first);
    s := GoesToEnd(clock, s, 0);
    assert s == Sys(Execute(Empty, first).0, map[], clock, 1, [Entry(first, Enrolled, 0)]);
    s := GoesToStart(clock, s, 1, rotation);
    s := GoesToStart(clock, s, 2, second);
    s := OvertakesInLock(clock, s, rotation, second);
  }

  /** The second enrollment takes the lock before the rotation that started earlier. */
  lemma OvertakesInLock(clock: int, s: Sys, rotation: Op, second: Op) returns (s': Sys)
    requires Reached(clock, s)
    requires s.txs == map[1 := Tx(rotation, Waiting, 0, NoWrites), 2 := Tx(second, Waiting, 0, NoWrites)]
    ensures Reached(clock, s')
    ensures var (t, r) := Execute(s.committed, second);
            var (t', r') := Execute(t, rotation);
            s'.committed == t' && s'.log == s.log + [Entry(second, r, s.tickets), Entry(rotation, r', s.tickets + 1)]
  {
    s' := GoesToEnd(clock, s, 2);
    assert s'.txs == map[1 := Tx(rotation, Waiting, 0, NoWrites)];
    s' := GoesToEnd(clock, s', 1);
  }
}
