/** A run in which an overtaken commit gives answers that no serial order gives. */
module OvertakenCommit {
  import opened Enrollment
  import opened Transactions
  import opened Serializability

  ghost predicate Reached(s: Sys) {
    exists acts :: After(0, acts) == s
  }

  lemma Go(s: Sys, a: Action) returns (s': Sys)
    requires Reached(s)
    ensures s' == Next(s, a) && Reached(s')
  {
    var acts :| After(0, acts) == s;
    RunFromNext(Initial(0), acts, a);
    s' := Next(s, a);
    assert After(0, acts + [a]) == s';
  }

  /** The only open transaction executes a statement. */
  lemma GoAlone(s: Sys, tx: Tx, tx': Tx) returns (s': Sys)
    requires Reached(s) && s.txs == map[0 := tx] && Fits(tx.op, tx.pc) && !tx.pc.Waiting? && !tx.pc.Finish?
    requires Statement(s.committed, tx) == Continue(tx')
    ensures s' == s.(txs := map[0 := tx']) && Reached(s')
  {
    RunsAlone(s, 0, tx);
    s' := Go(s, Run(0));
  }

  /** An enrollment begins, takes its lock and finds the node unclaimed. */
  lemma GoBegin(s: Sys, id: TxId, op: Op) returns (s': Sys)
    requires Reached(s) && id !in s.txs && op.Enroll? && op.now == s.clock && op.mac !in s.committed.claims
    requires forall k | k in s.txs :: s.txs[k].op.mac != op.mac
    ensures s' == s.(txs := s.txs[id := Tx(op, Prune, s.tickets, NoWrites)], tickets := s.tickets + 1) && Reached(s')
  {
    s' := Go(s, Start(id, op));
    s' := Go(s', Lock(id));
    assert s'.txs[id] == Tx(op, Select, s.tickets, NoWrites);
    assert Overlay(s'.committed, NoWrites) == s'.committed;
    s' := Go(s', Run(id));
    assert s'.txs == s.txs[id := Tx(op, Prune, s.tickets, NoWrites)];
  }

  /** An enrollment into empty tables, about to commit. */
  function Ready(op: Op): Tx
    requires op.Enroll?
  {
    Tx(op, Finish(Enrolled), 0,
       Writes({}, map[op.mac := op.expires], {}, {TokenRow(op.mac, op.token, op.expires)}, {},
              map[op.nonce := op.nonceExpires], {op.mac}))
  }

  lemma FirstIsReady(op: Op) returns (s: Sys)
    requires op.Enroll? && op.now == 0
    ensures s == Sys(Empty, map[0 := Ready(op)], 0, 1, []) && Reached(s)
  {
    assert After(0, []) == Initial(0);
    s := GoBegin(Initial(0), 0, op);
    var w := NoWrites;
    var tx := Tx(op, Prune, 0, w);
    var pruned := Tx(op, InsertNonce, 0, w);
    assert Overlay(Empty, NoWrites) == Empty;
    assert Statement(Empty, tx) == Continue(pruned);
    s := GoAlone(s, tx, pruned);
    s := FirstWrites(s, pruned);
  }

  lemma FirstWrites(s: Sys, tx: Tx) returns (s': Sys)
    requires Reached(s) && s == Sys(Empty, map[0 := tx], 0, 1, [])
    requires tx.op.Enroll? && tx == Tx(tx.op, InsertNonce, 0, NoWrites)
    ensures s' == s.(txs := map[0 := Ready(tx.op)]) && Reached(s')
  {
    var op, w := tx.op, NoWrites.(nonces := map[tx.op.nonce := tx.op.nonceExpires]);
    s' := GoAlone(s, tx, Tx(op, UpsertClaim, 0, w));
    var w' := w.(claims := map[op.mac := op.expires]);
    s' := GoAlone(s', Tx(op, UpsertClaim, 0, w), Tx(op, InsertNode, 0, w'));
    s' := GoAlone(s', Tx(op, InsertNode, 0, w'), Tx(op, InsertToken, 0, w'.(nodes := {op.mac})));
    s' := GoAlone(s', Tx(op, InsertToken, 0, w'.(nodes := {op.mac})), Ready(op));
  }

  /** The second enrollment prunes before the first one commits. */
  lemma SecondPrunes(s: Sys, first: Op, second: Op) returns (s': Sys)
    requires Reached(s) && first.Enroll? && second.Enroll?
    requires s == Sys(Empty, map[0 := Ready(first), 1 := Tx(second, Prune, 1, NoWrites)], second.now, 2, [])
    ensures s' == s.(txs := map[0 := Ready(first), 1 := Tx(second, InsertNonce, 1, NoWrites)]) && Reached(s')
  {
    assert Overlay(Empty, NoWrites) == Empty && ExpiredNonces(Empty, second.now) == {};
    assert Statement(Empty, s.txs[1]) == Continue(Tx(second, InsertNonce, 1, NoWrites));
    s' := Go(s, Run(1));
  }

  lemma FirstCommits(s: Sys, first: Op, tx: Tx) returns (s': Sys)
    requires Reached(s) && first.Enroll? && s.txs == map[0 := Ready(first), 1 := tx] && s.committed == Empty && s.log == []
    ensures s'.txs == map[1 := tx] && s'.log == [Entry(first, Enrolled, 0)] && Reached(s')
    ensures s'.committed.nonces == map[first.nonce := first.nonceExpires]
  {
    s' := Go(s, Commit(0));
  }

  /** The second enrollment finds the nonce that it would have pruned. */
  lemma SecondIsRefused(s: Sys, second: Op) returns (s': Sys)
    requires Reached(s) && second.Enroll? && s.txs == map[1 := Tx(second, InsertNonce, 1, NoWrites)]
    requires second.nonce in s.committed.nonces
    ensures s'.log == s.log + [Entry(second, NonceUsed, 1)] && Reached(s')
  {
    assert Overlay(s.committed, NoWrites).nonces == s.committed.nonces;
    RunsAlone(s, 1, s.txs[1]);
    s' := Go(s, Run(1));
  }

  /** What the two serial orders answer. */
  lemma SerialAnswers(first: Op, second: Op)
    requires first.Enroll? && second.Enroll? && first.mac != second.mac && first.nonce == second.nonce
    requires first.nonceExpires < second.now && first.now <= second.nonceExpires
    ensures Execute(Empty, first).1 == Enrolled == Execute(Empty, second).1
    ensures Execute(Execute(Empty, first).0, second).1 == Enrolled
    ensures Execute(Execute(Empty, second).0, first).1 == NonceUsed
  { }

  /** The log is no serial history: the second call would have enrolled. */
  lemma LogIsNotSerial(s: Sys, a: Entry, b: Entry)
    requires s.log == [a, b] && Execute(Execute(Empty, a.op).0, b.op).1 != b.result
    ensures !Serial(s)
  {
    assert [] + [a] == [a] && [a] + [b] == s.log;
    LogExtends([], a);
    LogExtends([a], b);
  }

  /**
   An overtaken commit loses serial order: when the first of two
   enrollments with one nonce commits after the second has pruned and after the
   nonce expired, the second is refused, which neither serial order does.
   */
  lemma OvertakenIsNotSerial(a: Node, b: Node, nonce: Nonce, ta: Token, tb: Token) returns (s: Sys)
    requires a != b
    ensures var first, second := Enroll(a, 0, nonce, 10, ta, 100), Enroll(b, 20, nonce, 30, tb, 120);
            && Reached(s) && s.log == [Entry(first, Enrolled, 0), Entry(second, NonceUsed, 1)]
            && Execute(Execute(Empty, first).0, second).1 == Enrolled
            && Execute(Execute(Empty, second).0, first).1 == NonceUsed
            && !Serial(s)
  {
    var first, second := Enroll(a, 0, nonce, 10, ta, 100), Enroll(b, 20, nonce, 30, tb, 120);
    s := BothRun(first, second);
    SerialAnswers(first, second);
    LogIsNotSerial(s, s.log[0], s.log[1]);
  }

  lemma BothRun(first: Op, second: Op) returns (s: Sys)
    requires first.Enroll? && second.Enroll? && first.mac != second.mac && first.nonce == second.nonce
    requires first.now == 0 <= second.now
    ensures Reached(s) && s.log == [Entry(first, Enrolled, 0), Entry(second, NonceUsed, 1)]
  {
    s := FirstIsReady(first);
    s := Go(s, Tick(second.now));
    s := GoBegin(s, 1, second);
    s := SecondPrunes(s, first, second);
    s := FirstCommits(s, first, Tx(second, InsertNonce, 1, NoWrites));
    s := SecondIsRefused(s, second);
  }
}
