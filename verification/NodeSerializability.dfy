/**
 What the node lock gives in every interleaving, whatever happens to the nonce
 table: the claims, tokens and nodes, and every answer that does not refuse a
 nonce, are those of a serial run in lock order.
 */
module NodeSerializability {
  import opened Enrollment
  import opened Transactions

  // ----- one transaction, seen against the committed rows -----

  /** The writes of a transaction outside the nonce table. */
  function RowWrites(w: Writes): Writes {
    w.(pruned := {}, nonces := map[])
  }

  /** What a transaction has read of its node still holds, and its row writes are those of its prefix. */
  ghost predicate GoodRows(t: Tables, tx: Tx) {
    var op, w := tx.op, RowWrites(tx.writes);
    Fits(op, tx.pc) &&
    match tx.pc
    case Waiting => tx.writes == NoWrites
    case Select => w == NoWrites
    case Prune => w == NoWrites && !Claimed(t, op.mac, op.now)
    case InsertNonce => w == NoWrites && !Claimed(t, op.mac, op.now)
    case UpsertClaim => w == NoWrites && !Claimed(t, op.mac, op.now)
    case InsertNode => w == NoWrites.(claims := map[op.mac := op.expires]) && !Claimed(t, op.mac, op.now)
    case InsertToken =>
      w == NoWrites.(claims := map[op.mac := op.expires], nodes := {op.mac}) && !Claimed(t, op.mac, op.now)
    case Redeem => w == NoWrites
    case Wipe => w == NoWrites && Redeemable(t, op.mac, op.presented, op.now) == {}
    case InsertRotated =>
      var rows := Redeemable(t, op.mac, op.presented, op.now);
      rows != {} && w == NoWrites.(dropped := rows)
    case ExtendClaim =>
      var rows := Redeemable(t, op.mac, op.presented, op.now);
      rows != {} && w == NoWrites.(dropped := rows, added := {TokenRow(op.mac, op.token, op.expires)})
    case DeleteTokens => w == NoWrites
    case DeleteClaim => w == NoWrites.(dropped := RowsOf(t, op.mac))
    case Finish(result) =>
      match op
      case Enroll(mac, now, _, _, token, expires) =>
        && result == Enrolled && !Claimed(t, mac, now)
        && w == NoWrites.(claims := map[mac := expires], nodes := {mac}, added := {TokenRow(mac, token, expires)})
      case Rotate(mac, now, presented, token, expires) =>
        var rows := Redeemable(t, mac, presented, now);
        if rows == {} then result == Reused && w == NoWrites.(dropped := RowsOf(t, mac))
        else result == Rotated && w == NoWrites.(dropped := rows, added := {TokenRow(mac, token, expires)},
                                                 claims := map[mac := Extended(t, mac, expires)])
      case Revoke(mac, _) =>
        result == Revoked && w == NoWrites.(dropped := RowsOf(t, mac), unclaimed := {mac})
  }

  /** One statement keeps a transaction in step with the committed rows of its node. */
  ghost predicate RowsInStep(t: Tables, tx: Tx)
    requires Fits(tx.op, tx.pc)
  {
    match Statement(t, tx)
    case Continue(tx') => GoodRows(t, tx') && tx'.op == tx.op && tx'.ticket == tx.ticket
    case Refuse(result) =>
      tx.op.Enroll? && result == if Claimed(t, tx.op.mac, tx.op.now) then AlreadyEnrolled else NonceUsed
  }

  lemma EnrollRowsInStep(t: Tables, tx: Tx)
    requires GoodRows(t, tx) && tx.op.Enroll? && !tx.pc.Waiting? && !tx.pc.Finish?
    ensures RowsInStep(t, tx)
  {
    if tx.pc == Select {
      assert Overlay(t, tx.writes).claims == t.claims;
    }
  }

  lemma RotateRowsInStep(t: Tables, tx: Tx)
    requires GoodRows(t, tx) && tx.op.Rotate? && !tx.pc.Waiting? && !tx.pc.Finish?
    ensures RowsInStep(t, tx)
  {
    if tx.pc == Redeem || tx.pc == Wipe {
      assert Overlay(t, tx.writes).tokens == t.tokens;
    } else if tx.pc == ExtendClaim {
      assert Overlay(t, tx.writes).claims == t.claims;
    }
  }

  lemma RevokeRowsInStep(t: Tables, tx: Tx)
    requires GoodRows(t, tx) && tx.op.Revoke? && !tx.pc.Waiting? && !tx.pc.Finish?
    ensures RowsInStep(t, tx)
  {
    if tx.pc == DeleteTokens {
      assert Overlay(t, tx.writes).tokens == t.tokens;
    }
  }

  lemma StatementKeepsRows(t: Tables, tx: Tx)
    requires GoodRows(t, tx) && !tx.pc.Waiting? && !tx.pc.Finish?
    ensures RowsInStep(t, tx)
  {
    match tx.op {
      case Enroll(_, _, _, _, _, _) => EnrollRowsInStep(t, tx);
      case Rotate(_, _, _, _, _) => RotateRowsInStep(t, tx);
      case Revoke(_, _) => RevokeRowsInStep(t, tx);
    }
  }

  ghost predicate SameRows(t: Tables, u: Tables) {
    t.claims == u.claims && t.tokens == u.tokens && t.nodes == u.nodes
  }

  /** The nonce of an enrollment has no unexpired record. */
  predicate NonceFree(t: Tables, op: Op) {
    op.Enroll? && op.nonce in t.nonces ==> op.nonce in ExpiredNonces(t, op.now)
  }

  /** Committing writes the rows which the call writes on equal rows, when its nonce is free. */
  ghost predicate CommitsAs(t: Tables, u: Tables, tx: Tx) {
    tx.pc.Finish? && SameRows(Overlay(t, tx.writes), Execute(u, tx.op).0) && tx.pc.result == Execute(u, tx.op).1
  }

  lemma EnrollCommits(t: Tables, u: Tables, tx: Tx)
    requires GoodRows(t, tx) && tx.pc.Finish? && SameRows(t, u) && NonceFree(u, tx.op) && tx.op.Enroll?
    ensures CommitsAs(t, u, tx)
  {
    assert SameRows(Overlay(t, RowWrites(tx.writes)), Overlay(t, tx.writes));
    assert Overlay(t, tx.writes).claims == Execute(u, tx.op).0.claims;
  }

  lemma RotateCommits(t: Tables, u: Tables, tx: Tx)
    requires GoodRows(t, tx) && tx.pc.Finish? && SameRows(t, u) && tx.op.Rotate?
    ensures CommitsAs(t, u, tx)
  {
    var op := tx.op;
    assert SameRows(Overlay(t, RowWrites(tx.writes)), Overlay(t, tx.writes));
    assert Redeemable(u, op.mac, op.presented, op.now) == Redeemable(t, op.mac, op.presented, op.now);
    assert RowsOf(u, op.mac) == RowsOf(t, op.mac);
    assert Overlay(t, tx.writes).claims == Execute(u, op).0.claims;
  }

  lemma RevokeCommits(t: Tables, u: Tables, tx: Tx)
    requires GoodRows(t, tx) && tx.pc.Finish? && SameRows(t, u) && tx.op.Revoke?
    ensures CommitsAs(t, u, tx)
  {
    assert SameRows(Overlay(t, RowWrites(tx.writes)), Overlay(t, tx.writes));
    assert RowsOf(u, tx.op.mac) == RowsOf(t, tx.op.mac);
    assert Overlay(t, tx.writes).claims == Execute(u, tx.op).0.claims;
  }

  lemma CommitIsRowExecute(t: Tables, u: Tables, tx: Tx)
    requires GoodRows(t, tx) && tx.pc.Finish? && SameRows(t, u) && NonceFree(u, tx.op)
    ensures CommitsAs(t, u, tx)
  {
    match tx.op {
      case Enroll(_, _, _, _, _, _) => EnrollCommits(t, u, tx);
      case Rotate(_, _, _, _, _) => RotateCommits(t, u, tx);
      case Revoke(_, _) => RevokeCommits(t, u, tx);
    }
  }

  lemma RowsTransfer(t: Tables, t': Tables, tx: Tx)
    requires GoodRows(t, tx) && SameNode(t, t', tx.op.mac)
    ensures GoodRows(t', tx)
  {
    assert RowsOf(t', tx.op.mac) == RowsOf(t, tx.op.mac);
    if tx.op.Rotate? {
      assert Redeemable(t', tx.op.mac, tx.op.presented, tx.op.now) == Redeemable(t, tx.op.mac, tx.op.presented, tx.op.now);
    }
  }

  /** A commit for another node leaves what a transaction has read of its own node in place. */
  lemma CommitKeepsRows(t: Tables, o: Tx, tx: Tx)
    requires GoodRows(t, tx) && GoodRows(t, o) && o.pc.Finish?
    requires o.op.mac != tx.op.mac || tx.pc == Waiting
    ensures GoodRows(Overlay(t, o.writes), tx)
  {
    if tx.pc != Waiting {
      var u := t.(nonces := map[]);
      CommitIsRowExecute(t, u, o);
      ExecuteElsewhere(u, o.op, tx.op.mac);
      RowsTransfer(t, Overlay(t, o.writes), tx);
    }
  }

  // ----- the whole system -----

  ghost predicate Exclusive(s: Sys) {
    forall i, j | i in s.txs && j in s.txs && i != j && s.txs[i].pc != Waiting && s.txs[j].pc != Waiting ::
      s.txs[i].op.mac != s.txs[j].op.mac && Touched(s.txs[i]) !! Touched(s.txs[j])
  }

  ghost predicate AllGoodRows(s: Sys) {
    forall id | id in s.txs :: GoodRows(s.committed, s.txs[id])
  }

  /** Open transactions started between `start` and now. */
  ghost predicate Started(s: Sys, start: int) {
    start <= s.clock && forall id | id in s.txs :: start <= s.txs[id].op.now <= s.clock
  }

  /** Calls on one node are logged in the order in which they took its lock. */
  ghost predicate InLockOrder(s: Sys) {
    && (forall i, j | 0 <= i < j < |s.log| && s.log[i].op.mac == s.log[j].op.mac :: s.log[i].ticket < s.log[j].ticket)
    && (forall i | 0 <= i < |s.log| :: s.log[i].ticket < s.tickets)
    && (forall id | id in s.txs && s.txs[id].pc != Waiting :: s.txs[id].ticket < s.tickets
         && forall i | 0 <= i < |s.log| && s.log[i].op.mac == s.txs[id].op.mac :: s.log[i].ticket < s.txs[id].ticket)
  }

  /** A statement touches no nonce row but those it had to wait for. */
  lemma StatementTouches(s: Sys, id: TxId)
    requires id in s.txs && Enabled(s, Run(id))
    ensures var e := Statement(s.committed, s.txs[id]);
            e.Continue? ==>
              && e.tx.op == s.txs[id].op
              && forall k | k in Touched(e.tx) && k !in Touched(s.txs[id]) :: UntouchedByOthers(s, id, {k})
  { }

  lemma ExclusiveKept(s: Sys, a: Action)
    requires Exclusive(s) && AllGoodRows(s)
    ensures Exclusive(Next(s, a))
  {
    if Enabled(s, a) && a.Run? {
      StatementTouches(s, a.id);
    }
  }

  lemma RowsKept(s: Sys, a: Action)
    requires Exclusive(s) && AllGoodRows(s)
    ensures AllGoodRows(Next(s, a))
  {
    if Enabled(s, a) {
      match a {
        case Run(id) => StatementKeepsRows(s.committed, s.txs[id]);
        case Commit(id) =>
          forall k | k in s.txs && k != id
            ensures GoodRows(Overlay(s.committed, s.txs[id].writes), s.txs[k])
          {
            CommitKeepsRows(s.committed, s.txs[id], s.txs[k]);
          }
        case _ =>
      }
    }
  }

  lemma StartedKept(s: Sys, a: Action, start: int)
    requires Started(s, start)
    ensures Started(Next(s, a), start)
  { }

  /** Whoever finishes holds the lock, so its ticket is the latest logged for its node. */
  lemma FinishedInOrder(s: Sys, id: TxId, result: Result)
    requires InLockOrder(s) && Exclusive(s) && id in s.txs && s.txs[id].pc != Waiting
    ensures InLockOrder(Finished(s, id, result))
  { }

  lemma StatementKeepsTicket(t: Tables, tx: Tx)
    requires Fits(tx.op, tx.pc)
    ensures var e := Statement(t, tx); e.Continue? ==> e.tx.op == tx.op && e.tx.ticket == tx.ticket
  { }

  lemma InLockOrderKept(s: Sys, a: Action)
    requires InLockOrder(s) && Exclusive(s)
    ensures InLockOrder(Next(s, a))
  {
    if Enabled(s, a) {
      match a {
        case Run(id) =>
          StatementKeepsTicket(s.committed, s.txs[id]);
          var e := Statement(s.committed, s.txs[id]);
          if e.Refuse? {
            FinishedInOrder(s, id, e.result);
          }
        case Commit(id) => FinishedInOrder(s, id, s.txs[id].pc.result);
        case _ =>
      }
    }
  }

  // ----- the serial run of the node tables -----

  /** The finished calls that were not refused for their nonce. */
  function Decided(log: seq<Entry>): seq<Entry> {
    if log == [] then []
    else Decided(log[..|log| - 1]) + if log[|log| - 1].result == NonceUsed then [] else [log[|log| - 1]]
  }

  /** The same call with a nonce record that has run out before `start`. */
  function Spent(op: Op, start: int): Op {
    if op.Enroll? then op.(nonceExpires := start - 1) else op
  }

  /** The decided calls, none of which stands in the way of another's nonce. */
  function NodeOps(log: seq<Entry>, start: int): seq<Op> {
    seq(|Decided(log)|, i requires 0 <= i < |Decided(log)| => Spent(Decided(log)[i].op, start))
  }

  /** Rows and answers are those of the decided calls, run one by one. */
  ghost predicate NodeSerial(s: Sys, start: int) {
    && SameRows(s.committed, Replay(Empty, NodeOps(s.log, start)))
    && forall i | 0 <= i < |Decided(s.log)| :: Decided(s.log)[i].result == ResultAt(Empty, NodeOps(s.log, start), i)
  }

  predicate RunOut(t: Tables, start: int) {
    forall n | n in t.nonces :: t.nonces[n] < start
  }

  lemma RunOutKept(t: Tables, op: Op, start: int)
    requires RunOut(t, start)
    ensures RunOut(Execute(t, Spent(op, start)).0, start)
  { }

  lemma {:induction false} NoncesRunOut(log: seq<Entry>, start: int)
    ensures RunOut(Replay(Empty, NodeOps(log, start)), start)
  {
    if log != [] {
      var n := |log| - 1;
      NoncesRunOut(log[..n], start);
      assert log == log[..n] + [log[n]];
      NodeOpsNext(log[..n], log[n], start);
      Appended(Empty, NodeOps(log[..n], start), Spent(log[n].op, start));
      RunOutKept(Replay(Empty, NodeOps(log[..n], start)), log[n].op, start);
    }
  }

  lemma NodeOpsNext(log: seq<Entry>, e: Entry, start: int)
    ensures Decided(log + [e]) == if e.result == NonceUsed then Decided(log) else Decided(log) + [e]
    ensures NodeOps(log + [e], start)
         == if e.result == NonceUsed then NodeOps(log, start) else NodeOps(log, start) + [Spent(e.op, start)]
  {
    assert (log + [e])[..|log|] == log;
  }

  lemma NodeLogExtends(s: Sys, e: Entry, start: int)
    requires NodeSerial(s, start)
    requires e.result != NonceUsed ==> e.result == Execute(Replay(Empty, NodeOps(s.log, start)), Spent(e.op, start)).1
    ensures var ops := NodeOps(s.log + [e], start);
            && (e.result != NonceUsed ==>
                  Replay(Empty, ops) == Execute(Replay(Empty, NodeOps(s.log, start)), Spent(e.op, start)).0)
            && (e.result == NonceUsed ==> ops == NodeOps(s.log, start))
            && forall i | 0 <= i < |Decided(s.log + [e])| :: Decided(s.log + [e])[i].result == ResultAt(Empty, ops, i)
  {
    NodeOpsNext(s.log, e, start);
    Appended(Empty, NodeOps(s.log, start), Spent(e.op, start));
  }

  /** A spent record writes the same rows. */
  lemma SpentIsSame(t: Tables, op: Op, start: int)
    requires NonceFree(t, op)
    ensures SameRows(Execute(t, Spent(op, start)).0, Execute(t, op).0) && Execute(t, Spent(op, start)).1 == Execute(t, op).1
  { }

  lemma NodeSerialKept(s: Sys, a: Action, start: int)
    requires NodeSerial(s, start) && AllGoodRows(s) && Started(s, start)
    ensures NodeSerial(Next(s, a), start)
  {
    var u := Replay(Empty, NodeOps(s.log, start));
    NoncesRunOut(s.log, start);
    if Enabled(s, a) {
      match a {
        case Run(id) =>
          StatementKeepsRows(s.committed, s.txs[id]);
          var e := Statement(s.committed, s.txs[id]);
          if e.Refuse? {
            NodeLogExtends(s, Entry(s.txs[id].op, e.result, s.txs[id].ticket), start);
          }
        case Commit(id) =>
          assert s.txs[id].op.now >= start;
          CommitIsRowExecute(s.committed, u, s.txs[id]);
          SpentIsSame(u, s.txs[id].op, start);
          NodeLogExtends(s, Entry(s.txs[id].op, s.txs[id].pc.result, s.txs[id].ticket), start);
        case _ =>
      }
    }
  }

  /** Only enrollments of nodes that the serial run finds unclaimed are refused for their nonce. */
  ghost predicate RefusedUnclaimed(s: Sys, start: int) {
    forall i | 0 <= i < |s.log| && s.log[i].result == NonceUsed ::
      s.log[i].op.Enroll? && !Claimed(Replay(Empty, NodeOps(s.log[..i], start)), s.log[i].op.mac, s.log[i].op.now)
  }

  lemma RefusedUnclaimedExtends(s: Sys, s': Sys, e: Entry, start: int)
    requires NodeSerial(s, start) && RefusedUnclaimed(s, start) && s'.log == s.log + [e]
    requires e.result == NonceUsed ==> e.op.Enroll? && !Claimed(s.committed, e.op.mac, e.op.now)
    ensures RefusedUnclaimed(s', start)
  {
    forall i | 0 <= i < |s.log| ensures s'.log[..i] == s.log[..i] { }
    assert s'.log[..|s.log|] == s.log;
  }

  lemma CommittedIsDecided(t: Tables, tx: Tx)
    requires GoodRows(t, tx) && tx.pc.Finish?
    ensures tx.pc.result != NonceUsed
  { }

  lemma RefusedUnclaimedKept(s: Sys, a: Action, start: int)
    requires NodeSerial(s, start) && AllGoodRows(s) && RefusedUnclaimed(s, start)
    ensures RefusedUnclaimed(Next(s, a), start)
  {
    if Enabled(s, a) {
      match a {
        case Run(id) =>
          StatementKeepsRows(s.committed, s.txs[id]);
          var e := Statement(s.committed, s.txs[id]);
          if e.Refuse? {
            RefusedUnclaimedExtends(s, Next(s, a), Entry(s.txs[id].op, e.result, s.txs[id].ticket), start);
          }
        case Commit(id) =>
          CommittedIsDecided(s.committed, s.txs[id]);
          RefusedUnclaimedExtends(s, Next(s, a), Entry(s.txs[id].op, s.txs[id].pc.result, s.txs[id].ticket), start);
        case _ =>
      }
    }
  }

  /** What holds in every state of every run. */
  ghost predicate NodeSafe(s: Sys, start: int) {
    Exclusive(s) && AllGoodRows(s) && Started(s, start) && InLockOrder(s) && NodeSerial(s, start) && RefusedUnclaimed(s, start)
  }

  /**
   In every interleaving, claims, tokens, nodes and every answer other than a
   refused nonce are those of a serial run in lock order.
   */
  lemma {:induction false} NodeSerializable(clock: int, acts: seq<Action>)
    ensures NodeSafe(After(clock, acts), clock)
  {
    if acts != [] {
      var n := |acts| - 1;
      NodeSerializable(clock, acts[..n]);
      var s := After(clock, acts[..n]);
      ExclusiveKept(s, acts[n]);
      RowsKept(s, acts[n]);
      StartedKept(s, acts[n], clock);
      InLockOrderKept(s, acts[n]);
      NodeSerialKept(s, acts[n], clock);
      RefusedUnclaimedKept(s, acts[n], clock);
    }
  }

  // ----- where a finished call stands among the decided ones -----

  /** The position of a decided call. */
  function Position(log: seq<Entry>, i: nat): nat
    requires i <= |log|
  {
    |Decided(log[..i])|
  }

  lemma {:induction false} DecidedAt(log: seq<Entry>, i: nat)
    requires i < |log| && log[i].result != NonceUsed
    ensures Position(log, i) < |Decided(log)| && Decided(log)[Position(log, i)] == log[i]
  {
    var n := |log| - 1;
    if i < n {
      DecidedAt(log[..n], i);
      assert log[..n][..i] == log[..i];
    }
  }

  /** The decided calls of a prefix come first. */
  lemma {:induction false} PrefixDecided(log: seq<Entry>, j: nat)
    requires j <= |log|
    ensures Position(log, j) <= |Decided(log)| && Decided(log[..j]) == Decided(log)[..Position(log, j)]
  {
    if j == |log| {
      assert log[..j] == log;
    } else {
      PrefixDecided(log[..|log| - 1], j);
      assert log[..|log| - 1][..j] == log[..j];
    }
  }

  lemma PositionsGrow(log: seq<Entry>, i: nat, j: nat)
    requires i < j <= |log|
    ensures Position(log, i) <= Position(log, j) && (log[i].result != NonceUsed ==> Position(log, i) < Position(log, j))
    decreases j
  {
    assert log[..j][..j - 1] == log[..j - 1];
    if i < j - 1 {
      PositionsGrow(log, i, j - 1);
    }
  }

  lemma {:induction false} DecidedOrigin(log: seq<Entry>, k: nat) returns (i: nat)
    requires k < |Decided(log)|
    ensures i < |log| && log[i].result != NonceUsed && Position(log, i) == k && Decided(log)[k] == log[i]
  {
    var n := |log| - 1;
    if k < |Decided(log[..n])| {
      i := DecidedOrigin(log[..n], k);
      assert log[..n][..i] == log[..i];
    } else {
      i := n;
    }
  }
}
