/**
 Every interleaving without an overtaken commit equals a serial run in lock
 order, nonce table and nonce answers included; an overtaken commit can always
 be continued to a state that does not. And a registration nonce enrolls once.
 */
module Serializability {
  import opened Enrollment
  import opened Transactions
  import opened NodeSerializability

  // ----- one transaction, seen against the committed nonces -----

  /** What a transaction has read of the nonce table still holds, or it is about to be refused for it. */
  ghost predicate GoodNonces(t: Tables, tx: Tx) {
    var op, w := tx.op, tx.writes;
    if !HasPruned(tx) then w.pruned == {} && w.nonces == map[]
    else if tx.pc == InsertNonce then
      && w.nonces == map[]
      && (w.pruned == ExpiredNonces(t, op.now) || (Doomed(t, tx) && w.pruned <= ExpiredNonces(t, op.now)))
    else
      NonceFree(t, op) && w.pruned == ExpiredNonces(t, op.now) && w.nonces == map[op.nonce := op.nonceExpires]
  }

  ghost predicate Good(t: Tables, tx: Tx) {
    GoodRows(t, tx) && GoodNonces(t, tx)
  }

  /** One statement keeps a transaction in step with the committed tables, or refuses as the serial call would. */
  ghost predicate InStep(t: Tables, tx: Tx)
    requires Fits(tx.op, tx.pc)
  {
    match Statement(t, tx)
    case Continue(tx') => Good(t, tx') && tx'.op == tx.op
    case Refuse(result) => Execute(t, tx.op) == (t, result)
  }

  lemma StatementKeepsGood(t: Tables, tx: Tx)
    requires Good(t, tx) && !tx.pc.Waiting? && !tx.pc.Finish?
    ensures InStep(t, tx)
  {
    StatementKeepsRows(t, tx);
    if tx.op.Enroll? && !HasPruned(tx) {
      assert Overlay(t, tx.writes).nonces == t.nonces;
    }
  }

  /** Committing a finished transaction is executing its call on the committed tables. */
  lemma CommitIsExecute(t: Tables, tx: Tx)
    requires Good(t, tx) && tx.pc.Finish?
    ensures (Overlay(t, tx.writes), tx.pc.result) == Execute(t, tx.op)
  {
    CommitIsRowExecute(t, t, tx);
    assert Overlay(t, tx.writes).nonces == Execute(t, tx.op).0.nonces;
  }

  /** The nonces after a commit whose rows are disjoint from what `tx` has touched. */
  lemma CommitKeepsNonces(t: Tables, op: Op, tx: Tx)
    requires GoodNonces(t, tx) && op.Enroll? && Execute(t, op).1 == Enrolled && HasPruned(tx)
    requires ExpiredNonces(t, op.now) + {op.nonce} !! Touched(tx)
    requires !(op.nonceExpires < tx.op.now && !Doomed(Execute(t, op).0, tx))
    ensures GoodNonces(Execute(t, op).0, tx)
  { }

  /** A commit for another node leaves what a transaction has read in place exactly when it is not overtaken by it. */
  lemma CommitKeepsGoodIff(t: Tables, o: Tx, tx: Tx)
    requires Good(t, tx) && Good(t, o) && o.pc.Finish?
    requires o.op.mac != tx.op.mac || tx.pc == Waiting
    requires Touched(o) !! Touched(tx)
    ensures Good(Overlay(t, o.writes), tx) <==> !Overtaken(Overlay(t, o.writes), o, tx)
  {
    CommitKeepsRows(t, o, tx);
    CommitIsExecute(t, o);
    if Overtaken(Overlay(t, o.writes), o, tx) {
      assert o.op.nonce in ExpiredNonces(Overlay(t, o.writes), tx.op.now) && o.op.nonce !in tx.writes.pruned;
    } else if o.op.Enroll? && HasPruned(tx) {
      CommitKeepsNonces(t, o.op, tx);
    }
  }

  // ----- the whole system -----

  ghost predicate AllGood(s: Sys) {
    forall id | id in s.txs :: Good(s.committed, s.txs[id])
  }

  /** The committed tables and all answers are those of the logged calls, run one by one. */
  ghost predicate Serial(s: Sys) {
    IsSerialLog(s.log, s.committed)
  }

  ghost predicate IsSerialLog(log: seq<Entry>, t: Tables) {
    t == Replay(Empty, Ops(log)) && forall i | 0 <= i < |log| :: log[i].result == ResultAt(Empty, Ops(log), i)
  }

  lemma AllGoodKept(s: Sys, a: Action)
    requires Exclusive(s) && AllGood(s) && PromptStep(s, a)
    ensures AllGood(Next(s, a))
  {
    if Enabled(s, a) {
      match a {
        case Run(id) => StatementKeepsGood(s.committed, s.txs[id]);
        case Commit(id) =>
          forall k | k in s.txs && k != id
            ensures Good(Overlay(s.committed, s.txs[id].writes), s.txs[k])
          {
            CommitKeepsGoodIff(s.committed, s.txs[id], s.txs[k]);
          }
        case _ =>
      }
    }
  }

  /** What a new log entry adds to the serial run. */
  lemma LogExtends(log: seq<Entry>, e: Entry)
    ensures Replay(Empty, Ops(log + [e])) == Execute(Replay(Empty, Ops(log)), e.op).0
    ensures ResultAt(Empty, Ops(log + [e]), |log|) == Execute(Replay(Empty, Ops(log)), e.op).1
    ensures forall i | 0 <= i < |log| :: ResultAt(Empty, Ops(log + [e]), i) == ResultAt(Empty, Ops(log), i)
  {
    assert Ops(log + [e]) == Ops(log) + [e.op];
    Appended(Empty, Ops(log), e.op);
  }

  /** A call that finishes as the serial call would keeps the run serial. */
  lemma SerialExtends(log: seq<Entry>, e: Entry, t: Tables, t': Tables)
    requires IsSerialLog(log, t) && Execute(t, e.op) == (t', e.result)
    ensures IsSerialLog(log + [e], t')
  {
    var longer := log + [e];
    LogExtends(log, e);
    assert forall i | 0 <= i < |log| :: longer[i] == log[i];
    assert longer[|log|] == e;
  }

  lemma SerialKept(s: Sys, a: Action)
    requires Serial(s) && AllGood(s)
    ensures Serial(Next(s, a))
  {
    if Enabled(s, a) {
      match a {
        case Run(id) =>
          StatementKeepsGood(s.committed, s.txs[id]);
          var e := Statement(s.committed, s.txs[id]);
          if e.Refuse? {
            SerialExtends(s.log, Entry(s.txs[id].op, e.result, s.txs[id].ticket), s.committed, s.committed);
          }
        case Commit(id) =>
          CommitIsExecute(s.committed, s.txs[id]);
          SerialExtends(s.log, Entry(s.txs[id].op, s.txs[id].pc.result, s.txs[id].ticket), s.committed,
                        Overlay(s.committed, s.txs[id].writes));
        case _ =>
      }
    }
  }

  lemma PromptPrefix(clock: int, acts: seq<Action>, n: nat)
    requires Prompt(clock, acts) && n <= |acts|
    ensures Prompt(clock, acts[..n])
  {
    forall i | 0 <= i < n ensures PromptStep(After(clock, acts[..n][..i]), acts[..n][i]) {
      assert acts[..n][..i] == acts[..i];
    }
  }

  /** Every interleaving without an overtaken commit is a serial run in lock order. */
  lemma {:induction false} Serializable(clock: int, acts: seq<Action>)
    requires Prompt(clock, acts)
    ensures NodeSafe(After(clock, acts), clock)
    ensures AllGood(After(clock, acts)) && Serial(After(clock, acts))
  {
    NodeSerializable(clock, acts);
    if acts != [] {
      var n := |acts| - 1;
      PromptPrefix(clock, acts, n);
      Serializable(clock, acts[..n]);
      AllGoodKept(After(clock, acts[..n]), acts[n]);
      SerialKept(After(clock, acts[..n]), acts[n]);
    }
  }

  /** Enrollments that commit by their nonce expiry are never overtaken. */
  lemma TimelyIsPrompt(clock: int, acts: seq<Action>)
    requires Timely(clock, acts)
    ensures Prompt(clock, acts)
  {
    forall i | 0 <= i < |acts| ensures PromptStep(After(clock, acts[..i]), acts[i]) {
      assert TimelyStep(After(clock, acts[..i]), acts[i]);
      NodeSerializable(clock, acts[..i]);
    }
  }

  // ----- an overtaken commit loses serial order -----

  /** Rolling back every transaction but one. */
  lemma {:induction false} AbortOthers(s: Sys, id: TxId, others: set<TxId>) returns (acts: seq<Action>)
    requires id in s.txs && others == s.txs.Keys - {id}
    ensures RunFrom(s, acts) == s.(txs := map[id := s.txs[id]])
    decreases others
  {
    if others == {} {
      acts := [];
      assert s.txs.Keys == {id};
      assert s.txs == map[id := s.txs[id]];
    } else {
      var k :| k in others;
      var s' := Next(s, Abort(k));
      var more := AbortOthers(s', id, others - {k});
      acts := [Abort(k)] + more;
      RunFromThen(s, [Abort(k)], more);
    }
  }

  /** The only open transaction executes a statement. */
  lemma RunsAlone(s: Sys, id: TxId, tx: Tx)
    requires s.txs == map[id := tx] && Fits(tx.op, tx.pc) && !tx.pc.Waiting? && !tx.pc.Finish?
    ensures var e := Statement(s.committed, tx);
            Next(s, Run(id)) == if e.Continue? then s.(txs := map[id := e.tx]) else Finished(s, id, e.result)
  {
    assert Enabled(s, Run(id));
  }

  /** Left alone, an enrollment that has inserted its nonce commits. */
  lemma {:induction false} CommitsAlone(s: Sys, id: TxId, tx: Tx, left: nat) returns (acts: seq<Action>)
    requires s.txs == map[id := tx] && GoodRows(s.committed, tx) && HasPruned(tx) && tx.pc != InsertNonce
    requires left == match tx.pc case UpsertClaim => 3 case InsertNode => 2 case InsertToken => 1 case _ => 0
    ensures RunFrom(s, acts).log == s.log + [Entry(tx.op, Enrolled, tx.ticket)]
    ensures RunFrom(s, acts).committed.nonces == s.committed.nonces - tx.writes.pruned + tx.writes.nonces
    decreases left
  {
    if left == 0 {
      acts := [Commit(id)];
    } else {
      RunsAlone(s, id, tx);
      StatementKeepsRows(s.committed, tx);
      var tx' := Statement(s.committed, tx).tx;
      var more := CommitsAlone(Next(s, Run(id)), id, tx', left - 1);
      acts := [Run(id)] + more;
      RunFromThen(s, [Run(id)], more);
    }
  }

  /** The enrollment `tx` has pruned without the nonce `n`, which has expired for it. */
  ghost predicate Missed(t: Tables, tx: Tx, n: Nonce) {
    HasPruned(tx) && n in ExpiredNonces(t, tx.op.now) && n !in Touched(tx)
  }

  /** A serial run would prune the missed nonce, so committing beside it is not serial. */
  lemma MissedIsNotSerial(s: Sys, s': Sys, tx: Tx, n: Nonce)
    requires Serial(s) && Missed(s.committed, tx, n)
    requires s'.log == s.log + [Entry(tx.op, Enrolled, tx.ticket)] && n in s'.committed.nonces && tx.op.nonce != n
    ensures !Serial(s')
  {
    LogExtends(s.log, Entry(tx.op, Enrolled, tx.ticket));
  }

  /** A lone enrollment that missed a nonce ends in a state that is not serial. */
  lemma MissedContinues(s: Sys, id: TxId, tx: Tx, n: Nonce) returns (acts: seq<Action>)
    requires Serial(s) && s.txs == map[id := tx] && GoodRows(s.committed, tx) && Missed(s.committed, tx, n)
    requires !Doomed(s.committed, tx) && (tx.pc != InsertNonce ==> tx.op.nonce in Touched(tx))
    ensures !Serial(RunFrom(s, acts))
  {
    if tx.pc != InsertNonce {
      acts := CommitsAlone(s, id, tx, match tx.pc case UpsertClaim => 3 case InsertNode => 2 case InsertToken => 1 case _ => 0);
      MissedIsNotSerial(s, RunFrom(s, acts), tx, n);
    } else {
      RunsAlone(s, id, tx);
      StatementKeepsRows(s.committed, tx);
      var e := Statement(s.committed, tx);
      if e.Refuse? {
        acts := [Run(id)];
        LogExtends(s.log, Entry(tx.op, NonceUsed, tx.ticket));
        assert RunFrom(s, acts) == Finished(s, id, NonceUsed);
        assert Execute(s.committed, tx.op).1 == Enrolled;
        assert RunFrom(s, acts).log[|s.log|].result == NonceUsed;
      } else {
        var more := CommitsAlone(Next(s, Run(id)), id, e.tx, 3);
        acts := [Run(id)] + more;
        RunFromThen(s, [Run(id)], more);
        MissedIsNotSerial(s, RunFrom(s, acts), tx, n);
      }
    }
  }

  /** The enrollment that overtakes a commit has missed the nonce which the commit records. */
  lemma OvertakerMisses(t: Tables, o: Tx, tx: Tx)
    requires Good(t, tx) && Good(t, o) && o.pc.Finish? && o.op.mac != tx.op.mac && Touched(o) !! Touched(tx)
    requires Overtaken(Overlay(t, o.writes), o, tx)
    ensures Missed(Overlay(t, o.writes), tx, o.op.nonce) && GoodRows(Overlay(t, o.writes), tx)
    ensures tx.pc != InsertNonce ==> tx.op.nonce in Touched(tx)
  {
    CommitKeepsRows(t, o, tx);
  }

  /** From a serial state, every overtaken commit has a continuation that is not serial. */
  lemma OvertakenContinues(s: Sys, a: Action) returns (more: seq<Action>)
    requires Exclusive(s) && AllGood(s) && Serial(s) && !PromptStep(s, a)
    ensures !Serial(RunFrom(Next(s, a), more))
  {
    var o := s.txs[a.id];
    var t := Overlay(s.committed, o.writes);
    var id :| id in s.txs && id != a.id && Overtaken(t, o, s.txs[id]);
    var tx, s1 := s.txs[id], Next(s, a);
    OvertakerMisses(s.committed, o, tx);
    SerialKept(s, a);
    assert s1.committed == t && s1.txs[id] == tx;
    more := MissedByOne(s1, id, o.op.nonce);
  }

  lemma MissedByOne(s: Sys, id: TxId, n: Nonce) returns (acts: seq<Action>)
    requires Serial(s) && id in s.txs && GoodRows(s.committed, s.txs[id]) && Missed(s.committed, s.txs[id], n)
    requires !Doomed(s.committed, s.txs[id]) && (s.txs[id].pc != InsertNonce ==> s.txs[id].op.nonce in Touched(s.txs[id]))
    ensures !Serial(RunFrom(s, acts))
  {
    var aborts := AbortOthers(s, id, s.txs.Keys - {id});
    var rest := MissedContinues(RunFrom(s, aborts), id, s.txs[id], n);
    acts := aborts + rest;
    RunFromThen(s, aborts, rest);
  }

  /** Serial order holds after every continuation only if no commit is overtaken. */
  lemma PromptIsNeeded(clock: int, acts: seq<Action>, a: Action) returns (more: seq<Action>)
    requires Prompt(clock, acts) && !PromptStep(After(clock, acts), a)
    ensures Serial(After(clock, acts)) && !Serial(After(clock, acts + [a] + more))
  {
    Serializable(clock, acts);
    more := OvertakenContinues(After(clock, acts), a);
    RunFromNext(Initial(clock), acts, a);
    RunFromThen(Initial(clock), acts + [a], more);
  }

  // ----- a transaction that nobody disturbs -----

  function StepsLeft(pc: Pc): nat {
    match pc
    case Waiting => 7
    case Select => 6
    case Prune => 5
    case InsertNonce => 4
    case UpsertClaim => 3
    case InsertNode => 2
    case InsertToken => 1
    case Redeem => 3
    case Wipe => 1
    case InsertRotated => 2
    case ExtendClaim => 1
    case DeleteTokens => 2
    case DeleteClaim => 1
    case Finish(_) => 0
  }

  lemma StatementAdvances(t: Tables, tx: Tx)
    requires Fits(tx.op, tx.pc) && !tx.pc.Waiting? && !tx.pc.Finish?
    ensures var e := Statement(t, tx); e.Continue? ==> StepsLeft(e.tx.pc) < StepsLeft(tx.pc) && !e.tx.pc.Waiting? && e.tx.ticket == tx.ticket
  { }

  /** All other open transactions wait for their locks. */
  predicate OthersWait(s: Sys, id: TxId) {
    id in s.txs && forall k | k in s.txs && k != id :: s.txs[k].pc == Waiting && Touched(s.txs[k]) == {}
  }

  /** The state after the call of `id` has run on the committed tables. */
  function Completed(s: Sys, id: TxId, ticket: nat): Sys
    requires id in s.txs
  {
    var op := s.txs[id].op;
    var (t, result) := Execute(s.committed, op);
    s.(committed := t, txs := s.txs - {id}, log := s.log + [Entry(op, result, ticket)])
  }

  /** An undisturbed transaction runs to its end as the serial call. */
  lemma {:induction false} FinishesAlone(s: Sys, id: TxId) returns (acts: seq<Action>)
    requires OthersWait(s, id) && Good(s.committed, s.txs[id]) && !s.txs[id].pc.Waiting?
    ensures RunFrom(s, acts) == Completed(s, id, s.txs[id].ticket)
    decreases StepsLeft(s.txs[id].pc)
  {
    var tx := s.txs[id];
    if tx.pc.Finish? {
      acts := [Commit(id)];
      CommitIsExecute(s.committed, tx);
      assert acts[..0] == [];
    } else {
      StatementKeepsGood(s.committed, tx);
      StatementAdvances(s.committed, tx);
      var s' := Next(s, Run(id));
      assert Enabled(s, Run(id));
      if Statement(s.committed, tx).Refuse? {
        acts := [Run(id)];
        assert acts[..0] == [];
      } else {
        var more := FinishesAlone(s', id);
        acts := [Run(id)] + more;
        RunFromThen(s, [Run(id)], more);
        assert s'.txs - {id} == s.txs - {id};
      }
    }
  }

  lemma CompletesAlone(s: Sys, id: TxId) returns (acts: seq<Action>)
    requires OthersWait(s, id) && s.txs[id].pc == Waiting && s.txs[id].writes == NoWrites
    ensures RunFrom(s, acts) == Completed(s, id, s.tickets).(tickets := s.tickets + 1)
  {
    var s' := Next(s, Lock(id));
    assert Enabled(s, Lock(id));
    var more := FinishesAlone(s', id);
    acts := [Lock(id)] + more;
    RunFromThen(s, [Lock(id)], more);
    assert s'.txs - {id} == s.txs - {id};
  }

  // ----- a nonce enrolls once -----

  ghost predicate EnrolledEntry(e: Entry) {
    e.op.Enroll? && e.result == Enrolled
  }

  /** The record of a redeemed nonce is kept until its expiry has passed. */
  ghost predicate NoncesRecorded(s: Sys) {
    forall i | 0 <= i < |s.log| && EnrolledEntry(s.log[i]) ::
      var op := s.log[i].op;
      s.clock <= op.nonceExpires ==> op.nonce in s.committed.nonces && s.committed.nonces[op.nonce] == op.nonceExpires
  }

  /** Enrollments with one nonce record strictly later expiries for it. */
  ghost predicate NoncesOnce(s: Sys) {
    forall i, j | 0 <= i < j < |s.log| && EnrolledEntry(s.log[i]) && EnrolledEntry(s.log[j])
                  && s.log[i].op.nonce == s.log[j].op.nonce ::
      s.log[i].op.nonceExpires < s.log[j].op.nonceExpires
  }

  /** A refusal enrolls nobody. */
  lemma RefusedEnrollsNobody(t: Tables, tx: Tx)
    requires Fits(tx.op, tx.pc)
    ensures Statement(t, tx).Refuse? ==> Statement(t, tx).result != Enrolled
  { }

  lemma CommitKeepsNoncesOnce(s: Sys, id: TxId, start: int)
    requires NoncesRecorded(s) && NoncesOnce(s) && AllGood(s) && Started(s, start) && Enabled(s, Commit(id))
    requires TimelyStep(s, Commit(id))
    ensures NoncesRecorded(Next(s, Commit(id))) && NoncesOnce(Next(s, Commit(id)))
  {
    CommitIsExecute(s.committed, s.txs[id]);
  }

  lemma NoncesKeptOnce(s: Sys, a: Action, start: int)
    requires NoncesRecorded(s) && NoncesOnce(s) && AllGood(s) && Started(s, start) && TimelyStep(s, a)
    ensures NoncesRecorded(Next(s, a)) && NoncesOnce(Next(s, a))
  {
    if Enabled(s, a) {
      match a {
        case Run(id) => RefusedEnrollsNobody(s.committed, s.txs[id]);
        case Commit(id) => CommitKeepsNoncesOnce(s, id, start);
        case _ =>
      }
    }
  }

  lemma {:induction false} NonceEnrollsOnce(clock: int, acts: seq<Action>)
    requires Timely(clock, acts)
    ensures NoncesRecorded(After(clock, acts)) && NoncesOnce(After(clock, acts))
  {
    if acts != [] {
      var n := |acts| - 1;
      forall i | 0 <= i < n ensures TimelyStep(After(clock, acts[..n][..i]), acts[..n][i]) {
        assert acts[..n][..i] == acts[..i];
      }
      NonceEnrollsOnce(clock, acts[..n]);
      TimelyIsPrompt(clock, acts[..n]);
      Serializable(clock, acts[..n]);
      NoncesKeptOnce(After(clock, acts[..n]), acts[n], clock);
    }
  }
}
