/**
 Statement-level interleavings of enroll, rotate and revoke transactions.

 Every transaction reads the committed tables plus its own writes (READ
 COMMITTED) and works under the advisory lock of its node. The nonce table is
 shared by all nodes: a statement that needs a nonce row which another open
 transaction has deleted or inserted waits for that transaction.
 */
module Transactions {
  import opened Enrollment

  type TxId = nat

  /** The uncommitted writes of one transaction. */
  datatype Writes = Writes(
    unclaimed: set<Node>, claims: map<Node, int>,
    dropped: set<TokenRow>, added: set<TokenRow>,
    pruned: set<Nonce>, nonces: map<Nonce, int>,
    nodes: set<Node>)

  const NoWrites: Writes := Writes({}, map[], {}, {}, {}, map[], {})

  function Overlay(t: Tables, w: Writes): Tables {
    Tables(t.claims - w.unclaimed + w.claims,
           t.tokens - w.dropped + w.added,
           t.nonces - w.pruned + w.nonces,
           t.nodes + w.nodes)
  }

  function DropTokens(w: Writes, rows: set<TokenRow>): Writes {
    w.(dropped := w.dropped + rows, added := w.added - rows)
  }

  function DropNonces(w: Writes, keys: set<Nonce>): Writes {
    w.(pruned := w.pruned + keys, nonces := w.nonces - keys)
  }

  /** The statement a transaction executes next; Finish commits. */
  datatype Pc =
    | Waiting
    | Select | Prune | InsertNonce | UpsertClaim | InsertNode | InsertToken
    | Redeem | Wipe | InsertRotated | ExtendClaim
    | DeleteTokens | DeleteClaim
    | Finish(result: Result)

  datatype Tx = Tx(op: Op, pc: Pc, ticket: nat, writes: Writes)

  /** A statement continues the transaction or ends it with a refusal. */
  datatype Effect = Continue(tx: Tx) | Refuse(result: Result)

  function FirstStatement(op: Op): Pc {
    match op
    case Enroll(_, _, _, _, _, _) => Select
    case Rotate(_, _, _, _, _) => Redeem
    case Revoke(_, _) => DeleteTokens
  }

  predicate Fits(op: Op, pc: Pc) {
    match pc
    case Waiting => true
    case Select | Prune | InsertNonce | UpsertClaim | InsertNode | InsertToken => op.Enroll?
    case Redeem | Wipe | InsertRotated | ExtendClaim => op.Rotate?
    case DeleteTokens | DeleteClaim => op.Revoke?
    case Finish(_) => true
  }

  function Statement(t: Tables, tx: Tx): Effect
    requires Fits(tx.op, tx.pc)
  {
    var view, op, w := Overlay(t, tx.writes), tx.op, tx.writes;
    match tx.pc
    case Waiting => Continue(tx)
    case Select =>
      if Claimed(view, op.mac, op.now) then Refuse(AlreadyEnrolled) else Continue(tx.(pc := Prune))
    case Prune =>
      Continue(tx.(pc := InsertNonce, writes := DropNonces(w, ExpiredNonces(view, op.now))))
    case InsertNonce =>
      if op.nonce in view.nonces then Refuse(NonceUsed)
      else Continue(tx.(pc := UpsertClaim, writes := w.(nonces := w.nonces[op.nonce := op.nonceExpires])))
    case UpsertClaim =>
      Continue(tx.(pc := InsertNode, writes := w.(claims := w.claims[op.mac := op.expires])))
    case InsertNode =>
      Continue(tx.(pc := InsertToken, writes := w.(nodes := w.nodes + {op.mac})))
    case InsertToken =>
      Continue(tx.(pc := Finish(Enrolled), writes := w.(added := w.added + {TokenRow(op.mac, op.token, op.expires)})))
    case Redeem =>
      var rows := Redeemable(view, op.mac, op.presented, op.now);
      Continue(tx.(pc := if rows == {} then Wipe else InsertRotated, writes := DropTokens(w, rows)))
    case Wipe =>
      Continue(tx.(pc := Finish(Reused), writes := DropTokens(w, RowsOf(view, op.mac))))
    case InsertRotated =>
      Continue(tx.(pc := ExtendClaim, writes := w.(added := w.added + {TokenRow(op.mac, op.token, op.expires)})))
    case ExtendClaim =>
      Continue(tx.(pc := Finish(Rotated), writes := w.(claims := w.claims[op.mac := Extended(view, op.mac, op.expires)])))
    case DeleteTokens =>
      Continue(tx.(pc := DeleteClaim, writes := DropTokens(w, RowsOf(view, op.mac))))
    case DeleteClaim =>
      Continue(tx.(pc := Finish(Revoked), writes := w.(unclaimed := w.unclaimed + {op.mac}, claims := w.claims - {op.mac})))
    case Finish(_) => Continue(tx)
  }

  // ----- the system -----

  datatype Entry = Entry(op: Op, result: Result, ticket: nat)

  /** `log` lists the finished calls; `tickets` counts lock acquisitions. */
  datatype Sys = Sys(committed: Tables, txs: map<TxId, Tx>, clock: int, tickets: nat, log: seq<Entry>)

  datatype Action =
    | Tick(elapsed: nat)
    | Start(id: TxId, op: Op)
    | Lock(id: TxId)
    | Run(id: TxId)
    | Abort(id: TxId)
    | Commit(id: TxId)

  function Touched(tx: Tx): set<Nonce> {
    tx.writes.pruned + tx.writes.nonces.Keys
  }

  predicate NodeFree(s: Sys, mac: Node) {
    forall id | id in s.txs && s.txs[id].op.mac == mac :: s.txs[id].pc == Waiting
  }

  predicate UntouchedByOthers(s: Sys, id: TxId, keys: set<Nonce>) {
    forall other | other in s.txs && other != id :: Touched(s.txs[other]) !! keys
  }

  /** No other open transaction holds a nonce row that the next statement needs. */
  predicate Unblocked(s: Sys, id: TxId)
    requires id in s.txs
  {
    var tx := s.txs[id];
    && (tx.pc == Prune ==> UntouchedByOthers(s, id, ExpiredNonces(Overlay(s.committed, tx.writes), tx.op.now)))
    && (tx.pc == InsertNonce && tx.op.Enroll? ==> UntouchedByOthers(s, id, {tx.op.nonce}))
  }

  predicate Enabled(s: Sys, a: Action) {
    match a
    case Tick(_) => true
    case Start(id, op) => id !in s.txs && op.now == s.clock
    case Lock(id) => id in s.txs && s.txs[id].pc == Waiting && NodeFree(s, s.txs[id].op.mac)
    case Run(id) => id in s.txs && !s.txs[id].pc.Waiting? && !s.txs[id].pc.Finish?
                    && Fits(s.txs[id].op, s.txs[id].pc) && Unblocked(s, id)
    case Abort(id) => id in s.txs
    case Commit(id) => id in s.txs && s.txs[id].pc.Finish?
  }

  function Finished(s: Sys, id: TxId, result: Result): Sys
    requires id in s.txs
  {
    s.(txs := s.txs - {id}, log := s.log + [Entry(s.txs[id].op, result, s.txs[id].ticket)])
  }

  /** One step; an action that is not enabled changes nothing. */
  function Next(s: Sys, a: Action): Sys {
    if !Enabled(s, a) then s else
    match a
    case Tick(elapsed) => s.(clock := s.clock + elapsed)
    case Start(id, op) => s.(txs := s.txs[id := Tx(op, Waiting, 0, NoWrites)])
    case Lock(id) =>
      s.(txs := s.txs[id := s.txs[id].(pc := FirstStatement(s.txs[id].op), ticket := s.tickets)], tickets := s.tickets + 1)
    case Run(id) =>
      (match Statement(s.committed, s.txs[id])
       case Continue(tx) => s.(txs := s.txs[id := tx])
       case Refuse(result) => Finished(s, id, result))
    case Abort(id) => s.(txs := s.txs - {id})
    case Commit(id) =>
      Finished(s, id, s.txs[id].pc.result).(committed := Overlay(s.committed, s.txs[id].writes))
  }

  function Initial(clock: int): Sys {
    Sys(Empty, map[], clock, 0, [])
  }

  function RunFrom(s: Sys, acts: seq<Action>): Sys {
    if acts == [] then s else Next(RunFrom(s, acts[..|acts| - 1]), acts[|acts| - 1])
  }

  function After(clock: int, acts: seq<Action>): Sys {
    RunFrom(Initial(clock), acts)
  }

  lemma RunFromNext(s: Sys, acts: seq<Action>, a: Action)
    ensures RunFrom(s, acts + [a]) == Next(RunFrom(s, acts), a)
  {
    assert (acts + [a])[..|acts|] == acts;
  }

  lemma {:induction false} RunFromThen(s: Sys, acts: seq<Action>, more: seq<Action>)
    ensures RunFrom(s, acts + more) == RunFrom(RunFrom(s, acts), more)
  {
    if more == [] {
      assert acts + more == acts;
    } else {
      var n := |more| - 1;
      assert (acts + more)[..|acts| + n] == acts + more[..n];
      RunFromThen(s, acts, more[..n]);
    }
  }

  /** The transaction is an enrollment that has executed its nonce pruning. */
  predicate HasPruned(tx: Tx) {
    tx.op.Enroll? && tx.pc != Waiting && tx.pc != Select && tx.pc != Prune
  }

  /** The transaction is about to be refused: its nonce has an unexpired record. */
  predicate Doomed(t: Tables, tx: Tx) {
    tx.op.Enroll? && tx.pc == InsertNonce && tx.op.nonce in t.nonces && tx.op.now <= t.nonces[tx.op.nonce]
  }

  /**
   Enrollment `o`, whose commit leads to tables `t`, records a nonce which the
   open enrollment `tx`, had it not pruned already, would prune.
   */
  predicate Overtaken(t: Tables, o: Tx, tx: Tx) {
    o.op.Enroll? && HasPruned(tx) && o.op.nonceExpires < tx.op.now && !Doomed(t, tx)
  }

  /** No commit is overtaken by an open enrollment. */
  predicate PromptStep(s: Sys, a: Action) {
    a.Commit? && Enabled(s, a) ==>
      var t := Overlay(s.committed, s.txs[a.id].writes);
      forall id | id in s.txs && id != a.id :: !Overtaken(t, s.txs[a.id], s.txs[id])
  }

  ghost predicate Prompt(clock: int, acts: seq<Action>) {
    forall i | 0 <= i < |acts| :: PromptStep(After(clock, acts[..i]), acts[i])
  }

  /** An enrollment commits no later than the expiry it records for its nonce. */
  predicate TimelyStep(s: Sys, a: Action) {
    a.Commit? && Enabled(s, a) && s.txs[a.id].op.Enroll? ==> s.clock <= s.txs[a.id].op.nonceExpires
  }

  ghost predicate Timely(clock: int, acts: seq<Action>) {
    forall i | 0 <= i < |acts| :: TimelyStep(After(clock, acts[..i]), acts[i])
  }

  function Ops(log: seq<Entry>): seq<Op> {
    seq(|log|, i requires 0 <= i < |log| => log[i].op)
  }
}
