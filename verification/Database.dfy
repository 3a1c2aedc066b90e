/**
 The SQL path of server/internal/db/db.go: each call runs its statements one by
 one on the tables inside a transaction. `faults` names the statements that
 return an error; the transaction is then rolled back.
 */
module Database {
  import opened Common
  import opened Enrollment

  datatype Outcome = Done(result: Result) | StorageError

  /** The statements of the three transactions, in program order. */
  datatype Statement =
    | Begin | LockNode | SelectClaim | PruneNonces | InsertNonce | UpsertClaim | InsertNode | InsertToken
    | RedeemToken | DeleteTokens | DeleteClaim | Commit

  /** The statements that a call executes on given tables when none of them fails. */
  function Executed(t: Tables, op: Op): set<Statement> {
    match op
    case Enroll(mac, now, nonce, _, _, _) =>
      {Begin, LockNode, SelectClaim}
      + (if Claimed(t, mac, now) then {} else {PruneNonces, InsertNonce})
      + (if Execute(t, op).1 == Enrolled then {UpsertClaim, InsertNode, InsertToken, Commit} else {})
    case Rotate(_, _, _, _, _) =>
      {Begin, LockNode, RedeemToken, Commit}
      + (if Execute(t, op).1 == Reused then {DeleteTokens} else {InsertToken, UpsertClaim})
    case Revoke(_, _) => {Begin, LockNode, DeleteTokens, DeleteClaim, Commit}
  }

  class DB {
    var claims: map<Node, int>
    var tokens: set<TokenRow>
    var nonces: map<Nonce, int>
    var nodes: set<Node>

    function View(): Tables
      reads this
    {
      Tables(claims, tokens, nonces, nodes)
    }

    constructor ()
      ensures View() == Empty
    {
      claims, tokens, nonces, nodes := map[], {}, map[], {};
    }

    method Rollback(saved: Tables)
      modifies this
      ensures View() == saved
    {
      claims, tokens, nonces, nodes := saved.claims, saved.tokens, saved.nonces, saved.nodes;
    }

    /** consumeNonce: prunes expired nonces, then inserts this one unless present. */
    method ConsumeNonce(nonce: Nonce, nonceExpires: int, now: int, faults: set<Statement>) returns (isNew: Option<bool>)
      modifies this`nonces
      ensures isNew.None? <==> PruneNonces in faults || InsertNonce in faults
      ensures isNew.Some? ==>
                && isNew.value == !(nonce in old(nonces) && old(nonces)[nonce] >= now)
                && var kept := old(nonces) - ExpiredNonces(old(View()), now);
                   nonces == if isNew.value then kept[nonce := nonceExpires] else kept
    {
      if PruneNonces in faults { return None; }
      nonces := nonces - ExpiredNonces(View(), now);
      if InsertNonce in faults { return None; }
      if nonce in nonces { return Some(false); }
      nonces := nonces[nonce := nonceExpires];
      return Some(true);
    }

    method EnrollNode(mac: Node, nonce: Nonce, nonceExpires: int, token: Token, expires: int, now: int, faults: set<Statement>)
      returns (r: Outcome)
      modifies this
      ensures r == Done(Enrolled) ==> faults !! {Begin, LockNode, SelectClaim, PruneNonces, InsertNonce, UpsertClaim, InsertNode, InsertToken, Commit}
      ensures r == Done(NonceUsed) ==> faults !! {Begin, LockNode, SelectClaim, PruneNonces, InsertNonce}
      ensures r == Done(AlreadyEnrolled) ==> faults !! {Begin, LockNode, SelectClaim}
      ensures faults !! {Begin, LockNode, SelectClaim, PruneNonces, InsertNonce, UpsertClaim, InsertNode, InsertToken, Commit} ==> r.Done?
      ensures r.Done? <==> faults !! Executed(old(View()), Enroll(mac, now, nonce, nonceExpires, token, expires))
      ensures r.Done? ==> (View(), r.result) == Execute(old(View()), Enroll(mac, now, nonce, nonceExpires, token, expires))
      ensures r.StorageError? ==> View() == old(View())
    {
      if Begin in faults || LockNode in faults || SelectClaim in faults { return StorageError; }
      var saved := View();
      if Claimed(View(), mac, now) { return Done(AlreadyEnrolled); }
      var isNew := ConsumeNonce(nonce, nonceExpires, now, faults);
      if isNew.None? {
        Rollback(saved);
        return StorageError;
      }
      if !isNew.value {
        Rollback(saved);
        return Done(NonceUsed);
      }
      if UpsertClaim in faults {
        Rollback(saved);
        return StorageError;
      }
      claims := claims[mac := expires];
      if InsertNode in faults {
        Rollback(saved);
        return StorageError;
      }
      nodes := nodes + {mac};
      if InsertToken in faults {
        Rollback(saved);
        return StorageError;
      }
      tokens := tokens + {TokenRow(mac, token, expires)};
      if Commit in faults {
        Rollback(saved);
        return StorageError;
      }
      return Done(Enrolled);
    }

    method RotateRefreshToken(mac: Node, presented: Token, token: Token, expires: int, now: int, faults: set<Statement>)
      returns (r: Outcome)
      modifies this
      ensures r == Done(Rotated) ==> faults !! {Begin, LockNode, RedeemToken, InsertToken, UpsertClaim, Commit}
      ensures r == Done(Reused) ==> faults !! {Begin, LockNode, RedeemToken, DeleteTokens, Commit}
      ensures faults !! {Begin, LockNode, RedeemToken, InsertToken, UpsertClaim, DeleteTokens, Commit} ==> r.Done?
      ensures r.Done? <==> faults !! Executed(old(View()), Rotate(mac, now, presented, token, expires))
      ensures r.Done? ==> (View(), r.result) == Execute(old(View()), Rotate(mac, now, presented, token, expires))
      ensures r.StorageError? ==> View() == old(View())
    {
      if Begin in faults || LockNode in faults || RedeemToken in faults { return StorageError; }
      var saved := View();
      var redeemed := Redeemable(View(), mac, presented, now);
      tokens := tokens - redeemed;
      if redeemed == {} {
        assert View() == saved;
        if DeleteTokens in faults {
          Rollback(saved);
          return StorageError;
        }
        tokens := tokens - RowsOf(View(), mac);
        if Commit in faults {
          Rollback(saved);
          return StorageError;
        }
        return Done(Reused);
      }
      if InsertToken in faults {
        Rollback(saved);
        return StorageError;
      }
      tokens := tokens + {TokenRow(mac, token, expires)};
      if UpsertClaim in faults {
        Rollback(saved);
        return StorageError;
      }
      claims := claims[mac := Extended(View(), mac, expires)];
      if Commit in faults {
        Rollback(saved);
        return StorageError;
      }
      return Done(Rotated);
    }

    method RevokeEnrollment(mac: Node, now: int, faults: set<Statement>) returns (r: Outcome)
      modifies this
      ensures r.Done? <==> faults !! {Begin, LockNode, DeleteTokens, DeleteClaim, Commit}
      ensures r.Done? <==> faults !! Executed(old(View()), Revoke(mac, now))
      ensures r.Done? ==> (View(), r.result) == Execute(old(View()), Revoke(mac, now))
      ensures r.StorageError? ==> View() == old(View())
    {
      if Begin in faults || LockNode in faults || DeleteTokens in faults { return StorageError; }
      var saved := View();
      tokens := tokens - RowsOf(View(), mac);
      if DeleteClaim in faults {
        Rollback(saved);
        return StorageError;
      }
      claims := claims - {mac};
      if Commit in faults {
        Rollback(saved);
        return StorageError;
      }
      return Done(Revoked);
    }
  }
}
