/**
 The enrollment tables (claims, refresh tokens, registration nonces, nodes) and
 what one committed transaction of server/internal/db does to them.

 A refresh token stands for its own SHA-256 hash, which is taken to be
 injective. The rows of refresh_tokens form a set: every statement selects rows
 by a condition and only asks whether any row matched.
 */
module Enrollment {
  import opened Common

  type Node = string
  type Nonce = string

  /** A signed refresh token; `exp` is its "exp" claim, in whole seconds. */
  datatype Token = Token(sub: Node, jti: nat, exp: int)

  datatype TokenRow = TokenRow(mac: Node, token: Token, expires: int)

  datatype Tables = Tables(
    claims: map<Node, int>,
    tokens: set<TokenRow>,
    nonces: map<Nonce, int>,
    nodes: set<Node>)

  const Empty: Tables := Tables(map[], {}, map[], {})

  /** One call; `now` is the CURRENT_TIMESTAMP of its transaction. */
  datatype Op =
    | Enroll(mac: Node, now: int, nonce: Nonce, nonceExpires: int, token: Token, expires: int)
    | Rotate(mac: Node, now: int, presented: Token, token: Token, expires: int)
    | Revoke(mac: Node, now: int)

  datatype Result = Enrolled | AlreadyEnrolled | NonceUsed | Rotated | Reused | Revoked

  // ----- the statements -----

  /** SELECT EXISTS(... node_enrollments WHERE mac_address AND expires_at > now) */
  predicate Claimed(t: Tables, mac: Node, now: int) {
    mac in t.claims && t.claims[mac] > now
  }

  /** The nonce rows that DELETE ... WHERE expires_at < now selects. */
  function ExpiredNonces(t: Tables, now: int): set<Nonce> {
    set n | n in t.nonces && t.nonces[n] < now
  }

  /** The token rows of one node. */
  function RowsOf(t: Tables, mac: Node): set<TokenRow> {
    set r | r in t.tokens && r.mac == mac
  }

  /** The unexpired rows holding one token of a node. */
  function Redeemable(t: Tables, mac: Node, token: Token, now: int): set<TokenRow> {
    set r | r in t.tokens && r.mac == mac && r.token == token && r.expires > now
  }

  /** The claim after INSERT ... ON CONFLICT DO UPDATE SET expires_at = GREATEST(...) */
  function Extended(t: Tables, mac: Node, expires: int): int {
    if mac in t.claims then Max(t.claims[mac], expires) else expires
  }

  // ----- the transactions -----

  function Execute(t: Tables, op: Op): (Tables, Result) {
    match op
    case Enroll(mac, now, nonce, nonceExpires, token, expires) =>
      if Claimed(t, mac, now) then (t, AlreadyEnrolled)
      else if nonce in t.nonces && nonce !in ExpiredNonces(t, now) then (t, NonceUsed)
      else
        (Tables(t.claims[mac := expires],
                t.tokens + {TokenRow(mac, token, expires)},
                (t.nonces - ExpiredNonces(t, now))[nonce := nonceExpires],
                t.nodes + {mac}), Enrolled)
    case Rotate(mac, now, presented, token, expires) =>
      if Redeemable(t, mac, presented, now) == {} then
        (t.(tokens := t.tokens - RowsOf(t, mac)), Reused)
      else
        (t.(tokens := t.tokens - Redeemable(t, mac, presented, now) + {TokenRow(mac, token, expires)},
            claims := t.claims[mac := Extended(t, mac, expires)]), Rotated)
    case Revoke(mac, now) =>
      (t.(tokens := t.tokens - RowsOf(t, mac), claims := t.claims - {mac}), Revoked)
  }

  /** Two table states agree on the rows of one node. */
  ghost predicate SameNode(t: Tables, t': Tables, mac: Node) {
    && (mac in t.claims <==> mac in t'.claims)
    && (mac in t.claims ==> t.claims[mac] == t'.claims[mac])
    && (forall r: TokenRow | r.mac == mac :: r in t.tokens <==> r in t'.tokens)
  }

  /** A call changes the claim and the tokens of its own node only. */
  lemma ExecuteElsewhere(t: Tables, op: Op, mac: Node)
    requires op.mac != mac
    ensures SameNode(t, Execute(t, op).0, mac)
  { }

  // ----- serial runs -----

  function Replay(t: Tables, ops: seq<Op>): Tables {
    if ops == [] then t else Execute(Replay(t, ops[..|ops| - 1]), ops[|ops| - 1]).0
  }

  /** The tables just before the i-th operation of a run. */
  function Before(t: Tables, ops: seq<Op>, i: nat): Tables
    requires i <= |ops|
  {
    Replay(t, ops[..i])
  }

  function ResultAt(t: Tables, ops: seq<Op>, i: nat): Result
    requires i < |ops|
  {
    Execute(Before(t, ops, i), ops[i]).1
  }

  lemma BeforeNext(t: Tables, ops: seq<Op>, i: nat)
    requires i < |ops|
    ensures Before(t, ops, i + 1) == Execute(Before(t, ops, i), ops[i]).0
  {
    assert ops[..i + 1][..i] == ops[..i];
  }

  /** One more operation leaves the earlier answers as they were. */
  lemma Appended(t: Tables, ops: seq<Op>, op: Op)
    ensures Replay(t, ops + [op]) == Execute(Replay(t, ops), op).0
    ensures ResultAt(t, ops + [op], |ops|) == Execute(Replay(t, ops), op).1
    ensures forall i | 0 <= i < |ops| :: ResultAt(t, ops + [op], i) == ResultAt(t, ops, i)
  {
    assert (ops + [op])[..|ops|] == ops;
    forall i | 0 <= i < |ops| ensures (ops + [op])[..i] == ops[..i] { }
  }
}
