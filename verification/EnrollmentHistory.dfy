/**
 What every serial run of enroll, rotate and revoke keeps. A run is a sequence
 of operations in lock order; `Before(t, ops, i)` is the table state it reaches.
 */
module EnrollmentHistory {
  import opened Common
  import opened Enrollment

  /** The transaction times of one node never go back in lock order. */
  ghost predicate Monotone(ops: seq<Op>) {
    forall i, j | 0 <= i < j < |ops| && ops[i].mac == ops[j].mac :: ops[i].now <= ops[j].now
  }

  /** Every token handed out by a run is a new one. */
  ghost predicate Fresh(ops: seq<Op>) {
    forall i, j | 0 <= i < j < |ops| && !ops[i].Revoke? && !ops[j].Revoke? :: ops[i].token != ops[j].token
  }

  /** The first i operations on `mac` all ran between `start` and `now`. */
  ghost predicate Within(ops: seq<Op>, i: nat, mac: Node, start: int, now: int)
    requires i <= |ops|
  {
    start <= now && forall k | 0 <= k < i && ops[k].mac == mac :: start <= ops[k].now <= now
  }

  /** Operation k handed out a token of `mac`. */
  ghost predicate Grants(t: Tables, ops: seq<Op>, k: int, mac: Node) {
    0 <= k < |ops| && ops[k].mac == mac && !ops[k].Revoke? && ResultAt(t, ops, k) in {Enrolled, Rotated}
  }

  /** Every token handed out to the node outlives the start of the transaction that stores it. */
  ghost predicate Outliving(t: Tables, ops: seq<Op>, mac: Node) {
    forall k | Grants(t, ops, k, mac) :: ops[k].now <= ops[k].expires
  }

  ghost predicate EnrollsAt(t: Tables, ops: seq<Op>, k: int, mac: Node) {
    0 <= k < |ops| && ops[k].mac == mac && ops[k].Enroll? && ResultAt(t, ops, k) == Enrolled
  }

  ghost predicate RevokesAt(ops: seq<Op>, k: int, mac: Node) {
    0 <= k < |ops| && ops[k].mac == mac && ops[k].Revoke?
  }

  ghost predicate NoneRevoked(ops: seq<Op>, i: int, j: int, mac: Node) {
    forall k | i <= k < j :: !RevokesAt(ops, k, mac)
  }

  // ----- what one operation may add -----

  lemma ClaimStep(t: Tables, op: Op, mac: Node)
    requires mac in Execute(t, op).0.claims
    ensures || (mac in t.claims && Execute(t, op).0.claims[mac] == t.claims[mac] && !(op.Revoke? && op.mac == mac))
            || (op.mac == mac && !op.Revoke? && Execute(t, op).1 in {Enrolled, Rotated}
                && Execute(t, op).0.claims[mac] == op.expires)
  { }

  lemma TokenStep(t: Tables, op: Op, r: TokenRow)
    requires r in Execute(t, op).0.tokens && r !in t.tokens
    ensures !op.Revoke? && Execute(t, op).1 in {Enrolled, Rotated} && r == TokenRow(op.mac, op.token, op.expires)
  { }

  lemma RotationRedeems(t: Tables, op: Op) returns (r: TokenRow)
    requires op.Rotate? && Execute(t, op).1 == Rotated
    ensures r in t.tokens && r.mac == op.mac && r.token == op.presented && r.expires > op.now
  {
    r :| r in Redeemable(t, op.mac, op.presented, op.now);
  }

  // ----- the claim covers the tokens, and one token is live -----

  /** Every token row that is unexpired at `now` is outlived by its node's claim. */
  ghost predicate Covered(t: Tables, mac: Node, now: int) {
    forall r | r in t.tokens && r.mac == mac && r.expires > now :: mac in t.claims && r.expires <= t.claims[mac]
  }

  ghost predicate Single(t: Tables, mac: Node, now: int) {
    forall r, s | r in t.tokens && s in t.tokens && r.mac == mac == s.mac && r.expires > now && s.expires > now :: r == s
  }

  /** Every token row, expired or not, is outlived by its node's claim. */
  ghost predicate FullyCovered(t: Tables, mac: Node) {
    forall r | r in t.tokens && r.mac == mac :: mac in t.claims && r.expires <= t.claims[mac]
  }

  lemma SingleStep(t: Tables, op: Op)
    requires Covered(t, op.mac, op.now) && Single(t, op.mac, op.now)
    ensures Single(Execute(t, op).0, op.mac, op.now)
  { }

  lemma CoverageStep(t: Tables, op: Op, mac: Node, now: int)
    requires Covered(t, mac, if op.mac == mac then op.now else now) && (op.mac == mac ==> op.now <= now)
    ensures Covered(Execute(t, op).0, mac, now)
  { }

  lemma {:induction false} CoverageKept(t: Tables, ops: seq<Op>, i: nat, mac: Node, start: int, now: int)
    requires i <= |ops| && Monotone(ops) && Within(ops, i, mac, start, now)
    requires Covered(t, mac, start)
    ensures Covered(Before(t, ops, i), mac, now)
  {
    if i > 0 {
      BeforeNext(t, ops, i - 1);
      var op := ops[i - 1];
      CoverageKept(t, ops, i - 1, mac, start, if op.mac == mac then op.now else now);
      CoverageStep(Before(t, ops, i - 1), op, mac, now);
    }
  }

  lemma {:induction false} OneLiveToken(t: Tables, ops: seq<Op>, i: nat, mac: Node, start: int, now: int)
    requires i <= |ops| && Monotone(ops) && Within(ops, i, mac, start, now)
    requires Covered(t, mac, start) && Single(t, mac, start)
    ensures Covered(Before(t, ops, i), mac, now) && Single(Before(t, ops, i), mac, now)
  {
    CoverageKept(t, ops, i, mac, start, now);
    if i > 0 {
      BeforeNext(t, ops, i - 1);
      var op := ops[i - 1];
      OneLiveToken(t, ops, i - 1, mac, start, if op.mac == mac then op.now else now);
      if op.mac == mac {
        SingleStep(Before(t, ops, i - 1), op);
      } else {
        ExecuteElsewhere(Before(t, ops, i - 1), op, mac);
      }
    }
  }

  /** With outliving tokens no order of times is needed, and expired rows are covered too. */
  lemma {:induction false} FullCoverageKept(t: Tables, ops: seq<Op>, i: nat, mac: Node)
    requires i <= |ops| && Outliving(t, ops, mac) && FullyCovered(t, mac)
    ensures FullyCovered(Before(t, ops, i), mac)
  {
    if i > 0 {
      BeforeNext(t, ops, i - 1);
      FullCoverageKept(t, ops, i - 1, mac);
      assert Grants(t, ops, i - 1, mac) ==> ops[i - 1].now <= ops[i - 1].expires;
    }
  }

  /** The same for the rows that are unexpired at some fixed time. */
  lemma {:induction false} CoverageKeptByOutliving(t: Tables, ops: seq<Op>, i: nat, mac: Node, start: int)
    requires i <= |ops| && Outliving(t, ops, mac) && Covered(t, mac, start)
    ensures Covered(Before(t, ops, i), mac, start)
  {
    if i > 0 {
      BeforeNext(t, ops, i - 1);
      CoverageKeptByOutliving(t, ops, i - 1, mac, start);
      assert Grants(t, ops, i - 1, mac) ==> ops[i - 1].now <= ops[i - 1].expires;
    }
  }

  /** refresh_tokens references nodes: every token row belongs to a known node. */
  lemma {:induction false} TokensReferenceNodes(ops: seq<Op>, i: nat)
    requires i <= |ops|
    ensures forall r | r in Before(Empty, ops, i).tokens :: r.mac in Before(Empty, ops, i).nodes
  {
    if i > 0 {
      BeforeNext(Empty, ops, i - 1);
      TokensReferenceNodes(ops, i - 1);
    }
  }

  // ----- when a nonce is refused -----

  /** Operation k redeemed the nonce. */
  ghost predicate Redeems(ops: seq<Op>, k: int, nonce: Nonce) {
    0 <= k < |ops| && EnrollsAt(Empty, ops, k, ops[k].mac) && ops[k].nonce == nonce
  }

  lemma {:induction false} NonceOrigin(ops: seq<Op>, i: nat, nonce: Nonce) returns (k: nat)
    requires i <= |ops| && nonce in Before(Empty, ops, i).nonces
    ensures k < i && Redeems(ops, k, nonce) && ops[k].nonceExpires == Before(Empty, ops, i).nonces[nonce]
  {
    BeforeNext(Empty, ops, i - 1);
    var t := Before(Empty, ops, i - 1);
    if nonce in t.nonces && t.nonces[nonce] == Before(Empty, ops, i).nonces[nonce] {
      k := NonceOrigin(ops, i - 1, nonce);
    } else {
      k := i - 1;
    }
  }

  lemma {:induction false} NoncePersists(ops: seq<Op>, k: nat, j: nat)
    requires k < j <= |ops| && Redeems(ops, k, if ops[k].Enroll? then ops[k].nonce else "")
    requires forall x | k < x < j && ops[x].Enroll? :: ops[x].now <= ops[k].nonceExpires
    ensures var t := Before(Empty, ops, j);
            ops[k].nonce in t.nonces && t.nonces[ops[k].nonce] == ops[k].nonceExpires
  {
    BeforeNext(Empty, ops, j - 1);
    if k < j - 1 {
      NoncePersists(ops, k, j - 1);
    }
  }

  /** An unclaimed node's enrollment is refused exactly while its nonce has an earlier unexpired redemption. */
  lemma NonceRefusedIff(ops: seq<Op>, j: nat)
    requires j < |ops| && ops[j].Enroll? && !Claimed(Before(Empty, ops, j), ops[j].mac, ops[j].now)
    requires forall x | 0 <= x < j && ops[x].Enroll? :: ops[x].now <= ops[j].now
    ensures ResultAt(Empty, ops, j) == NonceUsed <==>
            exists k :: 0 <= k < j && Redeems(ops, k, ops[j].nonce) && ops[k].nonceExpires >= ops[j].now
  {
    var t, n := Before(Empty, ops, j), ops[j].nonce;
    if n in t.nonces && t.nonces[n] >= ops[j].now {
      var k := NonceOrigin(ops, j, n);
    }
    forall k | 0 <= k < j && Redeems(ops, k, n) && ops[k].nonceExpires >= ops[j].now
      ensures n in t.nonces && t.nonces[n] >= ops[j].now
    {
      NoncePersists(ops, k, j);
    }
  }

  // ----- when an enrollment is refused -----

  /** No enrollment starts after `now` and claims the node for a time before it. */
  ghost predicate Lingers(t: Tables, ops: seq<Op>, i: int, j: int, mac: Node, now: int) {
    forall k | i <= k < j && EnrollsAt(t, ops, k, mac) :: ops[k].now <= now || ops[k].expires > now
  }

  lemma OutlivingLingers(t: Tables, ops: seq<Op>, i: int, j: int, mac: Node, now: int)
    requires Outliving(t, ops, mac)
    ensures Lingers(t, ops, i, j, mac, now)
  {
    forall k | i <= k < j && EnrollsAt(t, ops, k, mac) ensures ops[k].now <= now || ops[k].expires > now {
      assert Grants(t, ops, k, mac);
    }
  }

  lemma ClaimStays(t: Tables, op: Op, mac: Node, now: int)
    requires Claimed(t, mac, now) && !(op.Revoke? && op.mac == mac)
    requires op.Enroll? && op.mac == mac && Execute(t, op).1 == Enrolled ==> op.now <= now || op.expires > now
    ensures Claimed(Execute(t, op).0, mac, now)
  { }

  /** A live claim survives everything but a revocation. */
  lemma {:induction false} ClaimPersists(t: Tables, ops: seq<Op>, i: nat, j: nat, mac: Node, now: int)
    requires i <= j <= |ops| && NoneRevoked(ops, i, j, mac) && Lingers(t, ops, i, j, mac, now)
    requires Claimed(Before(t, ops, i), mac, now)
    ensures Claimed(Before(t, ops, j), mac, now)
  {
    if i < j {
      ClaimPersists(t, ops, i, j - 1, mac, now);
      BeforeNext(t, ops, j - 1);
      assert !RevokesAt(ops, j - 1, mac);
      assert EnrollsAt(t, ops, j - 1, mac) ==> ops[j - 1].now <= now || ops[j - 1].expires > now;
      ClaimStays(Before(t, ops, j - 1), ops[j - 1], mac, now);
    }
  }

  /** A claim is the expiry set by some enrollment or rotation not revoked since. */
  lemma {:induction false} ClaimOrigin(ops: seq<Op>, i: nat, mac: Node) returns (k: nat)
    requires i <= |ops| && mac in Before(Empty, ops, i).claims
    ensures k < i && Grants(Empty, ops, k, mac) && NoneRevoked(ops, k, i, mac)
    ensures ops[k].expires == Before(Empty, ops, i).claims[mac]
  {
    BeforeNext(Empty, ops, i - 1);
    ClaimStep(Before(Empty, ops, i - 1), ops[i - 1], mac);
    if Grants(Empty, ops, i - 1, mac) && ops[i - 1].expires == Before(Empty, ops, i).claims[mac] {
      k := i - 1;
    } else {
      k := ClaimOrigin(ops, i - 1, mac);
      assert !RevokesAt(ops, i - 1, mac);
    }
  }

  /** Operation k set an expiry of the node that lies after `now`, and the node was not revoked from then to j. */
  ghost predicate Stands(ops: seq<Op>, k: int, j: int, mac: Node, now: int) {
    0 <= k < j && Grants(Empty, ops, k, mac) && ops[k].expires > now && NoneRevoked(ops, k, j, mac)
  }

  /** A node is claimed exactly while some grant stands. */
  lemma ClaimedIffStands(ops: seq<Op>, j: nat, mac: Node, now: int)
    requires j <= |ops| && Lingers(Empty, ops, 0, j, mac, now)
    ensures Claimed(Before(Empty, ops, j), mac, now) <==> exists k :: Stands(ops, k, j, mac, now)
  {
    if Claimed(Before(Empty, ops, j), mac, now) {
      var k := ClaimOrigin(ops, j, mac);
      assert Stands(ops, k, j, mac, now);
    }
    forall k | Stands(ops, k, j, mac, now) ensures Claimed(Before(Empty, ops, j), mac, now) {
      BeforeNext(Empty, ops, k);
      ClaimPersists(Empty, ops, k + 1, j, mac, now);
    }
  }

  /**
   An enrollment is refused as "already enrolled" exactly when some earlier
   enrollment or rotation of the node set an expiry that has not passed and the
   node was not revoked since.
   */
  lemma EnrollRefusedIff(ops: seq<Op>, j: nat)
    requires j < |ops| && ops[j].Enroll? && Outliving(Empty, ops, ops[j].mac)
    ensures ResultAt(Empty, ops, j) == AlreadyEnrolled <==> exists k :: Stands(ops, k, j, ops[j].mac, ops[j].now)
  {
    OutlivingLingers(Empty, ops, 0, j, ops[j].mac, ops[j].now);
    ClaimedIffStands(ops, j, ops[j].mac, ops[j].now);
  }

  /**
   Two enrollments of one node are separated by a revocation or by the passing
   of every expiry set from the first one up to the second.
   */
  lemma EnrollmentsSeparated(ops: seq<Op>, i: nat, j: nat, k: nat, mac: Node)
    requires Outliving(Empty, ops, mac) && i <= k < j
    requires EnrollsAt(Empty, ops, i, mac) && EnrollsAt(Empty, ops, j, mac)
    requires Grants(Empty, ops, k, mac)
    ensures !NoneRevoked(ops, i, j, mac) || ops[k].expires <= ops[j].now
  {
    EnrollRefusedIff(ops, j);
    assert !Stands(ops, k, j, mac, ops[j].now);
  }

  // ----- where a live token comes from -----

  lemma NewRow(ops: seq<Op>, i: nat, r: TokenRow)
    requires i < |ops| && r in Before(Empty, ops, i + 1).tokens && r !in Before(Empty, ops, i).tokens
    ensures Grants(Empty, ops, i, r.mac) && r == TokenRow(ops[i].mac, ops[i].token, ops[i].expires)
  {
    BeforeNext(Empty, ops, i);
    TokenStep(Before(Empty, ops, i), ops[i], r);
  }

  /** Every stored row was handed out by an earlier operation of the run. */
  lemma {:induction false} RowOrigin(ops: seq<Op>, i: nat, r: TokenRow) returns (k: nat)
    requires i <= |ops| && r in Before(Empty, ops, i).tokens
    ensures k < i && Grants(Empty, ops, k, r.mac) && ops[k].token == r.token && ops[k].expires == r.expires
  {
    if r in Before(Empty, ops, i - 1).tokens {
      k := RowOrigin(ops, i - 1, r);
    } else {
      NewRow(ops, i - 1, r);
      k := i - 1;
    }
  }

  // ----- redemption and reuse -----

  lemma RedemptionRemoves(t: Tables, op: Op, r: TokenRow)
    requires op.Rotate? && Execute(t, op).1 == Rotated && op.token != op.presented
    requires r in Execute(t, op).0.tokens && r.mac == op.mac && r.token == op.presented
    ensures r.expires <= op.now
  { }

  /** No operation from i on hands out the token that operation i redeemed. */
  lemma RedeemedIsOld(ops: seq<Op>, i: nat, j: nat)
    requires i <= j < |ops| && Fresh(ops) && !ops[j].Revoke?
    requires ops[i].Rotate? && ResultAt(Empty, ops, i) == Rotated
    ensures ops[j].token != ops[i].presented
  {
    var r := RotationRedeems(Before(Empty, ops, i), ops[i]);
    var k := RowOrigin(ops, i, r);
  }

  /** Once redeemed, a token has no live row again. */
  lemma {:induction false} RedeemedIsSpent(ops: seq<Op>, i: nat, j: nat, r: TokenRow)
    requires i < j <= |ops| && Fresh(ops)
    requires ops[i].Rotate? && ResultAt(Empty, ops, i) == Rotated
    requires r in Before(Empty, ops, j).tokens && r.mac == ops[i].mac && r.token == ops[i].presented
    ensures r.expires <= ops[i].now
  {
    if i == j - 1 {
      BeforeNext(Empty, ops, i);
      RedeemedIsOld(ops, i, i);
      RedemptionRemoves(Before(Empty, ops, i), ops[i], r);
    } else {
      SpentRowIsOlder(ops, i, j - 1, r);
      RedeemedIsSpent(ops, i, j - 1, r);
    }
  }

  lemma SpentRowIsOlder(ops: seq<Op>, i: nat, j: nat, r: TokenRow)
    requires i < j < |ops| && Fresh(ops) && ops[i].Rotate? && ResultAt(Empty, ops, i) == Rotated
    requires r in Before(Empty, ops, j + 1).tokens && r.token == ops[i].presented
    ensures r in Before(Empty, ops, j).tokens
  {
    if r !in Before(Empty, ops, j).tokens {
      NewRow(ops, j, r);
      RedeemedIsOld(ops, i, j);
    }
  }

  /** However the requests were timed, a token is redeemed once: fresh tokens have one row, and that row is gone. */
  lemma RedeemedAtMostOnce(ops: seq<Op>, i: nat, j: nat)
    requires i < j < |ops| && Fresh(ops)
    requires ops[i].Rotate? && ops[j].Rotate? && ops[i].mac == ops[j].mac && ops[i].presented == ops[j].presented
    requires ResultAt(Empty, ops, i) == Rotated
    ensures ResultAt(Empty, ops, j) == Reused
  {
    if r :| r in Redeemable(Before(Empty, ops, j), ops[j].mac, ops[j].presented, ops[j].now) {
      var r0 := RotationRedeems(Before(Empty, ops, i), ops[i]);
      SameTokenSameRow(ops, i, r0, j, r);
      RedeemedIsSpent(ops, i, j, r);
      assert false;
    }
  }

  /** A fresh token has one row in a run. */
  lemma SameTokenSameRow(ops: seq<Op>, i: nat, r: TokenRow, j: nat, s: TokenRow)
    requires i <= |ops| && j <= |ops| && Fresh(ops)
    requires r in Before(Empty, ops, i).tokens && s in Before(Empty, ops, j).tokens && r.token == s.token
    ensures r == s
  {
    var k := RowOrigin(ops, i, r);
    var l := RowOrigin(ops, j, s);
    assert k == l;
  }

  /** Operation i takes all tokens of the node away: a revocation or a detected reuse. */
  ghost predicate WipesAt(t: Tables, ops: seq<Op>, i: int, mac: Node) {
    0 <= i < |ops| && ops[i].mac == mac && (ops[i].Revoke? || (ops[i].Rotate? && ResultAt(t, ops, i) == Reused))
  }

  /** After a revocation or a reuse the node holds no token and rotates none until it enrolls again. */
  lemma {:induction false} WipeLocksOut(t: Tables, ops: seq<Op>, i: nat, j: nat, mac: Node)
    requires i < j <= |ops| && WipesAt(t, ops, i, mac)
    requires forall k | i < k < j :: !EnrollsAt(t, ops, k, mac)
    ensures RowsOf(Before(t, ops, j), mac) == {}
    ensures j < |ops| && ops[j].Rotate? && ops[j].mac == mac ==> ResultAt(t, ops, j) == Reused
  {
    BeforeNext(t, ops, j - 1);
    if i < j - 1 {
      WipeLocksOut(t, ops, i, j - 1, mac);
      assert !EnrollsAt(t, ops, j - 1, mac);
    }
    assert RowsOf(Before(t, ops, j), mac) == {};
    if j < |ops| && ops[j].Rotate? && ops[j].mac == mac {
      assert Redeemable(Before(t, ops, j), mac, ops[j].presented, ops[j].now) <= RowsOf(Before(t, ops, j), mac);
    }
  }

  /** The claim survives the reuse: it refuses every enrollment it outlives. */
  lemma ReuseKeepsClaim(t: Tables, ops: seq<Op>, i: nat, j: nat, mac: Node)
    requires i < j < |ops| && Outliving(t, ops, mac)
    requires ops[i].Rotate? && ops[i].mac == mac && ResultAt(t, ops, i) == Reused
    requires ops[j].Enroll? && ops[j].mac == mac && NoneRevoked(ops, i, j, mac)
    requires Claimed(Before(t, ops, i), mac, ops[j].now)
    ensures ResultAt(t, ops, j) == AlreadyEnrolled
  {
    OutlivingLingers(t, ops, i, j, mac, ops[j].now);
    ClaimPersists(t, ops, i, j, mac, ops[j].now);
  }

  // ----- when a genuine token rotates -----

  /** Operation k takes the token away from its node. */
  ghost predicate Removes(t: Tables, ops: seq<Op>, k: int, mac: Node, token: Token) {
    0 <= k < |ops| && ops[k].mac == mac &&
    (ops[k].Revoke? || (ops[k].Rotate? && (ops[k].presented == token || ResultAt(t, ops, k) == Reused)))
  }

  lemma RowStays(t: Tables, op: Op, r: TokenRow)
    requires r in t.tokens
    requires op.mac == r.mac ==> !op.Revoke? && (op.Rotate? ==> op.presented != r.token && Execute(t, op).1 != Reused)
    ensures r in Execute(t, op).0.tokens
  { }

  lemma {:induction false} RowPersists(t: Tables, ops: seq<Op>, k: nat, j: nat, mac: Node)
    requires k < j <= |ops| && Grants(t, ops, k, mac)
    requires forall x | k < x < j :: !Removes(t, ops, x, mac, ops[k].token)
    ensures TokenRow(mac, ops[k].token, ops[k].expires) in Before(t, ops, j).tokens
  {
    BeforeNext(t, ops, j - 1);
    if k < j - 1 {
      RowPersists(t, ops, k, j - 1, mac);
      assert !Removes(t, ops, j - 1, mac, ops[k].token);
      RowStays(Before(t, ops, j - 1), ops[j - 1], TokenRow(mac, ops[k].token, ops[k].expires));
    }
  }

  /**
   A token that was handed out and neither redeemed nor revoked rotates exactly
   when its transaction starts before the stored expiry.
   */
  lemma GenuineTokenRotatesIff(ops: seq<Op>, k: nat, j: nat, mac: Node)
    requires k < j < |ops| && Fresh(ops) && Grants(Empty, ops, k, mac)
    requires ops[j].Rotate? && ops[j].mac == mac && ops[j].presented == ops[k].token
    requires forall x | k < x < j :: !Removes(Empty, ops, x, mac, ops[k].token)
    ensures ResultAt(Empty, ops, j) == Rotated <==> ops[j].now < ops[k].expires
  {
    RowPersists(Empty, ops, k, j, mac);
    var row := TokenRow(mac, ops[k].token, ops[k].expires);
    var b := Before(Empty, ops, j);
    if ops[j].now < ops[k].expires {
      assert row in Redeemable(b, mac, ops[j].presented, ops[j].now);
    }
    if r :| r in Redeemable(b, mac, ops[j].presented, ops[j].now) {
      var o := RowOrigin(ops, j, r);
      assert o == k;
    }
  }

  // ----- the migrated state -----

  ghost function Latest(rows: set<TokenRow>): (m: int)
    requires rows != {}
    ensures exists r :: r in rows && r.expires == m
    ensures forall r | r in rows :: r.expires <= m
  {
    var r :| r in rows;
    if rows == {r} then r.expires
    else
      assert rows - {r} != {};
      var m := Latest(rows - {r});
      assert forall s | s in rows :: s == r || s in rows - {r};
      Max(r.expires, m)
  }

  ghost function LiveRows(t: Tables, mac: Node, now: int): set<TokenRow> {
    set r | r in t.tokens && r.mac == mac && r.expires > now
  }

  /** Migration 000006: one claim per node with a live token, lasting as long. */
  ghost function Migrated(t: Tables, now: int): Tables {
    var macs := set r | r in t.tokens && r.expires > now :: r.mac;
    t.(claims := map mac | mac in macs && LiveRows(t, mac, now) != {} :: Latest(LiveRows(t, mac, now)))
  }

  /** Exactly the nodes with a live token are claimed, each until the largest expiry of its live tokens. */
  lemma MigratedClaims(t: Tables, now: int, mac: Node)
    ensures var m := Migrated(t, now);
            && m.tokens == t.tokens && m.nonces == t.nonces && m.nodes == t.nodes
            && (mac in m.claims <==> exists r :: r in t.tokens && r.mac == mac && r.expires > now)
            && (mac in m.claims ==>
                  && (forall r | r in t.tokens && r.mac == mac && r.expires > now :: r.expires <= m.claims[mac])
                  && (exists r :: r in t.tokens && r.mac == mac && r.expires > now && r.expires == m.claims[mac]))
  {
    if r :| r in t.tokens && r.mac == mac && r.expires > now {
      assert r in LiveRows(t, mac, now);
    }
  }

  lemma MigratedIsCovered(t: Tables, mac: Node, now: int)
    ensures Covered(Migrated(t, now), mac, now)
  {
    var m := Migrated(t, now);
    forall r | r in m.tokens && r.mac == mac && r.expires > now
      ensures mac in m.claims && r.expires <= m.claims[mac]
    {
      assert r in LiveRows(t, mac, now);
    }
  }

  /** From a migrated database, every token that outlived the migration stays covered by its claim. */
  lemma MigratedStaysCovered(t: Tables, ops: seq<Op>, i: nat, mac: Node, start: int)
    requires i <= |ops| && Outliving(Migrated(t, start), ops, mac)
    ensures Covered(Before(Migrated(t, start), ops, i), mac, start)
  {
    MigratedIsCovered(t, mac, start);
    CoverageKeptByOutliving(Migrated(t, start), ops, i, mac, start);
  }

  /** The same without that condition, for runs in the order of their times. */
  lemma MigratedStaysCoveredInOrder(t: Tables, ops: seq<Op>, i: nat, mac: Node, start: int, now: int)
    requires i <= |ops| && Monotone(ops) && Within(ops, i, mac, start, now)
    ensures Covered(Before(Migrated(t, start), ops, i), mac, now)
  {
    MigratedIsCovered(t, mac, start);
    CoverageKept(Migrated(t, start), ops, i, mac, start, now);
  }
}
