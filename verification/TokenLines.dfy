/**
 Lines of tokens: every enrollment starts a line, every rotation continues the
 line of the token it redeems. A node has one live token, on the line of its
 latest enrollment, exactly as long as no rotation redeems a token that was
 handed out before that enrollment.
 */
module TokenLines {
  import opened Enrollment
  import opened EnrollmentHistory

  // ----- the latest enrollment -----

  ghost predicate LatestEnrollment(ops: seq<Op>, i: nat, mac: Node, root: nat) {
    root < i && EnrollsAt(Empty, ops, root, mac) && forall k | root < k < i :: !EnrollsAt(Empty, ops, k, mac)
  }

  /** When the latest enrollment before operation i started; a node without one has no tokens. */
  ghost function LastEnroll(ops: seq<Op>, i: nat, mac: Node): int
    requires i <= |ops|
  {
    if i == 0 then 0 else if EnrollsAt(Empty, ops, i - 1, mac) then ops[i - 1].now else LastEnroll(ops, i - 1, mac)
  }

  lemma {:induction false} LastIsLatest(ops: seq<Op>, i: nat, mac: Node, root: nat)
    requires i <= |ops| && LatestEnrollment(ops, i, mac, root)
    ensures LastEnroll(ops, i, mac) == ops[root].now
  {
    if root < i - 1 {
      LastIsLatest(ops, i - 1, mac, root);
    }
  }

  /** The row that a successful rotation redeems. */
  lemma RedeemedRow(ops: seq<Op>, k: nat, mac: Node) returns (r: TokenRow)
    requires k < |ops| && ops[k].Rotate? && Grants(Empty, ops, k, mac)
    ensures r in Redeemable(Before(Empty, ops, k), mac, ops[k].presented, ops[k].now)
    ensures r in Before(Empty, ops, k).tokens && r.mac == mac && r.token == ops[k].presented
  {
    r := RotationRedeems(Before(Empty, ops, k), ops[k]);
  }

  /** A stored row was preceded by an enrollment of its node. */
  lemma {:induction false} RowHasLatest(ops: seq<Op>, i: nat, r: TokenRow) returns (root: nat)
    requires i <= |ops| && r in Before(Empty, ops, i).tokens
    ensures LatestEnrollment(ops, i, r.mac, root)
  {
    if EnrollsAt(Empty, ops, i - 1, r.mac) {
      root := i - 1;
    } else if r in Before(Empty, ops, i - 1).tokens {
      root := RowHasLatest(ops, i - 1, r);
    } else {
      NewRow(ops, i - 1, r);
      var r0 := RedeemedRow(ops, i - 1, r.mac);
      root := RowHasLatest(ops, i - 1, r0);
    }
  }

  /** An enrollment finds every earlier row of its node expired. */
  lemma EnrollFindsExpired(ops: seq<Op>, i: nat, r: TokenRow)
    requires EnrollsAt(Empty, ops, i, r.mac) && Outliving(Empty, ops, r.mac) && r in Before(Empty, ops, i).tokens
    ensures r.expires <= ops[i].now
  {
    FullCoverageKept(Empty, ops, i, r.mac);
  }

  // ----- one live token since the latest enrollment -----

  /** Rotation k redeems a row that the latest enrollment found expired. */
  ghost predicate RedeemsExpired(ops: seq<Op>, k: int, mac: Node) {
    0 <= k < |ops| && ops[k].Rotate? && ops[k].mac == mac &&
    exists r :: r in Redeemable(Before(Empty, ops, k), mac, ops[k].presented, ops[k].now) && r.expires <= LastEnroll(ops, k, mac)
  }

  ghost predicate NoneExpiredRedeemed(ops: seq<Op>, i: int, mac: Node) {
    forall k | 0 <= k < i :: !RedeemsExpired(ops, k, mac)
  }

  /** No rotation that succeeds started before the latest enrollment preceding it. */
  ghost predicate InOrder(ops: seq<Op>, i: nat, mac: Node)
    requires i <= |ops|
  {
    forall k | 0 <= k < i && ops[k].Rotate? && Grants(Empty, ops, k, mac) :: LastEnroll(ops, k, mac) <= ops[k].now
  }

  lemma InOrderRedeemsLive(ops: seq<Op>, i: nat, mac: Node)
    requires i <= |ops| && InOrder(ops, i, mac)
    ensures NoneExpiredRedeemed(ops, i, mac)
  {
    forall k | 0 <= k < i ensures !RedeemsExpired(ops, k, mac) {
      if RedeemsExpired(ops, k, mac) {
        assert Grants(Empty, ops, k, mac);
      }
    }
  }

  /** Runs in the order of their times are in order in this sense. */
  lemma MonotoneIsInOrder(ops: seq<Op>, i: nat, mac: Node)
    requires i <= |ops| && Monotone(ops)
    ensures InOrder(ops, i, mac)
  {
    forall k | 0 <= k < i && ops[k].Rotate? && Grants(Empty, ops, k, mac) ensures LastEnroll(ops, k, mac) <= ops[k].now {
      var r := RedeemedRow(ops, k, mac);
      var root := RowHasLatest(ops, k, r);
      LastIsLatest(ops, k, mac, root);
    }
  }

  lemma RotationKeepsSingle(t: Tables, op: Op, since: int)
    requires op.Rotate? && Single(t, op.mac, since)
    requires forall r | r in Redeemable(t, op.mac, op.presented, op.now) :: r.expires > since
    ensures Single(Execute(t, op).0, op.mac, since)
  {
    var rows := Redeemable(t, op.mac, op.presented, op.now);
    if rows != {} {
      var r :| r in rows;
      assert forall s | s in t.tokens && s.mac == op.mac && s.expires > since :: s in rows;
    }
  }

  /** An enrollment leaves one row that is live at its own start. */
  lemma EnrollmentMakesSingle(ops: seq<Op>, i: nat, mac: Node)
    requires EnrollsAt(Empty, ops, i, mac) && Outliving(Empty, ops, mac)
    ensures Single(Before(Empty, ops, i + 1), mac, ops[i].now)
  {
    BeforeNext(Empty, ops, i);
    forall r | r in Before(Empty, ops, i).tokens && r.mac == mac ensures r.expires <= ops[i].now {
      EnrollFindsExpired(ops, i, r);
    }
  }

  lemma {:induction false} OneTokenSinceEnrollment(ops: seq<Op>, i: nat, mac: Node)
    requires i <= |ops| && Outliving(Empty, ops, mac) && NoneExpiredRedeemed(ops, i, mac)
    ensures Single(Before(Empty, ops, i), mac, LastEnroll(ops, i, mac))
  {
    if i > 0 {
      var t, op := Before(Empty, ops, i - 1), ops[i - 1];
      OneTokenSinceEnrollment(ops, i - 1, mac);
      BeforeNext(Empty, ops, i - 1);
      if EnrollsAt(Empty, ops, i - 1, mac) {
        EnrollmentMakesSingle(ops, i - 1, mac);
      } else if op.mac == mac && op.Rotate? {
        assert !RedeemsExpired(ops, i - 1, mac);
        RotationKeepsSingle(t, op, LastEnroll(ops, i - 1, mac));
      } else {
        ExecuteAddsNothing(t, op, mac);
      }
    }
  }

  lemma ExecuteAddsNothing(t: Tables, op: Op, mac: Node)
    requires op.mac != mac || op.Revoke? || (op.Enroll? && Execute(t, op).1 != Enrolled)
    ensures forall r | r in Execute(t, op).0.tokens && r.mac == mac :: r in t.tokens
  { }

  /**
   From empty tables, when no rotation started before the latest enrollment
   preceding it: one token is live since that enrollment, and every stored
   token is outlived by the claim.
   */
  lemma TokensFromEmpty(ops: seq<Op>, i: nat, mac: Node)
    requires i <= |ops| && Outliving(Empty, ops, mac) && InOrder(ops, i, mac)
    ensures Single(Before(Empty, ops, i), mac, LastEnroll(ops, i, mac)) && FullyCovered(Before(Empty, ops, i), mac)
  {
    InOrderRedeemsLive(ops, i, mac);
    OneTokenSinceEnrollment(ops, i, mac);
    FullCoverageKept(Empty, ops, i, mac);
  }

  // ----- the line of a live token -----

  /** Operation k hands out a token reached from enrollment `root` by rotations. */
  ghost predicate Descends(ops: seq<Op>, mac: Node, root: nat, k: nat)
    decreases k
  {
    || (k == root && EnrollsAt(Empty, ops, root, mac))
    || (Grants(Empty, ops, k, mac) && ops[k].Rotate?
        && exists p :: root <= p < k && Descends(ops, mac, root, p) && ops[p].token == ops[k].presented)
  }

  /** Operation k hands out row r, as a descendant of the latest enrollment before i. */
  ghost predicate Descent(ops: seq<Op>, i: nat, r: TokenRow, root: nat, k: nat) {
    && root <= k < i <= |ops| && !ops[k].Revoke? && r == TokenRow(ops[k].mac, ops[k].token, ops[k].expires)
    && LatestEnrollment(ops, i, r.mac, root) && Descends(ops, r.mac, root, k)
  }

  /** A row redeemed by operation k passes its descent on to the row k stores. */
  lemma DescentExtends(ops: seq<Op>, k: nat, r: TokenRow, root: nat, p: nat)
    requires k < |ops| && Descent(ops, k, r, root, p)
    requires Grants(Empty, ops, k, r.mac) && ops[k].Rotate? && r.token == ops[k].presented
    ensures Descent(ops, k + 1, TokenRow(r.mac, ops[k].token, ops[k].expires), root, k)
  {
    DescendsExtends(ops, r.mac, root, p, k);
    LatestKept(ops, k, r.mac, root);
  }

  lemma LatestKept(ops: seq<Op>, i: nat, mac: Node, root: nat)
    requires LatestEnrollment(ops, i, mac, root) && !EnrollsAt(Empty, ops, i, mac)
    ensures LatestEnrollment(ops, i + 1, mac, root)
  { }

  lemma DescendsExtends(ops: seq<Op>, mac: Node, root: nat, p: nat, k: nat)
    requires root <= p < k && Descends(ops, mac, root, p)
    requires Grants(Empty, ops, k, mac) && ops[k].Rotate? && ops[p].token == ops[k].presented
    ensures Descends(ops, mac, root, k)
  { }

  lemma DescentKept(ops: seq<Op>, i: nat, r: TokenRow, root: nat, k: nat)
    requires i < |ops| && Descent(ops, i, r, root, k) && !EnrollsAt(Empty, ops, i, r.mac)
    ensures Descent(ops, i + 1, r, root, k)
  {
    LatestKept(ops, i, r.mac, root);
  }

  /** Every token that is live since the latest enrollment descends from it by rotations. */
  lemma {:induction false} LiveTokenDescends(ops: seq<Op>, i: nat, r: TokenRow) returns (root: nat, k: nat)
    requires i <= |ops| && Outliving(Empty, ops, r.mac) && NoneExpiredRedeemed(ops, i, r.mac)
    requires r in Before(Empty, ops, i).tokens && r.expires > LastEnroll(ops, i, r.mac)
    ensures Descent(ops, i, r, root, k)
    decreases i, 1
  {
    assert i > 0;
    if r !in Before(Empty, ops, i - 1).tokens {
      root, k := NewTokenDescends(ops, i, r);
    } else if EnrollsAt(Empty, ops, i - 1, r.mac) {
      EnrollFindsExpired(ops, i - 1, r);
      assert false;
    } else {
      root, k := LiveTokenDescends(ops, i - 1, r);
      DescentKept(ops, i - 1, r, root, k);
    }
  }

  lemma {:induction false} NewTokenDescends(ops: seq<Op>, i: nat, r: TokenRow) returns (root: nat, k: nat)
    requires 0 < i <= |ops| && Outliving(Empty, ops, r.mac) && NoneExpiredRedeemed(ops, i, r.mac)
    requires r in Before(Empty, ops, i).tokens && r !in Before(Empty, ops, i - 1).tokens
    ensures Descent(ops, i, r, root, k)
    decreases i, 0
  {
    var j := i - 1;
    NewRow(ops, j, r);
    k := j;
    if ops[j].Enroll? {
      root := j;
      EnrollmentStartsLine(ops, j, r.mac);
    } else {
      root := RedeemedLine(ops, j, r);
    }
  }

  /** A rotation puts its new row on the line of the row it redeems. */
  lemma {:induction false} RedeemedLine(ops: seq<Op>, j: nat, r: TokenRow) returns (root: nat)
    requires j < |ops| && Outliving(Empty, ops, r.mac) && NoneExpiredRedeemed(ops, j + 1, r.mac)
    requires Grants(Empty, ops, j, r.mac) && ops[j].Rotate? && r == TokenRow(ops[j].mac, ops[j].token, ops[j].expires)
    ensures Descent(ops, j + 1, r, root, j)
    decreases j, 2
  {
    var r0 := LiveRedeemed(ops, j, r.mac);
    var p: nat;
    root, p := LiveTokenDescends(ops, j, r0);
    DescentExtends(ops, j, r0, root, p);
  }

  lemma EnrollmentStartsLine(ops: seq<Op>, i: nat, mac: Node)
    requires EnrollsAt(Empty, ops, i, mac)
    ensures Descent(ops, i + 1, TokenRow(mac, ops[i].token, ops[i].expires), i, i)
  { }

  lemma LiveRedeemed(ops: seq<Op>, k: nat, mac: Node) returns (r: TokenRow)
    requires k < |ops| && ops[k].Rotate? && Grants(Empty, ops, k, mac) && !RedeemsExpired(ops, k, mac)
    ensures r in Before(Empty, ops, k).tokens && r.mac == mac && r.token == ops[k].presented
    ensures r.expires > LastEnroll(ops, k, mac)
  {
    r := RedeemedRow(ops, k, mac);
  }

  // ----- the exact condition -----

  /** Every token handed out expires after its own start and after the start of the latest enrollment. */
  ghost predicate Lasting(ops: seq<Op>, mac: Node) {
    forall k | Grants(Empty, ops, k, mac) :: ops[k].now < ops[k].expires && LastEnroll(ops, k, mac) < ops[k].expires
  }

  /** Rotation k redeems a token that was handed out before the latest enrollment. */
  ghost predicate RedeemsOlder(ops: seq<Op>, k: int, mac: Node) {
    0 <= k < |ops| && ops[k].Rotate? && Grants(Empty, ops, k, mac) &&
    exists p, e :: 0 <= p < e < k && Grants(Empty, ops, p, mac) && ops[p].token == ops[k].presented && EnrollsAt(Empty, ops, e, mac)
  }

  lemma {:induction false} HasLatest(ops: seq<Op>, i: nat, mac: Node, e: nat) returns (root: nat)
    requires e < i <= |ops| && EnrollsAt(Empty, ops, e, mac)
    ensures e <= root && LatestEnrollment(ops, i, mac, root)
  {
    if EnrollsAt(Empty, ops, i - 1, mac) {
      root := i - 1;
    } else {
      root := HasLatest(ops, i - 1, mac, e);
    }
  }

  /** A fresh row handed out before operation m and stored at k was stored all the time. */
  lemma {:induction false} StoredThroughout(ops: seq<Op>, p: nat, m: nat, k: nat, r: TokenRow)
    requires p < m <= k <= |ops| && Fresh(ops) && !ops[p].Revoke? && ops[p].token == r.token
    requires r in Before(Empty, ops, k).tokens
    ensures r in Before(Empty, ops, m).tokens
  {
    if m < k {
      if r !in Before(Empty, ops, k - 1).tokens {
        NewRow(ops, k - 1, r);
      }
      StoredThroughout(ops, p, m, k - 1, r);
    }
  }

  /** A token handed out since the latest enrollment expires after it. */
  lemma LineOutlasts(ops: seq<Op>, k: nat, mac: Node, root: nat, p: nat)
    requires k <= |ops| && Lasting(ops, mac) && LatestEnrollment(ops, k, mac, root) && root <= p < k && Grants(Empty, ops, p, mac)
    ensures ops[p].expires > LastEnroll(ops, k, mac)
  {
    LastIsLatest(ops, k, mac, root);
    if root < p {
      LastIsLatest(ops, p, mac, root);
    }
  }

  lemma LastingOutlives(ops: seq<Op>, mac: Node)
    requires Lasting(ops, mac)
    ensures Outliving(Empty, ops, mac)
  { }

  /** For lasting, fresh tokens: what the latest enrollment found expired is what was handed out before it. */
  lemma ExpiredIsOlder(ops: seq<Op>, k: nat, mac: Node)
    requires k < |ops| && Fresh(ops) && Lasting(ops, mac)
    ensures RedeemsExpired(ops, k, mac) <==> RedeemsOlder(ops, k, mac)
  {
    if RedeemsExpired(ops, k, mac) {
      var r :| r in Redeemable(Before(Empty, ops, k), mac, ops[k].presented, ops[k].now) && r.expires <= LastEnroll(ops, k, mac);
      var p := RowOrigin(ops, k, r);
      var root := RowHasLatest(ops, k, r);
      if root <= p {
        LineOutlasts(ops, k, mac, root, p);
      }
      assert Grants(Empty, ops, k, mac);
    }
    if RedeemsOlder(ops, k, mac) {
      OlderIsExpired(ops, k, mac);
    }
  }

  lemma OlderIsExpired(ops: seq<Op>, k: nat, mac: Node)
    requires k < |ops| && Fresh(ops) && Lasting(ops, mac) && RedeemsOlder(ops, k, mac)
    ensures RedeemsExpired(ops, k, mac)
  {
    var p, e :| 0 <= p < e < k && Grants(Empty, ops, p, mac) && ops[p].token == ops[k].presented && EnrollsAt(Empty, ops, e, mac);
    var root := HasLatest(ops, k, mac, e);
    var r := RedeemedRow(ops, k, mac);
    StoredThroughout(ops, p, root, k, r);
    LastingOutlives(ops, mac);
    EnrollFindsExpired(ops, root, r);
    LastIsLatest(ops, k, mac, root);
  }

  /** While an older row is stored, so is a row of the latest line. */
  lemma {:induction false} LineStays(ops: seq<Op>, i: nat, mac: Node, r: TokenRow) returns (s: TokenRow)
    requires i <= |ops| && Lasting(ops, mac)
    requires r in Before(Empty, ops, i).tokens && r.mac == mac && r.expires <= LastEnroll(ops, i, mac)
    ensures s in Before(Empty, ops, i).tokens && s.mac == mac && s.expires > LastEnroll(ops, i, mac)
  {
    BeforeNext(Empty, ops, i - 1);
    if Grants(Empty, ops, i - 1, mac) {
      s := TokenRow(mac, ops[i - 1].token, ops[i - 1].expires);
    } else {
      s := LineStays(ops, i - 1, mac, r);
    }
  }

  /** Redeeming a row that the latest enrollment found expired leaves two live rows. */
  lemma ExpiredRedemptionDoubles(ops: seq<Op>, k: nat, mac: Node)
    requires k < |ops| && Fresh(ops) && Lasting(ops, mac) && RedeemsExpired(ops, k, mac)
    ensures !Single(Before(Empty, ops, k + 1), mac, LastEnroll(ops, k + 1, mac))
  {
    var r :| r in Redeemable(Before(Empty, ops, k), mac, ops[k].presented, ops[k].now) && r.expires <= LastEnroll(ops, k, mac);
    var s := LineStays(ops, k, mac, r);
    if s.token == ops[k].presented {
      SameTokenSameRow(ops, k, r, k, s);
    }
    var o := RowOrigin(ops, k, s);
    BeforeNext(Empty, ops, k);
    assert Grants(Empty, ops, k, mac);
    var t := Before(Empty, ops, k + 1);
    assert s in t.tokens && TokenRow(mac, ops[k].token, ops[k].expires) in t.tokens;
  }

  /** One live token at every point of the run: exactly when no rotation redeems a token older than the latest enrollment. */
  lemma OneLiveTokenIff(ops: seq<Op>, n: nat, mac: Node)
    requires n <= |ops| && Fresh(ops) && Lasting(ops, mac)
    ensures (forall i: nat | i <= n :: Single(Before(Empty, ops, i), mac, LastEnroll(ops, i, mac)))
       <==> (forall k: nat | k < n :: !RedeemsOlder(ops, k, mac))
  {
    forall k: nat | k < n ensures RedeemsExpired(ops, k, mac) <==> RedeemsOlder(ops, k, mac) {
      ExpiredIsOlder(ops, k, mac);
    }
    if k: nat :| k < n && RedeemsOlder(ops, k, mac) {
      ExpiredRedemptionDoubles(ops, k, mac);
    } else {
      LastingOutlives(ops, mac);
      forall i: nat | i <= n ensures Single(Before(Empty, ops, i), mac, LastEnroll(ops, i, mac)) {
        OneTokenSinceEnrollment(ops, i, mac);
      }
    }
  }

  /** Every row that is live since the latest enrollment is on its line. */
  ghost predicate OnLine(ops: seq<Op>, i: nat, mac: Node)
    requires i <= |ops|
  {
    forall r | r in Before(Empty, ops, i).tokens && r.mac == mac && r.expires > LastEnroll(ops, i, mac) ::
      exists root, k :: Descent(ops, i, r, root, k)
  }

  /** The row stored by a redemption of an older token is on an older line. */
  lemma OlderRedemptionLeavesLine(ops: seq<Op>, k: nat, mac: Node)
    requires k < |ops| && Fresh(ops) && Lasting(ops, mac) && RedeemsExpired(ops, k, mac)
    ensures !OnLine(ops, k + 1, mac)
  {
    var r :| r in Redeemable(Before(Empty, ops, k), mac, ops[k].presented, ops[k].now) && r.expires <= LastEnroll(ops, k, mac);
    assert Grants(Empty, ops, k, mac);
    BeforeNext(Empty, ops, k);
    var replacement := TokenRow(mac, ops[k].token, ops[k].expires);
    var n := k + 1;
    assert replacement in Before(Empty, ops, n).tokens;
    if root, q :| Descent(ops, n, replacement, root, q) {
      assert q == k;
      NotFromOlder(ops, k, mac, r, root);
    }
  }

  lemma NotFromOlder(ops: seq<Op>, k: nat, mac: Node, r: TokenRow, root: nat)
    requires k < |ops| && Fresh(ops) && Lasting(ops, mac) && ops[k].Rotate? && ops[k].mac == mac
    requires r in Before(Empty, ops, k).tokens && r.mac == mac && r.token == ops[k].presented && r.expires <= LastEnroll(ops, k, mac)
    requires LatestEnrollment(ops, k + 1, mac, root)
    ensures !Descends(ops, mac, root, k)
  {
    var o := RowOrigin(ops, k, r);
    forall p | root <= p < k && Descends(ops, mac, root, p) && ops[p].token == ops[k].presented ensures false {
      assert Grants(Empty, ops, p, mac) && o == p;
      LineOutlasts(ops, k, mac, root, p);
    }
  }

  /** Live tokens descend from the latest enrollment, at every point of the run, exactly under the same condition. */
  lemma DescentIff(ops: seq<Op>, n: nat, mac: Node)
    requires n <= |ops| && Fresh(ops) && Lasting(ops, mac)
    ensures (forall i: nat | i <= n :: OnLine(ops, i, mac)) <==> (forall k: nat | k < n :: !RedeemsOlder(ops, k, mac))
  {
    forall k: nat | k < n ensures RedeemsExpired(ops, k, mac) <==> RedeemsOlder(ops, k, mac) {
      ExpiredIsOlder(ops, k, mac);
    }
    if k: nat :| k < n && RedeemsOlder(ops, k, mac) {
      OlderRedemptionLeavesLine(ops, k, mac);
    } else {
      LastingOutlives(ops, mac);
      forall i: nat, r | i <= n && r in Before(Empty, ops, i).tokens && r.mac == mac && r.expires > LastEnroll(ops, i, mac)
        ensures exists root, k :: Descent(ops, i, r, root, k)
      {
        var root, k := LiveTokenDescends(ops, i, r);
      }
    }
  }
}
