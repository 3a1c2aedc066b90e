/**
 The login, refresh and revoke handlers of server/internal/api/auth_handlers.go:
 the order of their checks, the expiries they set and when they hand out
 credentials. Decoding, signature checks and clock readings are parameters.
 */
module AuthHandlers {
  import opened Common
  import opened Enrollment
  import opened EnrollmentHistory
  import opened Database
  import opened Registration

  const REFRESH_LIFETIME: int := 7 * DAY

  /** signAgentToken for a refresh token: the expiry is cut to whole seconds. */
  function SignRefresh(mac: Node, jti: nat, signedAt: int): Token {
    Token(mac, jti, UnixSeconds(signedAt + REFRESH_LIFETIME))
  }

  /** The expiry the database keeps for a token stored at `storedAt`. */
  function RefreshExpiry(storedAt: int): int {
    Stored(storedAt + REFRESH_LIFETIME)
  }

  /** The "exp" check of section 4.1.4 of RFC 7519. */
  predicate PassesExpiry(token: Token, at: int) {
    at < token.exp * SECOND
  }

  // ----- no false theft alarm -----

  /** A signed expiry never lies after the stored one. */
  lemma SignedExpiryIsStored(mac: Node, jti: nat, signedAt: int, storedAt: int, at: int)
    requires signedAt <= storedAt && PassesExpiry(SignRefresh(mac, jti, signedAt), at)
    ensures at < RefreshExpiry(storedAt)
  {
    StoredKeepsSeconds(signedAt + REFRESH_LIFETIME, storedAt + REFRESH_LIFETIME);
  }

  /**
   A genuine refresh token whose signed expiry has not passed when the
   transaction starts rotates: it is never mistaken for a stolen one.
   */
  lemma NoFalseAlarm(ops: seq<Op>, k: nat, j: nat, mac: Node, jti: nat, signedAt: int, storedAt: int)
    requires k < j < |ops| && Fresh(ops) && Grants(Empty, ops, k, mac)
    requires signedAt <= storedAt && ops[k].token == SignRefresh(mac, jti, signedAt) && ops[k].expires == RefreshExpiry(storedAt)
    requires ops[j].Rotate? && ops[j].mac == mac && ops[j].presented == ops[k].token
    requires forall x | k < x < j :: !Removes(Empty, ops, x, mac, ops[k].token)
    requires PassesExpiry(ops[k].token, ops[j].now)
    ensures ResultAt(Empty, ops, j) == Rotated
  {
    GenuineTokenRotatesIff(ops, k, j, mac);
    SignedExpiryIsStored(mac, jti, signedAt, storedAt, ops[j].now);
  }

  /**
   The handler checks the signed expiry before the transaction starts. A token
   that runs out in between passes the check and still counts as reused: here
   the check is made one microsecond before the transaction begins.
   */
  lemma LateTransactionIsAlarm(mac: Node, nonce: Nonce, replacement: Token)
    ensures var token := SignRefresh(mac, 0, 0);
            var end := RefreshExpiry(0);
            var ops := [Enroll(mac, 0, nonce, 10 * MINUTE, token, end), Rotate(mac, end, token, replacement, end + 7 * DAY)];
            && PassesExpiry(token, end - MICROSECOND)
            && ResultAt(Empty, ops, 0) == Enrolled
            && ResultAt(Empty, ops, 1) == Reused
            && Before(Empty, ops, 2).tokens == {}
  {
    var token, end := SignRefresh(mac, 0, 0), RefreshExpiry(0);
    var ops := [Enroll(mac, 0, nonce, 10 * MINUTE, token, end), Rotate(mac, end, token, replacement, end + 7 * DAY)];
    BeforeNext(Empty, ops, 0);
    BeforeNext(Empty, ops, 1);
    assert Before(Empty, ops, 1).tokens == {TokenRow(mac, token, end)};
    assert Redeemable(Before(Empty, ops, 1), mac, token, end) == {};
    assert RowsOf(Before(Empty, ops, 1), mac) == {TokenRow(mac, token, end)};
  }

  // ----- the handlers -----

  /** The clock readings of one request, in program order. */
  datatype Readings = Readings(validated: int, checked: int, signed: int, stored: int, begun: int)

  /** validNodeID: one to fifty letters, digits or one of `:._-`. */
  predicate ValidNodeId(mac: Node) {
    1 <= |mac| <= 50 && forall i | 0 <= i < |mac| :: NodeIdChar(mac[i])
  }

  predicate NodeIdChar(c: char) {
    'A' <= c <= 'Z' || 'a' <= c <= 'z' || '0' <= c <= '9' || c == ':' || c == '.' || c == '_' || c == '-'
  }

  /** ValidateRegistration: up to ten minutes old and at most five minutes ahead. */
  predicate ValidRegistration(stamp: Option<int>, nonce: Nonce, signatureValid: bool, now: int) {
    && stamp.Some? && now - stamp.value <= 10 * MINUTE && stamp.value - now <= 5 * MINUTE
    && signatureValid && nonce != ""
  }

  /** ValidateRegistration, then the stricter freshness check of the handler. */
  predicate FreshGrant(stamp: Option<int>, nonce: Nonce, signatureValid: bool, at: Readings) {
    && ValidRegistration(stamp, nonce, signatureValid, at.validated)
    && at.checked - stamp.value <= 5 * MINUTE && stamp.value - at.checked <= 5 * MINUTE
  }

  /** A genuine grant is valid for ten minutes, but the handler accepts it for five: at seven it is valid and refused. */
  lemma GrantAge(stamp: int, nonce: Nonce, at: Readings)
    requires stamp <= at.validated <= at.checked && nonce != ""
    ensures ValidRegistration(Some(stamp), nonce, true, at.validated) <==> at.validated - stamp <= 10 * MINUTE
    ensures FreshGrant(Some(stamp), nonce, true, at) <==> at.checked - stamp <= 5 * MINUTE
    ensures at.validated == at.checked == stamp + 7 * MINUTE ==>
              ValidRegistration(Some(stamp), nonce, true, at.validated) && !FreshGrant(Some(stamp), nonce, true, at)
  { }

  /** The call made by the login handler: nonce and token expiries come from its readings. */
  function LoginCall(mac: Node, p: Grant, stamp: int, jti: nat, at: Readings): Op {
    Enroll(mac, at.begun, p.nonce, NonceExpiry(stamp), SignRefresh(mac, jti, at.signed), RefreshExpiry(at.stored))
  }

  function RefreshCall(mac: Node, presented: Token, jti: nat, at: Readings): Op {
    Rotate(mac, at.begun, presented, SignRefresh(mac, jti, at.signed), RefreshExpiry(at.stored))
  }

  /** What the login handler passes to EnrollNode is the call for its request. */
  lemma LoginIsCalledFor(mac: Node, p: Grant, stamp: int, signatureValid: bool, jti: nat, at: Readings, read: string -> int)
    requires FreshGrant(Some(stamp), p.nonce, signatureValid, at) && read(p.timestamp) == stamp
    ensures CalledFor(LoginCall(mac, p, stamp, jti, at), Request(p, at.checked), read)
  { }

  /** Tokens outlive the start of their transaction, unless it starts a week after its expiry was computed. */
  lemma CallsOutlive(mac: Node, p: Grant, stamp: int, presented: Token, jti: nat, at: Readings)
    requires at.begun <= at.stored + REFRESH_LIFETIME - MICROSECOND
    ensures LoginCall(mac, p, stamp, jti, at).now < LoginCall(mac, p, stamp, jti, at).expires
    ensures RefreshCall(mac, presented, jti, at).now < RefreshCall(mac, presented, jti, at).expires
  { }

  /** The call reaches the commit: no statement on its way fails. */
  predicate Succeeds(t: Tables, op: Op, faults: set<Statement>) {
    faults !! Executed(t, op)
  }

  /** The refresh token is genuine, unexpired and belongs to the requesting node. */
  predicate ValidRefresh(mac: Node, presented: Token, signatureValid: bool, at: Readings) {
    signatureValid && PassesExpiry(presented, at.validated) && presented.sub == mac
  }

  /**
   An issued refresh token is accepted for its own node only, while unsigned
   copies never are; it stays valid until less than a second before its
   seven days end, and its stored row until less than a microsecond before.
   */
  lemma IssuedTokenIsValid(mac: Node, jti: nat, signatureValid: bool, requested: Node, at: Readings)
    ensures var token, end := SignRefresh(mac, jti, at.signed), at.signed + 7 * DAY;
            && (ValidRefresh(requested, token, signatureValid, at) ==> signatureValid && requested == mac && at.validated < end)
            && (signatureValid && requested == mac && at.validated <= end - SECOND ==> ValidRefresh(requested, token, signatureValid, at))
    ensures at.stored + 7 * DAY - MICROSECOND < RefreshExpiry(at.stored) <= at.stored + 7 * DAY
  { }

  /** The recorded expiry of a nonce lies ten minutes after the timestamp, cut to microseconds. */
  lemma NonceLifetime(stamp: int)
    ensures stamp + 10 * MINUTE - MICROSECOND < NonceExpiry(stamp) <= stamp + 10 * MINUTE
  { }

  /** Every MAC address is a node identifier; none is empty, too long or holds a separator of paths, commands or markup. */
  lemma NodeIdCharacters(mac: Node)
    ensures |mac| == 17
            && (forall i | 0 <= i < 17 :: if i % 3 == 2 then mac[i] == ':' || mac[i] == '-'
                                          else '0' <= mac[i] <= '9' || 'a' <= mac[i] <= 'f' || 'A' <= mac[i] <= 'F')
            ==> ValidNodeId(mac)
    ensures ValidNodeId(mac) <==> 1 <= |mac| <= 50 && forall i | 0 <= i < |mac| :: ValidNodeId([mac[i]])
    ensures ValidNodeId(mac) ==> 0 < |mac| < 51 && forall i | 0 <= i < |mac| :: '-' <= mac[i] <= 'z' && mac[i] !in "/;<=>?@[\\]^`"
  {
    assert forall i | 0 <= i < |mac| :: ValidNodeId([mac[i]]) <==> NodeIdChar([mac[i]][0]);
  }

  /**
   Credentials are returned exactly when a fresh grant enrolled an unclaimed
   node and the enrollment was committed. `signs` tells whether signing the
   token pair succeeds.
   */
  method HandleAgentLogin(db: DB, decoded: bool, mac: Node, p: Grant, signatureValid: bool, stamp: Option<int>,
                          signs: bool, jti: nat, at: Readings, faults: set<Statement>)
    returns (status: int, credentials: Option<Token>)
    modifies db
    ensures credentials == if status == 200 then Some(SignRefresh(mac, jti, at.signed)) else None
    ensures status in {200, 400, 401, 409, 500}
    ensures status == 400 <==> !decoded || !ValidNodeId(mac)
    ensures var readable := decoded && ValidNodeId(mac);
            var genuine := signatureValid && p.nonce != "" && stamp.Some?
                           && at.validated - stamp.value <= 10 * MINUTE && stamp.value - at.validated <= 5 * MINUTE
                           && at.checked - stamp.value <= 5 * MINUTE && stamp.value - at.checked <= 5 * MINUTE;
            && (readable && !genuine ==> status == 401)
            && (readable && genuine ==>
                  var t, op := old(db.View()), LoginCall(mac, p, stamp.value, jti, at);
                  var succeeds := signs && Succeeds(t, op, faults);
                  var claimed := mac in t.claims && at.begun < t.claims[mac];
                  var used := p.nonce in t.nonces && at.begun <= t.nonces[p.nonce];
                  && (status == 500 <==> !succeeds)
                  && (status == 409 <==> succeeds && claimed)
                  && (status == 401 <==> succeeds && !claimed && used)
                  && (status == 200 <==> succeeds && !claimed && !used)
                  && (status == 200 ==> db.View() == Execute(t, op).0))
    ensures status != 200 ==> db.View() == old(db.View())
    ensures status == 200 ==>
              && mac in db.claims && at.stored + 7 * DAY - MICROSECOND < db.claims[mac] <= at.stored + 7 * DAY
              && TokenRow(mac, credentials.value, db.claims[mac]) in db.tokens && mac in db.nodes
              && p.nonce in db.nonces && stamp.value + 10 * MINUTE - MICROSECOND < db.nonces[p.nonce] <= stamp.value + 10 * MINUTE
  {
    if !decoded || !ValidNodeId(mac) { return 400, None; }
    if !FreshGrant(stamp, p.nonce, signatureValid, at) { return 401, None; }
    if !signs { return 500, None; }
    var token := SignRefresh(mac, jti, at.signed);
    var r := db.EnrollNode(mac, p.nonce, NonceExpiry(stamp.value), token, RefreshExpiry(at.stored), at.begun, faults);
    if r == Done(AlreadyEnrolled) { return 409, None; }
    if r == Done(NonceUsed) { return 401, None; }
    if r.StorageError? { return 500, None; }
    return 200, Some(token);
  }

  lemma RotatesIffStored(t: Tables, op: Op)
    requires op.Rotate?
    ensures Execute(t, op).1 == if exists r :: r in t.tokens && r.mac == op.mac && r.token == op.presented && r.expires > op.now
                                then Rotated else Reused
  {
    if r :| r in t.tokens && r.mac == op.mac && r.token == op.presented && r.expires > op.now {
      assert r in Redeemable(t, op.mac, op.presented, op.now);
    }
  }

  /**
   Credentials are returned exactly when the presented token was redeemed, and
   a valid token that is not redeemable costs the node all its tokens.
   */
  method HandleAgentRefresh(db: DB, decoded: bool, mac: Node, presented: Token, signatureValid: bool,
                            signs: bool, jti: nat, at: Readings, faults: set<Statement>)
    returns (status: int, credentials: Option<Token>)
    modifies db
    ensures credentials == if status == 200 then Some(SignRefresh(mac, jti, at.signed)) else None
    ensures var t, op := old(db.View()), RefreshCall(mac, presented, jti, at);
            var genuine := signatureValid && at.validated < presented.exp * SECOND && presented.sub == mac;
            var committed := decoded && genuine && signs && Succeeds(t, op, faults);
            var stored := exists r :: r in t.tokens && r.mac == mac && r.token == presented && r.expires > at.begun;
            && db.View() == (if committed then Execute(t, op).0 else t)
            && (status == 400 <==> !decoded)
            && (status == 200 <==> committed && stored)
            && (status == 500 <==> decoded && genuine && !committed)
            && (status == 401 <==> decoded && (!genuine || (committed && !stored)))
    ensures status in {200, 400, 401, 500}
    ensures status == 200 ==>
              exists e :: TokenRow(mac, credentials.value, e) in db.tokens && at.stored + 7 * DAY - MICROSECOND < e <= at.stored + 7 * DAY
  {
    if !decoded { return 400, None; }
    if !ValidRefresh(mac, presented, signatureValid, at) { return 401, None; }
    if !signs { return 500, None; }
    var token := SignRefresh(mac, jti, at.signed);
    var r := db.RotateRefreshToken(mac, presented, token, RefreshExpiry(at.stored), at.begun, faults);
    RotatesIffStored(old(db.View()), RefreshCall(mac, presented, jti, at));
    if r.StorageError? { return 500, None; }
    if r == Done(Reused) { return 401, None; }
    assert TokenRow(mac, token, RefreshExpiry(at.stored)) in db.tokens;
    return 200, Some(token);
  }

  /** After a 204 the node has no claim and no token, and nobody else lost one. */
  method HandleRevokeEnrollment(db: DB, decoded: bool, mac: Node, at: Readings, faults: set<Statement>) returns (status: int)
    modifies db
    ensures status == 400 <==> !decoded || !ValidNodeId(mac)
    ensures status == 204 <==> decoded && ValidNodeId(mac) && Succeeds(old(db.View()), Revoke(mac, at.begun), faults)
    ensures status in {204, 400, 500}
    ensures status == 204 ==>
              && mac !in db.claims && RowsOf(db.View(), mac) == {}
              && db.claims == old(db.claims) - {mac} && db.tokens == old(db.tokens) - RowsOf(old(db.View()), mac)
              && db.nonces == old(db.nonces) && db.nodes == old(db.nodes)
    ensures status != 204 ==> db.View() == old(db.View())
  {
    if !decoded || !ValidNodeId(mac) { return 400; }
    var r := db.RevokeEnrollment(mac, at.begun, faults);
    if r.StorageError? { return 500; }
    return 204;
  }
}
