/**
 Registration grants: the signed message `group:timestamp:nonce`, what a
 presented message can mean, and how many nodes one grant enrolls.

 HMAC-SHA-256 is taken to be unforgeable and injective, so a valid signature on
 a presented request means that its message is the message of an issued grant.
 */
module Registration {
  import opened Common
  import opened Decimals
  import opened Enrollment
  import opened Transactions
  import opened Serializability

  datatype Grant = Grant(group: string, timestamp: string, nonce: string)

  /** The text covered by the signature. */
  function Message(g: Grant): string {
    g.group + ":" + g.timestamp + ":" + g.nonce
  }

  predicate NoColon(s: string) {
    ':' !in s
  }

  predicate Digits(t: string, from: nat, to: nat)
    requires to <= |t|
  {
    forall i | from <= i < to :: IsDigit(t[i])
  }

  /** Fractional seconds t[from..to]: absent, or a separator followed by digits. */
  predicate Fraction(t: string, from: nat, to: nat)
    requires from <= to <= |t|
  {
    from == to || (from + 2 <= to && (t[from] == '.' || t[from] == ',') && Digits(t, from + 1, to))
  }

  predicate Zone(t: string, z: nat)
    requires z < |t|
  {
    || (t[z] == 'Z' && |t| == z + 1)
    || ((t[z] == '+' || t[z] == '-') && |t| == z + 6 && Digits(t, z + 1, z + 3) && t[z + 3] == ':' && Digits(t, z + 4, z + 6))
  }

  /**
   The date-time shape of section 5.6 of RFC 3339 as time.Parse reads it: the
   hour may have one digit and the fraction may follow a comma. `h` counts the
   digits of the hour and `z` is where the zone starts.
   */
  predicate Stamp(t: string, h: nat, z: nat) {
    && 1 <= h <= 2 && 17 + h <= z < |t|
    && Digits(t, 0, 4) && t[4] == '-' && Digits(t, 5, 7) && t[7] == '-' && Digits(t, 8, 10) && t[10] == 'T'
    && Digits(t, 11, 11 + h) && t[11 + h] == ':' && Digits(t, 12 + h, 14 + h) && t[14 + h] == ':'
    && Digits(t, 15 + h, 17 + h) && Fraction(t, 17 + h, z) && Zone(t, z)
  }

  ghost predicate Rfc3339(t: string) {
    exists h, z :: Stamp(t, h, z)
  }

  /** isValidGroupName: letters, digits and `._-`, at least one. */
  predicate ValidGroupName(s: string) {
    s != "" && forall i | 0 <= i < |s| :: GroupNameChar(s[i])
  }

  predicate GroupNameChar(c: char) {
    'a' <= c <= 'z' || 'A' <= c <= 'Z' || IsDigit(c) || c == '.' || c == '_' || c == '-'
  }

  /** NewRegistrationNonce: sixteen random bytes in lower-case hex. */
  predicate HexNonce(s: string) {
    |s| == 32 && forall i | 0 <= i < |s| :: IsDigit(s[i]) || 'a' <= s[i] <= 'f'
  }

  /** What HandleSetup issues. */
  ghost predicate Issued(g: Grant) {
    ValidGroupName(g.group) && HexNonce(g.nonce) && Rfc3339(g.timestamp)
  }

  /** A group name is valid exactly when each of its characters alone is one. */
  lemma GroupNameCharacters(s: string, c: char)
    ensures ValidGroupName(s) <==> s != "" && forall i | 0 <= i < |s| :: ValidGroupName([s[i]])
    ensures 'a' <= c <= 'z' || 'A' <= c <= 'Z' || '0' <= c <= '9' || c == '.' || c == '_' || c == '-' ==> ValidGroupName([c])
    ensures ValidGroupName([c]) ==> '-' <= c <= 'z' && c != '/' && !(':' <= c <= '@') && c != '[' && c != '\\' && c != ']' && c != '^' && c != '`'
  {
    forall i | 0 <= i < |s| ensures ValidGroupName([s[i]]) <==> GroupNameChar(s[i]) {
      assert [s[i]][0] == s[i];
    }
    assert [c][0] == c;
  }

  lemma IssuedWithoutColons(g: Grant)
    requires Issued(g)
    ensures NoColon(g.group) && NoColon(g.nonce)
  { }

  /** A colon of a timestamp is never followed by three digits. */
  lemma NoStampAfterColon(t: string, h: nat, z: nat, rest: string)
    requires Stamp(t, h, z) && rest != "" && rest[0] == ':'
    ensures forall q | 0 <= q < |t| && t[q] == ':' :: q + 3 < |t + rest| && !IsDigit((t + rest)[q + 3])
  { }

  /** Cutting a timestamp at one of its colons never leaves a timestamp. */
  lemma NoStampBeforeColon(t: string, h: nat, z: nat, t': string, h': nat, z': nat)
    requires Stamp(t, h, z) && Stamp(t', h', z')
    ensures |t'| < |t| && t' == t[..|t'|] ==> t[|t'|] != ':'
  {
    if |t'| < |t| && t' == t[..|t'|] {
      assert t'[|t'| - 1] == t[|t'| - 1] && t'[|t'| - 3] == t[|t'| - 3];
    }
  }

  /** Where a reading with a longer group would place its separator and its timestamp. */
  lemma LongerGroup(g: Grant, p: Grant, h': nat, z': nat)
    requires Message(g) == Message(p) && Stamp(p.timestamp, h', z')
    ensures |p.group| > |g.group| ==>
              var tail, q := g.timestamp + (":" + g.nonce), |p.group| - |g.group| - 1;
              q + 12 + h' < |tail| && tail[q] == ':' && IsDigit(tail[q + 3]) && tail[q + 12 + h'] == ':'
  {
    var s, a, b := Message(g), |g.group|, |p.group|;
    assert s[b] == ':' && s[b + 3] == p.timestamp[2] && s[b + 12 + h'] == p.timestamp[11 + h'];
    assert s[a + 1..] == g.timestamp + (":" + g.nonce);
  }

  /** The first colon of the message ends the group of both readings. */
  lemma GroupsAgree(g: Grant, h: nat, z: nat, p: Grant, h': nat, z': nat)
    requires NoColon(g.group) && NoColon(g.nonce) && Message(g) == Message(p)
    requires Stamp(g.timestamp, h, z) && Stamp(p.timestamp, h', z')
    ensures |g.group| == |p.group|
  {
    assert Message(g)[|p.group|] == ':';
    NoStampAfterColon(g.timestamp, h, z, ":" + g.nonce);
    LongerGroup(g, p, h', z');
  }

  lemma TimestampsAgree(t: string, h: nat, z: nat, t': string, h': nat, z': nat, u: string)
    requires Stamp(t, h, z) && Stamp(t', h', z')
    requires |t| < |u| && |t'| < |u| && t == u[..|t|] && t' == u[..|t'|] && u[|t|] == ':' == u[|t'|]
    ensures |t| == |t'|
  {
    NoStampBeforeColon(t, h, z, t', h', z');
    NoStampBeforeColon(t', h', z', t, h, z);
    assert |t'| <= |t| ==> u[..|t|][..|t'|] == u[..|t'|];
    assert |t| <= |t'| ==> u[..|t'|][..|t|] == u[..|t|];
  }

  lemma MessageParts(g: Grant)
    ensures Message(g)[..|g.group|] == g.group
    ensures Message(g)[|g.group| + 1..] == g.timestamp + (":" + g.nonce)
  { }

  /** The rest of the message after the group, read in two ways. */
  lemma RestDetermines(t: string, n: string, h: nat, z: nat, t': string, n': string, h': nat, z': nat)
    requires Stamp(t, h, z) && Stamp(t', h', z') && t + (":" + n) == t' + (":" + n')
    ensures t == t' && n == n'
  {
    var u := t + (":" + n);
    assert t == u[..|t|] && t' == u[..|t'|] && u[|t|] == ':' == u[|t'|];
    TimestampsAgree(t, h, z, t', h', z', u);
    assert n == u[|t| + 1..] == n';
  }

  /**
   The message of a grant without colons in group and nonce determines the
   presented request, whatever colons the presented group and nonce contain.
   */
  lemma MessageDetermines(g: Grant, p: Grant)
    requires NoColon(g.group) && NoColon(g.nonce) && Rfc3339(g.timestamp) && Rfc3339(p.timestamp) && Message(g) == Message(p)
    ensures g == p
  {
    var h, z :| Stamp(g.timestamp, h, z);
    var h', z' :| Stamp(p.timestamp, h', z');
    GroupsAgree(g, h, z, p, h', z');
    MessageParts(g);
    MessageParts(p);
    RestDetermines(g.timestamp, g.nonce, h, z, p.timestamp, p.nonce, h', z');
  }

  /** The message of an issued grant determines the presented request. */
  lemma MessageDeterminesGrant(g: Grant, p: Grant)
    requires Issued(g) && Rfc3339(p.timestamp) && Message(g) == Message(p)
    ensures g == p
  {
    IssuedWithoutColons(g);
    MessageDetermines(g, p);
  }

  predicate Number(s: string, digits: nat) {
    |s| == digits && AllDigits(s)
  }

  /** A date, a time with a one-digit or two-digit hour, a fraction or none, and a zone make a timestamp. */
  lemma StampOfParts(year: string, month: string, day: string, hour: string, minute: string, second: string,
                     fraction: string, zone: string)
    requires Number(year, 4) && Number(month, 2) && Number(day, 2) && (Number(hour, 1) || Number(hour, 2))
    requires Number(minute, 2) && Number(second, 2)
    requires fraction == "" || (|fraction| >= 2 && (fraction[0] == '.' || fraction[0] == ',') && AllDigits(fraction[1..]))
    requires zone == "Z" || (|zone| == 6 && (zone[0] == '+' || zone[0] == '-') && AllDigits(zone[1..3]) && zone[3] == ':' && AllDigits(zone[4..]))
    ensures Rfc3339(year + "-" + month + "-" + day + "T" + hour + ":" + minute + ":" + second + fraction + zone)
  {
    var date := year + "-" + month + "-" + day + "T";
    var time := hour + ":" + minute + ":" + second;
    var h := |hour|;
    var t := Slices(date, time, fraction, zone);
    assert t == year + "-" + month + "-" + day + "T" + hour + ":" + minute + ":" + second + fraction + zone;
    DateShape(year, month, day, t);
    TimeShape(hour, minute, second, t, 11);
    FractionShape(fraction, t, 17 + h);
    ZoneShape(zone, t, 17 + h + |fraction|);
    assert Stamp(t, h, 17 + h + |fraction|);
  }

  lemma Slices(date: string, time: string, fraction: string, zone: string) returns (t: string)
    ensures t == date + time + fraction + zone && |t| == |date| + |time| + |fraction| + |zone|
    ensures t[..|date|] == date && t[|date|..|date| + |time|] == time
    ensures t[|date| + |time|..|date| + |time| + |fraction|] == fraction && t[|date| + |time| + |fraction|..] == zone
  {
    t := date + time + fraction + zone;
  }

  lemma TimeShape(hour: string, minute: string, second: string, t: string, from: nat)
    requires (Number(hour, 1) || Number(hour, 2)) && Number(minute, 2) && Number(second, 2)
    requires from + 6 + |hour| <= |t| && t[from..from + 6 + |hour|] == hour + ":" + minute + ":" + second
    ensures var h := |hour|;
            && Digits(t, from, from + h) && t[from + h] == ':' && Digits(t, from + 1 + h, from + 3 + h)
            && t[from + 3 + h] == ':' && Digits(t, from + 4 + h, from + 6 + h)
  {
    var u := t[from..from + 6 + |hour|];
    assert forall i | from <= i < from + 6 + |hour| :: t[i] == u[i - from];
  }

  lemma DateShape(year: string, month: string, day: string, t: string)
    requires Number(year, 4) && Number(month, 2) && Number(day, 2) && |t| >= 11
    requires t[..11] == year + "-" + month + "-" + day + "T"
    ensures Digits(t, 0, 4) && t[4] == '-' && Digits(t, 5, 7) && t[7] == '-' && Digits(t, 8, 10) && t[10] == 'T'
  {
    assert forall i | 0 <= i < 11 :: t[i] == t[..11][i];
  }

  lemma FractionShape(fraction: string, t: string, from: nat)
    requires from + |fraction| <= |t| && t[from..from + |fraction|] == fraction
    requires fraction == "" || (|fraction| >= 2 && (fraction[0] == '.' || fraction[0] == ',') && AllDigits(fraction[1..]))
    ensures Fraction(t, from, from + |fraction|)
  {
    forall i | from <= i < from + |fraction| ensures t[i] == fraction[i - from] { }
    forall i | from + 1 <= i < from + |fraction| ensures IsDigit(t[i]) {
      assert fraction[i - from] == fraction[1..][i - from - 1];
    }
  }

  lemma ZoneShape(zone: string, t: string, z: nat)
    requires z <= |t| && t[z..] == zone
    requires zone == "Z" || (|zone| == 6 && (zone[0] == '+' || zone[0] == '-') && AllDigits(zone[1..3]) && zone[3] == ':' && AllDigits(zone[4..]))
    ensures z < |t| && Zone(t, z)
  {
    forall i | z <= i < |t| ensures t[i] == zone[i - z] { }
    if |zone| == 6 {
      assert zone[1] == zone[1..3][0] && zone[2] == zone[1..3][1];
      assert zone[4] == zone[4..][0] && zone[5] == zone[4..][1];
    }
  }

  /** HandleAgentLogin enrolls a request's nonce with this recorded expiry. */
  function NonceExpiry(stamp: int): int {
    Stored(stamp + 10 * MINUTE)
  }

  /** The freshness check leaves five minutes from the check to the commit. */
  lemma SlackIsTimely(stamp: int, checked: int, commit: int)
    requires checked - stamp <= 5 * MINUTE && commit - checked <= 5 * MINUTE - MICROSECOND
    ensures commit <= NonceExpiry(stamp)
  { }

  /** A login request and the time of its freshness check. */
  datatype Request = Request(grant: Grant, checked: int)

  /** The enrollment was called by the login handler for this request; `read` parses timestamps. */
  predicate CalledFor(op: Op, r: Request, read: string -> int) {
    && op.Enroll? && op.nonce == r.grant.nonce && op.nonceExpires == NonceExpiry(read(r.grant.timestamp))
    && r.checked - read(r.grant.timestamp) <= 5 * MINUTE
  }

  /** A committing enrollment was called for its request and its check lies less than five minutes back. */
  predicate SlackStep(s: Sys, a: Action, request: Op -> Request, read: string -> int) {
    a.Commit? && Enabled(s, a) && s.txs[a.id].op.Enroll? ==>
      var op := s.txs[a.id].op;
      CalledFor(op, request(op), read) && s.clock - request(op).checked <= 5 * MINUTE - MICROSECOND
  }

  ghost predicate InSlack(clock: int, acts: seq<Action>, request: Op -> Request, read: string -> int) {
    forall i | 0 <= i < |acts| :: SlackStep(After(clock, acts[..i]), acts[i], request, read)
  }

  /** Runs in which logins take less than the slack are timely. */
  lemma SlackRunsAreTimely(clock: int, acts: seq<Action>, request: Op -> Request, read: string -> int)
    requires InSlack(clock, acts, request, read)
    ensures Timely(clock, acts)
  {
    forall i | 0 <= i < |acts| ensures TimelyStep(After(clock, acts[..i]), acts[i]) {
      var s, a := After(clock, acts[..i]), acts[i];
      assert SlackStep(s, a, request, read);
      if a.Commit? && Enabled(s, a) && s.txs[a.id].op.Enroll? {
        var r := request(s.txs[a.id].op);
        SlackIsTimely(read(r.grant.timestamp), r.checked, s.clock);
      }
    }
  }

  ghost predicate EnrolledForRequests(s: Sys, request: Op -> Request, read: string -> int) {
    forall i | 0 <= i < |s.log| && EnrolledEntry(s.log[i]) :: CalledFor(s.log[i].op, request(s.log[i].op), read)
  }

  /** Every enrollment of such a run was called for its request. */
  lemma {:induction false} EnrollmentsHaveRequests(clock: int, acts: seq<Action>, request: Op -> Request, read: string -> int)
    requires InSlack(clock, acts, request, read)
    ensures EnrolledForRequests(After(clock, acts), request, read)
  {
    if acts != [] {
      var n := |acts| - 1;
      forall i | 0 <= i < n ensures SlackStep(After(clock, acts[..n][..i]), acts[..n][i], request, read) {
        assert acts[..n][..i] == acts[..i];
      }
      EnrollmentsHaveRequests(clock, acts[..n], request, read);
      assert SlackStep(After(clock, acts[..n]), acts[n], request, read);
    }
  }

  /** Log entry `e` is an enrollment whose request carries the message of grant `g`. */
  ghost predicate RedeemsGrant(e: Entry, g: Grant, request: Op -> Request) {
    EnrolledEntry(e) && Message(request(e.op).grant) == Message(g) && Rfc3339(request(e.op).grant.timestamp)
  }

  /** One grant, such as every issued one, enrolls at most once, in every interleaving whose logins take less than the slack. */
  lemma GrantEnrollsOnce(clock: int, acts: seq<Action>, g: Grant, request: Op -> Request, read: string -> int, i: nat, j: nat)
    requires InSlack(clock, acts, request, read) && NoColon(g.group) && NoColon(g.nonce) && Rfc3339(g.timestamp)
    requires i < |After(clock, acts).log| && RedeemsGrant(After(clock, acts).log[i], g, request)
    requires j < |After(clock, acts).log| && RedeemsGrant(After(clock, acts).log[j], g, request)
    ensures i == j
  {
    var log := After(clock, acts).log;
    EnrollmentsHaveRequests(clock, acts, request, read);
    MessageDetermines(g, request(log[i].op).grant);
    MessageDetermines(g, request(log[j].op).grant);
    SlackRunsAreTimely(clock, acts, request, read);
    NonceEnrollsOnce(clock, acts);
  }
}
