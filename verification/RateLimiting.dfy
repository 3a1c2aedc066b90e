/** The fixed-window per-client limiter of server/internal/api/middleware.go. */
module RateLimiting {

  datatype Window = Window(start: int, count: int)

  type Clients = map<string, Window>

  /** The map is pruned only when it holds more clients than this. */
  const PRUNE_ABOVE := 10000

  function Unexpired(clients: Clients, now: int, length: int): Clients {
    map k | k in clients && now - clients[k].start < length :: clients[k]
  }

  /** One decision of a limiter that never prunes. */
  function Admit(clients: Clients, ip: string, now: int, limit: int, length: int): (Clients, bool) {
    if ip !in clients || now - clients[ip].start >= length then (clients[ip := Window(now, 1)], true)
    else if clients[ip].count >= limit then (clients, false)
    else (clients[ip := clients[ip].(count := clients[ip].count + 1)], true)
  }

  /** One decision of the limiter as it is. */
  function PruneAndAdmit(clients: Clients, ip: string, now: int, limit: int, length: int): (Clients, bool) {
    Admit(if |clients| > PRUNE_ABOVE then Unexpired(clients, now, length) else clients, ip, now, limit, length)
  }

  class RateLimiter {
    const limit: int
    const window: int
    var clients: Clients

    constructor (limit: int, window: int)
      ensures this.limit == limit && this.window == window && clients == map[]
    {
      this.limit, this.window, clients := limit, window, map[];
    }

    method Allow(ip: string, now: int) returns (ok: bool)
      modifies this
      ensures |old(clients)| <= 10000 ==> old(clients).Keys <= clients.Keys
      ensures |old(clients)| > 10000 ==> forall k | k in clients :: now - clients[k].start < window || k == ip
      ensures forall k | k in clients && k != ip :: k in old(clients) && clients[k] == old(clients)[k]
      ensures forall k | k in old(clients) && k != ip && now - old(clients)[k].start < window :: k in clients
      ensures (clients, ok) == PruneAndAdmit(old(clients), ip, now, limit, window)
    {
      if |clients| > PRUNE_ABOVE {
        var pending := clients.Keys;
        while pending != {}
          invariant pending <= clients.Keys <= old(clients).Keys
          invariant forall k | k in clients :: clients[k] == old(clients)[k]
          invariant forall k | k in old(clients) && k !in pending :: k in clients <==> now - old(clients)[k].start < window
          decreases pending
        {
          var k :| k in pending;
          pending := pending - {k};
          if now - clients[k].start >= window {
            clients := clients - {k};
          }
        }
        assert clients == Unexpired(old(clients), now, window);
      }
      if ip !in clients || now - clients[ip].start >= window {
        clients := clients[ip := Window(now, 1)];
        return true;
      }
      if clients[ip].count >= limit {
        return false;
      }
      clients := clients[ip := clients[ip].(count := clients[ip].count + 1)];
      return true;
    }
  }

  // ----- runs -----

  datatype Request = Request(ip: string, now: int)

  ghost predicate Monotone(rs: seq<Request>) {
    forall i, j | 0 <= i < j < |rs| :: rs[i].now <= rs[j].now
  }

  function Pruned(rs: seq<Request>, i: nat, limit: int, length: int): Clients
    requires i <= |rs|
  {
    if i == 0 then map[]
    else PruneAndAdmit(Pruned(rs, i - 1, limit, length), rs[i - 1].ip, rs[i - 1].now, limit, length).0
  }

  function Unpruned(rs: seq<Request>, i: nat, limit: int, length: int): Clients
    requires i <= |rs|
  {
    if i == 0 then map[] else Admit(Unpruned(rs, i - 1, limit, length), rs[i - 1].ip, rs[i - 1].now, limit, length).0
  }

  predicate Allowed(rs: seq<Request>, i: nat, limit: int, length: int)
    requires i < |rs|
  {
    PruneAndAdmit(Pruned(rs, i, limit, length), rs[i].ip, rs[i].now, limit, length).1
  }

  predicate AllowedUnpruned(rs: seq<Request>, i: nat, limit: int, length: int)
    requires i < |rs|
  {
    Admit(Unpruned(rs, i, limit, length), rs[i].ip, rs[i].now, limit, length).1
  }

  // ----- pruning changes no decision -----

  lemma {:induction false} SameWindows(rs: seq<Request>, i: nat, limit: int, length: int)
    requires i <= |rs| && Monotone(rs)
    ensures forall now | i == 0 || rs[i - 1].now <= now ::
              Unexpired(Pruned(rs, i, limit, length), now, length) == Unexpired(Unpruned(rs, i, limit, length), now, length)
  {
    if i > 0 {
      SameWindows(rs, i - 1, limit, length);
      var r, p, u := rs[i - 1], Pruned(rs, i - 1, limit, length), Unpruned(rs, i - 1, limit, length);
      assert Unexpired(p, r.now, length) == Unexpired(u, r.now, length);
      forall now | r.now <= now
        ensures Unexpired(Pruned(rs, i, limit, length), now, length) == Unexpired(Unpruned(rs, i, limit, length), now, length)
      {
        SameWindowsStep(p, u, r, now, limit, length);
      }
    }
  }

  lemma SameWindowsStep(p: Clients, u: Clients, r: Request, now: int, limit: int, length: int)
    requires Unexpired(p, r.now, length) == Unexpired(u, r.now, length) && r.now <= now
    ensures Unexpired(PruneAndAdmit(p, r.ip, r.now, limit, length).0, now, length)
         == Unexpired(Admit(u, r.ip, r.now, limit, length).0, now, length)
    ensures PruneAndAdmit(p, r.ip, r.now, limit, length).1 == Admit(u, r.ip, r.now, limit, length).1
  {
    var p', u' := PruneAndAdmit(p, r.ip, r.now, limit, length).0, Admit(u, r.ip, r.now, limit, length).0;
    assert r.ip in Unexpired(p, r.now, length) <==> r.ip in Unexpired(u, r.now, length);
    forall k
      ensures k in Unexpired(p', now, length) <==> k in Unexpired(u', now, length)
      ensures k in Unexpired(p', now, length) ==> p'[k] == u'[k]
    {
      assert k in Unexpired(p, r.now, length) <==> k in Unexpired(u, r.now, length);
    }
  }

  /** The limiter decides every request as one that never prunes. */
  lemma PruningChangesNothing(rs: seq<Request>, i: nat, limit: int, length: int)
    requires i < |rs| && Monotone(rs)
    ensures Allowed(rs, i, limit, length) == AllowedUnpruned(rs, i, limit, length)
  {
    SameWindows(rs, i, limit, length);
    SameWindowsStep(Pruned(rs, i, limit, length), Unpruned(rs, i, limit, length), rs[i], rs[i].now, limit, length);
  }

  // ----- the sliding-window bound -----

  /** How many of the first i requests were admitted for `ip` at times in [from, from + length). */
  function Admissions(rs: seq<Request>, i: nat, ip: string, from: int, limit: int, length: int): nat
    requires i <= |rs|
  {
    if i == 0 then 0
    else Admissions(rs, i - 1, ip, from, limit, length) +
         if rs[i - 1].ip == ip && from <= rs[i - 1].now < from + length && Allowed(rs, i - 1, limit, length) then 1 else 0
  }

  lemma {:induction false} AdmissionsByWindow(rs: seq<Request>, i: nat, ip: string, from: int, limit: int, length: int)
    requires i <= |rs| && Monotone(rs) && limit >= 1
    ensures var c, u := Admissions(rs, i, ip, from, limit, length), Unpruned(rs, i, limit, length);
            && (c > 0 ==> from <= rs[i - 1].now)
            && if ip !in u then c == 0
               else
                 && 1 <= u[ip].count <= limit
                 && u[ip].start <= rs[i - 1].now
                 && (u[ip].start < from ==> c <= u[ip].count - 1)
                 && (from <= u[ip].start < from + length ==> c <= limit - 1 + u[ip].count)
                 && (from + length <= u[ip].start ==> c <= 2 * limit - 1)
  {
    if i > 0 {
      AdmissionsByWindow(rs, i - 1, ip, from, limit, length);
      PruningChangesNothing(rs, i - 1, limit, length);
    }
  }

  /** Any half-open interval of one window length admits at most 2 * limit - 1 requests of a client. */
  lemma SlidingWindowBound(rs: seq<Request>, ip: string, from: int, limit: int, length: int)
    requires Monotone(rs) && limit >= 1
    ensures Admissions(rs, |rs|, ip, from, limit, length) <= 2 * limit - 1
  {
    AdmissionsByWindow(rs, |rs|, ip, from, limit, length);
  }

  // ----- what is refused -----

  /** The count of a window that starts at or after `from` is the number of admissions since. */
  lemma {:induction false} WindowCounts(rs: seq<Request>, i: nat, ip: string, from: int, limit: int, length: int)
    requires i <= |rs| && Monotone(rs) && forall k | 0 <= k < i :: rs[k].now < from + length
    requires ip in Unpruned(rs, i, limit, length) && from <= Unpruned(rs, i, limit, length)[ip].start
    ensures Unpruned(rs, i, limit, length)[ip].count <= Admissions(rs, i, ip, from, limit, length)
    ensures i > 0 && Unpruned(rs, i, limit, length)[ip].start <= rs[i - 1].now
  {
    var r, u := rs[i - 1], Unpruned(rs, i - 1, limit, length);
    PruningChangesNothing(rs, i - 1, limit, length);
    if ip in u && from <= u[ip].start {
      WindowCounts(rs, i - 1, ip, from, limit, length);
      assert i > 1 && rs[i - 2].now <= r.now;
    }
  }

  /** A request is refused only after `limit` admissions of its client, all less than one window earlier. */
  lemma RefusedAfterLimit(rs: seq<Request>, i: nat, limit: int, length: int)
    requires i < |rs| && Monotone(rs) && !Allowed(rs, i, limit, length)
    ensures limit <= Admissions(rs, i, rs[i].ip, rs[i].now - length + 1, limit, length)
  {
    PruningChangesNothing(rs, i, limit, length);
    WindowCounts(rs, i, rs[i].ip, rs[i].now - length + 1, limit, length);
  }

  /** While its client has been admitted less often than `limit` within the last window, a request is admitted. */
  lemma BelowLimitAllowed(rs: seq<Request>, i: nat, limit: int, length: int)
    requires i < |rs| && Monotone(rs)
    ensures Admissions(rs, i, rs[i].ip, rs[i].now - length + 1, limit, length) < limit ==> Allowed(rs, i, limit, length)
  {
    if !Allowed(rs, i, limit, length) {
      RefusedAfterLimit(rs, i, limit, length);
    }
  }

  // ----- the bound is tight -----

  /** One request opens a window, the rest of its allowance comes at its end, then a full window follows. */
  function WorstCase(ip: string, limit: nat, length: int): seq<Request>
    requires limit >= 1
  {
    seq(2 * limit, i => Request(ip, if i == 0 then 0 else if i < limit then length - 1 else length))
  }

  lemma {:induction false} WorstCaseWindows(ip: string, limit: nat, length: int, i: nat)
    requires limit >= 1 && length >= 2 && 1 <= i <= 2 * limit
    ensures ip in Unpruned(WorstCase(ip, limit, length), i, limit, length)
    ensures Unpruned(WorstCase(ip, limit, length), i, limit, length)[ip]
         == if i <= limit then Window(0, i) else Window(length, i - limit)
    ensures AllowedUnpruned(WorstCase(ip, limit, length), i - 1, limit, length)
  {
    if i > 1 {
      WorstCaseWindows(ip, limit, length, i - 1);
    }
  }

  lemma {:induction false} WorstCaseAdmissions(ip: string, limit: nat, length: int, i: nat)
    requires limit >= 1 && length >= 2 && 1 <= i <= 2 * limit
    ensures Admissions(WorstCase(ip, limit, length), i, ip, length - 1, limit, length) == i - 1
  {
    if i > 1 {
      WorstCaseAdmissions(ip, limit, length, i - 1);
      WorstCaseWindows(ip, limit, length, i);
      PruningChangesNothing(WorstCase(ip, limit, length), i - 1, limit, length);
    }
  }

  /** The bound is reached for every limit. */
  lemma SlidingWindowBoundIsTight(ip: string, limit: nat, length: int)
    requires limit >= 1 && length >= 2
    ensures exists rs, from :: Monotone(rs) && Admissions(rs, |rs|, ip, from, limit, length) == 2 * limit - 1
  {
    var rs := WorstCase(ip, limit, length);
    WorstCaseAdmissions(ip, limit, length, 2 * limit);
    assert Monotone(rs) && Admissions(rs, |rs|, ip, length - 1, limit, length) == 2 * limit - 1;
  }
}
