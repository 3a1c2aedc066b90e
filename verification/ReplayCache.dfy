/**
 The replay cache on its own: presented signatures with an expiry, where
 expired entries are pruned whenever a signature reaches the cache.
 */
module ReplayCache {

  type Cache = map<string, int>

  /** A presentation reaches the cache when `ok`; it is then unexpired at `now`. */
  datatype Presented = Presented(ok: bool, sig: string, expires: int, now: int)

  function Unexpired(seen: Cache, now: int): Cache {
    map k | k in seen && now < seen[k] :: seen[k]
  }

  /** The cache afterwards, and whether the signature was new. */
  function Present(seen: Cache, p: Presented): (Cache, bool) {
    if !p.ok then (seen, false)
    else
      var kept := Unexpired(seen, p.now);
      if p.sig in kept then (kept, false) else (kept[p.sig := p.expires], true)
  }

  function After(ps: seq<Presented>, i: nat): Cache
    requires i <= |ps|
  {
    if i == 0 then map[] else Present(After(ps, i - 1), ps[i - 1]).0
  }

  predicate Accepts(ps: seq<Presented>, i: nat)
    requires i < |ps|
  {
    Present(After(ps, i), ps[i]).1
  }

  ghost predicate AcceptedBefore(ps: seq<Presented>, i: nat, sig: string)
    requires i <= |ps|
  {
    exists j :: 0 <= j < i && Accepts(ps, j) && ps[j].sig == sig
  }

  /** Time never goes back, and a signature belongs to one expiry. */
  ghost predicate Consistent(ps: seq<Presented>) {
    && (forall i, j | 0 <= i < j < |ps| :: ps[i].now <= ps[j].now)
    && (forall i, j | 0 <= i < |ps| && 0 <= j < |ps| && ps[i].ok && ps[j].ok && ps[i].sig == ps[j].sig :: ps[i].expires == ps[j].expires)
    && (forall i | 0 <= i < |ps| && ps[i].ok :: ps[i].now < ps[i].expires)
  }

  lemma AcceptedBeforeNext(ps: seq<Presented>, i: nat, sig: string)
    requires i < |ps|
    ensures AcceptedBefore(ps, i + 1, sig) <==> AcceptedBefore(ps, i, sig) || (Accepts(ps, i) && ps[i].sig == sig)
  { }

  /** One presentation changes the fate of its own signature only, until expiries pass. */
  lemma PresentKeeps(seen: Cache, p: Presented, sig: string, expires: int)
    requires p.now < expires && (p.ok && p.sig == sig ==> p.expires == expires)
    requires sig in seen ==> seen[sig] == expires
    ensures var (seen', accepted) := Present(seen, p);
            && (sig in seen' <==> sig in seen || (accepted && p.sig == sig))
            && (sig in seen' ==> seen'[sig] == expires)
  { }

  /** Until its expiry passes, a signature is cached exactly when it was accepted. */
  lemma {:induction false} CacheIsHistory(ps: seq<Presented>, i: nat, x: nat, now: int)
    requires i <= |ps| && x < |ps| && Consistent(ps) && ps[x].ok && now < ps[x].expires
    requires i > 0 ==> ps[i - 1].now <= now
    ensures ps[x].sig in After(ps, i) <==> AcceptedBefore(ps, i, ps[x].sig)
    ensures ps[x].sig in After(ps, i) ==> After(ps, i)[ps[x].sig] == ps[x].expires
  {
    if i > 0 {
      CacheIsHistory(ps, i - 1, x, ps[i - 1].now);
      AcceptedBeforeNext(ps, i - 1, ps[x].sig);
      PresentKeeps(After(ps, i - 1), ps[i - 1], ps[x].sig, ps[x].expires);
    }
  }

  /** The pruned cache accepts exactly what a full history would. */
  lemma AcceptsIffNew(ps: seq<Presented>, i: nat)
    requires i < |ps| && Consistent(ps)
    ensures Accepts(ps, i) <==> ps[i].ok && !AcceptedBefore(ps, i, ps[i].sig)
  {
    if ps[i].ok {
      CacheIsHistory(ps, i, i, ps[i].now);
    }
  }
}
