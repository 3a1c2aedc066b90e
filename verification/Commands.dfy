/**
 Signed commands: the canonical message that server and agent both compute,
 the omitempty JSON that carries a command, signing, and the agent's check with
 its self-pruning replay cache.
 */
module Commands {
  import opened Common
  import opened Json
  import opened ReplayCache

  /** CommandPayload; `packages` is None for a nil slice. */
  datatype Command = Command(
    id: string, action: string, packages: Option<seq<string>>,
    prePatch: string, postPatch: string, healthCheck: string,
    nodeId: string, expiresAt: int, signature: string)

  const ZeroCommand: Command := Command("", "", None, "", "", "", "", 0, "")

  const SIGNATURE_PREFIX: string := "patchli-command-v1\n"
  const COMMAND_LIFETIME: int := 15 * MINUTE

  // ----- the canonical message -----

  function PackageList(c: Command): seq<string> {
    if c.packages.None? then [] else c.packages.value
  }

  function SignedFields(c: Command): seq<Field> {
    [ Field("id", Str(c.id)), Field("action", Str(c.action)), Field("packages", Arr(PackageList(c))),
      Field("pre_patch_script", Str(c.prePatch)), Field("post_patch_script", Str(c.postPatch)),
      Field("health_check_command", Str(c.healthCheck)), Field("node_id", Str(c.nodeId)),
      Field("expires_at", Num(c.expiresAt)) ]
  }

  /** The text covered by a command signature. */
  function Message(c: Command): string {
    SIGNATURE_PREFIX + EncodeObject(SignedFields(c))
  }

  /** Equal but for the signature, with nil and empty packages identified. */
  predicate SameOrder(a: Command, b: Command) {
    a.(signature := "", packages := Some(PackageList(a))) == b.(signature := "", packages := Some(PackageList(b)))
  }

  lemma SignedFieldsDetermine(a: Command, b: Command)
    requires SignedFields(a) == SignedFields(b)
    ensures SameOrder(a, b)
  { }

  /** Two commands share a message exactly when they order the same thing. */
  lemma MessageInjective(a: Command, b: Command)
    ensures Message(a) == Message(b) <==> SameOrder(a, b)
  {
    if Message(a) == Message(b) {
      var n := |SIGNATURE_PREFIX|;
      assert EncodeObject(SignedFields(a)) == Message(a)[n..] == Message(b)[n..] == EncodeObject(SignedFields(b));
      ObjectTextInjective(SignedFields(a), SignedFields(b));
      SignedFieldsDetermine(a, b);
    }
  }

  // ----- transport -----

  /** A field tagged omitempty is left out when it holds its zero value. */
  function Optional(key: string, v: JsonValue): seq<Field> {
    if v == Str("") || v == Arr([]) || v == Num(0) then [] else [Field(key, v)]
  }

  function WireFields(c: Command): seq<Field> {
    [Field("id", Str(c.id)), Field("action", Str(c.action))]
    + (Optional("packages", Arr(PackageList(c)))
    + (Optional("pre_patch_script", Str(c.prePatch))
    + (Optional("post_patch_script", Str(c.postPatch))
    + (Optional("health_check_command", Str(c.healthCheck))
    + (Optional("node_id", Str(c.nodeId))
    + (Optional("expires_at", Num(c.expiresAt))
    + Optional("signature", Str(c.signature))))))))
  }

  function Wire(c: Command): string {
    EncodeObject(WireFields(c))
  }

  /** json.Unmarshal storing one field; unknown keys are ignored. */
  function Store(c: Command, f: Field): Option<Command> {
    match f.key
    case "id" => if f.value.Str? then Some(c.(id := f.value.text)) else None
    case "action" => if f.value.Str? then Some(c.(action := f.value.text)) else None
    case "packages" => if f.value.Arr? then Some(c.(packages := Some(f.value.items))) else None
    case "pre_patch_script" => if f.value.Str? then Some(c.(prePatch := f.value.text)) else None
    case "post_patch_script" => if f.value.Str? then Some(c.(postPatch := f.value.text)) else None
    case "health_check_command" => if f.value.Str? then Some(c.(healthCheck := f.value.text)) else None
    case "node_id" => if f.value.Str? then Some(c.(nodeId := f.value.text)) else None
    case "expires_at" => if f.value.Num? then Some(c.(expiresAt := f.value.n)) else None
    case "signature" => if f.value.Str? then Some(c.(signature := f.value.text)) else None
    case _ => Some(c)
  }

  function StoreAll(c: Command, fs: seq<Field>): Option<Command>
    decreases |fs|
  {
    if fs == [] then Some(c)
    else if Store(c, fs[0]).None? then None
    else StoreAll(Store(c, fs[0]).value, fs[1..])
  }

  function Receive(text: string): Option<Command> {
    match ReadObject(text)
    case Bad => None
    case Got(fs, rest) => if rest == "" then StoreAll(ZeroCommand, fs) else None
  }

  /** What arrives: an empty package list comes out as nil. */
  function Normal(c: Command): Command {
    if c.packages == Some([]) then c.(packages := None) else c
  }

  lemma OptionalSent(key: string, v: JsonValue, f: Field)
    ensures f in Optional(key, v) <==> f == Field(key, v) && v != Str("") && v != Arr([]) && v != Num(0)
  { }

  /** id and action are always sent, every other field exactly when it is not its zero value, and nothing else is. */
  lemma OmitsEmpty(c: Command, f: Field)
    ensures f in WireFields(c) <==>
            || f == Field("id", Str(c.id)) || f == Field("action", Str(c.action))
            || (f == Field("packages", Arr(PackageList(c))) && PackageList(c) != [])
            || (f == Field("pre_patch_script", Str(c.prePatch)) && c.prePatch != "")
            || (f == Field("post_patch_script", Str(c.postPatch)) && c.postPatch != "")
            || (f == Field("health_check_command", Str(c.healthCheck)) && c.healthCheck != "")
            || (f == Field("node_id", Str(c.nodeId)) && c.nodeId != "")
            || (f == Field("expires_at", Num(c.expiresAt)) && c.expiresAt != 0)
            || (f == Field("signature", Str(c.signature)) && c.signature != "")
  {
    OptionalSent("packages", Arr(PackageList(c)), f);
    OptionalSent("pre_patch_script", Str(c.prePatch), f);
    OptionalSent("post_patch_script", Str(c.postPatch), f);
    OptionalSent("health_check_command", Str(c.healthCheck), f);
    OptionalSent("node_id", Str(c.nodeId), f);
    OptionalSent("expires_at", Num(c.expiresAt), f);
    OptionalSent("signature", Str(c.signature), f);
  }

  /** Storing an optional field sets it, whether or not it was sent. */
  lemma OptionalStores(c: Command, key: string, v: JsonValue, fs: seq<Field>, c': Command)
    requires if Optional(key, v) == [] then c' == c else Store(c, Field(key, v)) == Some(c')
    ensures StoreAll(c, Optional(key, v) + fs) == StoreAll(c', fs)
  {
    if Optional(key, v) == [] {
      assert Optional(key, v) + fs == fs;
    } else {
      assert (Optional(key, v) + fs)[1..] == fs;
    }
  }

  lemma StoresHead(id: string, action: string, fs: seq<Field>)
    ensures StoreAll(ZeroCommand, [Field("id", Str(id)), Field("action", Str(action))] + fs)
         == StoreAll(ZeroCommand.(id := id, action := action), fs)
  {
    var all := [Field("id", Str(id)), Field("action", Str(action))] + fs;
    assert all[1..] == [Field("action", Str(action))] + fs;
    assert all[1..][1..] == fs;
    assert StoreAll(ZeroCommand.(id := id), all[1..]) == StoreAll(ZeroCommand.(id := id, action := action), fs);
  }

  /** The fields from the node id on. */
  lemma AddressStores(c: Command, nodeId: string, expiresAt: int, signature: string)
    requires c.nodeId == "" && c.expiresAt == 0 && c.signature == ""
    ensures StoreAll(c, Optional("node_id", Str(nodeId)) + (Optional("expires_at", Num(expiresAt)) + Optional("signature", Str(signature))))
         == Some(c.(nodeId := nodeId, expiresAt := expiresAt, signature := signature))
  {
    var f6 := Optional("signature", Str(signature));
    var c1 := c.(nodeId := nodeId);
    OptionalStores(c, "node_id", Str(nodeId), Optional("expires_at", Num(expiresAt)) + f6, c1);
    OptionalStores(c1, "expires_at", Num(expiresAt), f6, c1.(expiresAt := expiresAt));
    assert f6 + [] == f6;
    OptionalStores(c1.(expiresAt := expiresAt), "signature", Str(signature), [], c1.(expiresAt := expiresAt, signature := signature));
  }

  lemma WireFieldsStore(c: Command)
    ensures StoreAll(ZeroCommand, WireFields(c)) == Some(Normal(c))
  {
    var f4 := Optional("node_id", Str(c.nodeId)) + (Optional("expires_at", Num(c.expiresAt)) + Optional("signature", Str(c.signature)));
    var f3 := Optional("health_check_command", Str(c.healthCheck)) + f4;
    var f2 := Optional("post_patch_script", Str(c.postPatch)) + f3;
    var f1 := Optional("pre_patch_script", Str(c.prePatch)) + f2;
    var c0 := ZeroCommand.(id := c.id, action := c.action);
    var c1 := c0.(packages := Normal(c).packages);
    var c2 := c1.(prePatch := c.prePatch);
    var c3 := c2.(postPatch := c.postPatch);
    var c4 := c3.(healthCheck := c.healthCheck);
    StoresHead(c.id, c.action, Optional("packages", Arr(PackageList(c))) + f1);
    OptionalStores(c0, "packages", Arr(PackageList(c)), f1, c1);
    OptionalStores(c1, "pre_patch_script", Str(c.prePatch), f2, c2);
    OptionalStores(c2, "post_patch_script", Str(c.postPatch), f3, c3);
    OptionalStores(c3, "health_check_command", Str(c.healthCheck), f4, c4);
    AddressStores(c4, c.nodeId, c.expiresAt, c.signature);
  }

  /** The agent receives the command it was sent, and computes the same message for it. */
  lemma TransportKeepsCommand(c: Command)
    ensures Receive(Wire(c)) == Some(Normal(c)) && Message(Normal(c)) == Message(c)
  {
    ObjectReadsBack(WireFields(c), "");
    assert Wire(c) + "" == Wire(c);
    WireFieldsStore(c);
    assert PackageList(Normal(c)) == PackageList(c);
    MessageInjective(c, Normal(c));
  }

  /** Text after the command's object makes the whole message malformed. */
  lemma TrailingTextRefused(c: Command, rest: string)
    requires rest != "" && rest[0] > ' '
    ensures Receive(Wire(c) + rest) == None
  {
    ObjectReadsBack(WireFields(c), rest);
  }

  // ----- signing -----

  /**
   An Ed25519 key (section 5.1 of RFC 8032) with the base64 text of its
   signatures; `fromText` also refuses signatures of the wrong size.
   */
  datatype Scheme = Scheme(
    sign: string -> string, verify: (string, string) -> bool,
    toText: string -> string, fromText: string -> Option<string>)

  /** One valid signature per message, one message per signature, text that decodes. */
  ghost predicate Sound(k: Scheme) {
    && (forall m, b :: k.verify(m, b) <==> b == k.sign(m))
    && (forall m, m' :: k.sign(m) == k.sign(m') ==> m == m')
    && (forall m :: k.fromText(k.toText(k.sign(m))) == Some(k.sign(m)) && k.toText(k.sign(m)) != "")
  }

  /** The assumptions on the key are consistent, also with a decoder that refuses texts. */
  lemma SoundSchemeExists() returns (k: Scheme)
    ensures Sound(k) && exists text :: text != "" && k.fromText(text) == None
  {
    k := Scheme(m => m, (m, b) => b == m, b => "=" + b, t => if t == "" || t[0] != '=' then None else Some(t[1..]));
    forall m: string ensures k.fromText(k.toText(k.sign(m))) == Some(k.sign(m)) {
      assert ("=" + m)[1..] == m;
    }
    assert k.fromText("?") == None;
  }

  /** Sign: without a key the command is returned unchanged. */
  function Sign(key: Option<Scheme>, c: Command, nodeId: string, now: int): Command {
    if key.None? then c
    else
      var bound := c.(nodeId := nodeId, expiresAt := UnixSeconds(now + COMMAND_LIFETIME), signature := "");
      bound.(signature := key.value.toText(key.value.sign(Message(bound))))
  }

  /** Without a key nothing changes; with one only addressee, expiry and signature are filled in. */
  lemma SignKeepsOrder(key: Option<Scheme>, c: Command, nodeId: string, now: int)
    ensures var sent := Sign(key, c, nodeId, now);
            && sent.id == c.id && sent.action == c.action && sent.packages == c.packages && sent.prePatch == c.prePatch
            && sent.postPatch == c.postPatch && sent.healthCheck == c.healthCheck
            && (key.None? ==> sent == c)
            && (key.Some? ==> sent.nodeId == nodeId
                              && now + 15 * MINUTE - SECOND < sent.expiresAt * SECOND <= now + 15 * MINUTE)
  {
    InstantsAreCut(now + 15 * MINUTE);
  }

  // ----- the agent's check -----

  datatype Verdict = Accepted | NotSigned | Malformed | BadSignature | WrongNode | Expired | Replayed

  /** The checks before the replay cache is consulted. */
  function Precheck(k: Scheme, nodeId: string, c: Command, now: int): Verdict {
    if c.signature == "" then NotSigned
    else if k.fromText(c.signature).None? then Malformed
    else if !k.verify(Message(c), k.fromText(c.signature).value) then BadSignature
    else if c.nodeId != nodeId then WrongNode
    else if now >= c.expiresAt * SECOND then Expired
    else Accepted
  }

  /** What the replay cache gets to see of a command. */
  function Presentation(k: Scheme, nodeId: string, c: Command, now: int): Presented {
    if Precheck(k, nodeId, c, now) != Accepted then Presented(false, "", 0, now)
    else Presented(true, k.fromText(c.signature).value, c.expiresAt * SECOND, now)
  }

  function Verify(k: Scheme, nodeId: string, seen: Cache, c: Command, now: int): (Cache, Verdict) {
    var p := Presentation(k, nodeId, c, now);
    var (seen', accepted) := Present(seen, p);
    (seen', if accepted then Accepted else if p.ok then Replayed else Precheck(k, nodeId, c, now))
  }

  class Agent {
    const key: Option<Scheme>
    const nodeId: string
    var seen: Cache

    constructor (key: Option<Scheme>, nodeId: string)
      ensures this.key == key && this.nodeId == nodeId && seen == map[]
    {
      this.key, this.nodeId, seen := key, nodeId, map[];
    }

    /**
     Without a key every command is accepted. With one, a command is accepted
     exactly when it carries a valid signature, is addressed to this agent, has
     not expired and was not seen; each refusal has the first reason that holds.
     */
    method VerifyCommand(c: Command, now: int) returns (v: Verdict)
      modifies this
      ensures key.None? ==> v == Accepted && seen == old(seen)
      ensures key.Some? ==>
                var sig := key.value.fromText(c.signature);
                var genuine := c.signature != "" && sig.Some? && key.value.verify(Message(c), sig.value);
                && (v == NotSigned <==> c.signature == "")
                && (v == Malformed <==> c.signature != "" && sig.None?)
                && (v == BadSignature <==> c.signature != "" && sig.Some? && !key.value.verify(Message(c), sig.value))
                && (v == WrongNode <==> genuine && c.nodeId != nodeId)
                && (v == Expired <==> genuine && c.nodeId == nodeId && c.expiresAt * SECOND <= now)
                && (v == Replayed <==> genuine && c.nodeId == nodeId && now < c.expiresAt * SECOND
                                       && sig.value in old(seen) && now < old(seen)[sig.value])
                && (v == Accepted <==> genuine && c.nodeId == nodeId && now < c.expiresAt * SECOND
                                       && !(sig.value in old(seen) && now < old(seen)[sig.value]))
                && (v == Accepted ==> sig.value in seen && seen[sig.value] == c.expiresAt * SECOND)
      ensures (seen, v) == if key.None? then (old(seen), Accepted) else Verify(key.value, nodeId, old(seen), c, now)
    {
      if key.None? { return Accepted; }
      v := Precheck(key.value, nodeId, c, now);
      if v != Accepted { return; }
      var sig := key.value.fromText(c.signature).value;
      PruneSeen(now);
      if sig in seen { return Replayed; }
      seen := seen[sig := c.expiresAt * SECOND];
    }

    /** The pruning loop of verifyCommand: exactly the unexpired entries stay. */
    method PruneSeen(now: int)
      modifies this
      ensures forall k :: k in seen <==> k in old(seen) && now < old(seen)[k]
      ensures forall k | k in seen :: seen[k] == old(seen)[k]
      ensures seen == Unexpired(old(seen), now)
    {
      var pending := seen.Keys;
      while pending != {}
        invariant pending <= seen.Keys <= old(seen).Keys
        invariant forall k | k in seen :: seen[k] == old(seen)[k]
        invariant forall k | k in old(seen) && k !in pending :: k in seen <==> now < old(seen)[k]
        decreases pending
      {
        var k :| k in pending;
        pending := pending - {k};
        if !(now < seen[k]) {
          seen := seen - {k};
        }
      }
    }
  }

  // ----- runs of the agent -----

  datatype Delivery = Delivery(command: Command, now: int)

  ghost predicate Monotone(ds: seq<Delivery>) {
    forall i, j | 0 <= i < j < |ds| :: ds[i].now <= ds[j].now
  }

  /** What the cache gets to see of a run. */
  function Presentations(k: Scheme, nodeId: string, ds: seq<Delivery>): seq<Presented> {
    seq(|ds|, i requires 0 <= i < |ds| => Presentation(k, nodeId, ds[i].command, ds[i].now))
  }

  /** The cache after the first i deliveries. */
  function Seen(k: Scheme, nodeId: string, ds: seq<Delivery>, i: nat): Cache
    requires i <= |ds|
  {
    After(Presentations(k, nodeId, ds), i)
  }

  function VerdictAt(k: Scheme, nodeId: string, ds: seq<Delivery>, i: nat): Verdict
    requires i < |ds|
  {
    Verify(k, nodeId, Seen(k, nodeId, ds, i), ds[i].command, ds[i].now).1
  }

  /** Some delivery before i of the same order was accepted. */
  ghost predicate AcceptedEarlier(k: Scheme, nodeId: string, ds: seq<Delivery>, i: nat, c: Command)
    requires i <= |ds|
  {
    exists j :: 0 <= j < i && VerdictAt(k, nodeId, ds, j) == Accepted && SameOrder(ds[j].command, c)
  }

  // ----- an agent that forgets nothing -----

  ghost predicate Knows(accepted: set<Command>, c: Command) {
    exists d :: d in accepted && SameOrder(d, c)
  }

  /** Its verdict, given all commands it has accepted. */
  ghost function FullVerdict(k: Scheme, nodeId: string, accepted: set<Command>, d: Delivery): Verdict {
    var v := Precheck(k, nodeId, d.command, d.now);
    if v == Accepted && Knows(accepted, d.command) then Replayed else v
  }

  /** All commands it has accepted among the first i deliveries. */
  ghost function Remembered(k: Scheme, nodeId: string, ds: seq<Delivery>, i: nat): set<Command>
    requires i <= |ds|
  {
    if i == 0 then {}
    else
      var before := Remembered(k, nodeId, ds, i - 1);
      if FullVerdict(k, nodeId, before, ds[i - 1]) == Accepted then before + {ds[i - 1].command} else before
  }

  ghost function FullVerdictAt(k: Scheme, nodeId: string, ds: seq<Delivery>, i: nat): Verdict
    requires i < |ds|
  {
    FullVerdict(k, nodeId, Remembered(k, nodeId, ds, i), ds[i])
  }

  /** Of two commands that pass the checks, the signatures agree exactly if the orders do. */
  lemma SignatureIdentifiesOrder(k: Scheme, nodeId: string, c: Command, now: int, c': Command, now': int)
    requires Sound(k) && Presentation(k, nodeId, c, now).ok && Presentation(k, nodeId, c', now').ok
    ensures Presentation(k, nodeId, c, now).sig == Presentation(k, nodeId, c', now').sig <==> SameOrder(c, c')
  {
    MessageInjective(c, c');
    assert k.verify(Message(c), k.fromText(c.signature).value) && k.verify(Message(c'), k.fromText(c'.signature).value);
  }

  lemma PresentationIsLive(k: Scheme, nodeId: string, c: Command, now: int)
    ensures var p := Presentation(k, nodeId, c, now);
            p.now == now && (p.ok ==> now < p.expires && p.expires == c.expiresAt * SECOND)
  { }

  lemma PresentationsConsistent(k: Scheme, nodeId: string, ds: seq<Delivery>)
    requires Sound(k) && Monotone(ds)
    ensures Consistent(Presentations(k, nodeId, ds))
  {
    var ps := Presentations(k, nodeId, ds);
    forall i | 0 <= i < |ps| ensures ps[i].now == ds[i].now && (ps[i].ok ==> ps[i].now < ps[i].expires == ds[i].command.expiresAt * SECOND) {
      PresentationIsLive(k, nodeId, ds[i].command, ds[i].now);
    }
    forall i, j | 0 <= i < |ps| && 0 <= j < |ps| && ps[i].ok && ps[j].ok && ps[i].sig == ps[j].sig
      ensures ds[i].command.expiresAt == ds[j].command.expiresAt
    {
      SignatureIdentifiesOrder(k, nodeId, ds[i].command, ds[i].now, ds[j].command, ds[j].now);
    }
  }

  lemma AcceptedEarlierIsCached(k: Scheme, nodeId: string, ds: seq<Delivery>, i: nat)
    requires i < |ds| && Sound(k) && Presentations(k, nodeId, ds)[i].ok
    ensures AcceptedEarlier(k, nodeId, ds, i, ds[i].command)
       <==> AcceptedBefore(Presentations(k, nodeId, ds), i, Presentations(k, nodeId, ds)[i].sig)
  {
    var ps := Presentations(k, nodeId, ds);
    forall j | 0 <= j < i
      ensures VerdictAt(k, nodeId, ds, j) == Accepted <==> Accepts(ps, j)
      ensures Accepts(ps, j) ==> (SameOrder(ds[j].command, ds[i].command) <==> ps[j].sig == ps[i].sig)
    {
      if ps[j].ok {
        SignatureIdentifiesOrder(k, nodeId, ds[j].command, ds[j].now, ds[i].command, ds[i].now);
      }
    }
  }

  /** What the pruning agent decides, in terms of its own earlier verdicts. */
  lemma VerdictByHistory(k: Scheme, nodeId: string, ds: seq<Delivery>, i: nat)
    requires i < |ds| && Sound(k) && Monotone(ds)
    ensures VerdictAt(k, nodeId, ds, i)
         == if Precheck(k, nodeId, ds[i].command, ds[i].now) == Accepted && AcceptedEarlier(k, nodeId, ds, i, ds[i].command)
            then Replayed else Precheck(k, nodeId, ds[i].command, ds[i].now)
  {
    PresentationsConsistent(k, nodeId, ds);
    AcceptsIffNew(Presentations(k, nodeId, ds), i);
    if Presentations(k, nodeId, ds)[i].ok {
      AcceptedEarlierIsCached(k, nodeId, ds, i);
    }
  }

  lemma AcceptedEarlierNext(k: Scheme, nodeId: string, ds: seq<Delivery>, i: nat, c: Command)
    requires i < |ds|
    ensures AcceptedEarlier(k, nodeId, ds, i + 1, c) <==>
            AcceptedEarlier(k, nodeId, ds, i, c) || (VerdictAt(k, nodeId, ds, i) == Accepted && SameOrder(ds[i].command, c))
  { }

  lemma RememberedNext(k: Scheme, nodeId: string, ds: seq<Delivery>, i: nat, c: Command)
    requires i < |ds|
    ensures Knows(Remembered(k, nodeId, ds, i + 1), c) <==>
            Knows(Remembered(k, nodeId, ds, i), c) || (FullVerdictAt(k, nodeId, ds, i) == Accepted && SameOrder(ds[i].command, c))
  {
    var before, d := Remembered(k, nodeId, ds, i), ds[i].command;
    assert d in before + {d};
  }

  lemma StepAgrees(k: Scheme, nodeId: string, ds: seq<Delivery>, i: nat, c: Command)
    requires i < |ds| && VerdictAt(k, nodeId, ds, i) == FullVerdictAt(k, nodeId, ds, i)
    requires Knows(Remembered(k, nodeId, ds, i), c) <==> AcceptedEarlier(k, nodeId, ds, i, c)
    ensures Knows(Remembered(k, nodeId, ds, i + 1), c) <==> AcceptedEarlier(k, nodeId, ds, i + 1, c)
  {
    AcceptedEarlierNext(k, nodeId, ds, i, c);
    RememberedNext(k, nodeId, ds, i, c);
  }

  lemma NothingYet(k: Scheme, nodeId: string, ds: seq<Delivery>, c: Command)
    ensures !Knows(Remembered(k, nodeId, ds, 0), c) && !AcceptedEarlier(k, nodeId, ds, 0, c)
  { }

  /** The agents agree on delivery i when they have accepted the same orders before. */
  lemma SameVerdict(k: Scheme, nodeId: string, ds: seq<Delivery>, i: nat)
    requires i < |ds| && Sound(k) && Monotone(ds)
    requires Knows(Remembered(k, nodeId, ds, i), ds[i].command) <==> AcceptedEarlier(k, nodeId, ds, i, ds[i].command)
    ensures VerdictAt(k, nodeId, ds, i) == FullVerdictAt(k, nodeId, ds, i)
  {
    VerdictByHistory(k, nodeId, ds, i);
  }

  /** The forgetful and the unforgetting agent have accepted the same orders. */
  lemma {:induction false} RememberedIsAccepted(k: Scheme, nodeId: string, ds: seq<Delivery>, i: nat, c: Command)
    requires i <= |ds| && Sound(k) && Monotone(ds)
    ensures Knows(Remembered(k, nodeId, ds, i), c) <==> AcceptedEarlier(k, nodeId, ds, i, c)
    decreases i, 0
  {
    if i == 0 {
      NothingYet(k, nodeId, ds, c);
    } else {
      RememberedStep(k, nodeId, ds, i - 1, c);
    }
  }

  lemma {:induction false} RememberedStep(k: Scheme, nodeId: string, ds: seq<Delivery>, i: nat, c: Command)
    requires i < |ds| && Sound(k) && Monotone(ds)
    ensures Knows(Remembered(k, nodeId, ds, i + 1), c) <==> AcceptedEarlier(k, nodeId, ds, i + 1, c)
    decreases i, 1
  {
    RememberedIsAccepted(k, nodeId, ds, i, ds[i].command);
    SameVerdict(k, nodeId, ds, i);
    RememberedIsAccepted(k, nodeId, ds, i, c);
    StepAgrees(k, nodeId, ds, i, c);
  }

  /** The self-pruning cache decides every delivery like an agent that forgets nothing. */
  lemma PruningChangesNothing(k: Scheme, nodeId: string, ds: seq<Delivery>, i: nat)
    requires i < |ds| && Sound(k) && Monotone(ds)
    ensures VerdictAt(k, nodeId, ds, i) == FullVerdictAt(k, nodeId, ds, i)
  {
    RememberedIsAccepted(k, nodeId, ds, i, ds[i].command);
    SameVerdict(k, nodeId, ds, i);
  }

  /** No order is accepted twice in a run, however its signature is spelled. */
  lemma AcceptedAtMostOnce(k: Scheme, nodeId: string, ds: seq<Delivery>, i: nat, j: nat)
    requires i < j < |ds| && Sound(k) && Monotone(ds)
    requires VerdictAt(k, nodeId, ds, i) == Accepted && SameOrder(ds[i].command, ds[j].command)
    ensures VerdictAt(k, nodeId, ds, j) != Accepted
  {
    VerdictByHistory(k, nodeId, ds, j);
    assert AcceptedEarlier(k, nodeId, ds, j, ds[j].command);
  }

  /** After an acceptance the cache holds unexpired entries only. */
  lemma CacheHoldsLiveEntries(k: Scheme, nodeId: string, ds: seq<Delivery>, i: nat)
    requires i < |ds| && VerdictAt(k, nodeId, ds, i) == Accepted
    ensures Unexpired(Seen(k, nodeId, ds, i + 1), ds[i].now) == Seen(k, nodeId, ds, i + 1)
  { }

  /** A signed command verifies under its key. */
  lemma SignedVerifies(k: Scheme, c: Command, nodeId: string, signedAt: int)
    requires Sound(k)
    ensures var sent := Sign(Some(k), c, nodeId, signedAt);
            sent.signature != "" && k.fromText(sent.signature) == Some(k.sign(Message(sent)))
  {
    var sent := Sign(Some(k), c, nodeId, signedAt);
    var bound := sent.(signature := "");
    assert SameOrder(sent, bound);
    MessageInjective(sent, bound);
  }

  /** The whole second in which a signed command expires. */
  lemma SignedLifetime(signedAt: int, now: int)
    ensures now <= signedAt + COMMAND_LIFETIME - SECOND ==> now < UnixSeconds(signedAt + COMMAND_LIFETIME) * SECOND
  { }

  /** A signed command, sent over the wire, passes every check of its own node until it expires. */
  lemma SignedCommandPasses(k: Scheme, c: Command, nodeId: string, signedAt: int, now: int)
    requires Sound(k)
    ensures var sent := Sign(Some(k), c, nodeId, signedAt);
            && Receive(Wire(sent)) == Some(Normal(sent))
            && (now < sent.expiresAt * SECOND <==> Precheck(k, nodeId, Normal(sent), now) == Accepted)
            && (now <= signedAt + COMMAND_LIFETIME - SECOND ==> now < sent.expiresAt * SECOND)
  {
    var sent := Sign(Some(k), c, nodeId, signedAt);
    TransportKeepsCommand(sent);
    SignedVerifies(k, c, nodeId, signedAt);
    SignedLifetime(signedAt, now);
  }

  /** Every command from Sign is accepted by its node on first delivery before it expires. */
  lemma FirstDeliveryAccepted(k: Scheme, c: Command, nodeId: string, signedAt: int, ds: seq<Delivery>, i: nat)
    requires i < |ds| && Sound(k) && Monotone(ds)
    requires Receive(Wire(Sign(Some(k), c, nodeId, signedAt))) == Some(ds[i].command)
    requires ds[i].now < ds[i].command.expiresAt * SECOND
    requires !AcceptedEarlier(k, nodeId, ds, i, ds[i].command)
    ensures VerdictAt(k, nodeId, ds, i) == Accepted
  {
    SignedCommandPasses(k, c, nodeId, signedAt, ds[i].now);
    VerdictByHistory(k, nodeId, ds, i);
  }

  /** Of two deliveries of a valid order at most the first is accepted, and it is unless the order was accepted before. */
  lemma ObeyedOnce(k: Scheme, nodeId: string, ds: seq<Delivery>, i: nat, j: nat)
    requires i < j < |ds| && Sound(k) && Monotone(ds) && ds[i].command == ds[j].command
    requires Precheck(k, nodeId, ds[i].command, ds[i].now) == Accepted
    ensures VerdictAt(k, nodeId, ds, i) == Accepted <==> !AcceptedEarlier(k, nodeId, ds, i, ds[i].command)
    ensures VerdictAt(k, nodeId, ds, j) != Accepted
  {
    VerdictByHistory(k, nodeId, ds, i);
    if VerdictAt(k, nodeId, ds, i) == Accepted {
      assert SameOrder(ds[i].command, ds[j].command);
      AcceptedAtMostOnce(k, nodeId, ds, i, j);
    } else {
      var e :| 0 <= e < i && VerdictAt(k, nodeId, ds, e) == Accepted && SameOrder(ds[e].command, ds[i].command);
      AcceptedAtMostOnce(k, nodeId, ds, e, j);
    }
  }

  /** From signing to replay: of two deliveries of a signed command in its lifetime, one at most is obeyed. */
  lemma SignedOrderObeyedOnce(k: Scheme, c: Command, nodeId: string, signedAt: int, ds: seq<Delivery>, i: nat, j: nat)
    requires i < j < |ds| && Sound(k) && Monotone(ds) && ds[i].command == ds[j].command
    requires Receive(Wire(Sign(Some(k), c, nodeId, signedAt))) == Some(ds[i].command)
    requires ds[i].now <= signedAt + COMMAND_LIFETIME - SECOND
    ensures VerdictAt(k, nodeId, ds, i) == Accepted <==> !AcceptedEarlier(k, nodeId, ds, i, ds[i].command)
    ensures VerdictAt(k, nodeId, ds, j) != Accepted
  {
    SignedCommandPasses(k, c, nodeId, signedAt, ds[i].now);
    ObeyedOnce(k, nodeId, ds, i, j);
  }

  // ----- what is never accepted -----

  /** An accepted command carries the signature of its own message. */
  lemma AcceptedIsSigned(k: Scheme, nodeId: string, ds: seq<Delivery>, i: nat)
    requires i < |ds| && Sound(k) && VerdictAt(k, nodeId, ds, i) == Accepted
    ensures k.fromText(ds[i].command.signature) == Some(k.sign(Message(ds[i].command)))
    ensures ds[i].command.nodeId == nodeId && ds[i].now < ds[i].command.expiresAt * SECOND
  {
    AcceptedIsPrechecked(k, nodeId, ds, i);
    AcceptedPasses(k, nodeId, ds[i].command, ds[i].now);
  }

  lemma AcceptedIsPrechecked(k: Scheme, nodeId: string, ds: seq<Delivery>, i: nat)
    requires i < |ds| && VerdictAt(k, nodeId, ds, i) == Accepted
    ensures Precheck(k, nodeId, ds[i].command, ds[i].now) == Accepted
  { }

  lemma AcceptedPasses(k: Scheme, nodeId: string, c: Command, now: int)
    requires Precheck(k, nodeId, c, now) == Accepted
    ensures k.fromText(c.signature).Some? && k.verify(Message(c), k.fromText(c.signature).value)
    ensures c.nodeId == nodeId && now < c.expiresAt * SECOND
  { }

  /** A command signed for one node is never accepted by another, in any run. */
  lemma OtherNodeNeverAccepts(k: Scheme, c: Command, nodeId: string, signedAt: int, other: string, ds: seq<Delivery>, i: nat)
    requires i < |ds| && other != nodeId && Sound(k)
    requires SameOrder(ds[i].command, Sign(Some(k), c, nodeId, signedAt))
    ensures VerdictAt(k, other, ds, i) != Accepted
  {
    SignKeepsOrder(Some(k), c, nodeId, signedAt);
    if VerdictAt(k, other, ds, i) == Accepted {
      AcceptedIsPrechecked(k, other, ds, i);
      AcceptedPasses(k, other, ds[i].command, ds[i].now);
      assert false;
    }
  }

  /** Under the signature of a signed command nothing but that command is accepted. */
  lemma AlteredNeverAccepted(k: Scheme, c: Command, nodeId: string, signedAt: int, agent: string, ds: seq<Delivery>, i: nat)
    requires i < |ds| && Sound(k) && ds[i].command.signature == Sign(Some(k), c, nodeId, signedAt).signature
    requires !SameOrder(ds[i].command, Sign(Some(k), c, nodeId, signedAt))
    ensures VerdictAt(k, agent, ds, i) != Accepted
  {
    if VerdictAt(k, agent, ds, i) == Accepted {
      AcceptedIsSigned(k, agent, ds, i);
      SignedVerifies(k, c, nodeId, signedAt);
      MessageInjective(ds[i].command, Sign(Some(k), c, nodeId, signedAt));
      assert false;
    }
  }
}
