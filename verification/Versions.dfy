/**
 The version order that guards self-updates (agent/cmd/patchli-agent/main.go).
 */
module Versions {
  import opened Common
  import opened Decimals

  const MAX_INT: int := 0x7fff_ffff_ffff_ffff
  const MAX_BINARY_BYTES: int := 256 * 1024 * 1024

  // ----- parsing -----

  /** unicode.IsSpace */
  predicate IsSpace(c: char) {
    '\t' <= c <= '\r' || c == ' ' || c == '\U{85}' || c == '\U{A0}' || c == '\U{1680}' || '\U{2000}' <= c <= '\U{200A}'
    || c == '\U{2028}' || c == '\U{2029}' || c == '\U{202F}' || c == '\U{205F}' || c == '\U{3000}'
  }

  function TrimLeft(s: string): string {
    if s != "" && IsSpace(s[0]) then TrimLeft(s[1..]) else s
  }

  function TrimRight(s: string): string {
    if s != "" && IsSpace(s[|s| - 1]) then TrimRight(s[..|s| - 1]) else s
  }

  /** The text before the first '-' or '+'. */
  function Release(s: string): string {
    if s == "" || s[0] == '-' || s[0] == '+' then "" else [s[0]] + Release(s[1..])
  }

  function Split(s: string): (parts: seq<string>)
    ensures parts != []
  {
    if s == "" then [""]
    else
      var rest := Split(s[1..]);
      if s[0] == '.' then [""] + rest else [[s[0]] + rest[0]] + rest[1..]
  }

  /** strconv.Atoi on text without a sign. */
  function Component(s: string): Option<nat> {
    if s != "" && AllDigits(s) && Value(s) <= MAX_INT then Some(Value(s)) else None
  }

  function Components(parts: seq<string>): Option<seq<nat>> {
    if parts == [] then Some([])
    else
      var rest := Components(parts[..|parts| - 1]);
      var last := Component(parts[|parts| - 1]);
      if rest.Some? && last.Some? then Some(rest.value + [last.value]) else None
  }

  function Body(v: string): string {
    var t := TrimRight(TrimLeft(v));
    Release(if t != "" && t[0] == 'v' then t[1..] else t)
  }

  function Parse(v: string): Option<seq<nat>> {
    if Body(v) == "" then None else Components(Split(Body(v)))
  }

  // ----- release versions parse as what they say -----

  /** "1.2.3" */
  function Dotted(v: seq<nat>): string
    requires v != []
  {
    if |v| == 1 then Decimal(v[0]) else Decimal(v[0]) + "." + Dotted(v[1..])
  }

  lemma {:induction false} SplitDigits(d: string, rest: string)
    requires AllDigits(d)
    ensures Split(d + "." + rest) == [d] + Split(rest)
    ensures Split(d) == [d]
  {
    if d == "" {
      assert (d + "." + rest)[1..] == rest;
    } else {
      SplitDigits(d[1..], rest);
      assert (d + "." + rest)[1..] == d[1..] + "." + rest;
      assert [d[0]] + d[1..] == d;
    }
  }

  function Texts(v: seq<nat>): seq<string> {
    seq(|v|, i requires 0 <= i < |v| => Decimal(v[i]))
  }

  lemma {:induction false} DottedSplits(v: seq<nat>)
    requires v != []
    ensures Split(Dotted(v)) == Texts(v)
  {
    DecimalReadsBack(v[0]);
    if |v| == 1 {
      SplitDigits(Decimal(v[0]), "");
    } else {
      DottedSplits(v[1..]);
      SplitDigits(Decimal(v[0]), Dotted(v[1..]));
      assert Texts(v) == [Decimal(v[0])] + Texts(v[1..]);
    }
  }

  lemma {:induction false} TextsParse(v: seq<nat>)
    requires forall i | 0 <= i < |v| :: v[i] <= MAX_INT
    ensures Components(Texts(v)) == Some(v)
  {
    if v != [] {
      var n := |v| - 1;
      TextsParse(v[..n]);
      var texts := Texts(v);
      assert texts[..n] == Texts(v[..n]);
      DecimalReadsBack(v[n]);
      assert Component(texts[n]) == Some(v[n]);
      assert v[..n] + [v[n]] == v;
    }
  }

  /** Digits and dots only. */
  predicate Plain(s: string) {
    forall i | 0 <= i < |s| :: IsDigit(s[i]) || s[i] == '.'
  }

  lemma PlainConcat(a: string, b: string)
    requires Plain(a) && Plain(b)
    ensures Plain(a + b)
  { }

  lemma {:induction false} DottedPlain(v: seq<nat>)
    requires v != []
    ensures Dotted(v) != "" && Plain(Dotted(v))
  {
    var first := Decimal(v[0]);
    DecimalReadsBack(v[0]);
    assert Plain(first);
    if |v| > 1 {
      var rest := Dotted(v[1..]);
      DottedPlain(v[1..]);
      PlainConcat(first, ".");
      PlainConcat(first + ".", rest);
      assert Dotted(v) == first + "." + rest;
    }
  }

  /** A pre-release or build suffix. */
  predicate Suffix(s: string) {
    s == "" || s[0] == '-' || s[0] == '+'
  }

  predicate AllSpaces(s: string) {
    forall i | 0 <= i < |s| :: IsSpace(s[i])
  }

  lemma {:induction false} ReleaseStops(s: string, suffix: string)
    requires Plain(s) && Suffix(suffix)
    ensures Release(s + suffix) == s
  {
    if s == "" {
      assert s + suffix == suffix;
    } else {
      ReleaseStops(s[1..], suffix);
      assert (s + suffix)[1..] == s[1..] + suffix;
    }
  }

  /** Trimming a text that goes on with a suffix or with spaces leaves the text and a suffix. */
  lemma {:induction false} TrimRightKeeps(head: string, suffix: string) returns (kept: string)
    requires head != "" && !IsSpace(head[|head| - 1]) && (Suffix(suffix) || AllSpaces(suffix))
    ensures Suffix(kept) && TrimRight(head + suffix) == head + kept
    decreases |suffix|
  {
    var t := head + suffix;
    if suffix == "" {
      kept := "";
      assert t == head;
    } else if IsSpace(suffix[|suffix| - 1]) {
      var shorter := suffix[..|suffix| - 1];
      assert t[..|t| - 1] == head + shorter;
      kept := TrimRightKeeps(head, shorter);
    } else {
      kept := suffix;
    }
  }

  lemma {:induction false} TrimLeftSkips(lead: string, s: string)
    requires AllSpaces(lead) && s != "" && !IsSpace(s[0])
    ensures TrimLeft(lead + s) == s
  {
    if lead == "" {
      assert lead + s == s;
    } else {
      TrimLeftSkips(lead[1..], s);
      assert (lead + s)[1..] == lead[1..] + s;
    }
  }

  lemma BodyOfRelease(lead: string, prefix: string, s: string, suffix: string)
    requires AllSpaces(lead) && (prefix == "" || prefix == "v") && s != "" && Plain(s) && (Suffix(suffix) || AllSpaces(suffix))
    ensures Body(lead + (prefix + s + suffix)) == s
  {
    var head := prefix + s;
    assert head[|head| - 1] == s[|s| - 1] && !IsSpace(head[0]);
    TrimLeftSkips(lead, head + suffix);
    var kept := TrimRightKeeps(head, suffix);
    assert (head + kept)[|prefix|..] == s + kept;
    ReleaseStops(s, kept);
  }

  /** A dotted version, with or without "v", leading spaces, and a suffix or trailing spaces, parses to its own numbers. */
  lemma ReleaseVersionParses(lead: string, prefix: string, v: seq<nat>, suffix: string)
    requires v != [] && (forall i | 0 <= i < |v| :: v[i] < 0x8000_0000_0000_0000)
    requires AllSpaces(lead) && (prefix == "" || prefix == "v") && (Suffix(suffix) || AllSpaces(suffix))
    ensures Parse(lead + (prefix + Dotted(v) + suffix)) == Some(v)
  {
    DottedPlain(v);
    BodyOfRelease(lead, prefix, Dotted(v), suffix);
    DottedSplits(v);
    TextsParse(v);
  }

  // ----- and nothing else parses -----

  /** The parts with a dot between them. */
  function Join(parts: seq<string>): string
    requires parts != []
  {
    if |parts| == 1 then parts[0] else parts[0] + "." + Join(parts[1..])
  }

  predicate Number(text: string, n: nat) {
    text != "" && AllDigits(text) && Value(text) == n && n < 0x8000_0000_0000_0000
  }

  lemma JoinHead(c: char, parts: seq<string>)
    requires parts != []
    ensures Join([[c] + parts[0]] + parts[1..]) == [c] + Join(parts)
  {
    var longer := [[c] + parts[0]] + parts[1..];
    if |parts| > 1 {
      assert longer[1..] == parts[1..];
      assert [c] + (parts[0] + "." + Join(parts[1..])) == ([c] + parts[0]) + "." + Join(parts[1..]);
    }
  }

  lemma {:induction false} SplitJoins(s: string)
    ensures Join(Split(s)) == s
  {
    if s != "" {
      SplitJoins(s[1..]);
      var rest := Split(s[1..]);
      assert s == [s[0]] + s[1..];
      if s[0] == '.' {
        assert ([""] + rest)[1..] == rest;
      } else {
        JoinHead(s[0], rest);
      }
    }
  }

  lemma {:induction false} JoinSplits(parts: seq<string>)
    requires parts != [] && forall i | 0 <= i < |parts| :: AllDigits(parts[i])
    ensures Split(Join(parts)) == parts
  {
    if |parts| == 1 {
      SplitDigits(parts[0], "");
    } else {
      JoinSplits(parts[1..]);
      SplitDigits(parts[0], Join(parts[1..]));
    }
  }

  lemma {:induction false} ComponentsIff(parts: seq<string>, v: seq<nat>)
    ensures Components(parts) == Some(v) <==> |parts| == |v| && forall i | 0 <= i < |v| :: Number(parts[i], v[i])
  {
    if parts != [] && v != [] {
      var n, m := |parts| - 1, |v| - 1;
      ComponentsIff(parts[..n], v[..m]);
      assert v == v[..m] + [v[m]];
      if |parts| == |v| && forall i | 0 <= i < |v| :: Number(parts[i], v[i]) {
        assert forall i | 0 <= i < m :: Number(parts[..n][i], v[..m][i]);
      }
      if Components(parts) == Some(v) {
        assert Components(parts[..n]).value == v[..m];
      }
    }
  }

  /** The text is made of these numbers with dots between them. */
  ghost predicate DottedNumbers(s: string, v: seq<nat>) {
    exists parts :: |parts| == |v| > 0 && Join(parts) == s && forall i | 0 <= i < |v| :: Number(parts[i], v[i])
  }

  /** A text parses exactly when what is left of it after trimming, "v" and suffix is numbers with dots between them. */
  lemma ParseIff(s: string, v: seq<nat>)
    ensures Parse(s) == Some(v) <==> DottedNumbers(Body(s), v)
  {
    var parts := Split(Body(s));
    SplitJoins(Body(s));
    ComponentsIff(parts, v);
    if Parse(s) == Some(v) {
      assert |parts| == |v| && Join(parts) == Body(s);
    }
    if ps :| |ps| == |v| > 0 && Join(ps) == Body(s) && forall i | 0 <= i < |v| :: Number(ps[i], v[i]) {
      assert forall i | 0 <= i < |ps| :: Number(ps[i], v[i]);
      JoinSplits(ps);
      JoinNotEmpty(ps);
    }
  }

  lemma JoinNotEmpty(parts: seq<string>)
    requires parts != [] && parts[0] != ""
    ensures Join(parts) != ""
  { }

  lemma {:induction false} ComponentsPrefix(parts: seq<string>, i: nat)
    requires i <= |parts| && Components(parts).Some?
    ensures Components(parts[..i]).Some?
  {
    if i < |parts| {
      ComponentsPrefix(parts[..|parts| - 1], i);
      assert parts[..|parts| - 1][..i] == parts[..i];
    } else {
      assert parts[..i] == parts;
    }
  }

  method ParseVersion(v: string) returns (r: Option<seq<nat>>)
    ensures r == Parse(v)
  {
    if Body(v) == "" { return None; }
    var parts := Split(Body(v));
    var out := [];
    for i := 0 to |parts|
      invariant Components(parts[..i]) == Some(out)
    {
      assert parts[..i + 1][..i] == parts[..i];
      var n := Component(parts[i]);
      if n.None? {
        if Components(parts).Some? { ComponentsPrefix(parts, i + 1); }
        return None;
      }
      out := out + [n.value];
    }
    assert parts[..|parts|] == parts;
    return Some(out);
  }

  // ----- comparing -----

  /** A version extended with zeros. */
  function At(v: seq<nat>, i: nat): nat {
    if i < |v| then v[i] else 0
  }

  /** The first difference decides. */
  ghost predicate Newer(a: seq<nat>, b: seq<nat>) {
    exists i: nat :: NewerAt(a, b, i)
  }

  ghost predicate NewerAt(a: seq<nat>, b: seq<nat>, i: nat) {
    At(a, i) > At(b, i) && forall k | 0 <= k < i :: At(a, k) == At(b, k)
  }

  ghost predicate Same(a: seq<nat>, b: seq<nat>) {
    forall i: nat :: At(a, i) == At(b, i)
  }

  /** isNewerVersion: a development build accepts every valid version. */
  ghost predicate IsNewer(candidate: string, current: string) {
    Parse(candidate).Some? && (Parse(current).None? || Newer(Parse(candidate).value, Parse(current).value))
  }

  method IsNewerVersion(candidate: string, current: string) returns (newer: bool)
    ensures newer <==> IsNewer(candidate, current)
  {
    var c := ParseVersion(candidate);
    if c.None? { return false; }
    var cur := ParseVersion(current);
    if cur.None? { return true; }
    var i := 0;
    while i < |c.value| || i < |cur.value|
      invariant forall k | 0 <= k < i :: At(c.value, k) == At(cur.value, k)
      decreases |c.value| + |cur.value| - i
    {
      if At(c.value, i) != At(cur.value, i) {
        newer := At(c.value, i) > At(cur.value, i);
        assert NewerAt(c.value, cur.value, i) || NewerAt(cur.value, c.value, i);
        NewerIsAsymmetric(c.value, cur.value);
        return;
      }
      i := i + 1;
    }
    return false;
  }

  // ----- a strict weak order -----

  lemma NewerIsAsymmetric(a: seq<nat>, b: seq<nat>)
    ensures !(Newer(a, b) && Newer(b, a))
  { }

  lemma NewerIsTransitive(a: seq<nat>, b: seq<nat>, c: seq<nat>)
    requires Newer(a, b) && Newer(b, c)
    ensures Newer(a, c)
  {
    var i: nat :| NewerAt(a, b, i);
    var j: nat :| NewerAt(b, c, j);
    assert NewerAt(a, c, if i < j then i else j);
  }

  /** Up to position n the versions agree or one of them is newer. */
  lemma {:induction false} Compared(a: seq<nat>, b: seq<nat>, n: nat)
    ensures Newer(a, b) || Newer(b, a) || forall k | 0 <= k < n :: At(a, k) == At(b, k)
  {
    if n > 0 {
      Compared(a, b, n - 1);
      if !Newer(a, b) && !Newer(b, a) {
        assert !NewerAt(a, b, n - 1) && !NewerAt(b, a, n - 1);
      }
    }
  }

  /** Exactly one of newer, older and same holds, so "neither newer" is an equivalence. */
  lemma NewerOrSame(a: seq<nat>, b: seq<nat>)
    ensures Same(a, b) <==> !Newer(a, b) && !Newer(b, a)
  {
    Compared(a, b, |a| + |b|);
  }

  // ----- lexicographic order without trailing zeros -----

  function Canonical(v: seq<nat>): seq<nat> {
    if v != [] && v[|v| - 1] == 0 then Canonical(v[..|v| - 1]) else v
  }

  ghost predicate LexLess(a: seq<nat>, b: seq<nat>) {
    exists i :: 0 <= i <= |a| && i < |b| && a[..i] == b[..i] && (i == |a| || a[i] < b[i])
  }

  lemma {:induction false} CanonicalSame(v: seq<nat>)
    ensures Same(Canonical(v), v) && |Canonical(v)| <= |v|
    ensures Canonical(v) == [] || Canonical(v)[|Canonical(v)| - 1] != 0
  {
    if v != [] && v[|v| - 1] == 0 {
      CanonicalSame(v[..|v| - 1]);
      forall i: nat ensures At(v, i) == At(v[..|v| - 1], i) { }
    }
  }

  lemma NewerRespectsSame(a: seq<nat>, a': seq<nat>, b: seq<nat>, b': seq<nat>)
    requires Same(a, a') && Same(b, b') && Newer(a, b)
    ensures Newer(a', b')
  {
    var i: nat :| NewerAt(a, b, i);
    assert NewerAt(a', b', i);
  }

  lemma NewerImpliesLex(a: seq<nat>, b: seq<nat>)
    requires Newer(a, b)
    ensures LexLess(b, a)
  {
    var i: nat :| NewerAt(a, b, i);
    var j := if i < |b| then i else |b|;
    forall k | 0 <= k < j ensures a[k] == b[k] {
      assert At(a, k) == At(b, k);
    }
    assert b[..j] == a[..j];
  }

  lemma LexImpliesNewer(a: seq<nat>, b: seq<nat>)
    requires LexLess(b, a) && a[|a| - 1] != 0
    ensures Newer(a, b)
  {
    var i :| 0 <= i <= |b| && i < |a| && b[..i] == a[..i] && (i == |b| || b[i] < a[i]);
    forall k | 0 <= k < i ensures At(a, k) == At(b, k) {
      assert a[..i][k] == b[..i][k];
    }
    if i < |b| {
      assert NewerAt(a, b, i);
    } else {
      assert At(a, |a| - 1) != At(b, |a| - 1);
      NewerOrSame(a, b);
      if j: nat :| NewerAt(b, a, j) {
        assert false;
      }
    }
  }

  /** The comparison is the lexicographic order after dropping trailing zeros. */
  lemma NewerIsLexicographic(a: seq<nat>, b: seq<nat>)
    ensures Newer(a, b) <==> LexLess(Canonical(b), Canonical(a))
  {
    CanonicalSame(a);
    CanonicalSame(b);
    if Newer(a, b) {
      NewerRespectsSame(a, Canonical(a), b, Canonical(b));
      NewerImpliesLex(Canonical(a), Canonical(b));
    }
    if LexLess(Canonical(b), Canonical(a)) {
      LexImpliesNewer(Canonical(a), Canonical(b));
      NewerRespectsSame(Canonical(a), a, Canonical(b), b);
    }
  }

  // ----- chains of updates -----

  datatype Manifest = Manifest(os: string, arch: string, size: int, hashLength: nat, version: string)

  /** verifyManifest after the signature check. */
  ghost predicate AcceptsUpdate(m: Manifest, os: string, arch: string, current: string) {
    m.os == os && m.arch == arch && 0 < m.size <= MAX_BINARY_BYTES && m.hashLength == 64 && IsNewer(m.version, current)
  }

  /** The checks of verifyManifest in its order. */
  method VerifyManifest(m: Manifest, os: string, arch: string, current: string) returns (accepted: bool)
    ensures accepted <==> m.os == os && m.arch == arch && 1 <= m.size <= 256 * 1024 * 1024 && m.hashLength == 64
                          && Parse(m.version).Some?
                          && (Parse(current).None? || Newer(Parse(m.version).value, Parse(current).value))
    ensures accepted <==> AcceptsUpdate(m, os, arch, current)
  {
    if m.os != os || m.arch != arch { return false; }
    if m.size <= 0 || m.size > MAX_BINARY_BYTES { return false; }
    if m.hashLength != 2 * 32 { return false; }
    accepted := IsNewerVersion(m.version, current);
  }

  /** Each manifest was accepted by the version the previous one installed. */
  ghost predicate UpdateChain(first: string, ms: seq<Manifest>, os: string, arch: string) {
    forall i | 0 <= i < |ms| :: AcceptsUpdate(ms[i], os, arch, if i == 0 then first else ms[i - 1].version)
  }

  function Installed(first: string, ms: seq<Manifest>, i: nat): string
    requires i <= |ms|
  {
    if i == 0 then first else ms[i - 1].version
  }

  lemma ChainStep(first: string, ms: seq<Manifest>, os: string, arch: string, i: nat)
    requires UpdateChain(first, ms, os, arch) && i < |ms|
    ensures IsNewer(Installed(first, ms, i + 1), Installed(first, ms, i))
  {
    assert AcceptsUpdate(ms[i], os, arch, Installed(first, ms, i));
  }

  lemma CanonicalNotNewer(a: seq<nat>, b: seq<nat>)
    requires Newer(a, b)
    ensures Canonical(a) != Canonical(b)
  {
    CanonicalSame(a);
    CanonicalSame(b);
    NewerOrSame(a, b);
  }

  lemma {:induction false} StepsIncrease(vs: seq<seq<nat>>, i: nat, j: nat)
    requires forall k | 0 <= k < |vs| - 1 :: Newer(vs[k + 1], vs[k])
    requires i < j < |vs|
    ensures Newer(vs[j], vs[i])
  {
    if i < j - 1 {
      StepsIncrease(vs, i, j - 1);
      NewerIsTransitive(vs[j - 1 + 1], vs[j - 1], vs[i]);
    } else {
      assert Newer(vs[i + 1], vs[i]);
    }
  }

  /** From a release build every chain of updates strictly increases and repeats no version. */
  lemma UpdatesIncrease(first: string, ms: seq<Manifest>, os: string, arch: string)
    requires UpdateChain(first, ms, os, arch) && Parse(first).Some?
    ensures forall i | 0 <= i <= |ms| :: Parse(Installed(first, ms, i)).Some?
    ensures forall i, j | 0 <= i < j <= |ms| ::
              var vi, vj := Parse(Installed(first, ms, i)).value, Parse(Installed(first, ms, j)).value;
              Newer(vj, vi) && Canonical(vi) != Canonical(vj)
  {
    forall i | 0 <= i <= |ms| ensures Parse(Installed(first, ms, i)).Some? {
      if i > 0 { ChainStep(first, ms, os, arch, i - 1); }
    }
    var vs := seq(|ms| + 1, i requires 0 <= i <= |ms| => Parse(Installed(first, ms, i)).value);
    forall k | 0 <= k < |vs| - 1 ensures Newer(vs[k + 1], vs[k]) {
      ChainStep(first, ms, os, arch, k);
    }
    forall i, j | 0 <= i < j <= |ms|
      ensures var vi, vj := Parse(Installed(first, ms, i)).value, Parse(Installed(first, ms, j)).value;
              Newer(vj, vi) && Canonical(vi) != Canonical(vj)
    {
      StepsIncrease(vs, i, j);
      CanonicalNotNewer(vs[j], vs[i]);
    }
  }
}
