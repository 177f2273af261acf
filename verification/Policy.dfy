/**
 Sandbox policies: the YAML records, the wire records, and the two conversions between them.
 */
module Policy {
  import opened Text

  type u16 = x: nat | x < 0x1_0000
  type u32 = x: nat | x < 0x1_0000_0000

  // ---------------------------------------------------------------------------
  // Records.  Where the YAML and the wire form have the same fields, one record serves both.
  // ---------------------------------------------------------------------------

  datatype Filesystem = Filesystem(includeWorkdir: bool, readOnly: seq<string>, readWrite: seq<string>)
  datatype Landlock = Landlock(compatibility: string)
  datatype Process = Process(runAsUser: string, runAsGroup: string)

  datatype QueryMatcherDef = Glob(glob: string) | Any(any: seq<string>)
  datatype AllowDef = AllowDef(method_: string, path: string, command: string, query: map<string, QueryMatcherDef>)
  datatype EndpointDef = EndpointDef(
    host: string, port: u16, ports: seq<u16>, protocol: string, tls: string, enforcement: string, access: string,
    rules: seq<AllowDef>, allowedIps: seq<string>)
  datatype BinaryDef = BinaryDef(path: string, harness: bool)
  datatype RuleDef = RuleDef(name: string, endpoints: seq<EndpointDef>, binaries: seq<BinaryDef>)
  datatype PolicyFile = PolicyFile(
    version: u32, filesystem: Option<Filesystem>, landlock: Option<Landlock>, process: Option<Process>,
    networkPolicies: map<string, RuleDef>)

  datatype QueryMatcher = QueryMatcher(glob: string, any: seq<string>)
  datatype Allow = Allow(method_: string, path: string, command: string, query: map<string, QueryMatcher>)
  datatype Endpoint = Endpoint(
    host: string, port: u32, ports: seq<u32>, protocol: string, tls: string, enforcement: string, access: string,
    rules: seq<Option<Allow>>, allowedIps: seq<string>)
  datatype Binary = Binary(path: string, harness: bool)
  datatype Rule = Rule(name: string, endpoints: seq<Endpoint>, binaries: seq<Binary>)
  datatype SandboxPolicy = SandboxPolicy(
    version: u32, filesystem: Option<Filesystem>, landlock: Option<Landlock>, process: Option<Process>,
    networkPolicies: map<string, Rule>)

  function MapSeq<A, B>(f: A -> B, s: seq<A>): (r: seq<B>)
    ensures |r| == |s| && forall i | 0 <= i < |s| :: r[i] == f(s[i])
  {
    seq(|s|, i requires 0 <= i < |s| => f(s[i]))
  }

  // ---------------------------------------------------------------------------
  // YAML to wire
  // ---------------------------------------------------------------------------

  function ToMatcher(m: QueryMatcherDef): QueryMatcher {
    match m
    case Glob(glob) => QueryMatcher(glob, [])
    case Any(any) => QueryMatcher("", any)
  }

  function ToQuery(query: map<string, QueryMatcherDef>): map<string, QueryMatcher> {
    map k | k in query :: ToMatcher(query[k])
  }

  function ToAllow(a: AllowDef): Option<Allow> {
    Some(Allow(a.method_, a.path, a.command, ToQuery(a.query)))
  }

  function NormalPorts(e: EndpointDef): seq<u32> {
    if e.ports != [] then MapSeq((p: u16) => p as u32, e.ports)
    else if e.port > 0 then [e.port]
    else []
  }

  function ToEndpoint(e: EndpointDef): Endpoint {
    var ports := NormalPorts(e);
    Endpoint(e.host, if ports == [] then 0 else ports[0], ports, e.protocol, e.tls, e.enforcement, e.access,
             MapSeq(ToAllow, e.rules), e.allowedIps)
  }

  function ToBinary(b: BinaryDef): Binary {
    Binary(b.path, false)
  }

  function ToRule(key: string, r: RuleDef): Rule {
    Rule(if r.name == "" then key else r.name, MapSeq(ToEndpoint, r.endpoints), MapSeq(ToBinary, r.binaries))
  }

  function ToRules(rules: map<string, RuleDef>): map<string, Rule> {
    map k | k in rules :: ToRule(k, rules[k])
  }

  function ToProto(raw: PolicyFile): SandboxPolicy {
    SandboxPolicy(raw.version, raw.filesystem, raw.landlock, raw.process, ToRules(raw.networkPolicies))
  }

  // ---------------------------------------------------------------------------
  // Wire to YAML
  // ---------------------------------------------------------------------------

  function Clamp(v: u32): u16 {
    if v > 65535 then 65535 else v
  }

  function FromMatcher(m: QueryMatcher): QueryMatcherDef {
    if m.any != [] then Any(m.any) else Glob(m.glob)
  }

  function FromQuery(query: map<string, QueryMatcher>): map<string, QueryMatcherDef> {
    map k | k in query :: FromMatcher(query[k])
  }

  function FromAllow(allow: Option<Allow>): AllowDef {
    var a := if allow.Some? then allow.value else Allow("", "", "", map[]);
    AllowDef(a.method_, a.path, a.command, FromQuery(a.query))
  }

  function FromEndpoint(e: Endpoint): EndpointDef {
    var (port, ports) :=
      if |e.ports| > 1 then (0, MapSeq(Clamp, e.ports))
      else (Clamp(if e.ports == [] then e.port else e.ports[0]), []);
    EndpointDef(e.host, port, ports, e.protocol, e.tls, e.enforcement, e.access,
                MapSeq(FromAllow, e.rules), e.allowedIps)
  }

  function FromBinary(b: Binary): BinaryDef {
    BinaryDef(b.path, false)
  }

  function FromRule(r: Rule): RuleDef {
    RuleDef(r.name, MapSeq(FromEndpoint, r.endpoints), MapSeq(FromBinary, r.binaries))
  }

  function FromRules(rules: map<string, Rule>): map<string, RuleDef> {
    map k | k in rules :: FromRule(rules[k])
  }

  function FromProcess(p: Process): Option<Process> {
    if p.runAsUser == "" && p.runAsGroup == "" then None else Some(p)
  }

  function FromProto(p: SandboxPolicy): PolicyFile {
    PolicyFile(p.version, p.filesystem, p.landlock,
               if p.process.Some? then FromProcess(p.process.value) else None,
               FromRules(p.networkPolicies))
  }

  // ---------------------------------------------------------------------------
  // What the conversions keep, field by field
  // ---------------------------------------------------------------------------

  /** A matcher in its two forms: alternatives if there are any, else one glob. */
  predicate SameMatcher(d: QueryMatcherDef, m: QueryMatcher) {
    match d
    case Glob(glob) => m.glob == glob && m.any == []
    case Any(any) => m.glob == "" && m.any == any
  }

  ghost predicate SameAllow(d: AllowDef, a: Allow) {
    && a.method_ == d.method_ && a.path == d.path && a.command == d.command
    && a.query.Keys == d.query.Keys && forall k | k in d.query :: SameMatcher(d.query[k], a.query[k])
  }

  /** All that is not about ports. */
  ghost predicate SameTarget(d: EndpointDef, e: Endpoint) {
    && e.host == d.host && e.protocol == d.protocol && e.tls == d.tls
    && e.enforcement == d.enforcement && e.access == d.access && e.allowedIps == d.allowedIps
  }

  /** The ports that a file's entry stands for: the list, or else the single port unless it is zero. */
  predicate Listens(d: EndpointDef, ports: seq<u32>) {
    && |ports| == (if d.ports != [] then |d.ports| else if d.port == 0 then 0 else 1)
    && forall i | 0 <= i < |ports| :: ports[i] == if d.ports != [] then d.ports[i] else d.port
  }

  ghost predicate ParsedEndpoint(d: EndpointDef, e: Endpoint) {
    && SameTarget(d, e) && Listens(d, e.ports) && e.port == (if e.ports == [] then 0 else e.ports[0])
    && |e.rules| == |d.rules|
    && forall i | 0 <= i < |d.rules| :: e.rules[i].Some? && SameAllow(d.rules[i], e.rules[i].value)
  }

  ghost predicate ParsedRule(key: string, d: RuleDef, r: Rule) {
    && r.name == (if d.name == "" then key else d.name)
    && |r.endpoints| == |d.endpoints| && (forall i | 0 <= i < |d.endpoints| :: ParsedEndpoint(d.endpoints[i], r.endpoints[i]))
    && |r.binaries| == |d.binaries|
    && forall i | 0 <= i < |d.binaries| :: r.binaries[i].path == d.binaries[i].path && !r.binaries[i].harness
  }

  /**
   Parsing keeps every field, in order: a rule's name is its key if it has none, the ports are the list or
   else the single port, and whether a binary is a harness is forgotten.
   */
  lemma ParsingKeeps(raw: PolicyFile)
    ensures var p := ToProto(raw);
            && p.version == raw.version && p.filesystem == raw.filesystem
            && p.landlock == raw.landlock && p.process == raw.process
            && p.networkPolicies.Keys == raw.networkPolicies.Keys
            && forall k | k in raw.networkPolicies :: ParsedRule(k, raw.networkPolicies[k], p.networkPolicies[k])
  {
    forall k | k in raw.networkPolicies ensures ParsedRule(k, raw.networkPolicies[k], ToRule(k, raw.networkPolicies[k])) {
      var d := raw.networkPolicies[k];
      forall i | 0 <= i < |d.endpoints| ensures ParsedEndpoint(d.endpoints[i], ToEndpoint(d.endpoints[i])) {
      }
    }
  }

  /** A port that is too large for the file becomes the largest there is. */
  predicate Fits(v: u32, port: nat) {
    port == if v <= 65535 then v else 65535
  }

  /** One port is written as the single port, several as the list; without a list the single port is taken. */
  ghost predicate WrittenPorts(e: Endpoint, d: EndpointDef) {
    if |e.ports| > 1 then
      d.port == 0 && |d.ports| == |e.ports| && forall i | 0 <= i < |e.ports| :: Fits(e.ports[i], d.ports[i])
    else
      d.ports == [] && Fits(if |e.ports| == 1 then e.ports[0] else e.port, d.port)
  }

  /** A rule without its `allow` is written as one that says nothing; alternatives win over a glob. */
  ghost predicate WrittenAllow(allow: Option<Allow>, d: AllowDef) {
    match allow
    case None => d == AllowDef("", "", "", map[])
    case Some(a) =>
      && d.method_ == a.method_ && d.path == a.path && d.command == a.command
      && d.query.Keys == a.query.Keys
      && forall k | k in a.query :: d.query[k] == if a.query[k].any == [] then Glob(a.query[k].glob) else Any(a.query[k].any)
  }

  ghost predicate WrittenEndpoint(e: Endpoint, d: EndpointDef) {
    && SameTarget(d, e) && WrittenPorts(e, d)
    && |d.rules| == |e.rules| && forall i | 0 <= i < |e.rules| :: WrittenAllow(e.rules[i], d.rules[i])
  }

  ghost predicate WrittenRule(r: Rule, d: RuleDef) {
    && d.name == r.name
    && |d.endpoints| == |r.endpoints| && (forall i | 0 <= i < |r.endpoints| :: WrittenEndpoint(r.endpoints[i], d.endpoints[i]))
    && |d.binaries| == |r.binaries|
    && forall i | 0 <= i < |r.binaries| :: d.binaries[i].path == r.binaries[i].path && !d.binaries[i].harness
  }

  /** Writing keeps every field, in order, but an identity without a user and a group, which is left out. */
  lemma WritingKeeps(p: SandboxPolicy)
    ensures var raw := FromProto(p);
            && raw.version == p.version && raw.filesystem == p.filesystem && raw.landlock == p.landlock
            && raw.process == (if p.process == Some(Process("", "")) then None else p.process)
            && raw.networkPolicies.Keys == p.networkPolicies.Keys
            && forall k | k in p.networkPolicies :: WrittenRule(p.networkPolicies[k], raw.networkPolicies[k])
  {
    forall k | k in p.networkPolicies ensures WrittenRule(p.networkPolicies[k], FromRule(p.networkPolicies[k])) {
      var r := p.networkPolicies[k];
      forall i | 0 <= i < |r.endpoints| ensures WrittenEndpoint(r.endpoints[i], FromEndpoint(r.endpoints[i])) {
        WritingKeepsEndpoint(r.endpoints[i]);
      }
    }
  }

  lemma WritingKeepsEndpoint(e: Endpoint)
    ensures WrittenEndpoint(e, FromEndpoint(e))
  {
    forall i | 0 <= i < |e.rules| ensures WrittenAllow(e.rules[i], FromAllow(e.rules[i])) {
      assert e.rules[i].None? ==> FromAllow(e.rules[i]).query == map[];
    }
  }

  // ---------------------------------------------------------------------------
  // Saving and reading back
  // ---------------------------------------------------------------------------

  /** What becomes of a policy that is serialized and parsed again. */
  function Normalized(p: SandboxPolicy): SandboxPolicy {
    ToProto(FromProto(p))
  }

  function NormalizedAllow(a: Option<Allow>): Option<Allow> {
    ToAllow(FromAllow(a))
  }

  function NormalizedEndpoint(e: Endpoint): Endpoint {
    ToEndpoint(FromEndpoint(e))
  }

  function NormalizedRule(key: string, r: Rule): Rule {
    ToRule(key, FromRule(r))
  }

  lemma ParsedQueryKept(query: map<string, QueryMatcherDef>)
    ensures ToQuery(FromQuery(ToQuery(query))) == ToQuery(query)
  {
    var once, twice := ToQuery(query), ToQuery(FromQuery(ToQuery(query)));
    assert twice.Keys == once.Keys;
    assert twice == once;
  }

  lemma AllowTwice(a: Option<Allow>)
    ensures NormalizedAllow(NormalizedAllow(a)) == NormalizedAllow(a)
  {
    ParsedQueryKept(FromAllow(a).query);
  }

  /** The ports, taken from `ports` or else from `port`, clamped, with a lone zero dropped. */
  lemma PortsOf(e: Endpoint)
    ensures var n := NormalizedEndpoint(e);
            && (|e.ports| > 1 ==> n.ports == MapSeq(Clamp, e.ports))
            && (|e.ports| <= 1 ==>
                  var v := Clamp(if e.ports == [] then e.port else e.ports[0]);
                  n.ports == if v == 0 then [] else [v])
            && n.port == if n.ports == [] then 0 else n.ports[0]
  {
  }

  lemma PortsTwice(e: Endpoint)
    ensures NormalizedEndpoint(NormalizedEndpoint(e)).ports == NormalizedEndpoint(e).ports
    ensures NormalizedEndpoint(NormalizedEndpoint(e)).port == NormalizedEndpoint(e).port
  {
    PortsOf(e);
    var n := NormalizedEndpoint(e);
    PortsOf(n);
    assert |n.ports| > 1 ==> MapSeq(Clamp, n.ports) == n.ports;
  }

  lemma EndpointTwice(e: Endpoint)
    ensures NormalizedEndpoint(NormalizedEndpoint(e)) == NormalizedEndpoint(e)
  {
    PortsTwice(e);
    var n := NormalizedEndpoint(e);
    var nn := NormalizedEndpoint(n);
    forall i | 0 <= i < |e.rules| ensures nn.rules[i] == n.rules[i] {
      AllowTwice(e.rules[i]);
    }
    assert nn.rules == n.rules;
  }

  lemma RuleTwice(key: string, r: Rule)
    ensures NormalizedRule(key, NormalizedRule(key, r)) == NormalizedRule(key, r)
  {
    var n := NormalizedRule(key, r);
    var nn := NormalizedRule(key, n);
    forall i | 0 <= i < |r.endpoints| ensures nn.endpoints[i] == n.endpoints[i] {
      EndpointTwice(r.endpoints[i]);
    }
    assert nn.endpoints == n.endpoints && nn.binaries == n.binaries;
  }

  function NormalizedRules(rules: map<string, Rule>): (n: map<string, Rule>)
    ensures n.Keys == rules.Keys && forall k | k in rules :: n[k] == NormalizedRule(k, rules[k])
  {
    ToRules(FromRules(rules))
  }

  lemma RulesTwice(rules: map<string, Rule>)
    ensures NormalizedRules(NormalizedRules(rules)) == NormalizedRules(rules)
  {
    var once, twice := NormalizedRules(rules), NormalizedRules(NormalizedRules(rules));
    forall k | k in once ensures twice[k] == once[k] {
      RuleTwice(k, rules[k]);
    }
  }

  /** Saving and reading back is a projection: doing it twice is doing it once, for every policy. */
  lemma NormalizationIsProjection(p: SandboxPolicy)
    ensures Normalized(Normalized(p)) == Normalized(p)
  {
    RulesTwice(p.networkPolicies);
  }

  /** An `allow` after saving and reading back: one that says nothing if it was missing, else itself up to its matchers. */
  ghost predicate KeptAllow(before: Option<Allow>, after: Option<Allow>) {
    && after.Some?
    && match before
       case None => after.value == Allow("", "", "", map[])
       case Some(a) =>
         && after.value.method_ == a.method_ && after.value.path == a.path && after.value.command == a.command
         && after.value.query.Keys == a.query.Keys
         && forall k | k in a.query ::
              after.value.query[k] == if a.query[k].any == [] then a.query[k] else a.query[k].(glob := "")
  }

  /** The ports after saving and reading back. */
  ghost predicate KeptPorts(e: Endpoint, n: Endpoint) {
    && n.port == (if n.ports == [] then 0 else n.ports[0])
    && if |e.ports| > 1 then
         |n.ports| == |e.ports| && forall i | 0 <= i < |e.ports| :: Fits(e.ports[i], n.ports[i])
       else
         var v := if |e.ports| == 1 then e.ports[0] else e.port;
         if v == 0 then n.ports == [] else |n.ports| == 1 && Fits(v, n.ports[0])
  }

  /** An endpoint after saving and reading back: only its ports, and its rules' missing parts, may differ. */
  ghost predicate KeptEndpoint(e: Endpoint, n: Endpoint) {
    && n == e.(port := n.port, ports := n.ports, rules := n.rules)
    && KeptPorts(e, n)
    && |n.rules| == |e.rules| && forall i | 0 <= i < |e.rules| :: KeptAllow(e.rules[i], n.rules[i])
  }

  ghost predicate KeptRule(key: string, r: Rule, n: Rule) {
    && n.name == (if r.name == "" then key else r.name)
    && |n.endpoints| == |r.endpoints| && (forall i | 0 <= i < |r.endpoints| :: KeptEndpoint(r.endpoints[i], n.endpoints[i]))
    && |n.binaries| == |r.binaries| && forall i | 0 <= i < |r.binaries| :: n.binaries[i] == r.binaries[i].(harness := false)
  }

  /**
   What saving and reading back makes of a policy, against the policy itself: everything is as it was,
   except an empty identity, empty rule names, ports, missing `allow`s, globs beside alternatives, and
   the mark of a harness.
   */
  lemma NormalizedKeeps(p: SandboxPolicy)
    ensures var n := Normalized(p);
            && n == p.(process := n.process, networkPolicies := n.networkPolicies)
            && n.process == (if p.process == Some(Process("", "")) then None else p.process)
            && n.networkPolicies.Keys == p.networkPolicies.Keys
            && forall k | k in p.networkPolicies :: KeptRule(k, p.networkPolicies[k], n.networkPolicies[k])
  {
    forall k | k in p.networkPolicies ensures KeptRule(k, p.networkPolicies[k], NormalizedRule(k, p.networkPolicies[k])) {
      NormalizedKeepsRule(k, p.networkPolicies[k]);
    }
  }

  lemma NormalizedKeepsRule(key: string, r: Rule)
    ensures KeptRule(key, r, NormalizedRule(key, r))
  {
    forall i | 0 <= i < |r.endpoints| ensures KeptEndpoint(r.endpoints[i], NormalizedEndpoint(r.endpoints[i])) {
      NormalizedKeepsEndpoint(r.endpoints[i]);
    }
  }

  lemma NormalizedKeepsEndpoint(e: Endpoint)
    ensures KeptEndpoint(e, NormalizedEndpoint(e))
  {
    PortsOf(e);
    forall i | 0 <= i < |e.rules| ensures KeptAllow(e.rules[i], NormalizedAllow(e.rules[i])) {
      NormalizedKeepsAllow(e.rules[i]);
    }
  }

  lemma NormalizedKeepsAllow(a: Option<Allow>)
    ensures KeptAllow(a, NormalizedAllow(a))
  {
    if a.None? {
      assert NormalizedAllow(a).value.query == map[];
    }
  }

  // ---------------------------------------------------------------------------
  // Process identity
  // ---------------------------------------------------------------------------

  const SANDBOX := "sandbox"

  function WithIdentity(p: SandboxPolicy): SandboxPolicy {
    var process := if p.process.Some? then p.process.value else Process("", "");
    p.(process := Some(Process(if process.runAsUser == "" then SANDBOX else process.runAsUser,
                               if process.runAsGroup == "" then SANDBOX else process.runAsGroup)))
  }

  /** Fill in the identity a policy leaves out, and nothing else. */
  method EnsureSandboxProcessIdentity(policy: SandboxPolicy) returns (policy': SandboxPolicy)
    ensures policy' == WithIdentity(policy)
    ensures WithIdentity(policy') == policy'
    ensures policy' == policy.(process := policy'.process) && policy'.process.Some?
    ensures var before, after := policy.process, policy'.process.value;
            && after.runAsUser == (if before.Some? && before.value.runAsUser != "" then before.value.runAsUser else "sandbox")
            && after.runAsGroup == (if before.Some? && before.value.runAsGroup != "" then before.value.runAsGroup else "sandbox")
  {
    var process := Process("", "");
    if policy.process.Some? {
      process := policy.process.value;
    }
    if process.runAsUser == "" {
      process := process.(runAsUser := SANDBOX);
    }
    if process.runAsGroup == "" {
      process := process.(runAsGroup := SANDBOX);
    }
    policy' := policy.(process := Some(process));
  }

  // ---------------------------------------------------------------------------
  // Parsed policies survive
  // ---------------------------------------------------------------------------

  /** The endpoint's only port is zero. */
  predicate LoneZeroPort(e: Endpoint) {
    e.ports == [0]
  }

  ghost predicate HasLoneZeroPort(p: SandboxPolicy) {
    exists k, i | k in p.networkPolicies && 0 <= i < |p.networkPolicies[k].endpoints| ::
      LoneZeroPort(p.networkPolicies[k].endpoints[i])
  }

  lemma ParsedAllowKept(a: AllowDef)
    ensures NormalizedAllow(ToAllow(a)) == ToAllow(a)
  {
    ParsedQueryKept(a.query);
  }

  lemma ParsedPortsKept(d: EndpointDef)
    ensures var e := ToEndpoint(d); var n := NormalizedEndpoint(e);
            && (LoneZeroPort(e) ==> n.ports == [])
            && (!LoneZeroPort(e) ==> n.ports == e.ports && n.port == e.port)
  {
    var e := ToEndpoint(d);
    PortsOf(e);
    assert |e.ports| > 1 ==> MapSeq(Clamp, e.ports) == e.ports;
    if |e.ports| == 1 && e.ports[0] == 0 {
      assert e.ports == [0];
    }
  }

  lemma ParsedEndpointKept(d: EndpointDef)
    ensures NormalizedEndpoint(ToEndpoint(d)) == ToEndpoint(d) <==> !LoneZeroPort(ToEndpoint(d))
  {
    ParsedPortsKept(d);
    var e := ToEndpoint(d);
    var n := NormalizedEndpoint(e);
    forall i | 0 <= i < |d.rules| ensures n.rules[i] == e.rules[i] {
      ParsedAllowKept(d.rules[i]);
    }
    assert n.rules == e.rules;
  }

  lemma ParsedRuleKept(key: string, d: RuleDef)
    ensures var r := ToRule(key, d);
            NormalizedRule(key, r) == r <==> forall i | 0 <= i < |r.endpoints| :: !LoneZeroPort(r.endpoints[i])
  {
    var r := ToRule(key, d);
    var n := NormalizedRule(key, r);
    forall i | 0 <= i < |r.endpoints|
      ensures n.endpoints[i] == r.endpoints[i] <==> !LoneZeroPort(r.endpoints[i])
    {
      ParsedEndpointKept(d.endpoints[i]);
    }
    assert n.binaries == r.binaries;
    if forall i | 0 <= i < |r.endpoints| :: !LoneZeroPort(r.endpoints[i]) {
      assert n.endpoints == r.endpoints;
    }
  }

  /**
   Save and reload keeps a parsed policy, up to the identity that is filled in anyway, if and only if
   no endpoint's only port is zero.
   */
  lemma SaveAndReload(raw: PolicyFile)
    ensures var p := ToProto(raw); WithIdentity(Normalized(p)) == WithIdentity(p) <==> !HasLoneZeroPort(p)
  {
    var p := ToProto(raw);
    var before := p.networkPolicies;
    var after := NormalizedRules(before);
    forall k | k in before
      ensures after[k] == before[k] <==> forall i | 0 <= i < |before[k].endpoints| :: !LoneZeroPort(before[k].endpoints[i])
    {
      ParsedRuleKept(k, raw.networkPolicies[k]);
    }
    if !HasLoneZeroPort(p) {
      assert after == before;
    }
  }
}
