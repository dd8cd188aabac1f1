/** Promoting a tested candidate to a release: systemtests/releasecontract/contract.go. */
module Promotion {
  import opened Outcomes
  import opened Ordering
  import opened GateKey

  type Bytes = seq<bv8>

  // ----- records (systemtests/releasecontract/types.go) -----

  datatype DigestReference = DigestReference(uri: string, digest: string)
  datatype Component = Component(name: string, repository: string, gitCommit: string, image: Option<string>)
  datatype Module = Module(path: string, version: string, sum: string)
  datatype Contract = Contract(name: string, version: int, architectureRepository: string, architectureCommit: string)
  datatype ResolvedSet = ResolvedSet(components: seq<Component>, modules: seq<Module>, contracts: seq<Contract>)
  datatype Candidate = Candidate(
    schema: string, schemaVersion: int, release: string, status: string,
    components: seq<Component>, modules: seq<Module>, contracts: seq<Contract>)
  datatype BuildProvenance = BuildProvenance(repository: string, sourceCommit: string, run: string, attestationDigest: string)
  datatype ComponentProvenance = ComponentProvenance(
    name: string, repository: string, gitCommit: string, artifact: DigestReference, build: BuildProvenance)
  datatype ModuleSource = ModuleSource(repository: string, gitCommit: string, run: string)
  datatype ModuleProvenance = ModuleProvenance(path: string, version: string, sum: string, source: ModuleSource)
  datatype CandidateProvenance = CandidateProvenance(
    schema: string, schemaVersion: int, release: string, candidateDigest: string,
    components: seq<ComponentProvenance>, modules: seq<ModuleProvenance>)
  datatype TestSuite = TestSuite(repository: string, gitCommit: string, run: string)
  datatype SystemTestEvidence = SystemTestEvidence(
    schema: string, schemaVersion: int, candidateDigest: string, result: string, suite: TestSuite)
  datatype PromotionProvenance = PromotionProvenance(repository: string, run: string, approvedBy: string)
  datatype PromotionRequest = PromotionRequest(
    schema: string, schemaVersion: int, candidate: DigestReference, candidateProvenance: DigestReference,
    systemTestEvidence: DigestReference, promotion: PromotionProvenance)
  datatype SystemTestProvenance = SystemTestProvenance(evidence: DigestReference, repository: string, gitCommit: string, run: string)
  datatype ReleaseProvenance = ReleaseProvenance(
    candidateProvenance: DigestReference, systemTests: SystemTestProvenance, promotion: PromotionProvenance)
  datatype ReleasedEnvelope = ReleasedEnvelope(
    schema: string, schemaVersion: int, release: string, status: string, candidate: DigestReference,
    resolved: ResolvedSet, provenance: ReleaseProvenance)
  datatype Resolution = Resolution(
    environmentClass: string, sourceKind: string, record: DigestReference, release: string, candidateDigest: string,
    resolved: ResolvedSet, provenance: ReleaseProvenance)

  /** The regular expressions of the contract, and SHA-256 over raw records. */
  datatype Rules = Rules(
    digest: string -> bool, commit: string -> bool, release: string -> bool, repository: string -> bool,
    artifact: string -> bool, blob: string -> bool, version: string -> bool, sum: string -> bool,
    run: (string, string) -> bool, artifactDigest: string -> string, archive: (string, string, string, string) -> bool,
    sha: Bytes -> string)

  function ComponentName(c: Component): string { c.name }
  function ComponentRepository(c: Component): string { c.repository }
  function ModulePath(m: Module): string { m.path }
  function ContractName(c: Contract): string { c.name }
  function ProvenanceName(p: ComponentProvenance): string { p.name }
  function ProvenancePath(p: ModuleProvenance): string { p.path }

  // ----- candidates -----

  predicate ComponentAccepted(rules: Rules, c: Component) {
    && rules.release(c.name) && rules.repository(c.repository) && rules.commit(c.gitCommit)
    && (c.image.Some? ==> rules.artifact(c.image.value))
  }

  predicate ModuleAccepted(rules: Rules, m: Module) {
    m.path != "" && rules.version(m.version) && rules.sum(m.sum)
  }

  predicate ContractAccepted(rules: Rules, c: Contract) {
    c.name != "" && c.version >= 1 && c.architectureRepository == "endless-net/architecture" && rules.commit(c.architectureCommit)
  }

  ghost predicate ModulesAccepted(rules: Rules, modules: seq<Module>) {
    (forall m | m in modules :: ModuleAccepted(rules, m)) && DistinctBy(modules, ModulePath)
  }

  ghost predicate ContractsAccepted(rules: Rules, contracts: seq<Contract>) {
    (forall c | c in contracts :: ContractAccepted(rules, c)) && DistinctBy(contracts, ContractName)
  }

  ghost predicate ComponentsAccepted(rules: Rules, components: seq<Component>) {
    && (forall c | c in components :: ComponentAccepted(rules, c))
    && DistinctBy(components, ComponentName) && DistinctBy(components, ComponentRepository)
  }

  ghost predicate CandidateAccepted(rules: Rules, c: Candidate) {
    && c.schemaVersion == 1 && rules.release(c.release) && c.status == "candidate"
    && c.components != []
    && ComponentsAccepted(rules, c.components) && ModulesAccepted(rules, c.modules) && ContractsAccepted(rules, c.contracts)
  }

  method CheckComponents(rules: Rules, components: seq<Component>) returns (ok: bool)
    ensures ok <==> ComponentsAccepted(rules, components)
  {
    hide ComponentAccepted;
    var names: set<string>, repositories: set<string> := {}, {};
    for i := 0 to |components|
      invariant forall j | 0 <= j < i :: ComponentAccepted(rules, components[j])
      invariant names == set x | x in Map(components[..i], ComponentName)
      invariant repositories == set x | x in Map(components[..i], ComponentRepository)
      invariant DistinctBy(components[..i], ComponentName) && DistinctBy(components[..i], ComponentRepository)
    {
      var c := components[i];
      assert c in components;
      NextElement(components, i, ComponentName);
      NextElement(components, i, ComponentRepository);
      if !ComponentAccepted(rules, c) || c.name in names || c.repository in repositories {
        return false;
      }
      names, repositories := names + {c.name}, repositories + {c.repository};
    }
    assert components[..|components|] == components;
    return true;
  }

  /** One more element keeps a list free of repetition exactly if its identifier is new. */
  lemma NextElement<T(!new)>(s: seq<T>, i: nat, id: T -> string)
    requires i < |s| && DistinctBy(s[..i], id)
    ensures Map(s[..i + 1], id) == Map(s[..i], id) + [id(s[i])]
    ensures id(s[i]) !in Map(s[..i], id) ==> DistinctBy(s[..i + 1], id)
    ensures id(s[i]) in Map(s[..i], id) ==> !DistinctBy(s, id)
  {
    MapMember(s[..i], id, id(s[i]));
    if id(s[i]) in Map(s[..i], id) {
      var j :| 0 <= j < i && Map(s[..i], id)[j] == id(s[i]);
      assert id(s[j]) == id(s[i]);
    } else {
      DistinctSnoc(s[..i], s[i], id);
      assert s[..i + 1] == s[..i] + [s[i]];
    }
  }

  method CheckModules(rules: Rules, modules: seq<Module>) returns (ok: bool)
    ensures ok <==> ModulesAccepted(rules, modules)
  {
    hide ModuleAccepted;
    var paths: set<string> := {};
    for i := 0 to |modules|
      invariant forall j | 0 <= j < i :: ModuleAccepted(rules, modules[j])
      invariant paths == set x | x in Map(modules[..i], ModulePath)
      invariant DistinctBy(modules[..i], ModulePath)
    {
      assert modules[i] in modules;
      NextElement(modules, i, ModulePath);
      if !ModuleAccepted(rules, modules[i]) || modules[i].path in paths {
        return false;
      }
      paths := paths + {modules[i].path};
    }
    assert modules[..|modules|] == modules;
    return true;
  }

  method CheckContracts(rules: Rules, contracts: seq<Contract>) returns (ok: bool)
    ensures ok <==> ContractsAccepted(rules, contracts)
  {
    hide ContractAccepted;
    var names: set<string> := {};
    for i := 0 to |contracts|
      invariant forall j | 0 <= j < i :: ContractAccepted(rules, contracts[j])
      invariant names == set x | x in Map(contracts[..i], ContractName)
      invariant DistinctBy(contracts[..i], ContractName)
    {
      assert contracts[i] in contracts;
      NextElement(contracts, i, ContractName);
      if !ContractAccepted(rules, contracts[i]) || contracts[i].name in names {
        return false;
      }
      names := names + {contracts[i].name};
    }
    assert contracts[..|contracts|] == contracts;
    return true;
  }

  method ValidateCandidate(rules: Rules, c: Candidate) returns (ok: bool)
    ensures ok <==> CandidateAccepted(rules, c)
  {
    hide ComponentsAccepted, ModulesAccepted, ContractsAccepted;
    if c.schemaVersion != 1 || !rules.release(c.release) || c.status != "candidate" || |c.components| == 0 {
      return false;
    }
    ok := CheckComponents(rules, c.components);
    if ok { ok := CheckModules(rules, c.modules); }
    if ok { ok := CheckContracts(rules, c.contracts); }
  }

  // ----- provenance -----

  predicate ComponentBacked(rules: Rules, c: Component, item: ComponentProvenance) {
    && item.name == c.name && c.image.Some?
    && item.repository == c.repository && item.gitCommit == c.gitCommit
    && item.artifact.uri == c.image.value && item.artifact.digest == rules.artifactDigest(c.image.value)
    && item.build.repository == c.repository && item.build.sourceCommit == c.gitCommit
    && rules.run(c.repository, item.build.run) && rules.digest(item.build.attestationDigest)
  }

  predicate ModuleBacked(rules: Rules, m: Module, item: ModuleProvenance) {
    && item.path == m.path && item.version == m.version && item.sum == m.sum
    && rules.repository(item.source.repository) && rules.commit(item.source.gitCommit)
    && rules.run(item.source.repository, item.source.run)
  }

  ghost predicate ComponentsBacked(rules: Rules, components: seq<Component>, items: seq<ComponentProvenance>) {
    && |items| == |components| && DistinctBy(items, ProvenanceName)
    && forall c | c in components :: exists item | item in items :: ComponentBacked(rules, c, item)
  }

  ghost predicate ModulesBacked(rules: Rules, modules: seq<Module>, items: seq<ModuleProvenance>) {
    && |items| == |modules| && DistinctBy(items, ProvenancePath)
    && forall m | m in modules :: exists item | item in items :: ModuleBacked(rules, m, item)
  }

  ghost predicate ProvenanceAccepted(rules: Rules, c: Candidate, digest: string, p: CandidateProvenance) {
    && CandidateAccepted(rules, c)
    && rules.digest(digest) && p.schemaVersion == 1 && p.release == c.release && p.candidateDigest == digest
    && ComponentsBacked(rules, c.components, p.components)
    && ModulesBacked(rules, c.modules, p.modules)
  }

  /** Builds the lookup table of provenance records, unless two have one name. */
  method IndexBy<T(!new)>(items: seq<T>, id: T -> string) returns (index: Option<map<string, T>>)
    ensures index.Some? <==> DistinctBy(items, id)
    ensures index.Some? ==> forall k :: k in index.value <==> exists x | x in items :: id(x) == k
    ensures index.Some? ==> forall x | x in items :: id(x) in index.value && index.value[id(x)] == x
  {
    var table: map<string, T> := map[];
    for i := 0 to |items|
      invariant forall k :: k in table <==> k in Map(items[..i], id)
      invariant forall j | 0 <= j < i :: id(items[j]) in table && table[id(items[j])] == items[j]
      invariant DistinctBy(items[..i], id)
    {
      NextElement(items, i, id);
      if id(items[i]) in table {
        return None;
      }
      assert forall j | 0 <= j < i :: Map(items[..i], id)[j] == id(items[j]);
      table := table[id(items[i]) := items[i]];
    }
    assert items[..|items|] == items;
    forall k
      ensures k in table <==> exists x | x in items :: id(x) == k
    {
      MapMember(items, id, k);
    }
    return Some(table);
  }

  method CheckComponentsBacked(rules: Rules, components: seq<Component>, items: seq<ComponentProvenance>) returns (ok: bool)
    requires |items| == |components|
    ensures ok <==> ComponentsBacked(rules, components, items)
  {
    hide DistinctBy;
    var index := IndexBy(items, ProvenanceName);
    if index.None? {
      return false;
    }
    for i := 0 to |components|
      invariant forall j | 0 <= j < i :: exists item | item in items :: ComponentBacked(rules, components[j], item)
    {
      assert components[i] in components;
      var name := components[i].name;
      if name !in index.value || !ComponentBacked(rules, components[i], index.value[name]) {
        forall item | item in items
          ensures !ComponentBacked(rules, components[i], item)
        {
          assert ProvenanceName(item) == item.name;
        }
        return false;
      }
      var item :| item in items && ProvenanceName(item) == name;
      assert index.value[ProvenanceName(item)] == item;
    }
    return true;
  }

  method CheckModulesBacked(rules: Rules, modules: seq<Module>, items: seq<ModuleProvenance>) returns (ok: bool)
    requires |items| == |modules|
    ensures ok <==> ModulesBacked(rules, modules, items)
  {
    hide DistinctBy;
    var index := IndexBy(items, ProvenancePath);
    if index.None? {
      return false;
    }
    for i := 0 to |modules|
      invariant forall j | 0 <= j < i :: exists item | item in items :: ModuleBacked(rules, modules[j], item)
    {
      assert modules[i] in modules;
      var path := modules[i].path;
      if path !in index.value || !ModuleBacked(rules, modules[i], index.value[path]) {
        forall item | item in items
          ensures !ModuleBacked(rules, modules[i], item)
        {
          assert ProvenancePath(item) == item.path;
        }
        return false;
      }
      var item :| item in items && ProvenancePath(item) == path;
      assert index.value[ProvenancePath(item)] == item;
    }
    return true;
  }

  method ValidateCandidateProvenance(rules: Rules, c: Candidate, digest: string, p: CandidateProvenance) returns (ok: bool)
    ensures ok <==> ProvenanceAccepted(rules, c, digest, p)
  {
    hide CandidateAccepted;
    ok := ValidateCandidate(rules, c);
    if !ok || !rules.digest(digest) || p.schemaVersion != 1 || p.release != c.release || p.candidateDigest != digest
       || |p.components| != |c.components| || |p.modules| != |c.modules| {
      return false;
    }
    ok := CheckComponentsBacked(rules, c.components, p.components);
    if ok { ok := CheckModulesBacked(rules, c.modules, p.modules); }
  }

  /** Accepted provenance names exactly the candidate's components and modules: nothing is missing and
      nothing is extra, although only one direction and the lengths are checked. */
  lemma ProvenanceCoversExactly(rules: Rules, c: Candidate, digest: string, p: CandidateProvenance)
    requires ProvenanceAccepted(rules, c, digest, p)
    ensures rules.digest(digest) && p.candidateDigest == digest && p.release == c.release && p.schemaVersion == 1
    ensures SamePermutation(Map(p.components, ProvenanceName), Map(c.components, ComponentName))
    ensures SamePermutation(Map(p.modules, ProvenancePath), Map(c.modules, ModulePath))
    ensures forall item | item in p.components :: exists comp | comp in c.components :: ComponentBacked(rules, comp, item)
    ensures forall item | item in p.modules :: exists m | m in c.modules :: ModuleBacked(rules, m, item)
  {
    ComponentsCover(rules, c.components, p.components);
    ModulesCover(rules, c.modules, p.modules);
  }

  lemma ComponentsCover(rules: Rules, components: seq<Component>, items: seq<ComponentProvenance>)
    requires ComponentsAccepted(rules, components) && ComponentsBacked(rules, components, items)
    ensures SamePermutation(Map(items, ProvenanceName), Map(components, ComponentName))
    ensures forall item | item in items :: exists c | c in components :: ComponentBacked(rules, c, item)
  {
    hide ComponentAccepted, DistinctBy, SamePermutation;
    var names, given := Map(components, ComponentName), Map(items, ProvenanceName);
    DistinctMap(components, ComponentName);
    DistinctMap(items, ProvenanceName);
    forall x | x in names
      ensures x in given
    {
      MapMember(components, ComponentName, x);
      var c :| c in components && ComponentName(c) == x;
      var item :| item in items && ComponentBacked(rules, c, item);
      assert ProvenanceName(item) == x;
      MapMember(items, ProvenanceName, x);
    }
    SubsetSameLengthPermutes(names, given);
    MembersOfPermutation(names, given);
    assert SamePermutation(given, names) by { PermutationSymmetric(names, given); }
    forall item | item in items
      ensures exists c | c in components :: ComponentBacked(rules, c, item)
    {
      MapMember(items, ProvenanceName, item.name);
      MapMember(components, ComponentName, item.name);
      assert ProvenanceName(item) == item.name;
      var c :| c in components && ComponentName(c) == item.name;
      var other :| other in items && ComponentBacked(rules, c, other);
      SameId(items, ProvenanceName, item, other);
    }
  }

  lemma ModulesCover(rules: Rules, modules: seq<Module>, items: seq<ModuleProvenance>)
    requires ModulesAccepted(rules, modules) && ModulesBacked(rules, modules, items)
    ensures SamePermutation(Map(items, ProvenancePath), Map(modules, ModulePath))
    ensures forall item | item in items :: exists m | m in modules :: ModuleBacked(rules, m, item)
  {
    hide ModuleAccepted, DistinctBy, SamePermutation;
    var paths, given := Map(modules, ModulePath), Map(items, ProvenancePath);
    DistinctMap(modules, ModulePath);
    DistinctMap(items, ProvenancePath);
    forall x | x in paths
      ensures x in given
    {
      MapMember(modules, ModulePath, x);
      var m :| m in modules && ModulePath(m) == x;
      var item :| item in items && ModuleBacked(rules, m, item);
      assert ProvenancePath(item) == x;
      MapMember(items, ProvenancePath, x);
    }
    SubsetSameLengthPermutes(paths, given);
    MembersOfPermutation(paths, given);
    assert SamePermutation(given, paths) by { PermutationSymmetric(paths, given); }
    forall item | item in items
      ensures exists m | m in modules :: ModuleBacked(rules, m, item)
    {
      MapMember(items, ProvenancePath, item.path);
      MapMember(modules, ModulePath, item.path);
      assert ProvenancePath(item) == item.path;
      var m :| m in modules && ModulePath(m) == item.path;
      var other :| other in items && ModuleBacked(rules, m, other);
      SameId(items, ProvenancePath, item, other);
    }
  }

  lemma PermutationSymmetric(a: seq<string>, b: seq<string>)
    requires SamePermutation(a, b)
    ensures SamePermutation(b, a)
  {
  }

  // ----- envelopes -----

  predicate ReferenceAccepted(rules: Rules, r: DigestReference) {
    rules.digest(r.digest) && (rules.blob(r.uri) || rules.artifact(r.uri))
  }

  predicate EvidencePassed(rules: Rules, digest: string, e: SystemTestEvidence) {
    && e.schemaVersion == 1 && e.candidateDigest == digest && e.result == "passed"
    && e.suite.repository == "endless-net/system-tests" && rules.commit(e.suite.gitCommit)
    && rules.run(e.suite.repository, e.suite.run)
  }

  function Resolved(c: Candidate): ResolvedSet {
    ResolvedSet(c.components, c.modules, c.contracts)
  }

  /** The records a promotion starts from. */
  datatype Inputs = Inputs(
    candidate: Candidate, candidateRaw: Bytes, provenanceRaw: Bytes, systemTestRaw: Bytes,
    provenance: CandidateProvenance, evidence: SystemTestEvidence)

  ghost function Build(rules: Rules, i: Inputs, request: PromotionRequest): Option<ReleasedEnvelope> {
    var digest := rules.sha(i.candidateRaw);
    if request.schemaVersion != 1 || request.candidate.digest != digest
       || request.candidateProvenance.digest != rules.sha(i.provenanceRaw)
       || request.systemTestEvidence.digest != rules.sha(i.systemTestRaw) then None
    else if !ReferenceAccepted(rules, request.candidate) || !ReferenceAccepted(rules, request.candidateProvenance)
            || !ReferenceAccepted(rules, request.systemTestEvidence) then None
    else if request.promotion.repository != "endless-net/client-api"
            || !rules.run(request.promotion.repository, request.promotion.run) then None
    else if !ProvenanceAccepted(rules, i.candidate, digest, i.provenance) then None
    else if !EvidencePassed(rules, digest, i.evidence) then None
    else Some(ReleasedEnvelope(
                "https://endlessnet.ru/contracts/release/v1/released-envelope.schema.json", 1, i.candidate.release, "released",
                request.candidate, Resolved(i.candidate),
                ReleaseProvenance(
                  request.candidateProvenance,
                  SystemTestProvenance(request.systemTestEvidence, i.evidence.suite.repository, i.evidence.suite.gitCommit, i.evidence.suite.run),
                  request.promotion)))
  }

  /** `ValidateReleasedEnvelope` rebuilds the envelope from its own references and compares. */
  ghost predicate EnvelopeAccepted(rules: Rules, e: ReleasedEnvelope, i: Inputs) {
    var request := PromotionRequest(
                     "", 1, e.candidate, e.provenance.candidateProvenance, e.provenance.systemTests.evidence, e.provenance.promotion);
    var expected := Build(rules, i, request);
    && expected.Some?
    && e.schemaVersion == 1 && e.status == "released" && e.release == i.candidate.release
    && e.resolved == Resolved(i.candidate)
    && e.candidate == expected.value.candidate && e.provenance == expected.value.provenance
  }

  /** `ResolveProduction`; the resolved set must itself pass as a candidate. */
  ghost function ResolveProduction(rules: Rules, e: ReleasedEnvelope, raw: Bytes, reference: DigestReference): Option<Resolution> {
    if e.schemaVersion != 1 || e.status != "released" || !rules.release(e.release) then None
    else if reference.digest != rules.sha(raw) then None
    else if !ReferenceAccepted(rules, reference) || !ReferenceAccepted(rules, e.candidate)
            || !ReferenceAccepted(rules, e.provenance.candidateProvenance)
            || !ReferenceAccepted(rules, e.provenance.systemTests.evidence) then None
    else if e.provenance.systemTests.repository != "endless-net/system-tests"
            || !rules.commit(e.provenance.systemTests.gitCommit)
            || !rules.run(e.provenance.systemTests.repository, e.provenance.systemTests.run)
            || e.provenance.promotion.repository != "endless-net/client-api"
            || !rules.run(e.provenance.promotion.repository, e.provenance.promotion.run) then None
    else if !CandidateAccepted(rules, Candidate("", 1, e.release, "candidate", e.resolved.components, e.resolved.modules, e.resolved.contracts)) then None
    else if exists c | c in e.resolved.components :: c.image.None? || !rules.artifact(c.image.value) then None
    else Some(Resolution("production", "released", reference, e.release, e.candidate.digest, e.resolved, e.provenance))
  }

  // ----- what a release guarantees -----

  /** A candidate: the known kind of record, with immutable names used once. */
  ghost predicate CandidateSound(rules: Rules, c: Candidate) {
    && c.schemaVersion == 1 && c.status == "candidate" && rules.release(c.release) && |c.components| >= 1
    && (forall x | x in c.components ::
          rules.release(x.name) && rules.repository(x.repository) && rules.commit(x.gitCommit) && (x.image.Some? ==> rules.artifact(x.image.value)))
    && (forall x, y | x in c.components && y in c.components && (x.name == y.name || x.repository == y.repository) :: x == y)
    && (forall m | m in c.modules :: m.path != "" && rules.version(m.version) && rules.sum(m.sum))
    && (forall m, n | m in c.modules && n in c.modules && m.path == n.path :: m == n)
    && (forall x | x in c.contracts ::
          x.name != "" && x.version > 0 && x.architectureRepository == "endless-net/architecture" && rules.commit(x.architectureCommit))
    && (forall x, y | x in c.contracts && y in c.contracts && x.name == y.name :: x == y)
  }

  lemma AcceptedIsSound(rules: Rules, c: Candidate)
    requires CandidateAccepted(rules, c)
    ensures CandidateSound(rules, c)
  {
    forall x, y | x in c.components && y in c.components && (x.name == y.name || x.repository == y.repository)
      ensures x == y
    {
      SameElement(c.components, ComponentName, x, y);
      SameElement(c.components, ComponentRepository, x, y);
    }
    forall m, n | m in c.modules && n in c.modules && m.path == n.path
      ensures m == n
    {
      SameId(c.modules, ModulePath, m, n);
    }
    forall x, y | x in c.contracts && y in c.contracts && x.name == y.name
      ensures x == y
    {
      SameId(c.contracts, ContractName, x, y);
    }
    assert forall x | x in c.components :: ComponentAccepted(rules, x);
    assert forall m | m in c.modules :: ModuleAccepted(rules, m);
    assert forall x | x in c.contracts :: ContractAccepted(rules, x);
  }

  lemma SameElement<T(!new)>(s: seq<T>, id: T -> string, x: T, y: T)
    requires DistinctBy(s, id) && x in s && y in s
    ensures id(x) == id(y) ==> x == y
  {
    if id(x) == id(y) {
      SameId(s, id, x, y);
    }
  }

  /** Nothing more is asked than that and that the records themselves are not repeated. */
  lemma SoundIsAccepted(rules: Rules, c: Candidate)
    requires CandidateSound(rules, c)
    requires DistinctBy(c.components, ComponentName) && DistinctBy(c.modules, ModulePath) && DistinctBy(c.contracts, ContractName)
    ensures CandidateAccepted(rules, c)
  {
    forall i, j | 0 <= i < j < |c.components|
      ensures ComponentRepository(c.components[i]) != ComponentRepository(c.components[j])
    {
      assert ComponentName(c.components[i]) != ComponentName(c.components[j]);
      assert c.components[i] in c.components && c.components[j] in c.components;
    }
  }

  /** A record and a place to find it: a digest, and a blob or artifact address. */
  predicate Referenced(rules: Rules, r: DigestReference) {
    rules.digest(r.digest) && (rules.artifact(r.uri) || rules.blob(r.uri))
  }

  /** Where a component was built: from its own repository and commit, into its own image. */
  predicate BuiltFrom(rules: Rules, c: Component, item: ComponentProvenance) {
    && c.image == Some(item.artifact.uri) && item.artifact.digest == rules.artifactDigest(item.artifact.uri)
    && c == Component(item.name, item.repository, item.gitCommit, c.image)
    && c.repository == item.build.repository && c.gitCommit == item.build.sourceCommit
    && rules.run(c.repository, item.build.run) && rules.digest(item.build.attestationDigest)
  }

  predicate TakenFrom(rules: Rules, m: Module, item: ModuleProvenance) {
    && m == Module(item.path, item.version, item.sum)
    && rules.repository(item.source.repository) && rules.commit(item.source.gitCommit)
    && rules.run(item.source.repository, item.source.run)
  }

  /** The candidate was tested and passed: the evidence and the provenance are about exactly its bytes,
      and every component and module has exactly one record of where it comes from. */
  ghost predicate Tested(rules: Rules, i: Inputs) {
    var digest := rules.sha(i.candidateRaw);
    && i.evidence.result == "passed" && i.evidence.candidateDigest == digest && i.evidence.schemaVersion == 1
    && i.evidence.suite.repository == "endless-net/system-tests" && rules.commit(i.evidence.suite.gitCommit)
    && rules.run("endless-net/system-tests", i.evidence.suite.run)
    && CandidateAccepted(rules, i.candidate) && rules.digest(digest)
    && i.provenance.candidateDigest == digest && i.provenance.schemaVersion == 1 && i.provenance.release == i.candidate.release
    && |i.provenance.components| == |i.candidate.components| && DistinctBy(i.provenance.components, ProvenanceName)
    && (forall c | c in i.candidate.components :: exists item | item in i.provenance.components :: BuiltFrom(rules, c, item))
    && |i.provenance.modules| == |i.candidate.modules| && DistinctBy(i.provenance.modules, ProvenancePath)
    && (forall m | m in i.candidate.modules :: exists item | item in i.provenance.modules :: TakenFrom(rules, m, item))
  }

  /** The request is about exactly these three records and was made by the release workflow. */
  predicate Requested(rules: Rules, i: Inputs, request: PromotionRequest) {
    && request.schemaVersion == 1
    && [request.candidate.digest, request.candidateProvenance.digest, request.systemTestEvidence.digest] ==
       [rules.sha(i.candidateRaw), rules.sha(i.provenanceRaw), rules.sha(i.systemTestRaw)]
    && Referenced(rules, request.candidate) && Referenced(rules, request.candidateProvenance) && Referenced(rules, request.systemTestEvidence)
    && request.promotion.repository == "endless-net/client-api" && rules.run("endless-net/client-api", request.promotion.run)
  }

  lemma BackedIff(rules: Rules, i: Inputs)
    ensures (forall c | c in i.candidate.components :: exists item | item in i.provenance.components :: BuiltFrom(rules, c, item)) <==>
            (forall c | c in i.candidate.components :: exists item | item in i.provenance.components :: ComponentBacked(rules, c, item))
    ensures (forall m | m in i.candidate.modules :: exists item | item in i.provenance.modules :: TakenFrom(rules, m, item)) <==>
            (forall m | m in i.candidate.modules :: exists item | item in i.provenance.modules :: ModuleBacked(rules, m, item))
  {
    assert forall c, item :: BuiltFrom(rules, c, item) <==> ComponentBacked(rules, c, item);
    assert forall m, item :: TakenFrom(rules, m, item) <==> ModuleBacked(rules, m, item);
  }

  /** An envelope is built exactly for a tested candidate and a request about its records. */
  lemma BuildIff(rules: Rules, i: Inputs, request: PromotionRequest)
    ensures Build(rules, i, request).Some? <==> Requested(rules, i, request) && Tested(rules, i)
  {
    hide Tested, ProvenanceAccepted, EvidencePassed;
    TestedIff(rules, i);
  }

  lemma TestedIff(rules: Rules, i: Inputs)
    ensures Tested(rules, i) <==>
            ProvenanceAccepted(rules, i.candidate, rules.sha(i.candidateRaw), i.provenance) && EvidencePassed(rules, rules.sha(i.candidateRaw), i.evidence)
  {
    hide CandidateAccepted, DistinctBy, ComponentBacked, ModuleBacked, BuiltFrom, TakenFrom;
    BackedIff(rules, i);
  }

  /** So every accepted envelope is about a candidate that passed. */
  lemma AcceptedIsTested(rules: Rules, e: ReleasedEnvelope, i: Inputs)
    requires EnvelopeAccepted(rules, e, i)
    ensures Tested(rules, i)
    ensures e.candidate.digest == rules.sha(i.candidateRaw)
    ensures e.provenance.candidateProvenance.digest == rules.sha(i.provenanceRaw)
    ensures e.provenance.systemTests.evidence.digest == rules.sha(i.systemTestRaw)
    ensures e.provenance.systemTests ==
            SystemTestProvenance(e.provenance.systemTests.evidence, i.evidence.suite.repository, i.evidence.suite.gitCommit, i.evidence.suite.run)
    ensures e.release == i.candidate.release && e.status == "released" && e.resolved == Resolved(i.candidate)
  {
    hide CandidateAccepted, DistinctBy, ComponentBacked, ModuleBacked, BuiltFrom, TakenFrom, ProvenanceAccepted, Tested;
    var request := PromotionRequest(
                     "", 1, e.candidate, e.provenance.candidateProvenance, e.provenance.systemTests.evidence, e.provenance.promotion);
    BuildIff(rules, i, request);
  }

  /** Production resolves exactly a released envelope whose reference has the digest of its bytes, whose
      records are referenced, which the system tests and the release workflow made, and whose set is a
      candidate with an image for every component; it resolves to that set. */
  lemma ResolvesIff(rules: Rules, e: ReleasedEnvelope, raw: Bytes, reference: DigestReference)
    ensures ResolveProduction(rules, e, raw, reference).Some? <==>
              && e.schemaVersion == 1 && e.status == "released"
              && reference.digest == rules.sha(raw)
              && Referenced(rules, reference) && Referenced(rules, e.candidate)
              && Referenced(rules, e.provenance.candidateProvenance) && Referenced(rules, e.provenance.systemTests.evidence)
              && e.provenance.systemTests.repository == "endless-net/system-tests"
              && rules.commit(e.provenance.systemTests.gitCommit)
              && rules.run("endless-net/system-tests", e.provenance.systemTests.run)
              && e.provenance.promotion.repository == "endless-net/client-api"
              && rules.run("endless-net/client-api", e.provenance.promotion.run)
              && CandidateAccepted(rules, Candidate("", 1, e.release, "candidate", e.resolved.components, e.resolved.modules, e.resolved.contracts))
              && (forall c | c in e.resolved.components :: c.image.Some?)
    ensures ResolveProduction(rules, e, raw, reference).Some? ==>
              ResolveProduction(rules, e, raw, reference).value ==
              Resolution("production", "released", reference, e.release, e.candidate.digest, e.resolved, e.provenance)
  {
    hide ModulesAccepted, ContractsAccepted, DistinctBy;
    var again := Candidate("", 1, e.release, "candidate", e.resolved.components, e.resolved.modules, e.resolved.contracts);
    if CandidateAccepted(rules, again) {
      ImagesAreArtifacts(rules, again);
    }
  }

  lemma ImagesAreArtifacts(rules: Rules, c: Candidate)
    requires CandidateAccepted(rules, c)
    ensures rules.release(c.release) && forall x | x in c.components && x.image.Some? :: rules.artifact(x.image.value)
  {
    hide ModulesAccepted, ContractsAccepted, DistinctBy;
    assert forall x | x in c.components :: ComponentAccepted(rules, x);
  }

  // ----- building and accepting agree -----

  lemma BuildKeeps(rules: Rules, i: Inputs, request: PromotionRequest)
    requires Build(rules, i, request).Some?
    ensures var e := Build(rules, i, request).value;
            && request.schemaVersion == 1 && e.schemaVersion == 1 && e.status == "released" && e.release == i.candidate.release
            && e.candidate == request.candidate && e.resolved == Resolved(i.candidate)
            && e.provenance.candidateProvenance == request.candidateProvenance
            && e.provenance.systemTests.evidence == request.systemTestEvidence && e.provenance.promotion == request.promotion
  {
    hide ProvenanceAccepted, ReferenceAccepted, EvidencePassed;
  }

  lemma BuildIgnoresSchema(rules: Rules, i: Inputs, request: PromotionRequest)
    ensures Build(rules, i, request.(schema := "")) == Build(rules, i, request)
  {
    hide ProvenanceAccepted, ReferenceAccepted, EvidencePassed;
  }

  /** Validation accepts exactly the envelopes that can be built from the same inputs, up to the schema text. */
  lemma AcceptedIffBuildable(rules: Rules, e: ReleasedEnvelope, i: Inputs)
    ensures EnvelopeAccepted(rules, e, i) <==>
            exists request :: Build(rules, i, request).Some? && Build(rules, i, request).value.(schema := e.schema) == e
  {
    hide ProvenanceAccepted, ReferenceAccepted, EvidencePassed, Build;
    var mine := PromotionRequest(
                  "", 1, e.candidate, e.provenance.candidateProvenance, e.provenance.systemTests.evidence, e.provenance.promotion);
    if EnvelopeAccepted(rules, e, i) {
      BuildKeeps(rules, i, mine);
    }
    if request :| Build(rules, i, request).Some? && Build(rules, i, request).value.(schema := e.schema) == e {
      BuildKeeps(rules, i, request);
      assert mine == request.(schema := "");
      BuildIgnoresSchema(rules, i, request);
    }
  }

  /** Every built envelope, referred to by its own digest, resolves for production, to the tested
      candidate's set and digest unchanged. */
  lemma BuiltResolves(rules: Rules, i: Inputs, request: PromotionRequest, raw: Bytes, reference: DigestReference)
    requires Build(rules, i, request).Some?
    requires reference.digest == rules.sha(raw) && ReferenceAccepted(rules, reference)
    ensures var r := ResolveProduction(rules, Build(rules, i, request).value, raw, reference);
            && r.Some?
            && r.value.resolved == Resolved(i.candidate) && r.value.candidateDigest == rules.sha(i.candidateRaw)
            && r.value.release == i.candidate.release && r.value.record == reference
  {
    hide ReferenceAccepted, ModulesBacked, ModulesAccepted, ContractsAccepted, DistinctBy;
    var c := i.candidate;
    var again := Candidate("", 1, c.release, "candidate", c.components, c.modules, c.contracts);
    assert CandidateAccepted(rules, again);
    forall comp | comp in c.components
      ensures comp.image.Some? && rules.artifact(comp.image.value)
    {
      assert ComponentAccepted(rules, comp);
      var item :| item in i.provenance.components && ComponentBacked(rules, comp, item);
    }
  }

  // ----- compatibility evidence -----

  datatype CompatibilityEvidence = CompatibilityEvidence(
    provider: string, consumer: string, contract: string, version: int, evidence: DigestReference)

  datatype ComponentCandidate = ComponentCandidate(
    schemaVersion: int, kind: string, component: string, repository: string, gitCommit: string, artifact: string,
    modules: seq<Module>, contracts: seq<Contract>, gates: seq<CompatibilityGate>,
    producerRelease: DigestReference, build: BuildProvenance, attestationDigest: string)

  datatype ReleasedComponent = ReleasedComponent(
    schemaVersion: int, kind: string, component: string, repository: string, gitCommit: string, artifact: string,
    candidate: DigestReference, candidateProvenance: DigestReference, evidence: seq<CompatibilityEvidence>,
    promotion: PromotionProvenance)

  function GateOf(e: CompatibilityEvidence): CompatibilityGate {
    CompatibilityGate(e.provider, e.consumer, e.contract, e.version)
  }

  function EvidenceKey(e: CompatibilityEvidence): string { Key(GateOf(e)) }

  predicate GateAccepted(rules: Rules, component: string, g: CompatibilityGate) {
    g.provider == component && rules.release(g.consumer) && g.consumer != component && g.contract != "" && g.version >= 1
  }

  ghost predicate GatesAccepted(rules: Rules, component: string, gates: seq<CompatibilityGate>) {
    (forall g | g in gates :: GateAccepted(rules, component, g)) && DistinctBy(gates, Key)
  }

  method ValidateCompatibilityGates(rules: Rules, component: string, gates: seq<CompatibilityGate>) returns (ok: bool)
    ensures ok <==> GatesAccepted(rules, component, gates)
  {
    hide GateAccepted, Key;
    var seen: set<string> := {};
    for i := 0 to |gates|
      invariant forall j | 0 <= j < i :: GateAccepted(rules, component, gates[j])
      invariant seen == set x | x in Map(gates[..i], Key)
      invariant DistinctBy(gates[..i], Key)
    {
      assert gates[i] in gates;
      NextElement(gates, i, Key);
      if !GateAccepted(rules, component, gates[i]) || Key(gates[i]) in seen {
        return false;
      }
      seen := seen + {Key(gates[i])};
    }
    assert gates[..|gates|] == gates;
    return true;
  }

  ghost predicate ComponentCandidateAccepted(rules: Rules, c: ComponentCandidate) {
    && c.schemaVersion == 2 && c.kind == "candidate"
    && rules.release(c.component) && rules.repository(c.repository) && rules.commit(c.gitCommit) && rules.artifact(c.artifact)
    && rules.archive(c.component, c.repository, c.gitCommit, c.artifact)
    && c.build.repository == c.repository && c.build.sourceCommit == c.gitCommit && rules.run(c.repository, c.build.run)
    && rules.digest(c.build.attestationDigest) && rules.digest(c.attestationDigest)
    && ReferenceAccepted(rules, c.producerRelease)
    && ModulesAccepted(rules, c.modules) && ContractsAccepted(rules, c.contracts)
    && GatesAccepted(rules, c.component, c.gates)
  }

  /** The evidence loop: every entry is wanted and new, and the counts agree at the end. */
  ghost predicate EvidenceAccepted(rules: Rules, gates: seq<CompatibilityGate>, evidence: seq<CompatibilityEvidence>) {
    && (forall e | e in evidence :: EvidenceKey(e) in Map(gates, Key) && ReferenceAccepted(rules, e.evidence))
    && DistinctBy(evidence, EvidenceKey)
    && |set x | x in Map(evidence, EvidenceKey)| == |set x | x in Map(gates, Key)|
  }

  method CheckEvidence(rules: Rules, gates: seq<CompatibilityGate>, evidence: seq<CompatibilityEvidence>) returns (ok: bool)
    ensures ok <==> EvidenceAccepted(rules, gates, evidence)
  {
    hide Key, EvidenceKey, ReferenceAccepted;
    var want := set x | x in Map(gates, Key);
    var seen: set<string> := {};
    for i := 0 to |evidence|
      invariant forall j | 0 <= j < i :: EvidenceKey(evidence[j]) in Map(gates, Key) && ReferenceAccepted(rules, evidence[j].evidence)
      invariant seen == set x | x in Map(evidence[..i], EvidenceKey)
      invariant DistinctBy(evidence[..i], EvidenceKey)
    {
      assert evidence[i] in evidence;
      NextElement(evidence, i, EvidenceKey);
      var key := EvidenceKey(evidence[i]);
      if key !in want || key in seen || !ReferenceAccepted(rules, evidence[i].evidence) {
        return false;
      }
      seen := seen + {key};
    }
    assert evidence[..|evidence|] == evidence;
    return |seen| == |want|;
  }

  ghost predicate ReleasedHeader(rules: Rules, r: ReleasedComponent, c: ComponentCandidate, raw: Bytes) {
    && r.schemaVersion == 2 && r.kind == "released" && r.component == c.component && r.repository == c.repository
    && r.gitCommit == c.gitCommit && r.artifact == c.artifact && r.candidate.digest == rules.sha(raw)
    && ReferenceAccepted(rules, r.candidate) && ReferenceAccepted(rules, r.candidateProvenance)
    && r.promotion.repository == "endless-net/releases" && rules.run(r.promotion.repository, r.promotion.run)
    && r.promotion.approvedBy != ""
  }

  /** `ValidateReleasedComponent`. */
  ghost predicate ReleasedAccepted(rules: Rules, r: ReleasedComponent, c: ComponentCandidate, raw: Bytes) {
    ComponentCandidateAccepted(rules, c) && ReleasedHeader(rules, r, c, raw) && EvidenceAccepted(rules, c.gates, r.evidence)
  }

  /** A component candidate: one artifact of one commit of one repository, built and attested there. */
  ghost predicate ComponentCandidateSound(rules: Rules, c: ComponentCandidate) {
    && c.schemaVersion == 2 && c.kind == "candidate"
    && rules.release(c.component) && rules.repository(c.repository) && rules.commit(c.gitCommit) && rules.artifact(c.artifact)
    && rules.archive(c.component, c.repository, c.gitCommit, c.artifact)
    && c.build == BuildProvenance(c.repository, c.gitCommit, c.build.run, c.build.attestationDigest)
    && rules.run(c.repository, c.build.run) && rules.digest(c.build.attestationDigest) && rules.digest(c.attestationDigest)
    && Referenced(rules, c.producerRelease)
    && (forall m | m in c.modules :: m.path != "" && rules.version(m.version) && rules.sum(m.sum)) && DistinctBy(c.modules, ModulePath)
    && (forall x | x in c.contracts ::
          x.name != "" && x.version > 0 && x.architectureRepository == "endless-net/architecture" && rules.commit(x.architectureCommit))
    && DistinctBy(c.contracts, ContractName)
    && (forall g | g in c.gates ::
          g.provider == c.component && rules.release(g.consumer) && g.consumer != c.component && g.contract != "" && g.version > 0)
    && DistinctBy(c.gates, Key)
  }

  /** A released component: the candidate itself, promoted by the release repository and approved. */
  predicate PromotedFrom(rules: Rules, r: ReleasedComponent, c: ComponentCandidate, raw: Bytes) {
    && r.schemaVersion == 2 && r.kind == "released"
    && (r.component, r.repository, r.gitCommit, r.artifact) == (c.component, c.repository, c.gitCommit, c.artifact)
    && r.candidate.digest == rules.sha(raw) && Referenced(rules, r.candidate) && Referenced(rules, r.candidateProvenance)
    && r.promotion.repository == "endless-net/releases" && rules.run("endless-net/releases", r.promotion.run)
    && |r.promotion.approvedBy| > 0
  }

  lemma ReleasedIff(rules: Rules, r: ReleasedComponent, c: ComponentCandidate, raw: Bytes)
    ensures ReleasedAccepted(rules, r, c, raw) <==>
              && ComponentCandidateSound(rules, c) && PromotedFrom(rules, r, c, raw)
              && (forall e | e in r.evidence :: Referenced(rules, e.evidence))
              && SamePermutation(Map(r.evidence, EvidenceKey), Map(c.gates, Key))
  {
    hide Key, EvidenceKey, SamePermutation, DistinctBy;
    if EvidenceAccepted(rules, c.gates, r.evidence) && DistinctBy(c.gates, Key) {
      EvidenceCoversKeys(rules, c.gates, r.evidence);
    }
    if SamePermutation(Map(r.evidence, EvidenceKey), Map(c.gates, Key)) && DistinctBy(c.gates, Key) {
      MembersOfPermutation(Map(r.evidence, EvidenceKey), Map(c.gates, Key));
      DistinctMap(c.gates, Key);
      DistinctMap(r.evidence, EvidenceKey);
      PermutationSymmetric(Map(r.evidence, EvidenceKey), Map(c.gates, Key));
      DistinctPermutation(Map(c.gates, Key), Map(r.evidence, EvidenceKey), Itself);
      DistinctSize(Map(c.gates, Key));
      DistinctSize(Map(r.evidence, EvidenceKey));
      forall e | e in r.evidence
        ensures EvidenceKey(e) in Map(c.gates, Key)
      {
        MapMember(r.evidence, EvidenceKey, EvidenceKey(e));
      }
    }
  }

  /** Names match the release pattern, which admits no NUL. */
  ghost predicate LawfulRules(rules: Rules) {
    forall s | rules.release(s) :: NUL !in s
  }

  function GatesOf(evidence: seq<CompatibilityEvidence>): (r: seq<CompatibilityGate>)
    ensures |r| == |evidence| && forall i | 0 <= i < |r| :: r[i] == GateOf(evidence[i])
  {
    seq(|evidence|, i requires 0 <= i < |evidence| => GateOf(evidence[i]))
  }

  /** By key, accepted evidence covers the declared gates exactly. */
  lemma EvidenceCoversKeys(rules: Rules, gates: seq<CompatibilityGate>, evidence: seq<CompatibilityEvidence>)
    requires DistinctBy(gates, Key) && EvidenceAccepted(rules, gates, evidence)
    ensures SamePermutation(Map(evidence, EvidenceKey), Map(gates, Key))
  {
    hide Key, EvidenceKey, ReferenceAccepted, SamePermutation, DistinctBy;
    DistinctMap(gates, Key);
    DistinctMap(evidence, EvidenceKey);
    DistinctSize(Map(gates, Key));
    DistinctSize(Map(evidence, EvidenceKey));
    forall x | x in Map(evidence, EvidenceKey)
      ensures x in Map(gates, Key)
    {
      MapMember(evidence, EvidenceKey, x);
    }
    SubsetSameLengthPermutes(Map(evidence, EvidenceKey), Map(gates, Key));
  }

  lemma PlainGates(rules: Rules, c: ComponentCandidate)
    requires LawfulRules(rules) && ComponentCandidateAccepted(rules, c)
    ensures forall g | g in c.gates :: PlainNames(g)
  {
    hide ModulesAccepted, ContractsAccepted, ReferenceAccepted;
    forall g | g in c.gates
      ensures PlainNames(g)
    {
      assert GateAccepted(rules, c.component, g);
    }
  }

  /** If no declared contract contains NUL, there is exactly one evidence entry for each declared
      gate, field by field, and no other. */
  lemma EvidenceCoversGates(rules: Rules, c: ComponentCandidate, evidence: seq<CompatibilityEvidence>)
    requires LawfulRules(rules) && ComponentCandidateAccepted(rules, c) && EvidenceAccepted(rules, c.gates, evidence)
    requires forall g | g in c.gates :: NUL !in g.contract
    ensures SamePermutation(GatesOf(evidence), c.gates)
  {
    hide Key, LawfulRules, PlainNames, ModulesAccepted, ContractsAccepted, ReferenceAccepted, SamePermutation, GateAccepted;
    PlainGates(rules, c);
    EvidenceCoversKeys(rules, c.gates, evidence);
    MembersOfPermutation(Map(evidence, EvidenceKey), Map(c.gates, Key));
    var found := GatesOf(evidence);
    assert DistinctBy(found, Key) by {
      forall i, j | 0 <= i < j < |found|
        ensures Key(found[i]) != Key(found[j])
      {
        assert EvidenceKey(evidence[i]) != EvidenceKey(evidence[j]);
      }
    }
    forall x
      ensures x in found <==> x in c.gates
    {
      if x in found {
        var i :| 0 <= i < |found| && found[i] == x;
        assert evidence[i] in evidence && EvidenceKey(evidence[i]) == Key(x);
        MapMember(c.gates, Key, Key(x));
        var g :| g in c.gates && Key(g) == Key(x);
        KeyDeterminesFields(g, x);
      }
      if x in c.gates {
        MapMember(c.gates, Key, Key(x));
        MapMember(evidence, EvidenceKey, Key(x));
        var e :| e in evidence && EvidenceKey(e) == Key(x);
        var i :| 0 <= i < |evidence| && evidence[i] == e;
        assert found[i] == GateOf(e);
        KeyDeterminesFields(x, GateOf(e));
      }
    }
    SameMembersPermute(found, c.gates, Key);
  }

  /** Replacing an entry by one with the same key and reference goes unnoticed. */
  lemma EvidenceSwap(rules: Rules, gates: seq<CompatibilityGate>, evidence: seq<CompatibilityEvidence>, i: nat, e: CompatibilityEvidence)
    requires EvidenceAccepted(rules, gates, evidence) && i < |evidence|
    requires EvidenceKey(e) == EvidenceKey(evidence[i]) && e.evidence == evidence[i].evidence
    ensures EvidenceAccepted(rules, gates, evidence[i := e])
  {
    hide Key, EvidenceKey, ReferenceAccepted;
    var swapped := evidence[i := e];
    assert Map(swapped, EvidenceKey) == Map(evidence, EvidenceKey);
    DistinctMap(swapped, EvidenceKey);
    DistinctMap(evidence, EvidenceKey);
    forall x | x in swapped
      ensures EvidenceKey(x) in Map(gates, Key) && ReferenceAccepted(rules, x.evidence)
    {
      var j :| 0 <= j < |swapped| && swapped[j] == x;
      assert evidence[j] in evidence && evidence[i] in evidence;
    }
  }

  /** Coverage field by field is what acceptance means exactly when no declared contract contains NUL:
      otherwise some released record is accepted although one of its entries names no declared gate. */
  lemma FieldCoverageIff(rules: Rules, c: ComponentCandidate, raw: Bytes, r: ReleasedComponent)
    requires LawfulRules(rules) && ReleasedAccepted(rules, r, c, raw)
    ensures (forall other | ReleasedAccepted(rules, other, c, raw) :: SamePermutation(GatesOf(other.evidence), c.gates)) <==>
            (forall g | g in c.gates :: NUL !in g.contract)
  {
    hide Key, LawfulRules, ComponentCandidateAccepted, ReleasedHeader, EvidenceAccepted, SamePermutation;
    if forall g | g in c.gates :: NUL !in g.contract {
      forall other | ReleasedAccepted(rules, other, c, raw)
        ensures SamePermutation(GatesOf(other.evidence), c.gates)
      {
        EvidenceCoversGates(rules, c, other.evidence);
      }
    } else {
      var g :| g in c.gates && NUL in g.contract;
      var other := Impostor(rules, c, raw, r, g);
    }
  }

  lemma Impostor(rules: Rules, c: ComponentCandidate, raw: Bytes, r: ReleasedComponent, g: CompatibilityGate)
    returns (other: ReleasedComponent)
    requires LawfulRules(rules) && ReleasedAccepted(rules, r, c, raw) && g in c.gates && NUL in g.contract
    ensures ReleasedAccepted(rules, other, c, raw) && !SamePermutation(GatesOf(other.evidence), c.gates)
  {
    hide Key, LawfulRules, GateAccepted, ModulesAccepted, ContractsAccepted, ReferenceAccepted, SamePermutation;
    EvidenceCoversKeys(rules, c.gates, r.evidence);
    MembersOfPermutation(Map(r.evidence, EvidenceKey), Map(c.gates, Key));
    MapMember(c.gates, Key, Key(g));
    var i :| 0 <= i < |r.evidence| && Map(r.evidence, EvidenceKey)[i] == Key(g);
    var h := KeyCollision(g);
    var e := CompatibilityEvidence(h.provider, h.consumer, h.contract, h.version, r.evidence[i].evidence);
    assert GateOf(e) == h;
    EvidenceSwap(rules, c.gates, r.evidence, i, e);
    other := r.(evidence := r.evidence[i := e]);
    assert GatesOf(other.evidence)[i] == h;
    PlainGates(rules, c);
    assert h !in c.gates;
    if SamePermutation(GatesOf(other.evidence), c.gates) {
      MembersOfPermutation(GatesOf(other.evidence), c.gates);
    }
  }
}
