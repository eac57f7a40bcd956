/** Verification policies and the text whose digest identifies them. */
module Policy {
  import opened Sorting
  import opened KeyOrders
  import opened CanonicalJson

  datatype EnforcementMode = Disabled | Observe | Enforce

  datatype CpuTee = Tdx | SevSnp | Nitro

  datatype GpuTee = NvidiaCc

  datatype CpuRequirement = CpuNotRequired | AnyCpuTee | CpuOneOf(allowed: seq<CpuTee>)

  datatype GpuRequirement = GpuNotRequired | GpuOneOf(allowed: seq<GpuTee>)

  datatype ChannelBinding = ChannelNotRequired | AnyAttestedChannel | TeeTerminatedTls | AttestedAppE2ee

  datatype BoundData = DataNotRequired | BoundToAttestedWorkload

  datatype ResponseIntegrity = IntegrityNotRequired | AnyBound | ChannelBound | ReceiptBound

  datatype ModelBinding = ModelNotRequired | IfProviderSupports | ModelRequired

  datatype Provenance = Provenance(workloadImage: bool, modelArtifacts: bool, reproducibleBuild: bool,
                                   sourceAttestation: bool, dependencySbom: bool)

  datatype Freshness = PerRequest | PerSession | AllowCachedBinding(millis: nat)

  datatype StaleVerdicts = FailClosed | AllowFor(millis: nat)

  datatype Policy = Policy(
    schema: string,
    enforcement: EnforcementMode,
    cpu: CpuRequirement,
    gpu: GpuRequirement,
    channelBinding: ChannelBinding,
    requestConfidentiality: BoundData,
    responseConfidentiality: BoundData,
    responseIntegrity: ResponseIntegrity,
    modelBinding: ModelBinding,
    provenance: Provenance,
    freshness: Freshness,
    staleVerdicts: StaleVerdicts,
    verdictTtl: nat,
    registryDigest: string,
    referenceValuesDigest: string)

  // ----- normalisation of the allowed lists -----

  function CpuName(k: CpuTee): string {
    match k
    case Tdx => "tdx"
    case SevSnp => "sev_snp"
    case Nitro => "nitro"
  }

  /** The place of a CPU TEE in the order of the names. */
  function CpuRank(k: CpuTee): int {
    match k
    case Nitro => 0
    case SevSnp => 1
    case Tdx => 2
  }

  lemma CpuRankIsNameOrder(a: CpuTee, b: CpuTee)
    ensures CpuRank(a) < CpuRank(b) <==> LexLess(Rank(CodePoint, CpuName(a)), Rank(CodePoint, CpuName(b)))
  {
    assert Rank(CodePoint, "tdx")[0] == CodePoint('t');
    assert Rank(CodePoint, "sev_snp")[0] == CodePoint('s');
    assert Rank(CodePoint, "nitro")[0] == CodePoint('n');
    if a == b {
      LexIrreflexive(Rank(CodePoint, CpuName(a)));
    }
  }

  function NormalCpu(r: CpuRequirement): CpuRequirement {
    if r.CpuOneOf? then CpuOneOf(NormalList(CpuRank, r.allowed)) else r
  }

  function GpuRank(k: GpuTee): int { 0 }

  function NormalGpu(r: GpuRequirement): GpuRequirement {
    if r.GpuOneOf? then GpuOneOf(NormalList(GpuRank, r.allowed)) else r
  }

  function Normalized(p: Policy): Policy {
    p.(cpu := NormalCpu(p.cpu), gpu := NormalGpu(p.gpu))
  }

  // ----- serialisation -----

  function CpuValue(k: CpuTee): Value {
    Str(CpuName(k))
  }

  function CpuRequirementValue(r: CpuRequirement): Value {
    match r
    case CpuNotRequired => Obj(map["mode" := Str("not_required")])
    case AnyCpuTee => Obj(map["mode" := Str("any_cpu_tee")])
    case CpuOneOf(allowed) =>
      Obj(map["mode" := Str("one_of"), "allowed" := Arr(seq(|allowed|, i requires 0 <= i < |allowed| => CpuValue(allowed[i])))])
  }

  function GpuRequirementValue(r: GpuRequirement): Value {
    match r
    case GpuNotRequired => Obj(map["mode" := Str("not_required")])
    case GpuOneOf(allowed) =>
      Obj(map["mode" := Str("one_of"), "allowed" := Arr(seq(|allowed|, i requires 0 <= i < |allowed| => Str("nvidia_cc")))])
  }

  function EnforcementValue(e: EnforcementMode): Value {
    match e
    case Disabled => Str("disabled")
    case Observe => Str("observe")
    case Enforce => Str("enforce")
  }

  function ChannelValue(c: ChannelBinding): Value {
    match c
    case ChannelNotRequired => Str("not_required")
    case AnyAttestedChannel => Str("any_attested_channel")
    case TeeTerminatedTls => Str("tee_terminated_tls")
    case AttestedAppE2ee => Str("attested_app_e2ee")
  }

  function BoundDataValue(b: BoundData): Value {
    match b
    case DataNotRequired => Str("not_required")
    case BoundToAttestedWorkload => Str("bound_to_attested_workload")
  }

  function IntegrityValue(r: ResponseIntegrity): Value {
    match r
    case IntegrityNotRequired => Str("not_required")
    case AnyBound => Str("any_bound")
    case ChannelBound => Str("channel_bound")
    case ReceiptBound => Str("receipt_bound")
  }

  function ModelValue(m: ModelBinding): Value {
    match m
    case ModelNotRequired => Str("not_required")
    case IfProviderSupports => Str("if_provider_supports")
    case ModelRequired => Str("required")
  }

  function ProvenanceValue(p: Provenance): Value {
    Obj(map["workload_image" := Bool(p.workloadImage), "model_artifacts" := Bool(p.modelArtifacts),
            "reproducible_build" := Bool(p.reproducibleBuild), "source_attestation" := Bool(p.sourceAttestation),
            "dependency_sbom" := Bool(p.dependencySbom)])
  }

  function FreshnessValue(f: Freshness): Value {
    match f
    case PerRequest => Obj(map["mode" := Str("per_request")])
    case PerSession => Obj(map["mode" := Str("per_session")])
    case AllowCachedBinding(millis) => Obj(map["mode" := Str("allow_cached_binding_millis"), "millis" := Num(Integer(millis))])
  }

  function StaleValue(s: StaleVerdicts): Value {
    match s
    case FailClosed => Obj(map["mode" := Str("fail_closed")])
    case AllowFor(millis) => Obj(map["mode" := Str("allow_for_millis"), "millis" := Num(Integer(millis))])
  }

  function HardwareValue(cpu: CpuRequirement, gpu: GpuRequirement): Value {
    Obj(map["cpu" := CpuRequirementValue(cpu), "gpu" := GpuRequirementValue(gpu)])
  }

  function RequirementMembers(p: Policy): map<string, Value> {
    map[
      "schema" := Str(p.schema),
      "enforcement" := EnforcementValue(p.enforcement),
      "hardware" := HardwareValue(p.cpu, p.gpu),
      "channel_binding_requirement" := ChannelValue(p.channelBinding),
      "request_confidentiality_requirement" := BoundDataValue(p.requestConfidentiality),
      "response_confidentiality_requirement" := BoundDataValue(p.responseConfidentiality),
      "response_integrity_requirement" := IntegrityValue(p.responseIntegrity)]
  }

  function FreshnessMembers(p: Policy): map<string, Value> {
    map[
      "model_binding_requirement" := ModelValue(p.modelBinding),
      "provenance" := ProvenanceValue(p.provenance),
      "freshness" := FreshnessValue(p.freshness),
      "stale_verdicts" := StaleValue(p.staleVerdicts),
      "verdict_ttl_millis" := Num(Integer(p.verdictTtl)),
      "provider_registry_digest" := Str(p.registryDigest),
      "reference_values_digest" := Str(p.referenceValuesDigest)]
  }

  function ToValue(p: Policy): Value {
    Obj(RequirementMembers(p) + FreshnessMembers(p))
  }

  // ----- the serialised value determines the policy -----

  lemma CpuInjective(r: CpuRequirement, r': CpuRequirement)
    requires CpuRequirementValue(r) == CpuRequirementValue(r')
    ensures r == r'
  {
    var m, m' := CpuRequirementValue(r).members, CpuRequirementValue(r').members;
    assert m["mode"] == m'["mode"];
    if r.CpuOneOf? && r'.CpuOneOf? {
      assert m["allowed"] == m'["allowed"];
      var a, b := m["allowed"].items, m'["allowed"].items;
      assert |r.allowed| == |a| == |b| == |r'.allowed|;
      forall i | 0 <= i < |r.allowed|
        ensures r.allowed[i] == r'.allowed[i]
      {
        assert a[i] == CpuValue(r.allowed[i]) && b[i] == CpuValue(r'.allowed[i]);
      }
    }
  }

  lemma GpuInjective(r: GpuRequirement, r': GpuRequirement)
    requires GpuRequirementValue(r) == GpuRequirementValue(r')
    ensures r == r'
  {
    var m, m' := GpuRequirementValue(r).members, GpuRequirementValue(r').members;
    assert m["mode"] == m'["mode"];
    if r.GpuOneOf? && r'.GpuOneOf? {
      assert m["allowed"] == m'["allowed"];
      assert |r.allowed| == |m["allowed"].items| == |m'["allowed"].items| == |r'.allowed|;
      assert forall i :: 0 <= i < |r.allowed| ==> r.allowed[i] == NvidiaCc && r'.allowed[i] == NvidiaCc;
    }
  }

  lemma HardwareInjective(c: CpuRequirement, g: GpuRequirement, c': CpuRequirement, g': GpuRequirement)
    requires HardwareValue(c, g) == HardwareValue(c', g')
    ensures c == c' && g == g'
  {
    var m, m' := HardwareValue(c, g).members, HardwareValue(c', g').members;
    assert "cpu"[0] != "gpu"[0];
    assert m["cpu"] == m'["cpu"] && m["gpu"] == m'["gpu"];
    CpuInjective(c, c');
    GpuInjective(g, g');
  }

  lemma ProvenanceInjective(p: Provenance, q: Provenance)
    requires ProvenanceValue(p) == ProvenanceValue(q)
    ensures p == q
  {
    var m, n := ProvenanceValue(p).members, ProvenanceValue(q).members;
    assert "workload_image"[0] != "model_artifacts"[0] && "model_artifacts"[0] != "dependency_sbom"[0];
    assert m["workload_image"] == n["workload_image"] && m["model_artifacts"] == n["model_artifacts"];
    assert m["reproducible_build"] == n["reproducible_build"] && m["source_attestation"] == n["source_attestation"];
    assert m["dependency_sbom"] == n["dependency_sbom"];
  }

  lemma FreshnessInjective(f: Freshness, g: Freshness)
    requires FreshnessValue(f) == FreshnessValue(g)
    ensures f == g
  {
    var m, n := FreshnessValue(f).members, FreshnessValue(g).members;
    assert m["mode"] == n["mode"];
    assert "per_request"[4] != "per_session"[4];
    if f.AllowCachedBinding? && g.AllowCachedBinding? {
      assert m["millis"] == n["millis"];
    }
  }

  lemma StaleInjective(f: StaleVerdicts, g: StaleVerdicts)
    requires StaleValue(f) == StaleValue(g)
    ensures f == g
  {
    var m, n := StaleValue(f).members, StaleValue(g).members;
    assert m["mode"] == n["mode"];
    if f.AllowFor? && g.AllowFor? {
      assert m["millis"] == n["millis"];
    }
  }

  lemma NamesInjective(p: Policy, q: Policy)
    ensures EnforcementValue(p.enforcement) == EnforcementValue(q.enforcement) ==> p.enforcement == q.enforcement
    ensures ChannelValue(p.channelBinding) == ChannelValue(q.channelBinding) ==> p.channelBinding == q.channelBinding
    ensures IntegrityValue(p.responseIntegrity) == IntegrityValue(q.responseIntegrity) ==> p.responseIntegrity == q.responseIntegrity
    ensures ModelValue(p.modelBinding) == ModelValue(q.modelBinding) ==> p.modelBinding == q.modelBinding
  {
    assert "observe"[0] != "enforce"[0];
    assert "channel_bound"[0] != "receipt_bound"[0];
  }

  ghost predicate RequirementFields(m: map<string, Value>, p: Policy) {
    && "schema" in m && m["schema"] == Str(p.schema)
    && "enforcement" in m && m["enforcement"] == EnforcementValue(p.enforcement)
    && "hardware" in m && m["hardware"] == HardwareValue(p.cpu, p.gpu)
    && "channel_binding_requirement" in m && m["channel_binding_requirement"] == ChannelValue(p.channelBinding)
    && "request_confidentiality_requirement" in m && m["request_confidentiality_requirement"] == BoundDataValue(p.requestConfidentiality)
    && "response_confidentiality_requirement" in m && m["response_confidentiality_requirement"] == BoundDataValue(p.responseConfidentiality)
    && "response_integrity_requirement" in m && m["response_integrity_requirement"] == IntegrityValue(p.responseIntegrity)
  }

  ghost predicate FreshnessFields(m: map<string, Value>, p: Policy) {
    && "model_binding_requirement" in m && m["model_binding_requirement"] == ModelValue(p.modelBinding)
    && "provenance" in m && m["provenance"] == ProvenanceValue(p.provenance)
    && "freshness" in m && m["freshness"] == FreshnessValue(p.freshness)
    && "stale_verdicts" in m && m["stale_verdicts"] == StaleValue(p.staleVerdicts)
    && "verdict_ttl_millis" in m && m["verdict_ttl_millis"] == Num(Integer(p.verdictTtl))
    && "provider_registry_digest" in m && m["provider_registry_digest"] == Str(p.registryDigest)
    && "reference_values_digest" in m && m["reference_values_digest"] == Str(p.referenceValuesDigest)
  }

  /** The lengths of the field names tell them apart. */
  lemma RequirementFieldsOf(p: Policy)
    ensures RequirementFields(RequirementMembers(p), p)
    ensures forall k :: k in RequirementMembers(p) ==> |k| in {6, 11, 8, 27, 35, 36, 30}
  {
  }

  lemma FreshnessFieldsOf(p: Policy)
    ensures FreshnessFields(FreshnessMembers(p), p)
    ensures forall k :: k in FreshnessMembers(p) ==> |k| in {25, 10, 9, 14, 18, 24, 23}
  {
  }

  lemma FieldsOf(p: Policy)
    ensures RequirementFields(ToValue(p).members, p) && FreshnessFields(ToValue(p).members, p)
  {
    RequirementFieldsOf(p);
    FreshnessFieldsOf(p);
    var a, b := RequirementMembers(p), FreshnessMembers(p);
    DisjointUnion(a, b);
    assert RequirementFields(a + b, p);
    assert FreshnessFields(a + b, p);
  }

  lemma DisjointUnion(a: map<string, Value>, b: map<string, Value>)
    requires forall k :: k in a ==> |k| in {6, 11, 8, 27, 35, 36, 30}
    requires forall k :: k in b ==> |k| in {25, 10, 9, 14, 18, 24, 23}
    ensures forall k :: k in a ==> k in a + b && (a + b)[k] == a[k]
    ensures forall k :: k in b ==> k in a + b && (a + b)[k] == b[k]
  {
  }

  lemma RequirementsDetermine(m: map<string, Value>, p: Policy, q: Policy)
    requires RequirementFields(m, p) && RequirementFields(m, q)
    ensures p.schema == q.schema && p.enforcement == q.enforcement && p.cpu == q.cpu && p.gpu == q.gpu
    ensures p.channelBinding == q.channelBinding && p.requestConfidentiality == q.requestConfidentiality
    ensures p.responseConfidentiality == q.responseConfidentiality && p.responseIntegrity == q.responseIntegrity
  {
    NamesInjective(p, q);
    HardwareInjective(p.cpu, p.gpu, q.cpu, q.gpu);
  }

  lemma FreshnessDetermine(m: map<string, Value>, p: Policy, q: Policy)
    requires FreshnessFields(m, p) && FreshnessFields(m, q)
    ensures p.modelBinding == q.modelBinding && p.provenance == q.provenance && p.freshness == q.freshness
    ensures p.staleVerdicts == q.staleVerdicts && p.verdictTtl == q.verdictTtl
    ensures p.registryDigest == q.registryDigest && p.referenceValuesDigest == q.referenceValuesDigest
  {
    NamesInjective(p, q);
    ProvenanceInjective(p.provenance, q.provenance);
    FreshnessInjective(p.freshness, q.freshness);
    StaleInjective(p.staleVerdicts, q.staleVerdicts);
  }

  lemma FieldsDetermine(m: map<string, Value>, p: Policy, q: Policy)
    requires RequirementFields(m, p) && FreshnessFields(m, p) && RequirementFields(m, q) && FreshnessFields(m, q)
    ensures p == q
  {
    RequirementsDetermine(m, p, q);
    FreshnessDetermine(m, p, q);
  }

  lemma ToValueInjective(p: Policy, q: Policy)
    requires ToValue(p) == ToValue(q)
    ensures p == q
  {
    FieldsOf(p);
    FieldsOf(q);
    FieldsDetermine(ToValue(p).members, p, q);
  }

  // ----- what the digest preimage identifies -----

  /** The text that is hashed. */
  ghost function Preimage(p: Policy): string
    requires Representable(ToValue(Normalized(p)))
  {
    RustText(ToValue(Normalized(p)))
  }

  ghost predicate SameCpu(r: CpuRequirement, r': CpuRequirement) {
    if r.CpuOneOf? && r'.CpuOneOf? then SameElements(r.allowed, r'.allowed) else r == r'
  }

  ghost predicate SameGpu(r: GpuRequirement, r': GpuRequirement) {
    if r.GpuOneOf? && r'.GpuOneOf? then SameElements(r.allowed, r'.allowed) else r == r'
  }

  /** Equal up to the order and the repetition of the allowed TEEs. */
  ghost predicate SamePolicy(p: Policy, q: Policy) {
    SameCpu(p.cpu, q.cpu) && SameGpu(p.gpu, q.gpu) && p.(cpu := q.cpu, gpu := q.gpu) == q
  }

  lemma OneGpuTee(a: GpuTee)
    ensures a == NvidiaCc
  {
    match a
    case NvidiaCc =>
  }

  lemma GpuRankInjective()
    ensures Injective(GpuRank)
  {
    forall a, b | GpuRank(a) == GpuRank(b)
      ensures a == b
    {
      OneGpuTee(a);
      OneGpuTee(b);
    }
  }

  lemma NormalizedIff(p: Policy, q: Policy)
    ensures Normalized(p) == Normalized(q) <==> SamePolicy(p, q)
  {
    if p.cpu.CpuOneOf? && q.cpu.CpuOneOf? { NormalListIff(CpuRank, p.cpu.allowed, q.cpu.allowed); }
    GpuRankInjective();
    if p.gpu.GpuOneOf? && q.gpu.GpuOneOf? { NormalListIff(GpuRank, p.gpu.allowed, q.gpu.allowed); }
  }

  /** Two policies share a digest preimage exactly when they are the same policy. */
  lemma PreimageIdentifiesPolicy(p: Policy, q: Policy)
    requires Representable(ToValue(Normalized(p))) && Representable(ToValue(Normalized(q)))
    ensures Preimage(p) == Preimage(q) <==> SamePolicy(p, q)
  {
    TextDeterminesValue(ToValue(Normalized(p)), ToValue(Normalized(q)));
    NormalizedIff(p, q);
    if ToValue(Normalized(p)) == ToValue(Normalized(q)) {
      ToValueInjective(Normalized(p), Normalized(q));
    }
  }

  ghost predicate SafeMillis(p: Policy) {
    && p.verdictTtl <= MAX_SAFE_JSON_INT
    && (p.freshness.AllowCachedBinding? ==> p.freshness.millis <= MAX_SAFE_JSON_INT)
    && (p.staleVerdicts.AllowFor? ==> p.staleVerdicts.millis <= MAX_SAFE_JSON_INT)
  }

  lemma HardwareRepresentable(p: Policy)
    ensures Representable(HardwareValue(p.cpu, p.gpu))
  {
    assert Representable(CpuRequirementValue(p.cpu));
    assert Representable(GpuRequirementValue(p.gpu));
  }

  lemma FreshnessRepresentable(p: Policy)
    ensures Representable(FreshnessValue(p.freshness)) <==> (p.freshness.AllowCachedBinding? ==> p.freshness.millis <= MAX_SAFE_JSON_INT)
    ensures Representable(StaleValue(p.staleVerdicts)) <==> (p.staleVerdicts.AllowFor? ==> p.staleVerdicts.millis <= MAX_SAFE_JSON_INT)
  {
    var m, n := FreshnessValue(p.freshness).members, StaleValue(p.staleVerdicts).members;
    if p.freshness.AllowCachedBinding? {
      assert "millis" in m && m["millis"] == Num(Integer(p.freshness.millis));
    }
    if p.staleVerdicts.AllowFor? {
      assert "millis" in n && n["millis"] == Num(Integer(p.staleVerdicts.millis));
    }
  }

  lemma MemberRepresentable(m: map<string, Value>, k: string)
    requires Representable(Obj(m)) && k in m
    ensures Representable(m[k])
  {
  }

  lemma DigestNeedsSafeMillis(p: Policy)
    requires Representable(ToValue(p))
    ensures SafeMillis(p)
  {
    var m := ToValue(p).members;
    FieldsOf(p);
    FreshnessRepresentable(p);
    MemberRepresentable(m, "verdict_ttl_millis");
    MemberRepresentable(m, "freshness");
    MemberRepresentable(m, "stale_verdicts");
  }

  lemma SafeMillisGiveDigest(p: Policy)
    requires SafeMillis(p)
    ensures Representable(ToValue(p))
  {
    RequirementsRepresentable(p);
    FreshnessMembersRepresentable(p);
  }

  lemma RequirementsRepresentable(p: Policy)
    ensures Representable(Obj(RequirementMembers(p)))
  {
    HardwareRepresentable(p);
  }

  lemma FreshnessMembersRepresentable(p: Policy)
    requires SafeMillis(p)
    ensures Representable(Obj(FreshnessMembers(p)))
  {
    FreshnessRepresentable(p);
    assert Representable(ProvenanceValue(p.provenance));
    assert Representable(Num(Integer(p.verdictTtl)));
  }

  /** A policy has a digest exactly when its three durations are safe integers. */
  lemma DigestExists(p: Policy)
    ensures Representable(ToValue(Normalized(p))) <==> SafeMillis(p)
  {
    if SafeMillis(p) {
      SafeMillisGiveDigest(Normalized(p));
    } else if Representable(ToValue(Normalized(p))) {
      DigestNeedsSafeMillis(Normalized(p));
    }
  }
}
