/** The canonical text of a policy written out, member by member: what the serialiser, the key order and the
    writer produce together, for every policy. */
module PolicyText {
  import opened KeyOrders
  import opened JsonText
  import opened JsonStrings
  import opened CanonicalJson
  import opened CanonicalWriter
  import opened Policy

  // ----- the text -----

  /** The members of an object: names and texts. */
  datatype Members = End | More(name: string, text: string, rest: Members)

  function Inner(m: Members): string {
    match m
    case End => ""
    case More(name, text, End) => "\"" + name + "\":" + text
    case More(name, text, rest) => "\"" + name + "\":" + text + "," + Inner(rest)
  }

  function Braces(m: Members): string {
    "{" + Inner(m) + "}"
  }

  function Word(s: string): string {
    "\"" + s + "\""
  }

  function BoolText(b: bool): string {
    if b then "true" else "false"
  }

  function CpuTeeText(k: CpuTee): string {
    match k
    case Tdx => Word("tdx")
    case SevSnp => Word("sev_snp")
    case Nitro => Word("nitro")
  }

  /** Texts between brackets, with commas. */
  function Brackets(texts: seq<string>): string {
    "[" + Listed(texts) + "]"
  }

  function Listed(texts: seq<string>): string {
    if texts == [] then "" else if |texts| == 1 then texts[0] else texts[0] + "," + Listed(texts[1..])
  }

  function CpuText(r: CpuRequirement): string {
    match r
    case CpuNotRequired => Braces(More("mode", Word("not_required"), End))
    case AnyCpuTee => Braces(More("mode", Word("any_cpu_tee"), End))
    case CpuOneOf(allowed) =>
      Braces(More("allowed", Brackets(seq(|allowed|, i requires 0 <= i < |allowed| => CpuTeeText(allowed[i]))),
                  More("mode", Word("one_of"), End)))
  }

  function GpuText(r: GpuRequirement): string {
    match r
    case GpuNotRequired => Braces(More("mode", Word("not_required"), End))
    case GpuOneOf(allowed) =>
      Braces(More("allowed", Brackets(seq(|allowed|, i requires 0 <= i < |allowed| => Word("nvidia_cc"))),
                  More("mode", Word("one_of"), End)))
  }

  function HardwareText(cpu: CpuRequirement, gpu: GpuRequirement): string {
    Braces(More("cpu", CpuText(cpu), More("gpu", GpuText(gpu), End)))
  }

  function EnforcementText(e: EnforcementMode): string {
    match e
    case Disabled => Word("disabled")
    case Observe => Word("observe")
    case Enforce => Word("enforce")
  }

  function ChannelText(c: ChannelBinding): string {
    match c
    case ChannelNotRequired => Word("not_required")
    case AnyAttestedChannel => Word("any_attested_channel")
    case TeeTerminatedTls => Word("tee_terminated_tls")
    case AttestedAppE2ee => Word("attested_app_e2ee")
  }

  function BoundDataText(b: BoundData): string {
    match b
    case DataNotRequired => Word("not_required")
    case BoundToAttestedWorkload => Word("bound_to_attested_workload")
  }

  function IntegrityText(r: ResponseIntegrity): string {
    match r
    case IntegrityNotRequired => Word("not_required")
    case AnyBound => Word("any_bound")
    case ChannelBound => Word("channel_bound")
    case ReceiptBound => Word("receipt_bound")
  }

  function ModelText(m: ModelBinding): string {
    match m
    case ModelNotRequired => Word("not_required")
    case IfProviderSupports => Word("if_provider_supports")
    case ModelRequired => Word("required")
  }

  function ProvenanceText(p: Provenance): string {
    Braces(More("dependency_sbom", BoolText(p.dependencySbom),
           More("model_artifacts", BoolText(p.modelArtifacts),
           More("reproducible_build", BoolText(p.reproducibleBuild),
           More("source_attestation", BoolText(p.sourceAttestation),
           More("workload_image", BoolText(p.workloadImage), End))))))
  }

  function FreshnessText(f: Freshness): string {
    match f
    case PerRequest => Braces(More("mode", Word("per_request"), End))
    case PerSession => Braces(More("mode", Word("per_session"), End))
    case AllowCachedBinding(millis) => Braces(More("millis", NatText(millis), More("mode", Word("allow_cached_binding_millis"), End)))
  }

  function StaleText(s: StaleVerdicts): string {
    match s
    case FailClosed => Braces(More("mode", Word("fail_closed"), End))
    case AllowFor(millis) => Braces(More("millis", NatText(millis), More("mode", Word("allow_for_millis"), End)))
  }

  /** The canonical text of a policy as it stands. */
  function Written(p: Policy): string {
    Braces(
      More("channel_binding_requirement", ChannelText(p.channelBinding),
      More("enforcement", EnforcementText(p.enforcement),
      More("freshness", FreshnessText(p.freshness),
      More("hardware", HardwareText(p.cpu, p.gpu),
      More("model_binding_requirement", ModelText(p.modelBinding),
      More("provenance", ProvenanceText(p.provenance),
      More("provider_registry_digest", Quote(p.registryDigest),
      More("reference_values_digest", Quote(p.referenceValuesDigest),
      More("request_confidentiality_requirement", BoundDataText(p.requestConfidentiality),
      More("response_confidentiality_requirement", BoundDataText(p.responseConfidentiality),
      More("response_integrity_requirement", IntegrityText(p.responseIntegrity),
      More("schema", Quote(p.schema),
      More("stale_verdicts", StaleText(p.staleVerdicts),
      More("verdict_ttl_millis", NatText(p.verdictTtl), End)))))))))))))))
  }

  // ----- objects -----

  predicate Plain(s: string) {
    forall i :: 0 <= i < |s| ==> 0x20 <= s[i] as int < 0x80 && s[i] != '"' && s[i] != '\\'
  }

  /** The strings part at a place where the first has the smaller character. */
  ghost predicate Parted(a: string, b: string) {
    exists k :: 0 <= k < |a| && k < |b| && a[..k] == b[..k] && a[k] < b[k]
  }

  /** Says of a value that it has this text. */
  type Texts = (Value, string) -> bool

  /** The members are in order and have their texts in the object. */
  ghost predicate Lists(has: Texts, v: Value, m: Members)
    requires v.Obj?
  {
    match m
    case End => true
    case More(name, text, rest) =>
      MemberText(has, v, name, text) && Lists(has, v, rest) && (rest.More? ==> Parted(name, rest.name))
  }

  ghost predicate MemberText(has: Texts, v: Value, name: string, text: string)
    requires v.Obj?
  {
    Plain(name) && name in v.members && has(v.members[name], text)
  }

  function Names(m: Members): set<string> {
    match m
    case End => {}
    case More(name, _, rest) => {name} + Names(rest)
  }

  ghost predicate ObjectRule(has: Texts) {
    forall v: Value, m: Members {:trigger has(v, Braces(m))} :: v.Obj? && Lists(has, v, m) && v.members.Keys == Names(m) ==> has(v, Braces(m))
  }

  ghost predicate AllHave(has: Texts, items: seq<Value>, texts: seq<string>) {
    |items| == |texts| && forall i :: 0 <= i < |texts| ==> has(items[i], texts[i])
  }

  ghost predicate ArrayRule(has: Texts) {
    forall items: seq<Value>, texts: seq<string> {:trigger AllHave(has, items, texts)} ::
      AllHave(has, items, texts) ==> has(Arr(items), Brackets(texts))
  }

  ghost predicate LeafRules(has: Texts) {
    && (forall s: string {:trigger has(Str(s), Word(s))} :: Plain(s) ==> has(Str(s), Word(s)))
    && (forall s: string {:trigger Quote(s)} :: has(Str(s), Quote(s)))
    && (forall b: bool {:trigger BoolText(b)} :: has(Bool(b), BoolText(b)))
    && (forall n: nat {:trigger NatText(n)} :: n < 0x20_0000_0000_0000 ==> has(Num(Integer(n)), NatText(n)))
  }

  /** How texts are put together. The parts of a policy need no more than this. */
  ghost predicate Rules(has: Texts) {
    ObjectRule(has) && ArrayRule(has) && LeafRules(has)
  }

  // ----- one-member and two-member objects -----

  lemma WordText(has: Texts, s: string)
    requires LeafRules(has) && Plain(s)
    ensures has(Str(s), Word(s))
  {
  }

  lemma OneMember(has: Texts, name: string, v: Value, x: string)
    requires ObjectRule(has) && Plain(name) && has(v, x)
    ensures has(Obj(map[name := v]), Braces(More(name, x, End)))
  {
    var o, m := Obj(map[name := v]), More(name, x, End);
    assert Lists(has, o, End) && Names(End) == {};
    assert Lists(has, o, m) && Names(m) == {name};
    assert o.members.Keys == {name};
  }

  lemma AddMember(has: Texts, v: Value, name: string, text: string, rest: Members, names: set<string>)
    requires v.Obj? && MemberText(has, v, name, text) && Lists(has, v, rest) && Names(rest) == names
    requires rest.More? ==> Parted(name, rest.name)
    ensures Lists(has, v, More(name, text, rest)) && Names(More(name, text, rest)) == {name} + names
  {
  }

  lemma TwoMembers(has: Texts, v: Value, a: string, x: string, b: string, y: string)
    requires ObjectRule(has) && v.Obj? && v.members.Keys == {a, b}
    requires MemberText(has, v, a, x) && MemberText(has, v, b, y) && Parted(a, b)
    ensures has(v, Braces(More(a, x, More(b, y, End))))
  {
    AddMember(has, v, b, y, End, {});
    AddMember(has, v, a, x, More(b, y, End), {b});
    assert {a} + {b} == {a, b};
  }

  /** Two members given in either order. */
  lemma PairObject(has: Texts, a: string, va: Value, x: string, b: string, vb: Value, y: string)
    requires ObjectRule(has) && Plain(a) && Plain(b) && has(va, x) && has(vb, y) && Parted(a, b)
    ensures has(Obj(map[b := vb, a := va]), Braces(More(a, x, More(b, y, End))))
    ensures has(Obj(map[a := va, b := vb]), Braces(More(a, x, More(b, y, End))))
  {
    var v, w := Obj(map[b := vb, a := va]), Obj(map[a := va, b := vb]);
    assert a != b;
    assert v.members[a] == va && v.members[b] == vb && w.members[a] == va && w.members[b] == vb;
    TwoMembers(has, v, a, x, b, y);
    TwoMembers(has, w, a, x, b, y);
  }

  lemma PartAt(a: string, b: string, k: nat)
    requires k < |a| && k < |b| && (forall i :: 0 <= i < k ==> a[i] == b[i]) && a[k] < b[k]
    ensures Parted(a, b)
  {
    assert a[..k] == b[..k];
  }

  lemma PartAtFirst(a: string, b: string)
    requires |a| > 0 && |b| > 0 && a[0] < b[0]
    ensures Parted(a, b)
  {
    PartAt(a, b, 0);
  }

  lemma PartAtSecond(a: string, b: string)
    requires |a| > 1 && |b| > 1 && a[0] == b[0] && a[1] < b[1]
    ensures Parted(a, b)
  {
    PartAt(a, b, 1);
  }

  lemma PartAtThird(a: string, b: string)
    requires |a| > 2 && |b| > 2 && a[0] == b[0] && a[1] == b[1] && a[2] < b[2]
    ensures Parted(a, b)
  {
    PartAt(a, b, 2);
  }

  lemma ModeObject(has: Texts, mode: string)
    requires Rules(has) && Plain(mode)
    ensures has(Obj(map["mode" := Str(mode)]), Braces(More("mode", Word(mode), End)))
  {
    WordText(has, mode);
    OneMember(has, "mode", Str(mode), Word(mode));
  }

  lemma MillisObject(has: Texts, mode: string, millis: nat)
    requires Rules(has) && Plain(mode) && millis < 0x20_0000_0000_0000
    ensures has(Obj(map["mode" := Str(mode), "millis" := Num(Integer(millis))]),
                Braces(More("millis", NatText(millis), More("mode", Word(mode), End))))
  {
    WordText(has, mode);
    PartAtSecond("millis", "mode");
    PairObject(has, "millis", Num(Integer(millis)), NatText(millis), "mode", Str(mode), Word(mode));
  }

  // ----- the parts of a policy -----

  lemma CpuTeeWritten(has: Texts, k: CpuTee)
    requires Rules(has)
    ensures has(CpuValue(k), CpuTeeText(k))
  {
    match k
    case Tdx => WordText(has, "tdx");
    case SevSnp => WordText(has, "sev_snp");
    case Nitro => WordText(has, "nitro");
  }

  lemma OneOfObject(has: Texts, items: Value, text: string)
    requires Rules(has) && has(items, text)
    ensures has(Obj(map["mode" := Str("one_of"), "allowed" := items]), Braces(More("allowed", text, More("mode", Word("one_of"), End))))
  {
    WordText(has, "one_of");
    PartAtFirst("allowed", "mode");
    PairObject(has, "allowed", items, text, "mode", Str("one_of"), Word("one_of"));
  }

  lemma CpuOneOfWritten(has: Texts, allowed: seq<CpuTee>)
    requires Rules(has)
    ensures has(CpuRequirementValue(CpuOneOf(allowed)), CpuText(CpuOneOf(allowed)))
  {
    var items := seq(|allowed|, i requires 0 <= i < |allowed| => CpuValue(allowed[i]));
    var texts := seq(|allowed|, i requires 0 <= i < |allowed| => CpuTeeText(allowed[i]));
    forall i | 0 <= i < |texts| ensures has(items[i], texts[i]) {
      CpuTeeWritten(has, allowed[i]);
    }
    assert AllHave(has, items, texts);
    OneOfObject(has, Arr(items), Brackets(texts));
  }

  lemma CpuWritten(has: Texts, r: CpuRequirement)
    requires Rules(has)
    ensures has(CpuRequirementValue(r), CpuText(r))
  {
    match r
    case CpuNotRequired => ModeObject(has, "not_required");
    case AnyCpuTee => ModeObject(has, "any_cpu_tee");
    case CpuOneOf(allowed) => CpuOneOfWritten(has, allowed);
  }

  lemma GpuOneOfWritten(has: Texts, allowed: seq<GpuTee>)
    requires Rules(has)
    ensures has(GpuRequirementValue(GpuOneOf(allowed)), GpuText(GpuOneOf(allowed)))
  {
    var items := seq(|allowed|, i requires 0 <= i < |allowed| => Str("nvidia_cc"));
    var texts := seq(|allowed|, i requires 0 <= i < |allowed| => Word("nvidia_cc"));
    WordText(has, "nvidia_cc");
    assert AllHave(has, items, texts);
    OneOfObject(has, Arr(items), Brackets(texts));
  }

  lemma GpuWritten(has: Texts, r: GpuRequirement)
    requires Rules(has)
    ensures has(GpuRequirementValue(r), GpuText(r))
  {
    match r
    case GpuNotRequired => ModeObject(has, "not_required");
    case GpuOneOf(allowed) => GpuOneOfWritten(has, allowed);
  }

  lemma HardwareWritten(has: Texts, cpu: CpuRequirement, gpu: GpuRequirement)
    requires Rules(has)
    ensures has(HardwareValue(cpu, gpu), HardwareText(cpu, gpu))
  {
    CpuWritten(has, cpu);
    GpuWritten(has, gpu);
    PartAtFirst("cpu", "gpu");
    PairObject(has, "cpu", CpuRequirementValue(cpu), CpuText(cpu), "gpu", GpuRequirementValue(gpu), GpuText(gpu));
  }

  lemma EnforcementWritten(has: Texts, e: EnforcementMode)
    requires Rules(has)
    ensures has(EnforcementValue(e), EnforcementText(e))
  {
    match e
    case Disabled => WordText(has, "disabled");
    case Observe => WordText(has, "observe");
    case Enforce => WordText(has, "enforce");
  }

  lemma ChannelWritten(has: Texts, c: ChannelBinding)
    requires Rules(has)
    ensures has(ChannelValue(c), ChannelText(c))
  {
    match c
    case ChannelNotRequired => WordText(has, "not_required");
    case AnyAttestedChannel => WordText(has, "any_attested_channel");
    case TeeTerminatedTls => WordText(has, "tee_terminated_tls");
    case AttestedAppE2ee => WordText(has, "attested_app_e2ee");
  }

  lemma BoundDataWritten(has: Texts, b: BoundData)
    requires Rules(has)
    ensures has(BoundDataValue(b), BoundDataText(b))
  {
    match b
    case DataNotRequired => WordText(has, "not_required");
    case BoundToAttestedWorkload => WordText(has, "bound_to_attested_workload");
  }

  lemma IntegrityWritten(has: Texts, r: ResponseIntegrity)
    requires Rules(has)
    ensures has(IntegrityValue(r), IntegrityText(r))
  {
    match r
    case IntegrityNotRequired => WordText(has, "not_required");
    case AnyBound => WordText(has, "any_bound");
    case ChannelBound => WordText(has, "channel_bound");
    case ReceiptBound => WordText(has, "receipt_bound");
  }

  lemma ModelWritten(has: Texts, m: ModelBinding)
    requires Rules(has)
    ensures has(ModelValue(m), ModelText(m))
  {
    match m
    case ModelNotRequired => WordText(has, "not_required");
    case IfProviderSupports => WordText(has, "if_provider_supports");
    case ModelRequired => WordText(has, "required");
  }

  lemma FreshnessWritten(has: Texts, f: Freshness)
    requires Rules(has) && (f.AllowCachedBinding? ==> f.millis < 0x20_0000_0000_0000)
    ensures has(FreshnessValue(f), FreshnessText(f))
  {
    match f
    case PerRequest => ModeObject(has, "per_request");
    case PerSession => ModeObject(has, "per_session");
    case AllowCachedBinding(millis) => MillisObject(has, "allow_cached_binding_millis", millis);
  }

  lemma StaleWritten(has: Texts, s: StaleVerdicts)
    requires Rules(has) && (s.AllowFor? ==> s.millis < 0x20_0000_0000_0000)
    ensures has(StaleValue(s), StaleText(s))
  {
    match s
    case FailClosed => ModeObject(has, "fail_closed");
    case AllowFor(millis) => MillisObject(has, "allow_for_millis", millis);
  }

  lemma ProvenanceFields(p: Provenance)
    ensures var m := ProvenanceValue(p).members;
            && m.Keys == {"dependency_sbom", "model_artifacts", "reproducible_build", "source_attestation", "workload_image"}
            && m["dependency_sbom"] == Bool(p.dependencySbom) && m["model_artifacts"] == Bool(p.modelArtifacts)
            && m["reproducible_build"] == Bool(p.reproducibleBuild) && m["source_attestation"] == Bool(p.sourceAttestation)
            && m["workload_image"] == Bool(p.workloadImage)
  {
    assert "workload_image"[0] != "model_artifacts"[0] && "model_artifacts"[0] != "dependency_sbom"[0];
  }

  /** A member of an object is read in it and has its text. */
  lemma Member(has: Texts, v: Value, name: string, value: Value, text: string)
    requires v.Obj? && Plain(name) && name in v.members && v.members[name] == value && has(value, text)
    ensures MemberText(has, v, name, text)
  {
  }

  /** Adjacent names in order. */
  ghost predicate Row(a: string, b: string, c: string, d: string) {
    Parted(a, b) && Parted(b, c) && Parted(c, d)
  }

  /** Three members in front of others. */
  lemma ThreeMembers(has: Texts, v: Value, a: string, x: string, b: string, y: string, c: string, z: string, rest: Members)
    requires v.Obj? && MemberText(has, v, a, x) && MemberText(has, v, b, y) && MemberText(has, v, c, z)
    requires rest.More? && Lists(has, v, rest) && Row(a, b, c, rest.name)
    ensures Lists(has, v, More(a, x, More(b, y, More(c, z, rest))))
    ensures Names(More(a, x, More(b, y, More(c, z, rest)))) == {a, b, c} + Names(rest)
  {
    AddMember(has, v, c, z, rest, Names(rest));
    AddMember(has, v, b, y, More(c, z, rest), {c} + Names(rest));
    AddMember(has, v, a, x, More(b, y, More(c, z, rest)), {b} + ({c} + Names(rest)));
    assert {a} + ({b} + ({c} + Names(rest))) == {a, b, c} + Names(rest);
  }

  lemma LastMember(has: Texts, v: Value, a: string, x: string)
    requires v.Obj? && MemberText(has, v, a, x)
    ensures Lists(has, v, More(a, x, End)) && Names(More(a, x, End)) == {a}
  {
    AddMember(has, v, a, x, End, {});
  }

  lemma OneMore(has: Texts, v: Value, a: string, x: string, rest: Members)
    requires v.Obj? && MemberText(has, v, a, x) && Lists(has, v, rest) && rest.More? && Parted(a, rest.name)
    ensures Lists(has, v, More(a, x, rest)) && Names(More(a, x, rest)) == {a} + Names(rest)
  {
    AddMember(has, v, a, x, rest, Names(rest));
  }

  // ----- provenance -----

  lemma ProvenanceOrder()
    ensures Row("dependency_sbom", "model_artifacts", "reproducible_build", "source_attestation")
    ensures Parted("source_attestation", "workload_image")
  {
    PartAtFirst("dependency_sbom", "model_artifacts");
    PartAtFirst("model_artifacts", "reproducible_build");
    PartAtFirst("reproducible_build", "source_attestation");
    PartAtFirst("source_attestation", "workload_image");
  }

  lemma PlainProvenance()
    ensures Plain("dependency_sbom") && Plain("model_artifacts") && Plain("reproducible_build")
  {
  }

  lemma PlainSources()
    ensures Plain("source_attestation") && Plain("workload_image")
  {
  }

  lemma ProvenanceMembers(has: Texts, p: Provenance, v: Value)
    requires Rules(has) && v == ProvenanceValue(p)
    ensures MemberText(has, v, "dependency_sbom", BoolText(p.dependencySbom))
    ensures MemberText(has, v, "model_artifacts", BoolText(p.modelArtifacts))
    ensures MemberText(has, v, "reproducible_build", BoolText(p.reproducibleBuild))
  {
    PlainProvenance();
    ProvenanceFields(p);
    Member(has, v, "dependency_sbom", Bool(p.dependencySbom), BoolText(p.dependencySbom));
    Member(has, v, "model_artifacts", Bool(p.modelArtifacts), BoolText(p.modelArtifacts));
    Member(has, v, "reproducible_build", Bool(p.reproducibleBuild), BoolText(p.reproducibleBuild));
  }

  lemma SourceMembers(has: Texts, p: Provenance, v: Value)
    requires Rules(has) && v == ProvenanceValue(p)
    ensures MemberText(has, v, "source_attestation", BoolText(p.sourceAttestation))
    ensures MemberText(has, v, "workload_image", BoolText(p.workloadImage))
  {
    PlainSources();
    ProvenanceFields(p);
    Member(has, v, "source_attestation", Bool(p.sourceAttestation), BoolText(p.sourceAttestation));
    Member(has, v, "workload_image", Bool(p.workloadImage), BoolText(p.workloadImage));
  }

  /** Five members in order. */
  lemma FiveMembers(has: Texts, v: Value, a: string, x: string, b: string, y: string, c: string, z: string,
                    d: string, t: string, e: string, u: string)
    requires ObjectRule(has) && v.Obj? && v.members.Keys == {a, b, c, d, e}
    requires MemberText(has, v, a, x) && MemberText(has, v, b, y) && MemberText(has, v, c, z)
    requires MemberText(has, v, d, t) && MemberText(has, v, e, u) && Row(a, b, c, d) && Parted(d, e)
    ensures has(v, Braces(More(a, x, More(b, y, More(c, z, More(d, t, More(e, u, End)))))))
  {
    LastMember(has, v, e, u);
    OneMore(has, v, d, t, More(e, u, End));
    ThreeMembers(has, v, a, x, b, y, c, z, More(d, t, More(e, u, End)));
    assert {a, b, c} + ({d} + {e}) == {a, b, c, d, e};
  }

  lemma ProvenanceWritten(has: Texts, p: Provenance)
    requires Rules(has)
    ensures has(ProvenanceValue(p), ProvenanceText(p))
  {
    ProvenanceFields(p);
    ProvenanceOrder();
    ProvenanceMembers(has, p, ProvenanceValue(p));
    SourceMembers(has, p, ProvenanceValue(p));
    FiveMembers(has, ProvenanceValue(p), "dependency_sbom", BoolText(p.dependencySbom), "model_artifacts", BoolText(p.modelArtifacts),
                "reproducible_build", BoolText(p.reproducibleBuild), "source_attestation", BoolText(p.sourceAttestation),
                "workload_image", BoolText(p.workloadImage));
  }

  // ----- the whole policy -----

  ghost predicate SafeTimes(p: Policy) {
    && p.verdictTtl < 0x20_0000_0000_0000
    && (p.freshness.AllowCachedBinding? ==> p.freshness.millis < 0x20_0000_0000_0000)
    && (p.staleVerdicts.AllowFor? ==> p.staleVerdicts.millis < 0x20_0000_0000_0000)
  }

  ghost predicate IsPolicy(v: Value, p: Policy) {
    v.Obj? && RequirementFields(v.members, p) && FreshnessFields(v.members, p)
  }

  lemma PlainA()
    ensures Plain("channel_binding_requirement") && Plain("enforcement") && Plain("freshness")
  {
  }

  lemma MembersA(has: Texts, p: Policy, v: Value)
    requires Rules(has) && v.Obj? && SafeTimes(p)
    requires "channel_binding_requirement" in v.members && v.members["channel_binding_requirement"] == ChannelValue(p.channelBinding)
    requires "enforcement" in v.members && v.members["enforcement"] == EnforcementValue(p.enforcement)
    requires "freshness" in v.members && v.members["freshness"] == FreshnessValue(p.freshness)
    ensures MemberText(has, v, "channel_binding_requirement", ChannelText(p.channelBinding))
    ensures MemberText(has, v, "enforcement", EnforcementText(p.enforcement))
    ensures MemberText(has, v, "freshness", FreshnessText(p.freshness))
  {
    PlainA();
    ChannelWritten(has, p.channelBinding);
    EnforcementWritten(has, p.enforcement);
    FreshnessWritten(has, p.freshness);
    Member(has, v, "channel_binding_requirement", ChannelValue(p.channelBinding), ChannelText(p.channelBinding));
    Member(has, v, "enforcement", EnforcementValue(p.enforcement), EnforcementText(p.enforcement));
    Member(has, v, "freshness", FreshnessValue(p.freshness), FreshnessText(p.freshness));
  }

  lemma PlainB()
    ensures Plain("hardware") && Plain("model_binding_requirement") && Plain("provenance")
  {
  }

  lemma MembersB(has: Texts, p: Policy, v: Value)
    requires Rules(has) && v.Obj?
    requires "hardware" in v.members && v.members["hardware"] == HardwareValue(p.cpu, p.gpu)
    requires "model_binding_requirement" in v.members && v.members["model_binding_requirement"] == ModelValue(p.modelBinding)
    requires "provenance" in v.members && v.members["provenance"] == ProvenanceValue(p.provenance)
    ensures MemberText(has, v, "hardware", HardwareText(p.cpu, p.gpu))
    ensures MemberText(has, v, "model_binding_requirement", ModelText(p.modelBinding))
    ensures MemberText(has, v, "provenance", ProvenanceText(p.provenance))
  {
    PlainB();
    HardwareWritten(has, p.cpu, p.gpu);
    ModelWritten(has, p.modelBinding);
    ProvenanceWritten(has, p.provenance);
    Member(has, v, "hardware", HardwareValue(p.cpu, p.gpu), HardwareText(p.cpu, p.gpu));
    Member(has, v, "model_binding_requirement", ModelValue(p.modelBinding), ModelText(p.modelBinding));
    Member(has, v, "provenance", ProvenanceValue(p.provenance), ProvenanceText(p.provenance));
  }

  lemma PlainC()
    ensures Plain("provider_registry_digest") && Plain("reference_values_digest") && Plain("request_confidentiality_requirement")
  {
  }

  lemma MembersC(has: Texts, p: Policy, v: Value)
    requires Rules(has) && v.Obj?
    requires "provider_registry_digest" in v.members && v.members["provider_registry_digest"] == Str(p.registryDigest)
    requires "reference_values_digest" in v.members && v.members["reference_values_digest"] == Str(p.referenceValuesDigest)
    requires "request_confidentiality_requirement" in v.members && v.members["request_confidentiality_requirement"] == BoundDataValue(p.requestConfidentiality)
    ensures MemberText(has, v, "provider_registry_digest", Quote(p.registryDigest))
    ensures MemberText(has, v, "reference_values_digest", Quote(p.referenceValuesDigest))
    ensures MemberText(has, v, "request_confidentiality_requirement", BoundDataText(p.requestConfidentiality))
  {
    PlainC();
    BoundDataWritten(has, p.requestConfidentiality);
    Member(has, v, "provider_registry_digest", Str(p.registryDigest), Quote(p.registryDigest));
    Member(has, v, "reference_values_digest", Str(p.referenceValuesDigest), Quote(p.referenceValuesDigest));
    Member(has, v, "request_confidentiality_requirement", BoundDataValue(p.requestConfidentiality), BoundDataText(p.requestConfidentiality));
  }

  lemma PlainD()
    ensures Plain("response_confidentiality_requirement") && Plain("response_integrity_requirement") && Plain("schema")
  {
  }

  lemma MembersD(has: Texts, p: Policy, v: Value)
    requires Rules(has) && v.Obj?
    requires "response_confidentiality_requirement" in v.members && v.members["response_confidentiality_requirement"] == BoundDataValue(p.responseConfidentiality)
    requires "response_integrity_requirement" in v.members && v.members["response_integrity_requirement"] == IntegrityValue(p.responseIntegrity)
    requires "schema" in v.members && v.members["schema"] == Str(p.schema)
    ensures MemberText(has, v, "response_confidentiality_requirement", BoundDataText(p.responseConfidentiality))
    ensures MemberText(has, v, "response_integrity_requirement", IntegrityText(p.responseIntegrity))
    ensures MemberText(has, v, "schema", Quote(p.schema))
  {
    PlainD();
    BoundDataWritten(has, p.responseConfidentiality);
    IntegrityWritten(has, p.responseIntegrity);
    Member(has, v, "response_confidentiality_requirement", BoundDataValue(p.responseConfidentiality), BoundDataText(p.responseConfidentiality));
    Member(has, v, "response_integrity_requirement", IntegrityValue(p.responseIntegrity), IntegrityText(p.responseIntegrity));
    Member(has, v, "schema", Str(p.schema), Quote(p.schema));
  }

  lemma PlainE()
    ensures Plain("stale_verdicts") && Plain("verdict_ttl_millis")
  {
  }

  lemma MembersE(has: Texts, p: Policy, v: Value)
    requires Rules(has) && v.Obj? && SafeTimes(p)
    requires "stale_verdicts" in v.members && v.members["stale_verdicts"] == StaleValue(p.staleVerdicts)
    requires "verdict_ttl_millis" in v.members && v.members["verdict_ttl_millis"] == Num(Integer(p.verdictTtl))
    ensures MemberText(has, v, "stale_verdicts", StaleText(p.staleVerdicts))
    ensures MemberText(has, v, "verdict_ttl_millis", NatText(p.verdictTtl))
  {
    PlainE();
    StaleWritten(has, p.staleVerdicts);
    Member(has, v, "stale_verdicts", StaleValue(p.staleVerdicts), StaleText(p.staleVerdicts));
    Member(has, v, "verdict_ttl_millis", Num(Integer(p.verdictTtl)), NatText(p.verdictTtl));
  }

  lemma OrderA()
    ensures Row("channel_binding_requirement", "enforcement", "freshness", "hardware")
  {
    PartAtFirst("channel_binding_requirement", "enforcement");
    PartAtFirst("enforcement", "freshness");
    PartAtFirst("freshness", "hardware");
  }

  lemma ProviderLast()
    ensures Parted("provenance", "provider_registry_digest")
  {
    var a, b := "provenance", "provider_registry_digest";
    assert a[0] == b[0] && a[1] == b[1] && a[2] == b[2] && a[3] == b[3] && a[4] < b[4];
    PartAt(a, b, 4);
  }

  lemma OrderB()
    ensures Row("hardware", "model_binding_requirement", "provenance", "provider_registry_digest")
  {
    PartAtFirst("hardware", "model_binding_requirement");
    PartAtFirst("model_binding_requirement", "provenance");
    ProviderLast();
  }

  lemma OrderC()
    ensures Row("provider_registry_digest", "reference_values_digest", "request_confidentiality_requirement", "response_confidentiality_requirement")
  {
    PartAtFirst("provider_registry_digest", "reference_values_digest");
    PartAtThird("reference_values_digest", "request_confidentiality_requirement");
    PartAtThird("request_confidentiality_requirement", "response_confidentiality_requirement");
  }

  lemma IntegrityLast()
    ensures Parted("response_confidentiality_requirement", "response_integrity_requirement")
  {
    var a, b := "response_confidentiality_requirement", "response_integrity_requirement";
    assert a[0] == b[0] && a[1] == b[1] && a[2] == b[2] && a[3] == b[3] && a[4] == b[4];
    assert a[5] == b[5] && a[6] == b[6] && a[7] == b[7] && a[8] == b[8] && a[9] < b[9];
    PartAt(a, b, 9);
  }

  lemma OrderD()
    ensures Row("response_confidentiality_requirement", "response_integrity_requirement", "schema", "stale_verdicts")
  {
    IntegrityLast();
    PartAtFirst("response_integrity_requirement", "schema");
    PartAtSecond("schema", "stale_verdicts");
  }

  lemma OrderE()
    ensures Parted("stale_verdicts", "verdict_ttl_millis")
  {
    PartAtFirst("stale_verdicts", "verdict_ttl_millis");
  }

  function MembersFromD(p: Policy): Members {
    More("response_confidentiality_requirement", BoundDataText(p.responseConfidentiality),
    More("response_integrity_requirement", IntegrityText(p.responseIntegrity),
    More("schema", Quote(p.schema),
    More("stale_verdicts", StaleText(p.staleVerdicts),
    More("verdict_ttl_millis", NatText(p.verdictTtl), End)))))
  }

  function MembersFromC(p: Policy): Members {
    More("provider_registry_digest", Quote(p.registryDigest),
    More("reference_values_digest", Quote(p.referenceValuesDigest),
    More("request_confidentiality_requirement", BoundDataText(p.requestConfidentiality), MembersFromD(p))))
  }

  function MembersFromB(p: Policy): Members {
    More("hardware", HardwareText(p.cpu, p.gpu),
    More("model_binding_requirement", ModelText(p.modelBinding),
    More("provenance", ProvenanceText(p.provenance), MembersFromC(p))))
  }

  function AllMembers(p: Policy): Members {
    More("channel_binding_requirement", ChannelText(p.channelBinding),
    More("enforcement", EnforcementText(p.enforcement),
    More("freshness", FreshnessText(p.freshness), MembersFromB(p))))
  }

  lemma ListedD(has: Texts, p: Policy, v: Value)
    requires Rules(has) && IsPolicy(v, p) && SafeTimes(p)
    ensures Lists(has, v, MembersFromD(p))
    ensures Names(MembersFromD(p)) == {"response_confidentiality_requirement", "response_integrity_requirement", "schema"}
                                      + ({"stale_verdicts"} + {"verdict_ttl_millis"})
  {
    MembersD(has, p, v);
    MembersE(has, p, v);
    OrderD();
    OrderE();
    var e := More("verdict_ttl_millis", NatText(p.verdictTtl), End);
    LastMember(has, v, "verdict_ttl_millis", NatText(p.verdictTtl));
    OneMore(has, v, "stale_verdicts", StaleText(p.staleVerdicts), e);
    ThreeMembers(has, v, "response_confidentiality_requirement", BoundDataText(p.responseConfidentiality),
                 "response_integrity_requirement", IntegrityText(p.responseIntegrity), "schema", Quote(p.schema),
                 More("stale_verdicts", StaleText(p.staleVerdicts), e));
  }

  lemma ListedC(has: Texts, p: Policy, v: Value)
    requires Rules(has) && IsPolicy(v, p) && SafeTimes(p)
    ensures Lists(has, v, MembersFromC(p))
    ensures Names(MembersFromC(p)) ==
            {"provider_registry_digest", "reference_values_digest", "request_confidentiality_requirement"} + Names(MembersFromD(p))
  {
    MembersC(has, p, v);
    ListedD(has, p, v);
    OrderC();
    ThreeMembers(has, v, "provider_registry_digest", Quote(p.registryDigest), "reference_values_digest", Quote(p.referenceValuesDigest),
                 "request_confidentiality_requirement", BoundDataText(p.requestConfidentiality), MembersFromD(p));
  }

  lemma ListedB(has: Texts, p: Policy, v: Value)
    requires Rules(has) && IsPolicy(v, p) && SafeTimes(p)
    ensures Lists(has, v, MembersFromB(p))
    ensures Names(MembersFromB(p)) == {"hardware", "model_binding_requirement", "provenance"} + Names(MembersFromC(p))
  {
    MembersB(has, p, v);
    ListedC(has, p, v);
    OrderB();
    ThreeMembers(has, v, "hardware", HardwareText(p.cpu, p.gpu), "model_binding_requirement", ModelText(p.modelBinding),
                 "provenance", ProvenanceText(p.provenance), MembersFromC(p));
  }

  lemma ListedA(has: Texts, p: Policy, v: Value)
    requires Rules(has) && IsPolicy(v, p) && SafeTimes(p)
    ensures Lists(has, v, AllMembers(p))
    ensures Names(AllMembers(p)) == {"channel_binding_requirement", "enforcement", "freshness"} + Names(MembersFromB(p))
  {
    MembersA(has, p, v);
    ListedB(has, p, v);
    OrderA();
    ThreeMembers(has, v, "channel_binding_requirement", ChannelText(p.channelBinding), "enforcement", EnforcementText(p.enforcement),
                 "freshness", FreshnessText(p.freshness), MembersFromB(p));
  }

  lemma RequirementKeys(p: Policy)
    ensures RequirementMembers(p).Keys ==
            {"schema", "enforcement", "hardware", "channel_binding_requirement", "request_confidentiality_requirement",
             "response_confidentiality_requirement", "response_integrity_requirement"}
  {
  }

  lemma FreshnessKeys(p: Policy)
    ensures FreshnessMembers(p).Keys ==
            {"model_binding_requirement", "provenance", "freshness", "stale_verdicts", "verdict_ttl_millis",
             "provider_registry_digest", "reference_values_digest"}
  {
  }

  /** The same fourteen names, grouped as they are serialised and as they are sorted. */
  lemma Regrouped(a: string, b: string, c: string, d: string, e: string, f: string, g: string,
                  h: string, i: string, j: string, k: string, l: string, m: string, n: string)
    ensures {l, b, d, a, i, j, k} + {e, f, c, m, n, g, h} == {a, b, c} + ({d, e, f} + ({g, h, i} + ({j, k, l} + ({m} + {n}))))
  {
  }

  lemma PolicyKeys(has: Texts, p: Policy)
    requires Rules(has) && IsPolicy(ToValue(p), p) && SafeTimes(p)
    ensures ToValue(p).members.Keys == Names(AllMembers(p))
  {
    RequirementKeys(p);
    FreshnessKeys(p);
    assert ToValue(p).members.Keys == RequirementMembers(p).Keys + FreshnessMembers(p).Keys;
    SortedNames(has, p);
    Regrouped("channel_binding_requirement", "enforcement", "freshness", "hardware", "model_binding_requirement", "provenance",
              "provider_registry_digest", "reference_values_digest", "request_confidentiality_requirement",
              "response_confidentiality_requirement", "response_integrity_requirement", "schema", "stale_verdicts", "verdict_ttl_millis");
  }

  lemma SortedNames(has: Texts, p: Policy)
    requires Rules(has) && IsPolicy(ToValue(p), p) && SafeTimes(p)
    ensures Names(AllMembers(p)) ==
            {"channel_binding_requirement", "enforcement", "freshness"}
            + ({"hardware", "model_binding_requirement", "provenance"}
               + ({"provider_registry_digest", "reference_values_digest", "request_confidentiality_requirement"}
                  + ({"response_confidentiality_requirement", "response_integrity_requirement", "schema"}
                     + ({"stale_verdicts"} + {"verdict_ttl_millis"}))))
  {
    ListedA(has, p, ToValue(p));
    ListedB(has, p, ToValue(p));
    ListedC(has, p, ToValue(p));
    ListedD(has, p, ToValue(p));
  }

  lemma PolicyHasText(has: Texts, p: Policy)
    requires Rules(has) && SafeTimes(p)
    ensures has(ToValue(p), Written(p))
  {
    FieldsOf(p);
    ListedA(has, p, ToValue(p));
    PolicyKeys(has, p);
    assert Written(p) == Braces(AllMembers(p));
  }

  // ----- the writer follows the rules -----

  /** The canonical text of a value. */
  ghost function Canonical(): Texts {
    (v: Value, t: string) => Representable(v) && RustText(v) == t
  }

  lemma PlainQuote(s: string)
    requires Plain(s)
    ensures Quote(s) == Word(s)
  {
    PlainString(s);
    assert "\"" + (s + "\"") == "\"" + s + "\"";
  }

  /** Plain strings are ordered at the first character where they part. */
  lemma PartedLess(a: string, b: string)
    requires Parted(a, b) && Plain(a) && Plain(b)
    ensures Utf16Order()(a, b)
  {
    var k :| 0 <= k < |a| && k < |b| && a[..k] == b[..k] && a[k] < b[k];
    Utf16IsSurrogateOrder(a, b);
    var x, y := Rank(SurrogateRank, a), Rank(SurrogateRank, b);
    forall i | 0 <= i < k ensures x[i] == y[i] {
      assert a[i] == a[..k][i] == b[..k][i] == b[i];
    }
    assert a[k] as int < 0x80 && b[k] as int < 0x80;
    assert x[k] == a[k] as int && y[k] == b[k] as int;
    LexAt(x, y, k);
  }

  lemma {:induction false} LexAt(x: seq<int>, y: seq<int>, k: nat)
    requires k < |x| && k < |y| && (forall i :: 0 <= i < k ==> x[i] == y[i]) && x[k] < y[k]
    ensures LexLess(x, y)
    decreases k
  {
    if k > 0 {
      LexAt(x[1..], y[1..], k - 1);
    }
  }

  function Keys(m: Members): seq<string> {
    match m
    case End => []
    case More(name, _, rest) => [name] + Keys(rest)
  }

  function Parts(m: Members): seq<string> {
    match m
    case End => []
    case More(name, text, rest) => ["\"" + name + "\":" + text] + Parts(rest)
  }

  lemma {:induction false} KeysAscend(has: Texts, v: Value, m: Members)
    requires v.Obj? && Lists(has, v, m)
    ensures forall i, j :: 0 <= i < j < |Keys(m)| ==> Utf16Order()(Keys(m)[i], Keys(m)[j])
    ensures forall k :: k in Names(m) <==> k in Keys(m)
  {
    if m.More? {
      KeysAscend(has, v, m.rest);
      Utf16Total();
      if m.rest.More? {
        PartedLess(m.name, m.rest.name);
      }
      FirstLeast(m.name, Keys(m.rest));
    }
  }

  lemma FirstLeast(name: string, keys: seq<string>)
    requires TotalOrder(Utf16Order()) && (keys != [] ==> Utf16Order()(name, keys[0]))
    requires forall i, j :: 0 <= i < j < |keys| ==> Utf16Order()(keys[i], keys[j])
    ensures var all := [name] + keys; forall i, j :: 0 <= i < j < |all| ==> Utf16Order()(all[i], all[j])
  {
    var less, all := Utf16Order(), [name] + keys;
    forall i, j | 0 <= i < j < |all| ensures less(all[i], all[j]) {
      if i == 0 {
        assert j > 1 ==> less(keys[0], keys[j - 1]);
        assert all[j] == keys[j - 1];
      } else {
        assert all[i] == keys[i - 1] && all[j] == keys[j - 1];
      }
    }
  }

  lemma {:induction false} PartsWritten(v: Value, m: Members)
    requires v.Obj? && Lists(Canonical(), v, m)
    ensures |Parts(m)| == |Keys(m)| && EntriesWritten(v, Keys(m), Parts(m))
  {
    if m.More? {
      PartsWritten(v, m.rest);
      FirstWritten(v, m.name, m.text, Keys(m.rest), Parts(m.rest));
    }
  }

  lemma FirstWritten(v: Value, name: string, text: string, keys: seq<string>, parts: seq<string>)
    requires v.Obj? && MemberText(Canonical(), v, name, text) && |parts| == |keys| && EntriesWritten(v, keys, parts)
    ensures EntriesWritten(v, [name] + keys, ["\"" + name + "\":" + text] + parts)
  {
    PlainQuote(name);
    assert Quote(name) + ":" + text == "\"" + name + "\":" + text;
  }

  lemma {:induction false} InnerJoined(m: Members)
    ensures Inner(m) == Joined(Parts(m))
  {
    if m.More? {
      JoinedAll(Parts(m));
      InnerCommas(m);
    }
  }

  lemma {:induction false} InnerCommas(m: Members)
    requires m.More?
    ensures Inner(m) == Parts(m)[0] + Commas(Parts(m)[1..])
  {
    assert Parts(m)[1..] == Parts(m.rest);
    if m.rest.More? {
      InnerCommas(m.rest);
      CommaBetween(Parts(m)[0], Parts(m.rest)[0], Commas(Parts(m.rest)[1..]));
    }
  }

  lemma CommaBetween(a: string, b: string, c: string)
    ensures a + "," + (b + c) == a + ("," + b + c)
  {
  }

  lemma CanonicalObject(v: Value, m: Members)
    requires v.Obj? && Lists(Canonical(), v, m) && v.members.Keys == Names(m)
    ensures Canonical()(v, Braces(m))
  {
    KeysAscend(Canonical(), v, m);
    PartsWritten(v, m);
    ObjectDone(v, Keys(m), Parts(m));
    InnerJoined(m);
  }

  lemma {:induction false} ListedJoined(texts: seq<string>)
    ensures Listed(texts) == Joined(texts)
  {
    if texts != [] {
      JoinedAll(texts);
      ListedCommas(texts);
    }
  }

  lemma {:induction false} ListedCommas(texts: seq<string>)
    requires texts != []
    ensures Listed(texts) == texts[0] + Commas(texts[1..])
  {
    if |texts| > 1 {
      ListedCommas(texts[1..]);
      CommaBetween(texts[0], texts[1], Commas(texts[1..][1..]));
    } else {
      assert texts[1..] == [];
    }
  }

  lemma CanonicalArray(items: seq<Value>, texts: seq<string>)
    requires AllHave(Canonical(), items, texts)
    ensures Canonical()(Arr(items), Brackets(texts))
  {
    forall i | 0 <= i < |texts| ensures Representable(items[i]) && texts[i] == RustText(items[i]) {
      assert Canonical()(items[i], texts[i]);
    }
    ArrayDone(Arr(items), texts);
    ListedJoined(texts);
  }

  lemma CanonicalLeaves(s: string, b: bool, n: nat)
    ensures Canonical()(Str(s), Quote(s)) && (Plain(s) ==> Canonical()(Str(s), Word(s))) && Canonical()(Bool(b), BoolText(b))
    ensures n < 0x20_0000_0000_0000 ==> Canonical()(Num(Integer(n)), NatText(n))
  {
    Utf16Total();
    if Plain(s) {
      PlainQuote(s);
    }
  }

  lemma CanonicalObjects()
    ensures ObjectRule(Canonical())
  {
    var has := Canonical();
    forall v: Value, m: Members | v.Obj? && Lists(has, v, m) && v.members.Keys == Names(m) ensures has(v, Braces(m)) {
      CanonicalObject(v, m);
    }
  }

  lemma CanonicalArrays()
    ensures ArrayRule(Canonical())
  {
    var has := Canonical();
    forall items: seq<Value>, texts: seq<string> | AllHave(has, items, texts) ensures has(Arr(items), Brackets(texts)) {
      CanonicalArray(items, texts);
    }
  }

  lemma CanonicalLeafRules()
    ensures LeafRules(Canonical())
  {
    var has := Canonical();
    forall s: string ensures has(Str(s), Quote(s)) && (Plain(s) ==> has(Str(s), Word(s))) {
      CanonicalLeaves(s, true, 0);
    }
    forall b: bool ensures has(Bool(b), BoolText(b)) {
      CanonicalLeaves("", b, 0);
    }
    forall n: nat ensures n < 0x20_0000_0000_0000 ==> has(Num(Integer(n)), NatText(n)) {
      CanonicalLeaves("", true, n);
    }
  }

  lemma CanonicalRules()
    ensures Rules(Canonical())
  {
    CanonicalObjects();
    CanonicalArrays();
    CanonicalLeafRules();
  }

  /** The canonical text of every policy with safe durations is the text written out above. */
  lemma PolicyWritten(p: Policy)
    requires SafeTimes(p)
    ensures Representable(ToValue(p)) && RustText(ToValue(p)) == Written(p)
  {
    CanonicalRules();
    PolicyHasText(Canonical(), p);
  }

  /** What is hashed for a policy: its text with sorted and deduplicated lists. */
  lemma PreimageWritten(p: Policy)
    requires SafeTimes(p)
    ensures Representable(ToValue(Normalized(p))) && Preimage(p) == Written(Normalized(p))
  {
    PolicyWritten(Normalized(p));
  }
}
