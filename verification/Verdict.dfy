/** The consistency rules that every attestation verdict must pass, and what they imply together.
    Schema names, digests, signatures, evidence references and timestamps are checked by code outside
    this model; `metadataValid`, `refsValid` and the parsed times carry their outcome. */
module Verdict {
  import opened Common
  import Policy
  import Sorting

  datatype Status = Verified | Partial | Failed | Unreachable | Disabled

  datatype TrustTier = HwVerifiedTls | AppE2ee | TeeOnly | NoTier

  datatype ChannelBindingKind = NotRequired | TeeTerminatedTls | AttestedAppE2ee | AnyAttestedChannel | NoChannel

  datatype ModelBinding = ModelVerified | ModelPartial | ModelNotSupported | ModelFailed

  datatype CheckResult = CheckVerified | CheckFailed | NotApplicable | NotSupported | CheckUnknown

  datatype Outcome = Outcome(state: CheckResult, required: bool, blankDetail: bool, refsValid: bool)

  datatype Confidentiality = ChannelBound | EncryptedBound | NotBound | UnknownBound

  datatype Integrity = IntegrityChannelBound | ReceiptBound | IntegrityNotBound | IntegrityUnknown

  datatype Role = InferenceProvider | RegistryAuthority | ReferenceValuesAuthority | WorkloadOperator | TeePlatform | CloudHost

  datatype Source = SignedRegistry | SignedReferenceValues | AttestedEvidence | UnknownSource

  /** `blankId` and `blankDetail` say that nothing is left of the text after trimming. */
  datatype Party = Party(role: Role, partyId: Option<string>, blankId: bool, source: Source, blankDetail: bool,
                         refsValid: bool)

  /** The expiry and the six bounds it is computed from; `None` is a timestamp that does not parse. */
  datatype Validity = Validity(expiresAt: string, computedExpiresAt: string, expiresMillis: nat,
                               parsedExpiry: Option<nat>, bounds: seq<Option<nat>>)

  datatype AttestationVerdict = AttestationVerdict(
    metadataValid: bool,
    status: Status,
    enforcement: Policy.EnforcementMode,
    requestAllowed: bool,
    wouldBlock: bool,
    trustTier: TrustTier,
    provider: string,
    channelBinding: ChannelBindingKind,
    modelBinding: ModelBinding,
    requestChannelBound: bool,
    requestConfidentiality: Confidentiality,
    responseConfidentiality: Confidentiality,
    responseChannelBound: bool,
    responseIntegrity: Integrity,
    validity: Validity,
    checks: map<string, CheckResult>,
    outcomes: map<string, Outcome>,
    attribution: Option<seq<Party>>,
    errors: seq<string>)

  // ----- the validators -----

  predicate CheckIs(v: AttestationVerdict, name: string) {
    name in v.checks && v.checks[name] == CheckVerified
  }

  predicate Bound(c: Confidentiality) {
    c == ChannelBound || c == EncryptedBound
  }

  predicate StructuredChecksValid(v: AttestationVerdict) {
    v.outcomes == map[] ||
    (&& |v.outcomes| == |v.checks|
     && forall name :: name in v.checks ==>
          && name in v.outcomes && v.outcomes[name].state == v.checks[name] && !v.outcomes[name].blankDetail
          && !(v.outcomes[name].required && v.outcomes[name].state == NotApplicable) && v.outcomes[name].refsValid)
  }

  function RoleRank(r: Role): int {
    match r
    case InferenceProvider => 0
    case RegistryAuthority => 1
    case ReferenceValuesAuthority => 2
    case WorkloadOperator => 3
    case TeePlatform => 4
    case CloudHost => 5
  }

  function AllRoles(): seq<Role> {
    [InferenceProvider, RegistryAuthority, ReferenceValuesAuthority, WorkloadOperator, TeePlatform, CloudHost]
  }

  function RolesOf(parties: seq<Party>): seq<Role> {
    seq(|parties|, i requires 0 <= i < |parties| => parties[i].role)
  }

  predicate PartyValid(p: Party) {
    && !p.blankDetail
    && (if p.source == UnknownSource then p.partyId == None else p.partyId.Some? && !p.blankId)
    && p.refsValid
  }

  /** The first party with a role. */
  function FirstWith(parties: seq<Party>, role: Role): Option<Party> {
    if parties == [] then None else if parties[0].role == role then Some(parties[0]) else FirstWith(parties[1..], role)
  }

  predicate AttributionValid(v: AttestationVerdict) {
    v.attribution == None ||
    (var parties := v.attribution.value;
     && |parties| == |AllRoles()|
     && Sorting.NormalList(RoleRank, RolesOf(parties)) == AllRoles()
     && (forall i :: 0 <= i < |parties| ==> PartyValid(parties[i]))
     && (match FirstWith(parties, InferenceProvider)
         case None => false
         case Some(p) => p.partyId == Some(v.provider) && p.source == SignedRegistry))
  }

  function Least(bounds: seq<nat>): nat
    requires bounds != []
  {
    if |bounds| == 1 then bounds[0]
    else if bounds[0] <= Least(bounds[1..]) then bounds[0] else Least(bounds[1..])
  }

  predicate AllParsed(bounds: seq<Option<nat>>) {
    forall i :: 0 <= i < |bounds| ==> bounds[i].Some?
  }

  function Times(bounds: seq<Option<nat>>): seq<nat>
    requires AllParsed(bounds)
  {
    seq(|bounds|, i requires 0 <= i < |bounds| => bounds[i].value)
  }

  predicate ValidityValid(d: Validity) {
    && d.expiresAt == d.computedExpiresAt && d.parsedExpiry == Some(d.expiresMillis)
    && AllParsed(d.bounds) && d.bounds != [] && Least(Times(d.bounds)) == d.expiresMillis
  }

  /** The rules between confidentiality, channel binding, integrity and the checks that prove them. */
  predicate BindingsValid(v: AttestationVerdict) {
    && !(v.modelBinding == ModelVerified && !CheckIs(v, "model_binding"))
    && (Bound(v.requestConfidentiality) ==>
          v.requestChannelBound && CheckIs(v, "request_key_binding") && CheckIs(v, "request_encryption"))
    && !(v.requestChannelBound && !Bound(v.requestConfidentiality))
    && (Bound(v.responseConfidentiality) ==>
          v.responseChannelBound && CheckIs(v, "response_key_binding") && CheckIs(v, "response_encryption"))
    && !(v.responseChannelBound && !Bound(v.responseConfidentiality))
    && !(v.responseChannelBound && v.responseIntegrity != IntegrityChannelBound)
    && (match v.responseIntegrity
        case IntegrityChannelBound => v.responseChannelBound && CheckIs(v, "response_channel_binding")
        case ReceiptBound => CheckIs(v, "response_receipt")
        case IntegrityNotBound => true
        case IntegrityUnknown => true)
  }

  predicate TrustTierValid(v: AttestationVerdict) {
    v.status != Verified ||
    match v.trustTier
    case AppE2ee => v.channelBinding == AttestedAppE2ee && v.requestChannelBound && v.responseChannelBound
    case HwVerifiedTls =>
      && v.channelBinding == TeeTerminatedTls && CheckIs(v, "tls_binding")
      && v.requestConfidentiality == ChannelBound && v.responseConfidentiality == ChannelBound
    case TeeOnly => !v.responseChannelBound
    case NoTier =>
      && !v.requestChannelBound && !v.responseChannelBound
      && v.responseIntegrity != IntegrityChannelBound && v.responseIntegrity != ReceiptBound
      && !Bound(v.requestConfidentiality) && !Bound(v.responseConfidentiality)
  }

  /** Some check failed, or a required one is not proven. */
  predicate Blocks(checks: map<string, CheckResult>, outcomes: map<string, Outcome>) {
    || (exists name :: name in checks && checks[name] == CheckFailed)
    || (exists name :: name in outcomes && outcomes[name].required &&
          (outcomes[name].state == NotSupported || outcomes[name].state == CheckUnknown))
  }

  predicate EnforcementValid(v: AttestationVerdict) {
    var blocks := Blocks(v.checks, v.outcomes);
    if blocks && !v.wouldBlock then false
    else if !blocks && v.wouldBlock then false
    else if v.status == Disabled && v.enforcement != Policy.Disabled then false
    else if v.enforcement == Policy.Enforce && v.wouldBlock && v.requestAllowed then false
    else if v.enforcement == Policy.Enforce && !v.wouldBlock && !v.requestAllowed then false
    else if v.enforcement != Policy.Enforce && !v.requestAllowed then false
    else if v.enforcement == Policy.Disabled && v.status != Disabled then false
    else true
  }

  predicate StatusValid(v: AttestationVerdict) {
    if v.status != Verified then true
    else if exists name :: name in v.checks && v.checks[name] == CheckFailed then false
    else if exists name :: name in v.outcomes && v.outcomes[name].required &&
                           (v.outcomes[name].state == NotSupported || v.outcomes[name].state == CheckUnknown) then false
    else v.errors == [] && v.requestAllowed && !v.wouldBlock
  }

  /** `validate_summary_consistency` accepts the verdict. */
  predicate Accepted(v: AttestationVerdict) {
    && v.metadataValid && ValidityValid(v.validity) && StructuredChecksValid(v) && AttributionValid(v)
    && BindingsValid(v) && TrustTierValid(v) && EnforcementValid(v) && StatusValid(v)
  }

  // ----- what acceptance implies -----

  lemma SubsetOfSameSize<T>(a: set<T>, b: set<T>)
    requires a <= b && |a| == |b|
    ensures a == b
  {
    assert b == a + (b - a);
    assert |b - a| == 0;
    assert b - a == {};
  }

  /** The outcomes are about exactly the checks, with the same results. */
  lemma SameChecks(v: AttestationVerdict)
    requires Accepted(v) && v.outcomes != map[]
    ensures v.outcomes.Keys == v.checks.Keys
    ensures forall name :: name in v.outcomes ==> v.outcomes[name].state == v.checks[name]
  {
    SubsetOfSameSize(v.checks.Keys, v.outcomes.Keys);
  }

  /** In a verified verdict every required outcome is verified, and no check failed. */
  lemma VerifiedOutcomes(v: AttestationVerdict)
    requires Accepted(v) && v.status == Verified
    ensures forall name :: name in v.outcomes && v.outcomes[name].required ==> v.outcomes[name].state == CheckVerified
    ensures forall name :: name in v.checks ==> v.checks[name] != CheckFailed
    ensures v.requestAllowed && !Blocks(v.checks, v.outcomes)
  {
    if v.outcomes != map[] {
      SameChecks(v);
    }
  }

  lemma {:induction false} LeastIsLeast(bounds: seq<nat>)
    requires bounds != []
    ensures Least(bounds) in bounds && forall i :: 0 <= i < |bounds| ==> Least(bounds) <= bounds[i]
  {
    if |bounds| > 1 {
      LeastIsLeast(bounds[1..]);
      assert bounds == [bounds[0]] + bounds[1..];
    }
  }

  /** The expiry is one of the bounds and none of them is earlier. */
  lemma ExpiryIsEarliest(v: AttestationVerdict)
    requires Accepted(v)
    ensures Some(v.validity.expiresMillis) in v.validity.bounds
    ensures forall i :: 0 <= i < |v.validity.bounds| ==>
      v.validity.bounds[i].Some? && v.validity.expiresMillis <= v.validity.bounds[i].value
  {
    var times := Times(v.validity.bounds);
    LeastIsLeast(times);
    var i :| 0 <= i < |times| && times[i] == v.validity.expiresMillis;
    assert v.validity.bounds[i] == Some(v.validity.expiresMillis);
    assert forall j :: 0 <= j < |times| ==> times[j] == v.validity.bounds[j].value;
  }

  // ----- every role once -----

  function Elements<T>(s: seq<T>): set<T> {
    set i | 0 <= i < |s| :: s[i]
  }

  lemma {:induction false} ElementsBound<T>(s: seq<T>)
    ensures |Elements(s)| <= |s|
  {
    if s != [] {
      ElementsBound(s[1..]);
      assert s == [s[0]] + s[1..];
      assert Elements(s) == Elements(s[1..]) + {s[0]};
    }
  }

  lemma SameElements<T>(s: seq<T>, i: nat, j: nat, t: seq<T>)
    requires i < j < |s| && s[i] == s[j] && t == s[..j] + s[j + 1..]
    ensures Elements(s) == Elements(t)
  {
    forall x | x in Elements(s) ensures x in Elements(t) {
      var k :| 0 <= k < |s| && s[k] == x;
      assert t[if k == j then i else if k < j then k else k - 1] == x;
    }
    forall x | x in Elements(t) ensures x in Elements(s) {
      var k :| 0 <= k < |t| && t[k] == x;
      assert s[if k < j then k else k + 1] == x;
    }
  }

  /** A list that repeats has fewer elements than places. */
  lemma Repetition<T>(s: seq<T>, i: nat, j: nat)
    requires i < j < |s| && s[i] == s[j]
    ensures |Elements(s)| < |s|
  {
    var t := s[..j] + s[j + 1..];
    SameElements(s, i, j, t);
    ElementsBound(t);
  }

  lemma AllRolesListed(r: Role)
    ensures r in AllRoles()
  {
    var a := AllRoles();
    assert a[0] == InferenceProvider && a[1] == RegistryAuthority && a[2] == ReferenceValuesAuthority;
    assert a[3] == WorkloadOperator && a[4] == TeePlatform && a[5] == CloudHost;
  }

  lemma SixRoles()
    ensures |Elements(AllRoles())| == 6
  {
    var six := {InferenceProvider, RegistryAuthority, ReferenceValuesAuthority, WorkloadOperator, TeePlatform, CloudHost};
    forall r: Role ensures r in Elements(AllRoles()) && r in six {
      AllRolesListed(r);
    }
    assert Elements(AllRoles()) == six;
  }

  lemma RolesOnce(roles: seq<Role>)
    requires |roles| == 6 && Sorting.NormalList(RoleRank, roles) == AllRoles()
    ensures forall r: Role :: r in roles
    ensures forall i, j :: 0 <= i < j < |roles| ==> roles[i] != roles[j]
  {
    SixRoles();
    Sorting.SortSorted(RoleRank, roles);
    Sorting.DedupStrict(RoleRank, Sorting.Sort(RoleRank, roles));
    forall r: Role ensures r in AllRoles() && r in roles {
      AllRolesListed(r);
    }
    SameRoles(roles, AllRoles());
    forall i, j | 0 <= i < j < |roles| ensures roles[i] != roles[j] {
      if roles[i] == roles[j] {
        Repetition(roles, i, j);
      }
    }
  }

  lemma SameRoles(a: seq<Role>, b: seq<Role>)
    requires (forall r: Role :: r in a) && forall r: Role :: r in b
    ensures Elements(a) == Elements(b)
  {
    forall r: Role ensures r in Elements(a) && r in Elements(b) {
      assert r in a && r in b;
    }
  }

  predicate HasRole(parties: seq<Party>, r: Role) {
    exists i :: 0 <= i < |parties| && parties[i].role == r
  }

  /** An accepted attribution names every role, and none twice. */
  lemma EveryRoleOnce(v: AttestationVerdict)
    requires AttributionValid(v) && v.attribution.Some?
    ensures forall r: Role :: HasRole(v.attribution.value, r)
    ensures Distinct(v.attribution.value)
  {
    RolesIff(v.attribution.value);
  }

  lemma {:induction false} FirstWithFound(parties: seq<Party>, i: nat)
    requires i < |parties|
    ensures FirstWith(parties, parties[i].role).Some?
  {
    if i > 0 {
      FirstWithFound(parties[1..], i - 1);
    }
  }

  /** Once the roles are covered, looking up the inference provider cannot fail. */
  lemma {:induction false} ProviderFound(parties: seq<Party>)
    requires |parties| == |AllRoles()| && Sorting.NormalList(RoleRank, RolesOf(parties)) == AllRoles()
    ensures FirstWith(parties, InferenceProvider).Some?
  {
    var roles := RolesOf(parties);
    RolesOnce(roles);
    assert InferenceProvider in roles;
    var i :| 0 <= i < |roles| && roles[i] == InferenceProvider;
    FirstWithFound(parties, i);
  }

  // ----- what acceptance is -----

  /** The decision follows from enforcement, checks and outcomes alone. */
  ghost predicate Decided(v: AttestationVerdict) {
    && (v.wouldBlock <==> !Clean(v))
    && (v.requestAllowed <==> v.enforcement != Policy.Enforce || Clean(v))
    && (v.status == Disabled <==> v.enforcement == Policy.Disabled)
    && (v.status == Verified ==> Clean(v) && v.errors == [])
  }

  /** No check failed, and every required outcome is neither unsupported nor unknown. */
  ghost predicate Clean(v: AttestationVerdict) {
    && (forall name :: name in v.checks ==> !v.checks[name].CheckFailed?)
    && (forall name :: name in v.outcomes && v.outcomes[name].required ==>
          !v.outcomes[name].state.NotSupported? && !v.outcomes[name].state.CheckUnknown?)
  }

  /** The check is there and is verified. */
  ghost predicate Proves(v: AttestationVerdict, name: string) {
    name in v.checks && v.checks[name].CheckVerified?
  }

  ghost predicate Protected(c: Confidentiality) {
    c.ChannelBound? || c.EncryptedBound?
  }

  /** Channel, confidentiality and integrity claims coincide and are proven by their checks. */
  ghost predicate Proven(v: AttestationVerdict) {
    && (v.requestChannelBound <==> Protected(v.requestConfidentiality))
    && (v.responseChannelBound <==> Protected(v.responseConfidentiality))
    && (v.responseChannelBound <==> v.responseIntegrity == IntegrityChannelBound)
    && (v.requestChannelBound ==> Proves(v, "request_key_binding") && Proves(v, "request_encryption"))
    && (v.responseChannelBound ==>
          Proves(v, "response_key_binding") && Proves(v, "response_encryption") && Proves(v, "response_channel_binding"))
    && (v.responseIntegrity == ReceiptBound ==> Proves(v, "response_receipt"))
    && (v.modelBinding == ModelVerified ==> Proves(v, "model_binding"))
  }

  /** A verified verdict claims the strongest tiers only with both directions bound. */
  ghost predicate TierEarned(v: AttestationVerdict) {
    v.status == Verified ==>
      && (v.trustTier == AppE2ee ==>
            v.channelBinding == AttestedAppE2ee && v.requestChannelBound && v.responseChannelBound)
      && (v.trustTier == HwVerifiedTls ==>
            && v.channelBinding == TeeTerminatedTls && Proves(v, "tls_binding")
            && v.requestConfidentiality == ChannelBound && v.responseConfidentiality == ChannelBound)
      && (v.trustTier == TeeOnly || v.trustTier == NoTier ==> !v.responseChannelBound)
      && (v.trustTier == NoTier ==> !v.requestChannelBound && v.responseIntegrity != ReceiptBound)
  }

  /** The outcomes, if there are any, are about exactly the checks. */
  ghost predicate OutcomesMatch(v: AttestationVerdict) {
    v.outcomes == map[] ||
    (&& v.outcomes.Keys == v.checks.Keys
     && forall name :: name in v.outcomes ==>
          && v.outcomes[name].state == v.checks[name] && !v.outcomes[name].blankDetail && v.outcomes[name].refsValid
          && (v.outcomes[name].required ==> v.outcomes[name].state != NotApplicable))
  }

  ghost predicate ExpiresFirst(d: Validity) {
    && d.expiresAt == d.computedExpiresAt && d.parsedExpiry == Some(d.expiresMillis)
    && Some(d.expiresMillis) in d.bounds
    && forall i :: 0 <= i < |d.bounds| ==> d.bounds[i].Some? && d.expiresMillis <= d.bounds[i].value
  }

  /** A party has an identifier exactly when its source is known, and both texts say something. */
  ghost predicate Sourced(p: Party) {
    && !p.blankDetail && p.refsValid
    && (p.partyId.Some? <==> !p.source.UnknownSource?) && (p.partyId.Some? ==> !p.blankId)
  }

  ghost predicate Distinct(parties: seq<Party>) {
    forall i, j :: 0 <= i < j < |parties| ==> parties[i].role != parties[j].role
  }

  /** Every role has exactly one party, and the provider is the one that the verdict names. */
  ghost predicate Attributed(v: AttestationVerdict) {
    v.attribution == None ||
    (var parties := v.attribution.value;
     && (forall r: Role :: HasRole(parties, r)) && Distinct(parties)
     && (forall i :: 0 <= i < |parties| ==> Sourced(parties[i]))
     && forall i :: 0 <= i < |parties| && parties[i].role == InferenceProvider ==>
          parties[i].partyId == Some(v.provider) && parties[i].source == SignedRegistry)
  }

  lemma OutcomesIff(v: AttestationVerdict)
    ensures StructuredChecksValid(v) <==> OutcomesMatch(v)
  {
    if StructuredChecksValid(v) && v.outcomes != map[] {
      assert v.checks.Keys <= v.outcomes.Keys;
      SubsetOfSameSize(v.checks.Keys, v.outcomes.Keys);
    }
  }

  lemma ExpiryIff(d: Validity)
    ensures ValidityValid(d) <==> ExpiresFirst(d)
  {
    if AllParsed(d.bounds) && d.bounds != [] {
      var times := Times(d.bounds);
      LeastIsLeast(times);
      assert forall i :: 0 <= i < |times| ==> d.bounds[i] == Some(times[i]);
      var k :| 0 <= k < |times| && times[k] == Least(times);
      if ExpiresFirst(d) {
        var i :| 0 <= i < |d.bounds| && d.bounds[i] == Some(d.expiresMillis);
        assert times[i] == d.expiresMillis && d.expiresMillis <= d.bounds[k].value;
      }
      assert d.bounds[k] == Some(Least(times));
    }
  }

  lemma RoleRankInjective()
    ensures Sorting.Injective(RoleRank)
  {
  }

  lemma AllRolesSorted()
    ensures Sorting.StrictlySorted(RoleRank, AllRoles())
  {
  }

  lemma AllRolesNormal()
    ensures Sorting.NormalList(RoleRank, AllRoles()) == AllRoles()
  {
    var all := AllRoles();
    RoleRankInjective();
    AllRolesSorted();
    Sorting.SortSorted(RoleRank, all);
    Sorting.DedupStrict(RoleRank, Sorting.Sort(RoleRank, all));
    Sorting.StrictListUnique(RoleRank, Sorting.NormalList(RoleRank, all), all);
  }

  lemma {:induction false} DistinctElements<T>(s: seq<T>)
    requires forall i, j :: 0 <= i < j < |s| ==> s[i] != s[j]
    ensures |Elements(s)| == |s|
  {
    if s != [] {
      DistinctElements(s[1..]);
      assert Elements(s) == Elements(s[1..]) + {s[0]};
      assert s[0] !in Elements(s[1..]);
    }
  }

  /** Sorting and dropping repetitions gives all roles, and six places, exactly when every role comes once. */
  lemma RolesIff(parties: seq<Party>)
    ensures |parties| == |AllRoles()| && Sorting.NormalList(RoleRank, RolesOf(parties)) == AllRoles() <==>
            (forall r: Role :: HasRole(parties, r)) && Distinct(parties)
  {
    var roles := RolesOf(parties);
    if |parties| == |AllRoles()| && Sorting.NormalList(RoleRank, roles) == AllRoles() {
      RolesCovered(parties, roles);
    }
    if (forall r: Role :: HasRole(parties, r)) && Distinct(parties) {
      CoveredRoles(parties, roles);
    }
  }

  lemma RolesCovered(parties: seq<Party>, roles: seq<Role>)
    requires roles == RolesOf(parties) && |roles| == 6 && Sorting.NormalList(RoleRank, roles) == AllRoles()
    ensures (forall r: Role :: HasRole(parties, r)) && Distinct(parties)
  {
    RolesOnce(roles);
    forall r: Role ensures HasRole(parties, r) {
      assert r in roles;
      var i :| 0 <= i < |roles| && roles[i] == r;
      assert parties[i].role == r;
    }
    forall i, j | 0 <= i < j < |parties| ensures parties[i].role != parties[j].role {
      assert roles[i] != roles[j];
    }
  }

  lemma CoveredRoles(parties: seq<Party>, roles: seq<Role>)
    requires roles == RolesOf(parties) && (forall r: Role :: HasRole(parties, r)) && Distinct(parties)
    ensures |roles| == 6 && Sorting.NormalList(RoleRank, roles) == AllRoles()
  {
    forall r: Role ensures r in roles && r in AllRoles() {
      AllRolesListed(r);
      assert HasRole(parties, r);
      var i :| 0 <= i < |parties| && parties[i].role == r;
      assert roles[i] == r;
    }
    SameRoles(roles, AllRoles());
    SixRoles();
    DistinctElements(roles);
    AllRolesNormal();
    RoleRankInjective();
    Sorting.NormalListIff(RoleRank, roles, AllRoles());
  }

  lemma {:induction false} FirstIsOnly(parties: seq<Party>, i: nat)
    requires i < |parties| && Distinct(parties)
    ensures FirstWith(parties, parties[i].role) == Some(parties[i])
  {
    if i > 0 {
      FirstIsOnly(parties[1..], i - 1);
    }
  }

  lemma AttributionIff(v: AttestationVerdict)
    ensures AttributionValid(v) <==> Attributed(v)
  {
    if v.attribution.Some? {
      var parties := v.attribution.value;
      RolesIff(parties);
      if (forall r: Role :: HasRole(parties, r)) && Distinct(parties) {
        assert HasRole(parties, InferenceProvider);
        var k :| 0 <= k < |parties| && parties[k].role == InferenceProvider;
        FirstIsOnly(parties, k);
      }
    }
  }

  lemma RulesIff(v: AttestationVerdict)
    ensures EnforcementValid(v) && StatusValid(v) <==> Decided(v)
    ensures BindingsValid(v) <==> Proven(v)
    ensures Proven(v) ==> (TrustTierValid(v) <==> TierEarned(v))
  {
  }

  /** The validators together accept exactly the consistent verdicts. */
  lemma AcceptedIff(v: AttestationVerdict)
    ensures Accepted(v) <==>
            && v.metadataValid && ExpiresFirst(v.validity) && OutcomesMatch(v) && Attributed(v)
            && Proven(v) && TierEarned(v) && Decided(v)
  {
    ExpiryIff(v.validity);
    OutcomesIff(v);
    AttributionIff(v);
    RulesIff(v);
  }

  /** What a caller may rely on in a verified verdict of one of the two strongest tiers. */
  lemma StrongVerdict(v: AttestationVerdict)
    requires Accepted(v) && v.status == Verified && (v.trustTier == AppE2ee || v.trustTier == HwVerifiedTls)
    ensures v.requestAllowed && v.errors == [] && v.enforcement != Policy.Disabled
    ensures Proves(v, "request_key_binding") && Proves(v, "request_encryption")
    ensures Proves(v, "response_key_binding") && Proves(v, "response_encryption") && Proves(v, "response_channel_binding")
    ensures v.trustTier == HwVerifiedTls ==> Proves(v, "tls_binding")
    ensures forall name :: name in v.outcomes && v.outcomes[name].required ==> v.outcomes[name].state == CheckVerified
  {
    AcceptedIff(v);
    VerifiedOutcomes(v);
  }
}
