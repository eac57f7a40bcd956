/** Updates of the signed reference values: what one accepted update may change, and what every
    chain of them keeps. Timestamps, supported schemas and image pinning are parsed by code
    outside this model and enter through `Environment`. */
module ReferenceValues {
  import opened Common
  import opened Versions
  import Policy
  import Verdict

  type Text = Bytes

  datatype Artifact = Artifact(kind: Text, name: Text, digest: Text)

  datatype Image = Image(service: Text, reference: Text, digest: Text)

  datatype Route = Route(
    canonicalModel: Text,
    providerModel: Text,
    evidenceFamily: Text,
    channelBinding: Verdict.ChannelBindingKind,
    trustTier: Verdict.TrustTier,
    acceptedCpuTees: seq<Policy.CpuTee>,
    e2eeKeyDigest: Text,
    responseKeyDigest: Option<Text>,
    tlsSpki: Option<Text>,
    images: seq<Image>,
    imageDigest: Text,
    modelArtifacts: seq<Artifact>,
    validUntil: Text,
    validUntilMillis: nat)

  datatype Provider = Provider(acceptedMeasurements: seq<Text>, routes: map<Text, Route>)

  datatype Payload = Payload(
    schema: Text,
    version: Text,
    issuer: Text,
    validFrom: Text,
    validUntil: Text,
    validUntilMillis: nat,
    revocationEpoch: nat,
    minimumVersion: Text,
    providers: map<Text, Provider>)

  datatype Environment = Environment(
    timestamp: Text -> Option<nat>,
    supportedSchema: Text -> bool,
    schema: Text,
    pinned: Image -> bool,
    sortedAndUnique: seq<Image> -> bool)

  datatype UpdateError = Invalid | Weakening

  // ----- validation -----

  predicate RouteValid(env: Environment, r: Route) {
    && env.timestamp(r.validUntil) == Some(r.validUntilMillis)
    && (r.images != [] ==> (forall i :: 0 <= i < |r.images| ==> env.pinned(r.images[i])) && env.sortedAndUnique(r.images))
  }

  predicate Valid(env: Environment, p: Payload) {
    && env.supportedSchema(p.schema)
    && env.timestamp(p.validFrom).Some?
    && env.timestamp(p.validUntil) == Some(p.validUntilMillis)
    && env.timestamp(p.validFrom).value < p.validUntilMillis
    && (forall k :: k in p.providers ==> forall r :: r in p.providers[k].routes ==> RouteValid(env, p.providers[k].routes[r]))
  }

  /** The route's end parses to the recorded time, and images, if there are any, are pinned, sorted and unique. */
  ghost predicate SoundRoute(env: Environment, r: Route) {
    && env.timestamp(r.validUntil).Some? && env.timestamp(r.validUntil).value == r.validUntilMillis
    && (|r.images| > 0 ==> env.sortedAndUnique(r.images) && forall image :: image in r.images ==> env.pinned(image))
  }

  /** The schema is supported, some time is inside the window, and every route of every provider is sound. */
  ghost predicate SoundPayload(env: Environment, p: Payload) {
    && env.supportedSchema(p.schema) && env.timestamp(p.validUntil) == Some(p.validUntilMillis)
    && (exists t: nat :: Inside(env, p, t))
    && forall k, r :: k in p.providers && r in p.providers[k].routes ==> SoundRoute(env, p.providers[k].routes[r])
  }

  /** The time is not before the start and is before the end. */
  ghost predicate Inside(env: Environment, p: Payload, t: nat) {
    env.timestamp(p.validFrom).Some? && env.timestamp(p.validFrom).value <= t < p.validUntilMillis
  }

  lemma ValidIff(env: Environment, p: Payload)
    ensures Valid(env, p) <==> SoundPayload(env, p)
  {
    forall k, r | k in p.providers && r in p.providers[k].routes
      ensures RouteValid(env, p.providers[k].routes[r]) <==> SoundRoute(env, p.providers[k].routes[r])
    {
    }
    if Valid(env, p) {
      assert Inside(env, p, env.timestamp(p.validFrom).value);
    }
  }

  // ----- one update -----

  predicate NoNewValues<T(==)>(current: seq<T>, candidate: seq<T>) {
    forall i :: 0 <= i < |candidate| ==> candidate[i] in current
  }

  predicate NoMissingValues<T(==)>(current: seq<T>, candidate: seq<T>) {
    forall i :: 0 <= i < |current| ==> current[i] in candidate
  }

  predicate Kept(current: Option<Text>, candidate: Option<Text>) {
    match (current, candidate)
    case (Some(x), Some(y)) => x == y
    case (Some(_), None) => false
    case (None, _) => true
  }

  predicate RouteNotWeakened(current: Route, candidate: Route) {
    && current.canonicalModel == candidate.canonicalModel
    && current.providerModel == candidate.providerModel
    && current.evidenceFamily == candidate.evidenceFamily
    && current.channelBinding == candidate.channelBinding
    && current.trustTier == candidate.trustTier
    && current.e2eeKeyDigest == candidate.e2eeKeyDigest
    && Kept(current.responseKeyDigest, candidate.responseKeyDigest)
    && Kept(current.tlsSpki, candidate.tlsSpki)
    && (current.images != [] ==> current.images == candidate.images)
    && current.imageDigest == candidate.imageDigest
    && NoNewValues(current.acceptedCpuTees, candidate.acceptedCpuTees)
    && NoMissingValues(current.modelArtifacts, candidate.modelArtifacts)
  }

  predicate ProviderNotWeakened(current: Provider, candidate: Provider) {
    && NoNewValues(current.acceptedMeasurements, candidate.acceptedMeasurements)
    && (forall r :: r in current.routes ==> r in candidate.routes && RouteNotWeakened(current.routes[r], candidate.routes[r]))
  }

  /** The checks of the source in their order; the first that fails decides the error. */
  function VerifyUpdate(env: Environment, current: Payload, candidate: Payload): Result<(), UpdateError> {
    if !Valid(env, current) then Err(Invalid)
    else if candidate.schema != env.schema then Err(Invalid)
    else if !Valid(env, candidate) then Err(Invalid)
    else if candidate.issuer != current.issuer then Err(Invalid)
    else if Compare(candidate.version, current.version) == Less then Err(Invalid)
    else if Compare(candidate.version, current.minimumVersion) == Less then Err(Invalid)
    else if Compare(candidate.minimumVersion, current.minimumVersion) == Less then Err(Weakening)
    else if candidate.revocationEpoch < current.revocationEpoch then Err(Invalid)
    else if exists k :: k in current.providers &&
              !(k in candidate.providers && ProviderNotWeakened(current.providers[k], candidate.providers[k])) then Err(Weakening)
    else Ok(())
  }

  ghost predicate Accepted(env: Environment, current: Payload, candidate: Payload) {
    VerifyUpdate(env, current, candidate).Ok?
  }

  // ----- composition -----

  lemma RouteTransitive(a: Route, b: Route, c: Route)
    requires RouteNotWeakened(a, b) && RouteNotWeakened(b, c)
    ensures RouteNotWeakened(a, c)
  {
  }

  lemma ProviderTransitive(a: Provider, b: Provider, c: Provider)
    requires ProviderNotWeakened(a, b) && ProviderNotWeakened(b, c)
    ensures ProviderNotWeakened(a, c)
  {
    forall r | r in a.routes
      ensures r in c.routes && RouteNotWeakened(a.routes[r], c.routes[r])
    {
      RouteTransitive(a.routes[r], b.routes[r], c.routes[r]);
    }
  }

  /** Not less, as the source tests it, is at most the other way round. */
  lemma NotLess(a: Text, b: Text)
    ensures Compare(a, b) != Less <==> AtMost(b, a)
  {
    CompareTotal(a, b);
  }

  lemma VersionsTransitive(a: Text, b: Text, c: Text)
    requires Compare(b, a) != Less && Compare(c, b) != Less
    ensures Compare(c, a) != Less
  {
    NotLess(b, a);
    NotLess(c, b);
    NotLess(c, a);
    CompareTransitive(a, b, c);
  }

  /** Acceptance is transitive: two accepted updates amount to one. */
  lemma AcceptedTransitive(env: Environment, a: Payload, b: Payload, c: Payload)
    requires Accepted(env, a, b) && Accepted(env, b, c)
    ensures Accepted(env, a, c)
  {
    VersionsTransitive(a.version, b.version, c.version);
    VersionsTransitive(a.minimumVersion, b.minimumVersion, c.minimumVersion);
    VersionsTransitive(a.minimumVersion, b.minimumVersion, c.version);
    forall k | k in a.providers
      ensures k in c.providers && ProviderNotWeakened(a.providers[k], c.providers[k])
    {
      assert k in b.providers;
      ProviderTransitive(a.providers[k], b.providers[k], c.providers[k]);
    }
  }

  /** Every payload follows its predecessor by an accepted update. */
  ghost predicate Chain(env: Environment, payloads: seq<Payload>) {
    forall i :: 0 < i < |payloads| ==> Accepted(env, payloads[i - 1], payloads[i])
  }

  lemma LinkAccepted(env: Environment, payloads: seq<Payload>, j: nat)
    requires Chain(env, payloads) && 0 < j < |payloads|
    ensures Accepted(env, payloads[j - 1], payloads[j])
  {
  }

  lemma NextAccepted(env: Environment, payloads: seq<Payload>, i: nat, j: nat)
    requires Chain(env, payloads) && i < j - 1 < |payloads| - 1 && Accepted(env, payloads[i], payloads[j - 1])
    ensures Accepted(env, payloads[i], payloads[j])
  {
    LinkAccepted(env, payloads, j);
    AcceptedTransitive(env, payloads[i], payloads[j - 1], payloads[j]);
  }

  /** In every chain, each payload would be accepted as a direct update of each earlier one. */
  lemma {:induction false} ChainAccepted(env: Environment, payloads: seq<Payload>, i: nat, j: nat)
    requires Chain(env, payloads) && i < j < |payloads|
    ensures Accepted(env, payloads[i], payloads[j])
    decreases j
  {
    if i == j - 1 {
      LinkAccepted(env, payloads, j);
    } else {
      ChainAccepted(env, payloads, i, j - 1);
      NextAccepted(env, payloads, i, j);
    }
  }

  /** What a route may rely on when another one replaces it. */
  ghost predicate SafeRoute(x: Route, y: Route) {
    && y.canonicalModel == x.canonicalModel && y.providerModel == x.providerModel && y.evidenceFamily == x.evidenceFamily
    && y.channelBinding == x.channelBinding && y.trustTier == x.trustTier && y.e2eeKeyDigest == x.e2eeKeyDigest
    && (x.responseKeyDigest.Some? ==> y.responseKeyDigest == x.responseKeyDigest)
    && (x.tlsSpki.Some? ==> y.tlsSpki == x.tlsSpki)
    && y.imageDigest == x.imageDigest && (x.images != [] ==> y.images == x.images)
    && (forall t :: t in y.acceptedCpuTees ==> t in x.acceptedCpuTees)
    && (forall t :: t in x.modelArtifacts ==> t in y.modelArtifacts)
  }

  /** No measurement is added and no route is lost or weakened. */
  ghost predicate SafeProvider(p: Provider, q: Provider) {
    && (forall m :: m in q.acceptedMeasurements ==> m in p.acceptedMeasurements)
    && (forall r :: r in p.routes ==> r in q.routes && SafeRoute(p.routes[r], q.routes[r]))
  }

  /** What a holder of `a` may rely on when `b` is in force: nothing goes back and nothing is weakened. */
  ghost predicate SafeSuccessor(a: Payload, b: Payload) {
    && AtMost(a.version, b.version) && AtMost(a.minimumVersion, b.minimumVersion) && AtMost(a.minimumVersion, b.version)
    && a.revocationEpoch <= b.revocationEpoch && a.issuer == b.issuer
    && (forall k :: k in a.providers ==> k in b.providers && SafeProvider(a.providers[k], b.providers[k]))
  }

  lemma RouteIff(x: Route, y: Route)
    ensures RouteNotWeakened(x, y) <==> SafeRoute(x, y)
  {
  }

  lemma ProviderIff(p: Provider, q: Provider)
    ensures ProviderNotWeakened(p, q) <==> SafeProvider(p, q)
  {
    forall r | r in p.routes && r in q.routes
      ensures RouteNotWeakened(p.routes[r], q.routes[r]) <==> SafeRoute(p.routes[r], q.routes[r])
    {
      RouteIff(p.routes[r], q.routes[r]);
    }
  }

  lemma ProvidersIff(a: Payload, b: Payload)
    ensures (forall k :: k in a.providers ==> k in b.providers && ProviderNotWeakened(a.providers[k], b.providers[k])) <==>
            (forall k :: k in a.providers ==> k in b.providers && SafeProvider(a.providers[k], b.providers[k]))
  {
    forall k | k in a.providers && k in b.providers
      ensures ProviderNotWeakened(a.providers[k], b.providers[k]) <==> SafeProvider(a.providers[k], b.providers[k])
    {
      ProviderIff(a.providers[k], b.providers[k]);
    }
  }

  /** An update is accepted exactly when both payloads are valid, the new one carries the exact schema
      name, and it is a safe successor. */
  lemma AcceptedIff(env: Environment, a: Payload, b: Payload)
    ensures Accepted(env, a, b) <==> SoundPayload(env, a) && SoundPayload(env, b) && b.schema == env.schema && SafeSuccessor(a, b)
  {
    ValidIff(env, a);
    ValidIff(env, b);
    NotLess(b.version, a.version);
    NotLess(b.minimumVersion, a.minimumVersion);
    NotLess(b.version, a.minimumVersion);
    ProvidersIff(a, b);
  }

  /** A refusal is called a weakening exactly when the update is otherwise in order and takes back the
      minimum version or, with the epoch in order, something a provider relies on. */
  lemma WeakeningIff(env: Environment, a: Payload, b: Payload)
    ensures VerifyUpdate(env, a, b) == Err(Weakening) <==>
            && SoundPayload(env, a) && SoundPayload(env, b) && b.schema == env.schema && a.issuer == b.issuer
            && AtMost(a.version, b.version) && AtMost(a.minimumVersion, b.version)
            && (AtMost(a.minimumVersion, b.minimumVersion) ==>
                  a.revocationEpoch <= b.revocationEpoch &&
                  exists k :: k in a.providers && !(k in b.providers && SafeProvider(a.providers[k], b.providers[k])))
  {
    ValidIff(env, a);
    ValidIff(env, b);
    NotLess(b.version, a.version);
    NotLess(b.minimumVersion, a.minimumVersion);
    NotLess(b.version, a.minimumVersion);
    ProvidersIff(a, b);
  }

  /** Every chain of accepted updates is safe from end to end. */
  lemma ChainSafe(env: Environment, payloads: seq<Payload>, i: nat, j: nat)
    requires Chain(env, payloads) && i < j < |payloads|
    ensures SafeSuccessor(payloads[i], payloads[j])
  {
    ChainAccepted(env, payloads, i, j);
    AcceptedIff(env, payloads[i], payloads[j]);
  }

  lemma {:induction false} CompareSelf(a: Text)
    ensures Compare(a, a) == Equal
  {
    CompareTotal(a, a);
  }

  /** A payload is accepted as its own update exactly when it is valid, carries the exact schema
      name and is not older than its own minimum. */
  lemma AcceptedItself(env: Environment, a: Payload)
    ensures Accepted(env, a, a) <==> SoundPayload(env, a) && a.schema == env.schema && AtMost(a.minimumVersion, a.version)
  {
    ValidIff(env, a);
    CompareSelf(a.version);
    CompareSelf(a.minimumVersion);
    NotLess(a.version, a.minimumVersion);
    forall k | k in a.providers
      ensures ProviderNotWeakened(a.providers[k], a.providers[k])
    {
    }
  }

  lemma OneBeforeTwo()
    ensures Compare([50], [49]) == Greater
  {
    var two: Bytes, one: Bytes := [50], [49];
    FirstRun(two, []);
    FirstRun(one, []);
    assert two + [] == two && one + [] == one;
    assert TrimZeros(two) == two && TrimZeros(one) == one;
    assert CompareRun(two, one) == Greater;
  }

  /** A valid payload of version 1 that demands version 2 is no update of itself. */
  lemma NotItsOwnUpdate(env: Environment, issuer: Text, from: Text, until: Text)
    requires env.supportedSchema(env.schema) && env.timestamp(from).Some? && env.timestamp(until).Some?
    requires env.timestamp(from).value < env.timestamp(until).value
    ensures var a := Payload(env.schema, [49], issuer, from, until, env.timestamp(until).value, 0, [50], map[]);
            SoundPayload(env, a) && !Accepted(env, a, a)
  {
    var a := Payload(env.schema, [49], issuer, from, until, env.timestamp(until).value, 0, [50], map[]);
    ValidIff(env, a);
    AcceptedItself(env, a);
    OneBeforeTwo();
  }
}
