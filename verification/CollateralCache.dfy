/** The bounded cache of TDX quote collateral: bundles filed under the digest of their quote, at most
    256 of them, with eviction of the bundle that expires first. */
module CollateralCache {
  import opened Common
  import opened KeyOrders

  type Text = Bytes

  const U64_MAX := 0xffff_ffff_ffff_ffff
  const MAX_BUNDLES := 256

  /** The next-update times of the collateral as parsed: the two JSON documents must have one, the two
      revocation lists may. The outer `None` is a parse error. */
  datatype Collateral = Collateral(tcbInfo: Option<nat>, qeIdentity: Option<nat>,
                                   rootCrl: Option<Option<nat>>, pckCrl: Option<Option<nat>>)

  datatype Bundle = Bundle(schema: Text, fetchedAt: Text, fetchedAtMillis: nat, validUntil: Text, validUntilMillis: nat,
                           quoteDigest: Option<Text>, collateral: Collateral)

  datatype CacheError = BadCollateral | Unbounded | BadBundle | DigestMismatch | Expired

  /** Schema name, timestamp formatting, digest syntax and the digest of a quote. */
  datatype Rules = Rules(schema: Text, format: nat -> Text, isDigest: Text -> bool, digest: Bytes -> Text)

  // ----- the expiry of a collateral -----

  predicate Parsed(c: Collateral) {
    c.tcbInfo.Some? && c.qeIdentity.Some? && c.rootCrl.Some? && c.pckCrl.Some?
  }

  function Bounds(c: Collateral): set<nat>
    requires Parsed(c)
  {
    {c.tcbInfo.value, c.qeIdentity.value}
    + (if c.rootCrl.value.Some? then {c.rootCrl.value.value} else {})
    + (if c.pckCrl.value.Some? then {c.pckCrl.value.value} else {})
  }

  /** Every time is a 64-bit number. */
  predicate Machine(c: Collateral) {
    Parsed(c) ==> forall b :: b in Bounds(c) ==> b <= U64_MAX
  }

  function Min(a: nat, b: nat): nat {
    if a <= b then a else b
  }

  function OptionalMin(a: nat, b: Option<nat>): nat {
    if b.Some? then Min(a, b.value) else a
  }

  /** The running minimum over the first `i` times; a parse error ends it. */
  function LeastTo(start: nat, times: seq<Option<Option<nat>>>, i: nat): Option<nat>
    requires i <= |times|
    decreases i
  {
    if i == 0 then Some(start)
    else
      match LeastTo(start, times, i - 1)
      case None => None
      case Some(least) => if times[i - 1] == None then None else Some(OptionalMin(least, times[i - 1].value))
  }

  lemma {:induction false} ErrorStays(start: nat, times: seq<Option<Option<nat>>>, i: nat)
    requires i <= |times| && LeastTo(start, times, i) == None
    ensures LeastTo(start, times, |times|) == None
    decreases |times| - i
  {
    if i < |times| {
      ErrorStays(start, times, i + 1);
    }
  }

  method RunningMinimum(start: nat, times: seq<Option<Option<nat>>>) returns (r: Option<nat>)
    ensures r == LeastTo(start, times, |times|)
  {
    var least := start;
    for i := 0 to |times|
      invariant LeastTo(start, times, i) == Some(least)
    {
      if times[i] == None {
        ErrorStays(start, times, i + 1);
        return None;
      }
      if times[i].value.Some? {
        least := Min(least, times[i].value.value);
      }
    }
    return Some(least);
  }

  /** A document must have a time. */
  function Required(time: Option<nat>): Option<Option<nat>> {
    if time == None then None else Some(time)
  }

  function Expiry(c: Collateral): Result<nat, CacheError> {
    match LeastTo(U64_MAX, [Required(c.tcbInfo), Required(c.qeIdentity)], 2)
    case None => Err(BadCollateral)
    case Some(documents) =>
      match LeastTo(documents, [c.rootCrl, c.pckCrl], 2)
      case None => Err(BadCollateral)
      case Some(least) => if least == U64_MAX then Err(Unbounded) else Ok(least)
  }

  method ValidUntil(c: Collateral) returns (r: Result<nat, CacheError>)
    ensures r == Expiry(c)
  {
    var documents := RunningMinimum(U64_MAX, [Required(c.tcbInfo), Required(c.qeIdentity)]);
    if documents == None {
      return Err(BadCollateral);
    }
    var expiresAt := RunningMinimum(documents.value, [c.rootCrl, c.pckCrl]);
    if expiresAt == None {
      return Err(BadCollateral);
    }
    if expiresAt.value == U64_MAX {
      return Err(Unbounded);
    }
    return Ok(expiresAt.value);
  }

  lemma LeastOfTwo(start: nat, a: Option<Option<nat>>, b: Option<Option<nat>>)
    ensures LeastTo(start, [a, b], 2) ==
            if a == None || b == None then None else Some(OptionalMin(OptionalMin(start, a.value), b.value))
  {
    assert LeastTo(start, [a, b], 0) == Some(start);
    assert LeastTo(start, [a, b], 1) == if a == None then None else Some(OptionalMin(start, a.value));
  }

  /** The expiry is the least of the bounds; without a bound below the largest 64-bit number there is none. */
  lemma ExpiryIff(c: Collateral, v: nat)
    requires Machine(c)
    ensures Expiry(c) == Ok(v) <==> Parsed(c) && v < U64_MAX && v in Bounds(c) && forall b :: b in Bounds(c) ==> v <= b
  {
    LeastOfTwo(U64_MAX, Required(c.tcbInfo), Required(c.qeIdentity));
    if c.tcbInfo.Some? && c.qeIdentity.Some? {
      LeastOfTwo(Min(Min(U64_MAX, c.tcbInfo.value), c.qeIdentity.value), c.rootCrl, c.pckCrl);
    }
    if Parsed(c) {
      var a, b := c.tcbInfo.value, c.qeIdentity.value;
      assert a in Bounds(c) && b in Bounds(c);
      assert c.rootCrl.value.Some? ==> c.rootCrl.value.value in Bounds(c);
      assert c.pckCrl.value.Some? ==> c.pckCrl.value.value in Bounds(c);
    }
  }

  // ----- bundles -----

  predicate Valid(rules: Rules, b: Bundle) {
    && b.schema == rules.schema
    && Expiry(b.collateral) == Ok(b.validUntilMillis)
    && rules.format(b.validUntilMillis) == b.validUntil
    && rules.format(b.fetchedAtMillis) == b.fetchedAt
    && (b.quoteDigest.Some? ==> rules.isDigest(b.quoteDigest.value))
  }

  function VerifierAt(rules: Rules, b: Bundle, now: nat): Result<Collateral, CacheError> {
    if !Valid(rules, b) then Err(BadBundle)
    else if now >= b.validUntilMillis then Err(Expired)
    else Ok(b.collateral)
  }

  /** A verifier is issued exactly for a valid bundle before every bound of its collateral. */
  lemma VerifierIff(rules: Rules, b: Bundle, now: nat)
    requires Machine(b.collateral)
    ensures VerifierAt(rules, b, now).Ok? <==>
            Valid(rules, b) && Parsed(b.collateral) && forall u :: u in Bounds(b.collateral) ==> now < u
  {
    if Valid(rules, b) {
      ExpiryIff(b.collateral, b.validUntilMillis);
    }
  }

  // ----- eviction -----

  type Bundles = map<Text, Bundle>

  /** Expires first, then fetched first. */
  predicate NotLater(a: Bundle, b: Bundle) {
    a.validUntilMillis < b.validUntilMillis
    || (a.validUntilMillis == b.validUntilMillis && a.fetchedAtMillis <= b.fetchedAtMillis)
  }

  /** The order of eviction, ties broken by the order of iteration. */
  predicate Before(m: Bundles, j: Text, k: Text)
    requires j in m && k in m
  {
    NotLater(m[j], m[k]) && (NotLater(m[k], m[j]) ==> LexLess(j, k))
  }

  ghost predicate First(m: Bundles, keys: set<Text>, k: Text) {
    k in keys && keys <= m.Keys && forall j :: j in keys && j != k ==> Before(m, k, j)
  }

  lemma BeforeTransitive(m: Bundles, i: Text, j: Text, k: Text)
    requires i in m && j in m && k in m && Before(m, i, j) && Before(m, j, k)
    ensures Before(m, i, k)
  {
    if NotLater(m[k], m[i]) {
      LexTransitive(i, j, k);
    }
  }

  lemma BeforeConnected(m: Bundles, j: Text, k: Text)
    requires j in m && k in m && j != k
    ensures Before(m, j, k) || Before(m, k, j)
  {
    LexConnected(j, k);
  }

  lemma FirstExtended(m: Bundles, keys: set<Text>, best: Text, k: Text)
    requires First(m, keys, best) && k in m && k !in keys
    ensures First(m, keys + {k}, if Before(m, k, best) then k else best)
  {
    BeforeConnected(m, k, best);
    if Before(m, k, best) {
      forall j | j in keys && j != best ensures Before(m, k, j) {
        BeforeTransitive(m, k, best, j);
      }
    }
  }

  lemma {:induction false} FirstExists(m: Bundles, keys: set<Text>)
    requires keys != {} && keys <= m.Keys
    ensures exists k :: First(m, keys, k)
    decreases |keys|
  {
    var k :| k in keys;
    var rest := keys - {k};
    if rest == {} {
      assert keys == {k};
      assert First(m, keys, k);
    } else {
      FirstExists(m, rest);
      var best :| First(m, rest, best);
      FirstExtended(m, rest, best, k);
      assert rest + {k} == keys;
      assert First(m, keys, if Before(m, k, best) then k else best);
    }
  }

  lemma FirstUnique(m: Bundles, j: Text, k: Text)
    requires First(m, m.Keys, j) && First(m, m.Keys, k)
    ensures j == k
  {
    if LexLess(j, k) {
      LexAsymmetric(j, k);
    }
  }

  ghost function Victim(m: Bundles): (k: Text)
    requires m != map[]
    ensures First(m, m.Keys, k)
  {
    FirstExists(m, m.Keys);
    var k :| First(m, m.Keys, k);
    k
  }

  /** `best` is first among the keys that are not left. */
  ghost predicate Scanned(m: Bundles, left: set<Text>, best: Text) {
    left <= m.Keys && First(m, m.Keys - left, best)
  }

  lemma ScanStep(m: Bundles, left: set<Text>, best: Text, k: Text)
    requires Scanned(m, left, best) && k in left
    ensures Scanned(m, left - {k}, if Before(m, k, best) then k else best)
  {
    FirstExtended(m, m.Keys - left, best, k);
    assert m.Keys - (left - {k}) == m.Keys - left + {k};
  }

  method FindVictim(m: Bundles) returns (victim: Text)
    requires m != map[]
    ensures First(m, m.Keys, victim)
  {
    victim :| victim in m.Keys;
    var left := m.Keys - {victim};
    assert m.Keys - left == {victim};
    while left != {}
      invariant Scanned(m, left, victim)
      decreases |left|
    {
      var k :| k in left;
      ScanStep(m, left, victim, k);
      if Before(m, k, victim) {
        victim := k;
      }
      left := left - {k};
    }
    assert m.Keys - {} == m.Keys;
  }

  // ----- the cache -----

  /** The cache after an accepted insertion. */
  ghost function Inserted(m: Bundles, key: Text, b: Bundle): Bundles {
    if key !in m && |m| >= MAX_BUNDLES then (m - {Victim(m)})[key := b] else m[key := b]
  }

  predicate Accepts(rules: Rules, key: Text, b: Bundle) {
    (b.quoteDigest.Some? ==> b.quoteDigest.value == key) && Valid(rules, b)
  }

  class Cache {
    var bundles: Bundles

    constructor ()
      ensures bundles == map[]
    {
      bundles := map[];
    }

    method InsertForQuote(rules: Rules, quote: Bytes, bundle: Bundle) returns (r: Result<(), CacheError>)
      modifies this
      ensures r.Ok? <==> Accepts(rules, rules.digest(quote), bundle)
      ensures r == Err(DigestMismatch) <==> bundle.quoteDigest.Some? && bundle.quoteDigest.value != rules.digest(quote)
      ensures bundles == if r.Ok? then Inserted(old(bundles), rules.digest(quote), bundle) else old(bundles)
    {
      var key := rules.digest(quote);
      if bundle.quoteDigest.Some? && bundle.quoteDigest.value != key {
        return Err(DigestMismatch);
      }
      if !Valid(rules, bundle) {
        return Err(BadBundle);
      }
      if key !in bundles && |bundles| >= MAX_BUNDLES {
        var victim := FindVictim(bundles);
        FirstUnique(bundles, victim, Victim(bundles));
        bundles := bundles - {victim};
      }
      bundles := bundles[key := bundle];
      return Ok(());
    }

    method BundleForQuote(rules: Rules, quote: Bytes) returns (r: Option<Bundle>)
      ensures r.Some? <==> rules.digest(quote) in bundles
      ensures r.Some? ==> r.value == bundles[rules.digest(quote)]
    {
      var key := rules.digest(quote);
      return if key in bundles then Some(bundles[key]) else None;
    }

    method RemoveForQuote(rules: Rules, quote: Bytes) returns (r: Option<Bundle>)
      modifies this
      ensures r.Some? <==> rules.digest(quote) in old(bundles)
      ensures r.Some? ==> r.value == old(bundles)[rules.digest(quote)]
      ensures bundles == old(bundles) - {rules.digest(quote)}
    {
      var key := rules.digest(quote);
      r := if key in bundles then Some(bundles[key]) else None;
      bundles := bundles - {key};
    }

    /** The outer result is the error of a bundle that is there; the inner `None` is a missing one. */
    method VerifierForQuoteAt(rules: Rules, quote: Bytes, now: nat) returns (r: Result<Option<Collateral>, CacheError>)
      ensures rules.digest(quote) !in bundles ==> r == Ok(None)
      ensures rules.digest(quote) in bundles ==>
              match VerifierAt(rules, bundles[rules.digest(quote)], now)
              case Ok(c) => r == Ok(Some(c))
              case Err(e) => r == Err(e)
    {
      var key := rules.digest(quote);
      if key !in bundles {
        return Ok(None);
      }
      var verifier := VerifierAt(rules, bundles[key], now);
      if verifier.Err? {
        return Err(verifier.error);
      }
      return Ok(Some(verifier.value));
    }
  }

  // ----- runs -----

  datatype Operation = Insert(key: Text, bundle: Bundle) | Remove(key: Text)

  ghost function Apply(rules: Rules, m: Bundles, op: Operation): Bundles {
    match op
    case Insert(key, b) => if Accepts(rules, key, b) then Inserted(m, key, b) else m
    case Remove(key) => m - {key}
  }

  /** The cache after a run that starts empty; operations name the digest of their quote. */
  ghost function After(rules: Rules, ops: seq<Operation>): Bundles {
    if ops == [] then map[] else Apply(rules, After(rules, ops[..|ops| - 1]), ops[|ops| - 1])
  }

  lemma InsertedSize(m: Bundles, key: Text, b: Bundle)
    requires |m| <= MAX_BUNDLES
    ensures |Inserted(m, key, b)| <= MAX_BUNDLES
  {
    if key !in m && |m| >= MAX_BUNDLES {
      var rest := m - {Victim(m)};
      assert rest.Keys == m.Keys - {Victim(m)};
      assert rest[key := b].Keys == rest.Keys + {key};
    } else {
      assert m[key := b].Keys == m.Keys + {key};
      if key in m {
        assert m.Keys + {key} == m.Keys;
      }
    }
  }

  lemma {:induction false} SizeBounded(rules: Rules, ops: seq<Operation>)
    ensures |After(rules, ops)| <= 256
  {
    if ops != [] {
      var m, op := After(rules, ops[..|ops| - 1]), ops[|ops| - 1];
      SizeBounded(rules, ops[..|ops| - 1]);
      match op
      case Insert(key, b) => InsertedSize(m, key, b);
      case Remove(key) => assert (m - {key}).Keys == m.Keys - {key}; SmallerSet((m - {key}).Keys, m.Keys);
    }
  }

  lemma {:induction false} SmallerSet(a: set<Text>, b: set<Text>)
    requires a <= b
    ensures |a| <= |b|
  {
    assert |b| == |a| + |b - a| by {
      assert b == a + (b - a);
    }
  }

  /** Every entry was validated and is filed under its own quote digest. */
  lemma {:induction false} EntriesAccepted(rules: Rules, ops: seq<Operation>)
    ensures forall k :: k in After(rules, ops) ==> Accepts(rules, k, After(rules, ops)[k])
  {
    if ops != [] {
      EntriesAccepted(rules, ops[..|ops| - 1]);
    }
  }

  /** No later operation of the run stores or removes `key`. */
  predicate Untouched(rules: Rules, ops: seq<Operation>, from: nat, key: Text) {
    forall j :: from < j < |ops| ==> Passes(rules, ops[j], key)
  }

  predicate LastInsert(rules: Rules, ops: seq<Operation>, i: nat, key: Text, b: Bundle) {
    i < |ops| && ops[i] == Insert(key, b) && Accepts(rules, key, b) && Untouched(rules, ops, i, key)
  }

  /** The operation neither stores nor removes `key`. */
  predicate Passes(rules: Rules, op: Operation, key: Text) {
    op.key != key || (op.Insert? && !Accepts(rules, key, op.bundle))
  }

  lemma Survives(rules: Rules, m: Bundles, op: Operation, key: Text)
    requires key in Apply(rules, m, op)
    ensures || (op == Insert(key, Apply(rules, m, op)[key]) && Accepts(rules, key, Apply(rules, m, op)[key]))
            || (Passes(rules, op, key) && key in m && m[key] == Apply(rules, m, op)[key])
  {
  }

  lemma LastInsertStays(rules: Rules, ops: seq<Operation>, op: Operation, i: nat, key: Text, b: Bundle)
    requires LastInsert(rules, ops, i, key, b) && Passes(rules, op, key)
    ensures LastInsert(rules, ops + [op], i, key, b)
  {
  }

  /** The entry names no other quote, has the schema and the formatted times, and expires at the least of
      the bounds of its collateral. */
  ghost predicate Consistent(rules: Rules, key: Text, b: Bundle) {
    && (b.quoteDigest == None || b.quoteDigest == Some(key)) && (b.quoteDigest.Some? ==> rules.isDigest(key))
    && b.schema == rules.schema
    && b.validUntil == rules.format(b.validUntilMillis) && b.fetchedAt == rules.format(b.fetchedAtMillis)
    && Parsed(b.collateral) && b.validUntilMillis < 0xffff_ffff_ffff_ffff && b.validUntilMillis in Bounds(b.collateral)
    && forall u :: u in Bounds(b.collateral) ==> b.validUntilMillis <= u
  }

  /** A bundle is accepted exactly when it is consistent with its key. */
  lemma AcceptsIff(rules: Rules, key: Text, b: Bundle)
    requires Machine(b.collateral)
    ensures Accepts(rules, key, b) <==> Consistent(rules, key, b)
  {
    ExpiryIff(b.collateral, b.validUntilMillis);
  }

  /** In every reachable cache each entry is consistent with the key it is filed under. */
  lemma EntriesConsistent(rules: Rules, ops: seq<Operation>, key: Text)
    requires key in After(rules, ops) && Machine(After(rules, ops)[key].collateral)
    ensures Consistent(rules, key, After(rules, ops)[key])
  {
    EntriesAccepted(rules, ops);
    AcceptsIff(rules, key, After(rules, ops)[key]);
  }

  /** What is found under a digest is what was last inserted there. */
  lemma {:induction false} LookupIsLastInsert(rules: Rules, ops: seq<Operation>, key: Text) returns (i: nat)
    requires key in After(rules, ops)
    ensures LastInsert(rules, ops, i, key, After(rules, ops)[key])
  {
    var n := |ops| - 1;
    var m, op := After(rules, ops[..n]), ops[n];
    assert ops == ops[..n] + [op];
    Survives(rules, m, op, key);
    if op == Insert(key, After(rules, ops)[key]) && Accepts(rules, key, After(rules, ops)[key]) {
      i := n;
    } else {
      i := LookupIsLastInsert(rules, ops[..n], key);
      LastInsertStays(rules, ops[..n], op, i, key, m[key]);
    }
  }

  /** An insertion loses at most one other entry, only when the cache is full, and that entry expires
      no later than any other, among those was fetched no later, and among those has the least key. */
  lemma EvictionMinimal(rules: Rules, m: Bundles, key: Text, b: Bundle, lost: Text)
    requires Accepts(rules, key, b) && lost in m && lost !in Apply(rules, m, Insert(key, b))
    ensures key !in m && |m| >= 256
    ensures forall k :: k in m ==> m[lost].validUntilMillis <= m[k].validUntilMillis
    ensures forall k :: k in m && m[k].validUntilMillis == m[lost].validUntilMillis ==>
      m[lost].fetchedAtMillis <= m[k].fetchedAtMillis
    ensures forall k :: k in m && k != lost ==>
      m[k].validUntilMillis == m[lost].validUntilMillis ==> m[k].fetchedAtMillis == m[lost].fetchedAtMillis ==> LexLess(lost, k)
    ensures forall k :: k in m && k != lost ==>
      k in Apply(rules, m, Insert(key, b)) && Apply(rules, m, Insert(key, b))[k] == m[k]
  {
    assert lost == Victim(m);
  }

  /** Nothing expired is ever handed out: a verifier from any reachable cache is before every bound. */
  lemma VerifierNeverExpired(rules: Rules, ops: seq<Operation>, key: Text, now: nat)
    requires key in After(rules, ops) && Machine(After(rules, ops)[key].collateral)
    ensures VerifierAt(rules, After(rules, ops)[key], now).Ok? <==>
            Parsed(After(rules, ops)[key].collateral) &&
            forall u :: u in Bounds(After(rules, ops)[key].collateral) ==> now < u
  {
    EntriesAccepted(rules, ops);
    VerifierIff(rules, After(rules, ops)[key], now);
  }
}
