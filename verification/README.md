# Verified models of the confidential-inference SDK

This project models the hand-written algorithms of a fail-closed attestation SDK and proves what they
are for. The code it models is Rust (verifiers and canonical formats), Python (offline signing tools,
checkers) and Go (the native binding). `dafny verify dfyconfig.toml` checks everything.

| part | files | main results |
|---|---|---|
| Transparency-log inclusion proofs | `Merkle.dfy` | the bit-driven verifier agrees with the recursive tree of RFC 6962; a wrong proof yields a computed hash collision |
| Ed25519 | `Residues.dfy`, `EdwardsCurve.dfy`, `Primes.dfy`, `Groups.dfy`, `Ed25519.dfy`, `Ed25519Compression.dfy`, `Ed25519Signatures.dfy`, `Ed25519Binding.dfy` | the addition formula is complete and, given associativity, a group law, compression is a bijection, signatures verify, for one scalar only, and for exactly the messages with one challenge |
| Canonical JSON and policy digests | `KeyOrders.dfy`, `Unicode.dfy`, `JsonText.dfy`, `JsonStrings.dfy`, `CanonicalJson.dfy`, `CanonicalWriter.dfy`, `Sorting.dfy`, `Policy.dfy`, `PolicyText.dfy` | the text determines the value; strings have their shortest JSON text; the Rust and Python writers agree exactly where their key orders do; the text of a policy, character by character |
| Base32 chunks in certificate names | `Positional.dfy`, `Base32.dfy`, `SanChunks.dfy`, `SanNames.dfy`, `LetterCase.dfy` | names decode to a byte string exactly when they were written from a split of its text, in any order; letter case never matters |
| Reference values | `Versions.dfy`, `ReferenceValues.dfy` | the version order is total; acceptance composes over every chain of updates |
| DER and certificate timestamps | `Der.dfy`, `RsaKey.dfy`, `Sct.dfy`, `SctLayout.dfy`, `Precert.dfy`, `CertificateTimestamps.dfy` | both readers invert the writer, precertificates are rebuilt exactly, lists and timestamps are parsed by the inverse of serialisation, signed entries have the layout of section 3.2 of RFC 6962; exactly when a certificate's timestamps verify |
| Event-log replay | `EventLog.dfy`, `EventLogMeaning.dfy`, `EventLogBinding.dfy` | the result of a replay on the bytes of the log; one register value binds one sequence of encoded records, or the hash is broken by computed inputs; exactly which logs and which identities it binds |
| Native handles | `Handles.dfy`, `HandleGuard.dfy` | every interleaving of any number of threads is safe |
| Collateral cache | `CollateralCache.dfy` | bounded, last insert wins, minimal eviction, never expired, over every run |
| Export checker lexers | `Lexers.dfy`, `RustTokens.dfy` | the two lexers track each other; every text is a rendering of tokens, blanking keeps exactly its code characters, and the body ends at the first balancing code brace |
| Verdict consistency | `Verdict.dfy` | the validators accept exactly the verdicts whose claims, outcomes, roles, expiry and decision are consistent |

`Common.dfy` and `Arithmetic.dfy` hold shared types, powers and division.

## How to read the models

- Hash functions are function-valued parameters. Soundness is never an assumption of injectivity: the
  lemmas name the two inputs that collide, computed from the data at hand.
- The constants of Ed25519 are the fields of `Curve` (p, q, d, a square root i of -1, the base point and
  the width of an encoding, 32 bytes in the source). The theorems take as hypotheses that p is a prime
  with p mod 8 = 5, that i squares to -1 and d is not a square, that addition is associative, and that
  the base point has order q. Closure, completeness of the addition formula, the identity, inverses,
  commutativity, independence of the representation, Fermat's theorem and the square root are proved.
- The width of a machine word is a parameter of the DER model (`Word`), so that the results hold for
  every platform.
- Code that loops or updates fields is a `method` or a `class` proved against a specification function.
  The concurrent handle protocol is a state machine whose actions are single steps of single threads;
  `HandleGuard.dfy` ties its critical sections to the fields of an object.
- JSON parsing, timestamp parsing, digest syntax, formatting, certificate parsing and the signature
  checks of certificate-transparency logs are parameters or parsed inputs. An `Option` that is `None`
  stands for a field that is missing, ill-typed or does not parse. Error texts are not modelled; where
  the source has one error type, a validator is a predicate.

## Where the code and its promises part

- The two canonical JSON writers do not always agree. `CanonicalJson.WritersDiffer` gives an input, and
  `CanonicalJson.WritersAgree` the exact condition: no object holds two keys whose first difference pits
  a supplementary character against one of U+E000 to U+FFFF. Keys of the Basic Multilingual Plane never do.
- One register value does not always bind one log and one identity. A record is hashed as kind, name and
  payload with colons between them, and the code rejects no colon in a name. For every hash function,
  `EventLogBinding.TwoIdentities` gives two logs that are accepted for one quoted value with different
  identities and without a collision. `EventLogBinding.UniqueIff`, `ChainBoundIff` and `LogIdentityIff` give
  the exact conditions on the record or log at hand: for records and logs, no colon in a name and no colon
  in a payload that can end a name; for the identity, no slot that another reading of the records fills
  differently. A register value binds among logs without colons in their names (`PlainLogBinding`).
- Names in the source are UTF-8 strings, while `Entry.name` holds any bytes. The results on binding
  therefore take the set of possible names as the parameter `text`; `Utf8` is the source's set, by
  `Utf8CutsAtColon` and `Unicode.Utf8Text`. The results named `AmongBytes` are those for names of any bytes, where the condition
  is that no name and no payload holds a colon.
- The whole-buffer DER reader accepts lengths that are not minimal, such as the one of
  `Der.NonMinimalAccepted`. `Der.WrapOfValue` says exactly when what it accepts is the writer's output.
- An update of the reference values to themselves is not always accepted:
  `ReferenceValues.NotItsOwnUpdate` gives a payload, and `ReferenceValues.AcceptedItself` the exact condition.

## Model

| member | source | states |
|---|---|---|
| Merkle.VerifyInclusion | crates/confidential-inference-attestation/src/sigstore_rekor.rs:157-196 | the loop accepts exactly when index and size are in range, the path has the demanded length and 32-byte hashes, and the root is the bottom-up fold |
| Merkle.FillNode | crates/confidential-inference-attestation/src/sigstore_rekor.rs:183-191 | the 65-byte buffer is the tag, the left and the right digest |
| Merkle.Number | crates/confidential-inference-attestation/src/sigstore_rekor.rs:19-30 | a number survives exactly up to 2^53 - 1 |
| Merkle.SidesAreLowSides | crates/confidential-inference-attestation/src/sigstore_rekor.rs:165-191 | the formula with XOR, bit length and population count gives the path shape read from the low bits |
| Merkle.TreeSidesAreLowSides | crates/confidential-inference-attestation/src/sigstore_rekor.rs:165-191 | the recursive split of RFC 6962 gives that same shape |
| Merkle.Completeness | crates/confidential-inference-attestation/src/sigstore_rekor.rs:157-196 | every audit path of every tree has the demanded length and folds to the recursive root |
| Merkle.HonestProofIncluded | crates/confidential-inference-attestation/src/sigstore_rekor.rs:157-196 | every honest proof of a tree of up to 2^53 - 1 leaves is accepted |
| Merkle.FoldBinding | crates/confidential-inference-attestation/src/sigstore_rekor.rs:177-193 | two folds of one shape with one result carry the same data, or a collision is returned |
| Merkle.Binding | crates/confidential-inference-attestation/src/sigstore_rekor.rs:157-196 | two accepted proofs for one index, size and root have the same body and path, or a collision is computed |
| Merkle.Soundness | crates/confidential-inference-attestation/src/sigstore_rekor.rs:157-196 | a proof accepted against the root of a tree proves the leaf at that index by the honest path, or a collision is computed |
| EdwardsCurve.DenominatorNonzero | tools/artifact_signatures.py:268-284 | the addition formula is complete: on curve points its denominators never vanish |
| EdwardsCurve.SumOnCurve | tools/artifact_signatures.py:268-284 | the formula stays on the curve over every prime residue system where -1 is a square and d is not |
| EdwardsCurve.SumRespectsSame | tools/artifact_signatures.py:268-303 | the formula respects projective equality |
| Ed25519.ScalarMult | tools/artifact_signatures.py:287-295 | the double-and-add loop computes the ladder that `ScalarProductRepeats` shows to be repeated addition |
| Ed25519.PruneScalar | tools/artifact_signatures.py:189-194 | the in-place edit of the buffer yields the pruned integer |
| Ed25519.Sign | tools/artifact_signatures.py:139-153 | refuses a seed of the wrong length, otherwise returns the signature whose parts `SignatureParts` describes and which `SignThenVerify` shows to be accepted |
| Ed25519.Verify | tools/artifact_signatures.py:197-220 | accepts exactly on lengths, decodable points, s below q and the group equation, which `AcceptsIff` states on repeated addition and the digest of R, key and message |
| Ed25519Compression.RecoverXComplete | tools/artifact_signatures.py:223-249 | every square root of a residue is recovered by its parity |
| Ed25519Compression.RecoverXSound | tools/artifact_signatures.py:223-249 | whatever is recovered is a reduced root with the wanted parity |
| Ed25519Compression.DecodeEncode | tools/artifact_signatures.py:223-259 | decoding the encoding of any curve point succeeds and is projectively the same point |
| Ed25519Compression.EncodeDecode | tools/artifact_signatures.py:223-259 | every decoded point is on the curve and encodes to the same bytes |
| Ed25519Compression.EncodedInteger | tools/artifact_signatures.py:252-259 | the encoding is y with the parity of x in the top bit, as one little-endian integer |
| Ed25519Signatures.PointAddValid | tools/artifact_signatures.py:268-284 | the reduced addition of the source keeps X Y = Z T, the curve equation and a nonzero Z |
| Ed25519Signatures.PointAddRespects | tools/artifact_signatures.py:268-303 | addition does not depend on the representation of its arguments |
| Ed25519Signatures.PointAddIdentity | tools/artifact_signatures.py:268-284 | the neutral point is neutral |
| Ed25519Signatures.PointAddInverse | tools/artifact_signatures.py:268-284 | negation gives the inverse |
| Ed25519Signatures.PointAddCommutes | tools/artifact_signatures.py:268-284 | addition commutes up to projective equality |
| Ed25519Signatures.ScalarProductRepeats | tools/artifact_signatures.py:287-295 | double-and-add is n-fold addition for every scalar and stays on the curve |
| Ed25519Signatures.TurnsOnCurve | tools/artifact_signatures.py:287-295 | result and addend are on the curve after every turn of the loop |
| Ed25519Signatures.TurnsAreMultiples | tools/artifact_signatures.py:287-295 | after every turn the result is the multiple by the bits read so far, the addend the one by the next power of two, and the rest the bits to come |
| Ed25519Signatures.ScalarProductRespects | tools/artifact_signatures.py:287-303 | equal points have equal multiples |
| Ed25519Signatures.PrunedIsClamped | tools/artifact_signatures.py:189-194 | pruning clears the low three bits and the top bit and sets the bit below it |
| Ed25519Signatures.SignThenVerify | tools/artifact_signatures.py:139-220 | every signature verifies under the public key of its seed |
| Ed25519Signatures.UniqueScalar | tools/artifact_signatures.py:197-220 | for one commitment, key and message at most one scalar is accepted |
| Ed25519Binding.AcceptsIff | tools/artifact_signatures.py:197-220 | a signature is accepted exactly when both points decode, s is below q and s B = R + h A by repeated addition, with h the digest of R, key and message reduced modulo q |
| Ed25519Binding.MessageBinding | tools/artifact_signatures.py:197-220 | under a key of order q, a signature accepted for one message is accepted for another exactly when the digests of R, key and message agree modulo q |
| Ed25519Binding.SignatureParts | tools/artifact_signatures.py:139-194 | with a the clamped first half of the digest of the seed and r the digest of its second half and the message: the key encodes a B, R encodes r B, and the scalar is r + h a modulo q |
| KeyOrders.Utf8IsCodePointOrder | tools/live_conformance.py:802 | UTF-8 byte order is code point order on all strings |
| KeyOrders.Utf16IsSurrogateOrder | crates/confidential-inference-attestation/src/canonical.rs:47-50 | UTF-16 order is the order that puts supplementary characters among the surrogates |
| KeyOrders.OrdersAgree | crates/confidential-inference-attestation/src/canonical.rs:47-50 | the two orders disagree on a pair exactly when its first difference clashes |
| KeyOrders.BmpNeverClashes | tools/live_conformance.py:802 | keys of the Basic Multilingual Plane never clash |
| Unicode.Utf8Iff | tools/live_conformance.py:802 | bytes are the UTF-8 encoding of a string exactly when they read, sequence by sequence, as its characters |
| Unicode.Utf16Iff | crates/confidential-inference-attestation/src/canonical.rs:47-50 | units are the UTF-16 encoding of a string exactly when they read, with surrogate pairs, as its characters |
| JsonText.ParsePrint | crates/confidential-inference-attestation/src/canonical.rs:30-66 | a parser recovers every printed document, whatever follows it |
| JsonText.PrintInjective | crates/confidential-inference-attestation/src/canonical.rs:30-66 | different documents have different texts |
| JsonStrings.ReadCanonical | crates/confidential-inference-attestation/src/canonical.rs:35 | a reader of every string of RFC 8259, with all named and numeric escapes and surrogate pairs, takes the written string to its characters, whatever follows |
| JsonStrings.CanonicalIff | crates/confidential-inference-attestation/src/canonical.rs:35 | the text of a string is the shortest of all its JSON texts, and the only one that short with lower-case digits |
| JsonStrings.PlainString | tools/live_conformance.py:794-795 | a string without control characters, quotes and backslashes is written as it is |
| JsonStrings.NatTextIff | crates/confidential-inference-attestation/src/canonical.rs:68-87 | the text of a number is its only decimal spelling without a leading zero |
| CanonicalJson.SortKeys | crates/confidential-inference-attestation/src/canonical.rs:46-50 | the sort lists each key once in UTF-16 order |
| CanonicalJson.ListingUnique | crates/confidential-inference-attestation/src/canonical.rs:46-50 | a set of keys has one listing, so the text does not depend on insertion order |
| CanonicalJson.ParseRecovers | crates/confidential-inference-attestation/src/canonical.rs:30-87 | parsing the canonical text gives back the value |
| CanonicalJson.TextDeterminesValue | crates/confidential-inference-attestation/src/canonical.rs:30-87 | texts are equal exactly for equal values |
| CanonicalJson.WritersAgree | tools/live_conformance.py:781-809 | the Rust and the Python text are equal exactly when no keys clash |
| CanonicalJson.BmpKeysNoClash | tools/live_conformance.py:798-808 | values whose keys all lie in the Basic Multilingual Plane have no clash |
| CanonicalJson.WritersDiffer | tools/live_conformance.py:798-808 | an input on which the two texts differ |
| CanonicalWriter.WriteNumber | crates/confidential-inference-attestation/src/canonical.rs:68-87 | fails exactly on floats and on integers beyond 2^53 - 1 in magnitude |
| CanonicalWriter.WriteValue | crates/confidential-inference-attestation/src/canonical.rs:30-66 | succeeds exactly on representable values and appends their canonical text, which `CanonicalJson.ParseRecovers` and `JsonStrings.CanonicalIff` describe |
| CanonicalWriter.WriteArray | crates/confidential-inference-attestation/src/canonical.rs:36-45 | the array loop appends the canonical text or fails |
| CanonicalWriter.WriteObject | crates/confidential-inference-attestation/src/canonical.rs:46-62 | the object loop appends the canonical text or fails |
| Policy.CpuRankIsNameOrder | crates/confidential-inference-attestation/src/policy.rs:45-50 | the rank used for sorting is the order of the policy names |
| Sorting.NormalListIff | crates/confidential-inference-attestation/src/policy.rs:45-50 | sorting and removing repetitions identifies exactly the lists with the same elements |
| Policy.ToValueInjective | crates/confidential-inference-attestation/src/policy.rs:199-216 | different policies have different JSON values |
| Policy.PreimageIdentifiesPolicy | crates/confidential-inference-attestation/src/policy.rs:332-341 | two digest preimages are equal exactly when the policies agree up to order and repetition of the allowed TEEs |
| Policy.DigestExists | crates/confidential-inference-attestation/src/policy.rs:332-341 | a policy has a canonical text exactly when its durations are safe integers |
| PolicyText.PolicyWritten | crates/confidential-inference-attestation/src/policy.rs:199-216 | the canonical text of every policy with safe durations, written out with its member names in order |
| PolicyText.PreimageWritten | crates/confidential-inference-attestation/src/policy.rs:332-341 | what is hashed is that text with sorted lists without repetitions |
| Base32.Feed | crates/confidential-inference-attestation/src/ppq.rs:227-233 | the accumulator keeps fewer than 8 bits and accounts for every bit fed |
| Base32.ShiftIn | crates/confidential-inference-attestation/src/ppq.rs:227-233 | the updates of the inner loop are one feed, with the shifted bits below 2^12 |
| Base32.FeedAllValue | crates/confidential-inference-attestation/src/ppq.rs:217-235 | output and leftover bits are the big-endian integer read so far |
| Base32.AcceptedIsEncoding | crates/confidential-inference-attestation/src/ppq.rs:217-239 | every accepted digit string is the encoding of its output |
| Base32.EncodingAccepted | crates/confidential-inference-attestation/src/ppq.rs:217-239 | the encoding of every byte string is accepted and decodes to it |
| SanChunks.CollectChunks | crates/confidential-inference-attestation/src/ppq.rs:192-207 | collects exactly the tagged labels, and fails exactly on a malformed one |
| SanChunks.DecodeChunk | crates/confidential-inference-attestation/src/ppq.rs:221-234 | one chunk continues the accumulator, and fails exactly on a foreign character |
| SanChunks.DecodeDomains | crates/confidential-inference-attestation/src/ppq.rs:191-240 | returns exactly the byte string that the names carry, which `CarriesIff` and `LetterCase.DecodesIffSpelled` describe |
| SanChunks.DecodesIffText | crates/confidential-inference-attestation/src/ppq.rs:217-239 | a text decodes to a byte string exactly when it is its base32 text up to letter case |
| SanChunks.SortedArrangement | crates/confidential-inference-attestation/src/ppq.rs:208-216 | sorting puts every arrangement of numbered chunks back into order |
| SanChunks.CarriedShape | crates/confidential-inference-attestation/src/ppq.rs:191-240 | what is carried is not empty and comes in 1 to 100 chunks |
| SanNames.LabelIff | crates/confidential-inference-attestation/src/ppq.rs:202-206 | a label is well formed with an index and data exactly when it is the two digits of the index followed by the data |
| SanNames.NameIff | crates/confidential-inference-attestation/src/ppq.rs:194-206 | a name is tagged and read as a chunk exactly when it is two digits, data, a dot, the tag in some letter case, and possibly further labels |
| SanNames.ChunksPermuted | crates/confidential-inference-attestation/src/ppq.rs:192-207 | reordering the names only reorders the chunks |
| SanNames.WrittenCarried | crates/confidential-inference-attestation/src/ppq.rs:191-240 | the text of every byte string, cut into 1 to 100 non-empty parts and written into names in any order and letter case, with any untagged names beside them, decodes to it |
| SanNames.CarriesIff | crates/confidential-inference-attestation/src/ppq.rs:191-240 | names decode to a byte string exactly when they are, in some order, the names of the numbered parts of its text and names without the tag |
| LetterCase.IgnoringCaseIff | crates/confidential-inference-attestation/src/ppq.rs:195-198 | comparing without case is equality letter by letter, where a letter equals its other case and nothing else |
| LetterCase.DecodesIffSpelled | crates/confidential-inference-attestation/src/ppq.rs:217-239 | a text decodes to a byte string exactly when it spells its base32 digits with the alphabet A to Z, 2 to 7, each letter in either case |
| LetterCase.LoweredDecodes | crates/confidential-inference-attestation/src/ppq.rs:217-239 | the text of every byte string decodes in small letters too |
| LetterCase.TaggedIff | crates/confidential-inference-attestation/src/ppq.rs:194-201 | a name is tagged exactly when its second label is the tag letter by letter |
| LetterCase.LoweredName | crates/confidential-inference-attestation/src/ppq.rs:191-240 | a name with tag and text in small letters decodes to the same bytes |
| Versions.ScanRuns | crates/confidential-inference-attestation/src/reference_values.rs:15-29 | the scan cuts a version into its maximal digit and other runs |
| Versions.RunsIff | crates/confidential-inference-attestation/src/reference_values.rs:15-29 | the runs are the only division of a version into parts of one class that alternate between digits and others and concatenate to it |
| Versions.CompareArtifactVersions | crates/confidential-inference-attestation/src/reference_values.rs:14-47 | the loop computes the comparison of the run lists |
| Versions.DigitRunsAreNumbers | crates/confidential-inference-attestation/src/reference_values.rs:35-39 | digit runs compare as the numbers they denote |
| Versions.CompareIsKeyOrder | crates/confidential-inference-attestation/src/reference_values.rs:14-47 | the comparison is the lexicographic order of one key per version |
| Versions.CompareTotal | crates/confidential-inference-attestation/src/reference_values.rs:14-47 | any two versions compare, and swapping them flips the result |
| Versions.CompareTransitive | crates/confidential-inference-attestation/src/reference_values.rs:14-47 | not being greater is transitive on all strings |
| Versions.EqualVersions | crates/confidential-inference-attestation/src/reference_values.rs:14-47 | versions are equal exactly when their runs match up to leading zeros |
| Versions.DottedNumbers | crates/confidential-inference-attestation/src/reference_values.rs:14-47 | versions made of decimal numbers and dots compare as the lists of their numbers |
| ReferenceValues.AcceptedTransitive | crates/confidential-inference-attestation/src/reference_values.rs:155-232 | two accepted updates amount to one accepted update |
| ReferenceValues.ChainAccepted | crates/confidential-inference-attestation/src/reference_values.rs:155-232 | in every chain each payload would be accepted directly after each earlier one |
| ReferenceValues.AcceptedIff | crates/confidential-inference-attestation/src/reference_values.rs:155-232 | acceptance is validity, the exact schema name, and a successor that takes nothing back |
| ReferenceValues.WeakeningIff | crates/confidential-inference-attestation/src/reference_values.rs:155-232 | exactly which refusals are reported as a weakening rather than as invalid |
| ReferenceValues.ChainSafe | crates/confidential-inference-attestation/src/reference_values.rs:155-232 | every chain is safe from end to end: versions, epochs, keys, measurements, routes |
| ReferenceValues.AcceptedItself | crates/confidential-inference-attestation/src/reference_values.rs:155-232 | a payload is accepted as its own update exactly when it is valid, named exactly and not older than its minimum |
| ReferenceValues.NotItsOwnUpdate | crates/confidential-inference-attestation/src/reference_values.rs:155-232 | a valid payload of version 1 with minimum version 2 is not accepted as its own update |
| ReferenceValues.ValidIff | crates/confidential-inference-attestation/src/reference_values.rs:130-152 | a payload is valid exactly when its schema is supported, its end is the recorded time, some time lies inside its window, and every route has its recorded end and pinned, sorted and unique images |
| Der.AccumulateLength | crates/confidential-inference-attestation/src/sigstore_sct.rs:179-185 | the checked accumulation of length bytes |
| Der.NoOverflow | crates/confidential-inference-attestation/src/sigstore_sct.rs:175-186 | in a word that holds the length bytes the accumulation never overflows and is the big-endian number |
| Der.SignificantBytes | crates/confidential-inference-attestation/src/sigstore_sct.rs:200-207 | the bytes of the word from the first nonzero one are the shortest base-256 digits |
| Der.DerWrap | crates/confidential-inference-attestation/src/sigstore_sct.rs:194-210 | writes tag, minimal length and content |
| Der.DerValue | crates/confidential-inference-attestation/src/sigstore_sct.rs:167-192 | the whole-buffer reader computes `Value`, which the laws below describe |
| Der.ReadValue | crates/confidential-inference-attestation/src/sev_snp.rs:544-582 | the cursor reader computes `Read` and advances past the element |
| Der.ValueOfWrap | crates/confidential-inference-attestation/src/sigstore_sct.rs:167-210 | the reader undoes the writer for every content, and only under its own tag |
| Der.WrapOfValue | crates/confidential-inference-attestation/src/sigstore_sct.rs:167-210 | accepted input is the writer's output exactly when its length is minimal |
| Der.NonMinimalAccepted | crates/confidential-inference-attestation/src/sigstore_sct.rs:167-210 | an empty element with its length in the long form is accepted and is not what the writer makes |
| Der.WrapInjective | crates/confidential-inference-attestation/src/sigstore_sct.rs:194-210 | equal elements have equal tags and contents |
| Der.ReadOfWrap | crates/confidential-inference-attestation/src/sev_snp.rs:544-582 | the cursor reader undoes the writer anywhere in a buffer, exactly below 2^32 bytes |
| Der.ReadersAgree | crates/confidential-inference-attestation/src/sev_snp.rs:544-582 | the two readers agree on one-element buffers up to four length bytes |
| RsaKey.ParseRsaPublicKey | crates/confidential-inference-attestation/src/sev_snp.rs:520-542 | the parser computes `Parse`, which `AcceptedIff` describes |
| RsaKey.ReadInPlace | crates/confidential-inference-attestation/src/sev_snp.rs:544-582 | an element reads the same inside any buffer |
| RsaKey.AcceptedIff | crates/confidential-inference-attestation/src/sev_snp.rs:520-542 | a key is accepted exactly when the buffer is a sequence of two nonempty integers with that key |
| RsaKey.RoundTrip | crates/confidential-inference-attestation/src/sev_snp.rs:520-542 | a written key parses back, its modulus without the sign byte |
| RsaKey.WrittenKey | crates/confidential-inference-attestation/src/sev_snp.rs:520-542 | every modulus and exponent, written as section A.1.1 of RFC 8017 says, is read back |
| Sct.Cursor.Next | crates/confidential-inference-attestation/src/sigstore_sct.rs:16-23 | takes a prefix or fails and stays |
| Sct.Cursor.NextVector16 | crates/confidential-inference-attestation/src/sigstore_sct.rs:25-28 | takes one length-prefixed vector or fails |
| Sct.Vector16Iff | crates/confidential-inference-attestation/src/sigstore_sct.rs:25-28 | reading a vector is the exact inverse of writing it |
| Sct.ReadSct | crates/confidential-inference-attestation/src/sigstore_sct.rs:73-88 | the reader computes `Parse`, which `ParseIff` describes |
| Sct.ParseIff | crates/confidential-inference-attestation/src/sigstore_sct.rs:73-88 | exactly the serialised timestamps parse |
| Sct.SignedEntryInjective | crates/confidential-inference-attestation/src/sigstore_sct.rs:89-102 | different timestamps, issuers, bodies or extensions never give the same bytes to sign |
| Sct.VerifyOne | crates/confidential-inference-attestation/src/sigstore_sct.rs:73-163 | succeeds exactly when `Check` does, which `SctLayout.CheckIff` describes: some trusted log signed bytes that read as these four fields |
| SctLayout.ReadEntryIff | crates/confidential-inference-attestation/src/sigstore_sct.rs:89-102 | a reader of section 3.2 of RFC 6962, byte by byte, takes exactly the signed entries to their timestamp, issuer hash, body and extensions |
| SctLayout.ParseIsLayout | crates/confidential-inference-attestation/src/sigstore_sct.rs:73-88 | the parser accepts exactly what a byte-by-byte reader of a timestamp takes, with the same fields |
| SctLayout.WindowIff | crates/confidential-inference-attestation/src/sigstore_sct.rs:134-151 | the test in nanoseconds holds exactly when the time in milliseconds is within the validity of the key |
| SctLayout.KeyLayout | crates/confidential-inference-attestation/src/sigstore_sct.rs:11-14 | the compared prefix followed by a point is the DER of a P-256 public key |
| SctLayout.SignedByIff | crates/confidential-inference-attestation/src/sigstore_sct.rs:104-161 | the tests on one log amount to: its key is that of the log id, was in force, and signed the entry |
| SctLayout.CheckIff | crates/confidential-inference-attestation/src/sigstore_sct.rs:73-163 | one timestamp verifies exactly when a trusted log in force signed bytes that the reader takes to these four fields |
| Sct.TryLog | crates/confidential-inference-attestation/src/sigstore_sct.rs:105-160 | the tests on one log in their order amount to `LogSigned`: algorithm, key kind, identifier, key digest and prefix, window, signature |
| Sct.FindLog | crates/confidential-inference-attestation/src/sigstore_sct.rs:104-162 | the loop over the logs succeeds exactly when some log passes all tests |
| Sct.ItemsIff | crates/confidential-inference-attestation/src/sigstore_sct.rs:280-285 | splitting a list is the exact inverse of writing it |
| Sct.VerifyItems | crates/confidential-inference-attestation/src/sigstore_sct.rs:279-290 | the loop ends, and succeeds exactly when the list splits and some item verifies |
| Sct.OpenList | crates/confidential-inference-attestation/src/sigstore_sct.rs:267-272 | the list is opened exactly when it is one vector, not empty, with nothing behind it |
| Sct.ListIff | crates/confidential-inference-attestation/src/sigstore_sct.rs:267-290 | opening and splitting succeed with an accepted item exactly for a written nonempty list that holds one |
| Precert.FindTimestamps | crates/confidential-inference-attestation/src/sigstore_sct.rs:255-265 | finds an index exactly when it is the only timestamp extension, not critical, and nothing is poisoned |
| Precert.Collect | crates/confidential-inference-attestation/src/sigstore_sct.rs:218-226 | both buffers: all encodings, and all but the chosen one |
| Precert.PrecertTbs | crates/confidential-inference-attestation/src/sigstore_sct.rs:212-234 | computes `Rebuild`, which the three lemmas below describe |
| Precert.WithoutBytes | crates/confidential-inference-attestation/src/sigstore_sct.rs:220-226 | leaving out one extension takes away exactly its bytes |
| Precert.RebuildIff | crates/confidential-inference-attestation/src/sigstore_sct.rs:212-234 | a result is exactly the body with the chosen extension removed |
| Precert.LayersReadBack | crates/confidential-inference-attestation/src/sigstore_sct.rs:212-234 | the three enclosing lengths are right: reading the layers gives back what remains |
| Precert.RebuildWritten | crates/confidential-inference-attestation/src/sigstore_sct.rs:212-234 | every body written with these extensions is accepted, and its result is the body written without the chosen one |
| CertificateTimestamps.VerifySct | crates/confidential-inference-attestation/src/sigstore_sct.rs:236-295 | succeeds exactly when there is one plain timestamp extension, the body can be rebuilt without it, and some item of its list is signed by a trusted log over that body and the issuer |
| CertificateTimestamps.IssuedVerifies | crates/confidential-inference-attestation/src/sigstore_sct.rs:236-295 | every certificate made from a precertificate by adding a list with one trusted timestamp verifies, wherever the extension stands and whatever else the list holds |
| CertificateTimestamps.EntryBindsCertificate | crates/confidential-inference-attestation/src/sigstore_sct.rs:89-102 | equal signed entries mean equal issuers, times and bodies without the timestamp extension |
| CertificateTimestamps.TimestampedMeans | crates/confidential-inference-attestation/src/sigstore_sct.rs:236-295 | the timestamps of a certificate verify exactly when a trusted log attested the certificate without its only timestamp extension |
| EventLog.HexIff | crates/confidential-inference-attestation/src/redpill.rs:37-51 | hexadecimal decoding accepts exactly the encodings, in either letter case |
| EventLog.HexRoundTrip | crates/confidential-inference-attestation/src/redpill.rs:37-51 | decoding undoes encoding |
| EventLog.DstackIdentity | crates/confidential-inference-attestation/src/redpill.rs:53-123 | the loop over the records computes `Identity`, which the lemmas below describe |
| EventLog.AcceptedIff | crates/confidential-inference-attestation/src/redpill.rs:53-123 | a log is accepted exactly when every record is well formed with a matching digest, identity events have allowed lengths and do not repeat, the three required ones are there, and the quoted register is the chain of the records |
| EventLog.ChainBinding | crates/confidential-inference-attestation/src/redpill.rs:75-89 | equal register values come from equal encoded records, or a collision or zero preimage is computed |
| EventLog.EncodeIff | crates/confidential-inference-attestation/src/redpill.rs:75-81 | two records share an encoding exactly when they are equal or one name runs on into the other's payload |
| EventLog.OtherRegistersNeverMatter | crates/confidential-inference-attestation/src/redpill.rs:61-67 | records of other registers change neither outcome nor error |
| EventLog.DigestsChecked | crates/confidential-inference-attestation/src/redpill.rs:82-85 | every digest supplied in an accepted log is the hash of its record |
| EventLog.IdentityExtracted | crates/confidential-inference-attestation/src/redpill.rs:90-117 | each identity component comes from exactly one record with an allowed length; only the application may be missing |
| EventLog.IdentityInjective | crates/confidential-inference-attestation/src/redpill.rs:118-121 | the identity text determines its four components |
| EventLog.IdentityDeterminesComponents | crates/confidential-inference-attestation/src/redpill.rs:53-123 | accepted logs with one identity text have the same components |
| EventLogMeaning.HexTextIff | crates/confidential-inference-attestation/src/redpill.rs:118-122 | hexadecimal text is the one spelling with small letters, digit by digit |
| EventLogMeaning.HexReads | crates/confidential-inference-attestation/src/redpill.rs:37-51 | what is read is exactly what is spelled, in either letter case |
| EventLogMeaning.LineIff | crates/confidential-inference-attestation/src/redpill.rs:75-81 | the hashed bytes are the kind in four little-endian bytes, a colon, the name, a colon and the payload |
| EventLogMeaning.RegisterIsChain | crates/confidential-inference-attestation/src/redpill.rs:86-89 | starting from 48 zero bytes, each register is the hash of the previous one followed by the hash of the line |
| EventLogMeaning.QuotesIff | crates/confidential-inference-attestation/src/redpill.rs:86-123 | the quoted text is accepted exactly when it spells the last register |
| EventLogMeaning.SelectedIff | crates/confidential-inference-attestation/src/redpill.rs:61-85 | the replayed records are exactly those of register 3, each read from its fields with a matching digest, and every other record names its register |
| EventLogMeaning.IdentityIff | crates/confidential-inference-attestation/src/redpill.rs:53-123 | the result of the replay of every log, on the bytes of the records, the register, the components and the identity text |
| EventLogBinding.TwoIdentities | crates/confidential-inference-attestation/src/redpill.rs:53-123 | for every hash function, two logs with UTF-8 names are accepted for one quoted value with different identities and without a collision |
| EventLogBinding.Utf8CutsAtColon | crates/confidential-inference-attestation/src/redpill.rs:74-80 | a string with a colon is UTF-8 exactly when both sides are, so names can be cut and joined there |
| Unicode.Utf8Text | crates/confidential-inference-attestation/src/redpill.rs:74 | the possible names are exactly the UTF-8 encodings of strings |
| EventLogBinding.UniqueIff | crates/confidential-inference-attestation/src/redpill.rs:75-81 | a record is the only one with its encoding exactly when its name has no colon and no colon of its payload can end a name |
| EventLogBinding.UniqueAmongBytesIff | crates/confidential-inference-attestation/src/redpill.rs:75-81 | among names of any bytes, a record is the only one with its encoding exactly when it has no colon |
| EventLogBinding.ChainBoundIff | crates/confidential-inference-attestation/src/redpill.rs:75-89 | a register value binds a log, or the hash is broken, exactly when every record of the log is the only one with its encoding |
| EventLogBinding.ChainBoundAmongBytesIff | crates/confidential-inference-attestation/src/redpill.rs:75-89 | among names of any bytes, a register value binds a log, or the hash is broken, exactly when no record has a colon |
| EventLogBinding.IdentityBoundIff | crates/confidential-inference-attestation/src/redpill.rs:90-117 | all readings of the encoded records agree on the identity exactly when no slot can be filled in another way |
| EventLogBinding.SameIdentityIff | crates/confidential-inference-attestation/src/redpill.rs:53-123 | two logs accepted for one quoted value give one identity exactly when the same payloads fill the slots |
| EventLogBinding.LogIdentityIff | crates/confidential-inference-attestation/src/redpill.rs:53-123 | the register value of an accepted log binds its identity, or the hash is broken, exactly when every slot is bound |
| EventLogBinding.LogBinding | crates/confidential-inference-attestation/src/redpill.rs:53-123 | an accepted log whose records have unique encodings is the only one accepted for its quoted value, or the hash is broken |
| EventLogBinding.PlainLogBinding | crates/confidential-inference-attestation/src/redpill.rs:53-123 | two logs without colons in names that are accepted for one quoted value have the same records and identity, or the hash is broken |
| Handles.LocalKeeps | bindings/go/confidentialinference.go:375-460 | every step inside a method keeps locks, counts, ownership and liveness |
| Handles.StepKeeps | bindings/go/confidentialinference.go:375-723 | every step of every thread keeps the invariant |
| Handles.Safety | bindings/go/confidentialinference.go:375-723 | over every interleaving: no native call on a freed handle, exact in-flight counts, at most one free, no live stream of a freed client, mutual exclusion, open exactly while live |
| Handles.CloseSucceeds | bindings/go/confidentialinference.go:401-427 | a retried close frees the handle once no call is in flight and no stream is live |
| HandleGuard.Guard.Acquire | bindings/go/confidentialinference.go:375-383 | counts a call exactly when the handle is open |
| HandleGuard.Guard.Release | bindings/go/confidentialinference.go:385-389 | takes one call back |
| HandleGuard.Guard.Close | bindings/go/confidentialinference.go:401-427 | closed, busy or refused, and the handle is kept unless it was freed |
| HandleGuard.AcquireSection | bindings/python/confidential_inference_sdk/__init__.py:202-211 | the steps of the entering section do what `Acquire` does |
| HandleGuard.ReleaseSection | bindings/python/confidential_inference_sdk/__init__.py:214-216 | the steps of the leaving section do what `Release` does |
| HandleGuard.CloseSectionRefused | bindings/python/confidential_inference_sdk/__init__.py:265-278 | a close that finds the object closed or busy changes nothing, whatever the library would answer |
| HandleGuard.CloseSectionFreed | bindings/python/confidential_inference_sdk/__init__.py:264-288 | the steps of a close that frees the handle do what `Close` does, and the native handle is freed once more |
| HandleGuard.CloseSectionFailed | bindings/python/confidential_inference_sdk/__init__.py:264-288 | a close that the native library refuses leaves the object as it was, for another try |
| CollateralCache.RunningMinimum | crates/confidential-inference-attestation/src/tdx.rs:455-464 | the loop keeps the running minimum and stops at a parse error |
| CollateralCache.ValidUntil | crates/confidential-inference-attestation/src/tdx.rs:454-471 | computes `Expiry`, which `ExpiryIff` describes |
| CollateralCache.ExpiryIff | crates/confidential-inference-attestation/src/tdx.rs:454-471 | the expiry is the least bound, and exists exactly when all parses succeed and a bound is below the maximum |
| CollateralCache.VerifierIff | crates/confidential-inference-attestation/src/tdx.rs:71-83 | a verifier is issued exactly for a valid bundle before every bound |
| CollateralCache.FindVictim | crates/confidential-inference-attestation/src/tdx.rs:243-250 | finds the first bundle by expiry, fetch time and key |
| CollateralCache.Cache.InsertForQuote | crates/confidential-inference-attestation/src/tdx.rs:224-254 | succeeds exactly on a valid bundle with the right digest, reports a mismatch exactly on another digest, evicts only when full, and changes nothing otherwise |
| CollateralCache.Cache.BundleForQuote | crates/confidential-inference-attestation/src/tdx.rs:266-269 | returns what is filed under the digest of the quote |
| CollateralCache.Cache.RemoveForQuote | crates/confidential-inference-attestation/src/tdx.rs:271-274 | removes and returns that entry, and nothing else |
| CollateralCache.Cache.VerifierForQuoteAt | crates/confidential-inference-attestation/src/tdx.rs:276-287 | nothing, the bundle's error, or its verifier |
| CollateralCache.SizeBounded | crates/confidential-inference-attestation/src/tdx.rs:224-274 | over every run at most 256 bundles are kept |
| CollateralCache.EntriesAccepted | crates/confidential-inference-attestation/src/tdx.rs:224-274 | over every run each entry is valid and filed under its own digest |
| CollateralCache.AcceptsIff | crates/confidential-inference-attestation/src/tdx.rs:224-235 | a bundle is accepted exactly when it names no other quote than its key, has the schema and the formatted times, and expires at the least of its bounds |
| CollateralCache.EntriesConsistent | crates/confidential-inference-attestation/src/tdx.rs:224-274 | over every run each entry is consistent with the key it is filed under |
| CollateralCache.LookupIsLastInsert | crates/confidential-inference-attestation/src/tdx.rs:224-274 | what is found under a digest is what was last inserted there and not touched since |
| CollateralCache.EvictionMinimal | crates/confidential-inference-attestation/src/tdx.rs:236-250 | an insertion loses at most one other entry, only when full: the one that expires first, among those was fetched first, and among those has the least key |
| CollateralCache.VerifierNeverExpired | crates/confidential-inference-attestation/src/tdx.rs:276-287 | over every run a verifier is issued exactly before every bound |
| Lexers.FindTurn | tools/check_ffi_exports.py:50-113 | one turn of the first loop moves by the shared lexical rules, which `RustTokens.AllLexed` shows to read whole tokens |
| Lexers.FindMatchingBody | tools/check_ffi_exports.py:39-115 | the loop finds the body that `RustTokens.BodyOfEveryText` describes, or fails |
| Lexers.StripTurn | tools/check_ffi_exports.py:140-215 | one turn of the second loop moves by the same rules and writes their output |
| Lexers.CodeWithoutCommentsAndStrings | tools/check_ffi_exports.py:135-217 | the loop writes the blanked text that `RustTokens.StripEveryText` describes |
| Lexers.BodyTracked | tools/check_ffi_exports.py:39-217 | every found body is blanked in place, its braces balanced with the depth first zero at the last character |
| Lexers.Tracks | tools/check_ffi_exports.py:39-217 | from every position the first lexer visits, the second tracks it to the end of the body |
| Lexers.StripIdempotent | tools/check_ffi_exports.py:135-217 | blanked text holds no literal or comment, so blanking again changes nothing |
| RustTokens.TokensGood | tools/check_ffi_exports.py:39-217 | every text is the rendering of code characters, line comments, nested block comments, and string and character literals with escapes, also unfinished ones |
| RustTokens.AllLexed | tools/check_ffi_exports.py:39-217 | the lexical rules, started on any such rendering, pass over each token as a whole |
| RustTokens.StripTokens | tools/check_ffi_exports.py:135-217 | blanking a rendering keeps its code characters in place and blanks everything else but line ends |
| RustTokens.StripEveryText | tools/check_ffi_exports.py:135-217 | so does blanking any text, for the tokens it is made of |
| RustTokens.FindIff | tools/check_ffi_exports.py:39-49 | the search starts at the first brace |
| RustTokens.BodyTokens | tools/check_ffi_exports.py:39-115 | the body runs to the first code brace that balances, whatever the tokens between hold, and the search fails exactly without one |
| RustTokens.BodyOfEveryText | tools/check_ffi_exports.py:39-115 | so it does in any text, for the tokens it is made of |
| RustTokens.BodyMissing | tools/check_ffi_exports.py:39-49 | a missing opening brace is reported exactly when there is none |
| Verdict.SameChecks | crates/confidential-inference-attestation/src/verdict.rs:597-633 | by counting, the outcomes are about exactly the checks, with the same results |
| Verdict.VerifiedOutcomes | crates/confidential-inference-attestation/src/verdict.rs:553-633 | in a verified verdict every required outcome is verified and no check failed |
| Verdict.ExpiryIsEarliest | crates/confidential-inference-attestation/src/verdict.rs:499-551 | the expiry is one of the bounds and none is earlier |
| Verdict.EveryRoleOnce | crates/confidential-inference-attestation/src/verdict.rs:635-668 | an accepted attribution names every role exactly once |
| Verdict.ProviderFound | crates/confidential-inference-attestation/src/verdict.rs:689-694 | once the roles are covered, looking up the provider cannot fail |
| Verdict.AcceptedIff | crates/confidential-inference-attestation/src/verdict.rs:341-837 | the validators together accept exactly the consistent verdicts: the least expiry, outcomes about exactly the checks, one party per role, claims that coincide and are proven by checks, earned tiers, and a decision that follows from enforcement, checks and outcomes |
| Verdict.RolesIff | crates/confidential-inference-attestation/src/verdict.rs:635-668 | sorting and dropping repetitions gives the six roles exactly when every role comes once |
| Verdict.StrongVerdict | crates/confidential-inference-attestation/src/verdict.rs:553-837 | a verified verdict of the two strongest tiers is allowed, has all five binding checks verified and every required outcome verified |

## Left out

- Associativity of point addition and the order of the base point are hypotheses of the Ed25519 theorems, and the 255-bit constants are not expanded.
- SHA-2, RSA-PSS, ECDSA, base64, gzip, certificate and JSON parsing, DCAP quote verification and JWT checking are library code that is not part of this model.
- The JSON of the trusted logs, base64, timestamp syntax, SHA-256 and ECDSA of the timestamp model are parsed inputs or parameters.
- Signed notes and checkpoints, binding of the log body to the envelope, and the integrated time of the transparency log.
- `Stream.Cancel` in Go, and `start_stream` and `cancel` in Python, are not counted as in flight by the code and are not actions of the handle model; closing a stream cancels and frees it in one critical section.
- The handle model reads the handle field when the native call starts; `Stream.Next` copies it under the lock, which is the same value.
- The insertion of signed collateral bundles is an insertion after a signature check that is not modelled.
- The schema checks of policies, reference values and verdicts, the digest syntax and the evidence references of a verdict are parsed inputs or parameters.
- Lone surrogates, which Python strings may hold, are not strings of the JSON model.
- The update of a `&mut String` and of a `&mut usize` and the in-place sorting of the allowed lists of a policy are modelled by returning the new value; the buffers of point pruning and of Merkle nodes, the slice cursor of timestamps, the cache and the handle fields are updated in place.
- The SDK client, the provider adapters, the FFI implementation, release and packaging checkers, and the demo provider would only add field-by-field checks.
- Clocks, environment variables, files, the network and error texts.
