# AI Catalog, verified

A Dafny model of the Go SDK for AI Catalogs. It covers the five parts of the SDK
whose correctness is not evident from reading one function:

* **Link headers** (`LinkHeader.dfy`, `LinkLaws.dfy`, `LinkTargets.dfy`, `LinkTexts.dfy`,
  `LinkMeaning.dfy`): the hand-written scanner for
  link values, character by character, and what printing, re-reading and combining
  header fields mean for it.
* **Signing payloads** (`Json.dfy`, `Utf16.dfy`, `JsonText.dfy`, `JcsLaws.dfy`, `Payload.dfy`,
  `PayloadLaws.dfy`, `Encoding.dfy`, `Jws.dfy`, `Jwk.dfy`): JSON documents, their canonical form, what a
  detached signature covers, UTF-8, base64url, the JWS signing input and P-256 JWKs.
* **Validation** (`Identity.dfy`, `Rules.dfy`, `Validator.dfy`, `ReportLaws.dfy`,
  `PartLaws.dfy`, `ValidatorLaws.dfy`, `ValidLaws.dfy`, `FaultLaws.dfy`, `CountLaws.dfy`, `DepthLaws.dfy`): publisher identities, the validator as a class
  that appends diagnostics while it walks nested catalogs, and what its results mean.
* **Verification** (`Decode.dfy`, `DecodeLaws.dfy`, `HistoryLaws.dfy`, `MergeLaws.dfy`,
  `BindingLaws.dfy`, `Did.dfy`, `Verify.dfy`, `VerifyLaws.dfy`, `TrustLaws.dfy`,
  `StatusLaws.dfy`, `StabilityLaws.dfy`, `HiddenAnswers.dfy`): the two decodings of a document and when they
  agree, what a payload binds, DID documents, signature, release and artifact checks, and
  the Trusted level.
* **Discovery and versions** (`Discovery.dfy`, `DiscoveryLaws.dfy`, `Catalog.dfy`): the memoised search for
  a site's catalog and the choice of the latest entry.

Every part has the same shape. A *specification* says what is computed, as functions
over values: a grammar, a report tree, a status, a run. The *program* is in the form
of the source: loops over shrinking text, a class that appends to its lists, maps that
are filled and deleted from; every method is proved to compute its specification. The
*laws* are theorems about the specification, for all inputs; where the specification is
the code's own way of computing, a law states in both directions what it computes in terms
of texts, members, the clock and what addresses answer.

Diagnostics are compared by code and path. A `Report` is the tree of what a rule
finds, with paths relative to the object it looks at; `Record` lists a report at a
place the way the validator appends to its lists, and `RecordAppends` ties the two.
Most validator methods log the report of one rule and are there for completeness; the
proofs that carry weight are the scan with its three tables, the paths and depths of
the walk, and the laws about whole results.
Library functions the SDK calls are parameters: RFC 3339 parsing (`Config.instant`),
the JSON decoder (`Config.decode`), hashing and curve operations (`Env.hash`,
`Env.check`, `Env.onCurve`), URL parsing and resolution, the HTML tokenizer, and the
fetchers. What a theorem assumes of them stands in its `requires`: where the two gates are
compared, that the empty text is no timestamp (`cfg.instant("").None?`); for the stability
of the Trusted level, that some body is no DID document and that no digest fits every
content; for the document that hiding an address makes Trusted, what the decoders, the
hash and the curve check answer on the values that occur in it; and of fetchers, what
answers they give or that they ignore the fragment of a URL.

`dafny verify dfyconfig.toml` checks the whole project.

## Model

| member | source | states |
|---|---|---|
| LinkScanner.ParseQuoted | discovery/link.go:161-183 | the loop over a quoted string with backslash escapes reads exactly the value of the grammar and leaves exactly its rest, also when the quote never closes |
| LinkScanner.ParseLinkValue | discovery/link.go:156-184 | quoted strings and tokens are read as in the grammar |
| LinkScanner.ParseLinkParams | discovery/link.go:114-152 | the parameters up to the comma that ends the link, with names lowercased, values optional, blanks and junk skipped as in the grammar |
| LinkScanner.NewLink | discovery/link.go:80-109 | a link is kept when it has a rel and no anchor; the first rel wins and is split and lowercased |
| LinkScanner.ParseLinkHeader | discovery/link.go:42-78 | the outer loop returns exactly the links of the grammar, recovering after junk at the next comma |
| LinkScanner.TargetsWithRel | discovery/link.go:26-38 | the targets over all field lines, in order, of the links with the relation type |
| LinkLaws.LinksAppend | discovery/link.go:42-152 | reading a closed text followed by a comma and anything is reading the text, then what follows |
| LinkLaws.ClosedCombines | discovery/link.go:42-78 | a closed field line joined by a comma to any other text reads as both apart |
| LinkLaws.OpenDiffers | discovery/link.go:42-78 | for every field line that stops inside a quote or a target, a text that reads differently when joined to it |
| LinkLaws.CombineIff | discovery/link.go:42-78 | joining by a comma keeps the meaning, whatever the second line is, if and only if the first line is closed (section 5.3 of RFC 9110) |
| LinkLaws.CombinedLines | discovery/link.go:26-38 | the targets of a list of field lines are the targets of their comma-joined combination, when every line but the last is closed |
| LinkTargets.CombineTargetsIff | discovery/link.go:26-38 | joining by a comma keeps the targets callers get, whatever the second line and the relation type are, if and only if the first line is closed |
| LinkLaws.ReadPrintedLinks | discovery/link.go:42-184 | a printed list of links, every value an escaped quoted-string, is read back whole before the end or a comma; commas, semicolons, quotes and backslashes in values never split a link |
| LinkTexts.ReadSpelledLinks | discovery/link.go:42-184 | every text of the grammar of section 3 of RFC 8288 is read as the links it spells: tokens, quoted strings with any escapes, parameters without a value, blanks around semicolons and equals signs, and empty list elements |
| LinkMeaning.LinkCounts | discovery/link.go:80-109 | the text of a link yields nothing if and only if it has no parameter called rel, in any case, or has one called anchor; otherwise one link with the trimmed target and the lowercased relation types of the first rel |
| LinkMeaning.TargetsAreOffered | discovery/link.go:26-109 | for field lines in any spelling of the grammar, the targets returned are, in order, those of the links without an anchor whose first rel lists the relation type |
| Text.TrimSpaceIs | discovery/link.go:73-73 | trimming takes white space off both ends, all of it and nothing else |
| Text.FieldsIff | discovery/link.go:104-106 | the relation types of a rel are the texts that stand between white space |
| LinkLaws.PrintedPrefix | discovery/link.go:42-152 | a printed list, a comma and any text b read as the list followed by exactly the links of b |
| LinkLaws.LinksAreWellFormed | discovery/link.go:42-152 | whatever the header, the links read are well-formed: trimmed targets without ">", lowercased token names |
| LinkLaws.RoundTrip | discovery/link.go:42-184 | for every header value, printing the links that were read and reading again gives the same links |
| LinkLaws.LinksRoundTrip | discovery/link.go:80-109 | the same for interpreted links written back as a target and one rel |
| Utf16.LessIsUtf16Order | trust/canonical.go:32-48 | a member name comes before another if and only if its UTF-16 code units are lexicographically smaller, surrogate pairs included (section 3.2.3 of RFC 8785) |
| Json.CanonFacts | trust/canonical.go:32-48 | the canonical form repeats no name and is its own canonical form |
| Json.CanonIsSame | trust/canonical.go:32-48 | the canonical form is the same document up to member order at every depth |
| Json.CanonDecidesSame | trust/canonical.go:32-48 | two documents have one canonical form if and only if they are equal up to member order at every depth |
| JsonText.ReadWritten | trust/canonical.go:32-48 | the canonical text, with its string escapes, is read back as the same document whatever follows |
| JsonText.WriteIsInjective | trust/canonical.go:32-48 | different documents have different texts |
| JcsLaws.ShortestChar | trust/canonical.go:32-48 | of all spellings of a character in a string literal (section 7 of RFC 8259) the written one is the shortest, and the only one that short with hex digits in lower case |
| JcsLaws.CanonicalIsShortest | trust/canonical.go:32-48 | of all JSON texts with white space and escapes at will that mean the document up to member order and have their members in order, the canonical text is the shortest, and the only one that short but for the case of hex digits (section 3.2 of RFC 8785) |
| JcsLaws.CanonicalIsSpelled | trust/canonical.go:32-48 | and it is one of them |
| Payload.Marshal | trust/canonical.go:84-87 | lists exactly the entries of a map, in some order |
| Payload.StripJWS | trust/canonical.go:94-119 | takes the jws out of a top-level signature object, changes no other entry, and says whether it did; a signature that is no object or has no jws is left alone |
| Payload.CanonicalizeForSignature | trust/canonical.go:55-90 | decoding the canonical text, deleting, re-marshalling and canonicalizing again, or returning early, gives the canonical text of the document without its top-level additionalSignatures and signature.jws; repeated names and documents that are neither object nor array are refused |
| Payload.StripOfCanon | trust/canonical.go:55-90 | stripping commutes with canonicalization |
| PayloadLaws.PayloadDecidesSame | trust/canonical.go:50-90 | two documents have one signing payload if and only if they are equal up to member order after removing only the two omitted members |
| PayloadLaws.PayloadIff | trust/canonical.go:50-119 | two objects have one signing payload if and only if every member of either but additionalSignatures has a match in the other: of a signature object every member but jws, of everything else the whole value |
| PayloadLaws.Covered | trust/canonical.go:50-54 | a change to any other member, also one nested and named like an omitted one, changes the payload |
| PayloadLaws.AttachKeepsPayload | trust/canonical.go:50-90 | attaching a jws, or additionalSignatures where there are none, leaves the payload as it was signed, and leaves a document that has one |
| PayloadLaws.PayloadIsFixed | trust/canonical.go:50-90 | the payload is itself a canonical document and its own payload |
| Utf8.EncodeIsInjective | trust/canonical.go:32-48 | different texts have different UTF-8 bytes |
| Utf8.EncodeCharIff | trust/canonical.go:32-48 | the bytes of a character are the one well-formed sequence of RFC 3629 that stands for it |
| Base64Url.DecodeEncode | trust/es256.go:144-147 | unpadded base64url of any bytes decodes to those bytes, for all three length residues |
| Base64Url.EncodeDecodeIff | trust/es256.go:134-137 | the decoder, which ignores line breaks and spare bits, is undone by the encoder exactly on the texts that have neither |
| Base64Url.EncodesIff | trust/es256.go:144-147 | a text is the encoding of bytes if and only if, group by group, four digits and three bytes are one number, the last group filled up with zero bits and not padded |
| Base64Url.DigitTable | trust/es256.go:144-147 | the digits have the values of the URL-safe alphabet |
| Jws.DecodeMembers | internal/jws/jws.go:80-118 | the members of an object, or nothing when a name repeats |
| Jws.Parse | internal/jws/jws.go:45-77 | the header of the text before the first dot: an object without repeated names, a non-empty alg, string kid and typ |
| JwsLaws.DetachedIff | internal/jws/jws.go:136-142 | a JWS is detached if and only if it is a non-empty header and a non-empty signature around two dots |
| JwsLaws.HeaderIff | internal/jws/jws.go:45-133 | a document gives a header if and only if it is an object that repeats no name, alg is a non-empty text, and kid and typ are texts, null or absent |
| JwsLaws.RepeatedNameRefused | internal/jws/jws.go:80-118 | a header that repeats a name is refused |
| JwsLaws.AcceptedSignature | trust/es256.go:116-158 | an accepted JWS is header..signature, the header that was checked is the text that was signed, it is plain ES256, and the raw 64 bytes verify over header and payload |
| JwsLaws.VerifiedIff | trust/es256.go:116-158 | a JWS is accepted if and only if it is header..signature with such a header and signature |
| JwsLaws.SigningInputIsInjective | trust/es256.go:147-148 | the signing input determines the header text and the payload bytes |
| JwsLaws.SignatureBindsDocument | trust/es256.go:147-148 | one signing input means the same header and the same document up to order and the omitted members, and conversely |
| Jwk.ParseES256Key | trust/es256.go:44-102 | collecting the coordinates into a point gives the key of a public EC P-256 JWK whose alg, use and key_ops allow verifying, and nothing otherwise |
| Jwk.KeyRoundTrip | trust/es256.go:44-79 | every key on the curve is read back from its JWK |
| Jwk.KeyIff | trust/es256.go:44-102 | a key is read if and only if the members say EC, P-256, no d, ES256, sig and verify where they say anything, and two coordinates of 32 bytes that are on the curve |
| Jwk.PrivateKeysRefused | trust/es256.go:81-84 | a JWK with a member d, wherever it stands, gives no key |
| Identity.DomainMatches | internal/identity/identity.go:21-21 | the regular expression for domains matches exactly the dot-separated lists of labels of letters, digits and inner hyphens |
| Identity.ChecksDecideValidPublisher | internal/identity/identity.go:45-59 | expression, label lengths and address check together accept exactly the names of at most 253 characters with labels of 1 to 63 that are not an IPv4 address (section 2.3.4 of RFC 1035) |
| Identity.ValidPublisherIff | internal/identity/identity.go:36-59 | a valid publisher has at most 253 characters, in labels of 1 to 63 lowercase letters, digits and inner hyphens, and is not an address |
| Identity.AddressIff | internal/identity/identity.go:56-58 | the texts without a colon that are taken for addresses are four decimal numbers below 256 between dots |
| Identity.AbsoluteURIMatches | validate/validate.go:381-386 | the regular expression for absolute URIs matches exactly a scheme, a colon and visible text |
| Identity.RootOfPublisher | internal/identity/identity.go:62-72 | the DID of a name is a root did:web DID if and only if the name is a valid publisher, whose DID document is then on its own host |
| Identity.PublisherNamed | internal/identity/identity.go:25-34 | a urn:air identifier of a valid publisher gives that publisher back, whatever follows it |
| Identity.OnePublisher | validate/profile.go:56-60 | at most one signer is the publisher of an identifier, and it is a root did:web DID |
| Identity.IsPublisherIff | validate/profile.go:56-60 | a signer is the publisher of an identifier if and only if a valid name follows did:web: in the one and urn:air: in the other, up to a colon or the end |
| Identity.RootIsAbsolute | validate/signature.go:45-47 | every root did:web DID is an absolute URI, so the validator's signer rule never objects to one |
| Catalog.GetByIDAndVersion | catalog/version.go:15-23 | the loop returns the lookup: the first entry with both the identifier and the version, or none when there is none |
| Semver.PrecedenceOrder | catalog/version.go:59-66 | precedence is a total preorder that ignores build metadata and nothing else (sections 10 and 11 of Semantic Versioning 2.0.0) |
| Semver.PrecedenceIff | catalog/version.go:59-66 | one version comes before another if and only if section 11 of Semantic Versioning 2.0.0 says so: major, minor, patch, a pre-release before its release, then the first identifier that differs, numbers by value and before texts |
| Latest.AboveIsStrictWeakOrder | catalog/version.go:41-81 | comparing by version, then by update time, with any valid version above none, is a strict weak order |
| Latest.LatestIff | catalog/version.go:41-81 | an entry is the latest if and only if it is the first of its identifier that no other is later than: alone with a valid version, or of higher precedence, or updated later at equal precedence or where no version is valid |
| Latest.LeadingVs | catalog/version.go:84-95 | any number of leading v's is read as one |
| Latest.Versions | catalog/version.go:26-36 | exactly the entries of the identifier, in document order |
| Latest.BestVersion | catalog/version.go:47-70 | the first loop finds the first of the best among the entries with a valid version |
| Latest.LatestUpdate | catalog/version.go:72-80 | the second loop finds the first of the latest |
| Latest.GetLatest | catalog/version.go:41-81 | the first entry of the identifier that no other is above; none exactly when there is no entry |
| Latest.LatestOfPermutation | catalog/version.go:41-81 | reordering the entries never changes the rank of the choice |
| Digest.DigestIsFixed | trust/trust.go:55-89 | a parsed digest has the hex length of its algorithm, and written back it parses to itself |
| Digest.DigestIgnoresCase | trust/trust.go:55-89 | lowercasing the text of a digest changes nothing, neither what it parses to nor whether it does |
| Digest.DigestIff | trust/trust.go:55-89 | a digest parses if and only if it is one of three algorithms, a colon and as many hex digits as the algorithm has, and it parses to both in lower case |
| Diagnostics.RecordAppends | validate/validate.go:152-158 | recording a report appends its errors to one list and its warnings to the other, in order, moved to the place |
| Validation.Validator.ValidateSignature | validate/signature.go:30-53 | logs exactly the report of the signature rules |
| Validation.Validator.ValidateJWS | validate/signature.go:70-102 | logs exactly the report on form, header, algorithm, b64 and typ |
| Validation.Validator.CheckSignerProfile | validate/profile.go:28-52 | logs exactly the warnings of the did:web profile, one for each key source named |
| Rules.KeyOfSignerIff | validate/profile.go:40-44 | the kid is the signer's if and only if it is the signer, "#" and a fragment without "/", "?" and "#" |
| Validation.Validator.CheckManifestProfile | validate/manifest.go:91-107 | logs them for signatures that select the profile and parse, and nothing otherwise |
| Validation.Validator.ValidateSubject | validate/manifest.go:109-128 | logs exactly the empty members and a malformed digest |
| Validation.FindMismatches | validate/manifest.go:138-163 | the members in which a subject differs from its entry, in order |
| Validation.Validator.ValidateSubjectBinding | validate/manifest.go:166-174 | logs one error for each of them |
| Validation.Validator.ValidateTrustManifest | validate/manifest.go:38-69 | logs exactly the report of the manifest rules |
| Validation.Validator.ValidateEntryTrust | validate/manifest.go:15-35 | logs the report of every manifest at its index, and the missing digest of an entry with a signed one |
| Validation.Validator.ValidateEntryUniqueness | validate/validate.go:198-222 | the one pass with three lookup tables logs exactly what comparing every entry with all before it reports |
| Validation.Validator.ValidateEntry | validate/validate.go:241-254 | logs exactly the report of the entry |
| Validation.Validator.ValidateNestedCatalog | validate/validate.go:304-329 | logs the depth error, the decoding error or the nested catalog's report under data; the recursion ends because inline data is smaller than its entry |
| Validation.Validator.ValidateCatalog | validate/validate.go:169-183 | logs exactly the report of the catalog with the remaining depth |
| Validation.Validate | validate/validate.go:130-167 | returns the errors and warnings of the report, valid when there is no error, Discoverable when there is also a host |
| ValidLaws.ValidIff | validate/validate.go:130-167 | a document is valid if and only if its members are: well-formed signatures of the right type by the contributor, subjects that agree with their entries, digests where manifests are signed, distinct entries, nested catalogs that decode, fit and are valid themselves; with a host it is discoverable |
| ValidLaws.ValidInDepth | validate/validate.go:304-329 | and so is every inline catalog it leads to |
| FaultLaws.FaultsAreReported | validate/validate.go:130-167 | for every code and every path: the diagnostic is among the errors or the warnings if and only if the fault of that code is at that place of the document |
| ValidatorLaws.ScanDecidesUniqueness | validate/validate.go:198-239 | the scan reports nothing if and only if every two entries with one identifier have non-empty and different versions |
| ValidatorLaws.LookupFindsEntry | catalog/version.go:15-23 | in a catalog the scan passes, looking up the identifier and version of entry i returns i |
| ValidatorLaws.ResultIgnoresOrder | validate/validate.go:130-142 | permuting the entries changes neither validity nor the level |
| CountLaws.CountIgnoresOrderIff | validate/validate.go:198-239 | every order of the entries is reported with the same number of errors if and only if no identifier occurs both without a version and at least twice with one |
| CountLaws.ErrorCountDependsOnOrder | validate/validate.go:198-239 | the smallest catalog for which the number depends on the order |
| ValidatorLaws.NestedReportIsOwnReport | validate/validate.go:304-329 | what is reported below the data of an entry is the report of that catalog alone with one level less |
| ValidatorLaws.NestedResultIsOwnResult | validate/validate.go:304-329 | the same along any route of nested catalogs, for errors and for warnings: the diagnostics below a nested catalog are those of validating it as a document with the limit reduced by its depth, under its own path |
| ValidatorLaws.ValidAtEveryLevel | validate/validate.go:304-329 | a valid catalog has only valid inline catalogs, at every level |
| DepthLaws.DepthErrorIff | validate/validate.go:304-314 | a depth error is reported if and only if some nested catalog entry that inline data leads to is at the limit or deeper |
| DepthLaws.GreaterLimitChangesNothing | validate/validate.go:304-329 | once no depth error is reported, every greater limit gives the identical result |
| Did.MethodsOf | validate/did.go:40-78 | the methods that kid selects over both lists, in order, and whether assertionMethod authorizes kid |
| Did.SelectKey | validate/did.go:82-110 | the key of the specification, or none |
| DidLaws.KeyOfIff | validate/did.go:82-110 | a key is selected if and only if the document is the signer's and one method over both lists is called kid, and that method is authorized, the signer's own, and has the key |
| DidLaws.KeySelectedIff | validate/did.go:40-110 | the same by the places of both lists and the texts of the references: "#f" refers to the signer's "#f", anything else to itself |
| DidLaws.KeyIgnoresOrder | validate/did.go:40-78 | permuting either list changes nothing |
| DidLaws.KeyIgnoresRelativeForm | validate/did.go:41-47 | replacing references "#f" by signer + "#f", or back, changes nothing |
| Verify.CheckSignature | validate/verify.go:236-280 | the sequence of checks, the first that does not pass deciding, computes the status of the signature |
| Verify.VerifyManifest | validate/verify.go:216-230 | signature, release and publisher of a manifest; nothing for an unsigned one |
| Verify.VerifyEntry | validate/verify.go:192-214 | the manifests in order with their payloads, the artifact only when a manifest is accepted, and both verdicts |
| Decoding.Serve | catalog/models.go:61-84 | the catalog of a document and its raw manifests are what the two decodings of that one document give, entry by entry and manifest by manifest; members meet fields in any letter case and merge into what is there |
| Verify.VerifyDocument | validate/verify.go:119-158 | nothing for a document that does not decode, and otherwise the verification of its two decodings |
| Verify.VerifyServed | validate/verify.go:130-157 | validation, catalog signature, entries and the level |
| Gates.SignatureSilent | validate/signature.go:30-102 | exactly which signatures the validator finds no error in |
| Gates.ProfileSilent | validate/profile.go:28-52 | exactly which it has no profile warning about |
| Gates.TwoGates | validate/verify.go:282-342 | for the did:web profile and one clock, the validator reports no error and no warning on a signature if and only if the verifier's header and time checks pass and the header has no b64 |
| VerifyLaws.VerifiedSignature | validate/verify.go:236-280 | a verified signature is by a root did:web DID, in its window, with the key its own DID document selects for the kid, over the signing payload of the document as served, and passes the validator's gate |
| StatusLaws.VerifiedIff | validate/verify.go:236-342 | a signature is verified if and only if it is in the profile, by a root DID, in its window, with a header of the type, and its DID document gives a key that verifies it over the document's signing payload |
| StatusLaws.UnverifiableIff | validate/verify.go:236-342 | it is unverifiable if and only if it names another profile, or only the DID document does not answer |
| VerifyLaws.ReleaseIff | validate/verify.go:409-428 | release is covered if and only if the signer is the contributor and a complete subject restates the entry's identifier, version, digest and type |
| StatusLaws.ArtifactVerifiedIff | validate/verify.go:344-389 | an artifact is verified if and only if the canonical text of its inline data, or what its https address answers, hashes to the entry's digest |
| StatusLaws.ArtifactUnverifiableIff | validate/verify.go:344-389 | it is unverifiable if and only if it is not inline and its address is not https or does not answer |
| StatusLaws.CatalogAuthorizedIff | validate/verify.go:140-144 | the catalog is authorized if and only if its signature is by an operator and is that root DID's own, of type ai-catalog+jws, over the document as served |
| StatusLaws.EndorsedIff | validate/verify.go:192-214 | an entry is endorsed if and only if the publisher its identifier names signed one of its manifests, which restates it, and the artifact is verified |
| StatusLaws.FailedIff | validate/verify.go:192-214 | an entry fails if and only if a manifest signed in its publisher's name fails or does not restate it, or it would be endorsed but for an artifact that fails |
| StatusLaws.ManifestReport | validate/verify.go:216-230 | what is reported of each manifest |
| VerifyLaws.EndorsementIsSound | validate/verify.go:192-280 | an endorsed entry has a decoded manifest by the publisher in its urn:air identifier that restates the entry, and a payload at its index that the publisher signed, in the manifest's window, with a key only the publisher's host gives; and the artifact hashes to the entry's digest |
| VerifyLaws.EndorsedStatement | validate/verify.go:119-280 | in a document whose last lists say all over again, the served manifest that was signed itself names the publisher as contributor and restates the entry; and so does every text with its signing payload, if and only if names that differ in case alone do not contradict each other in it |
| VerifyLaws.FoldedDocument | validate/verify.go:119-128 | both conditions hold of every document in which no object has two names that differ in case alone |
| Text.FoldIs | catalog/models.go:61-84 | member names meet field names in either case, with the long s and the Kelvin sign as cases of s and k |
| ReadingLaws.SliceIs | catalog/models.go:61-84 | an array is decoded over what stands in its places, what a shorter array left there included |
| ReadingLaws.ReadOverIff | catalog/models.go:61-84 | a manifest decoded over any prior one says what it says alone if and only if it gives anew every text the prior one has, or resets the object it stands in by null |
| DecodingLaws.StatementsAreServedIff | validate/verify.go:104-128 | for every document that decodes: every decoded manifest says what its raw value alone says if and only if in each place the last list gives anew all that earlier lists left there |
| MergeLaws.TwoListsIff | catalog/models.go:61-84 | for an entry with two lists, under one name or two: if and only if each manifest of the later list gives anew all that the one in its place says in the earlier |
| DecodingLaws.StatementsAreServed | validate/verify.go:104-128 | it holds where neither the entries nor an entry's trust manifests are listed twice, in whatever letter case |
| DecodingLaws.UniqueListsOnce | validate/verify.go:104-128 | a document in which no object has two names that differ in case alone lists nothing twice |
| MergeLaws.RepeatedListMerges | catalog/models.go:61-84 | it fails for every manifest without a version and every version: a document with an earlier list decodes the one with the other, while its raw value is unchanged |
| MergeLaws.MixedCaseMerges | catalog/models.go:61-84 | such a document need not repeat a name: trustManifests and TrustManifests do |
| BindingLaws.BoundIff | trust/canonical.go:50-90 | whatever has the signing payload of a manifest names the same contributor and subject if and only if the members of the manifest that meet one field do not contradict each other |
| BindingLaws.PayloadBindsStatement | trust/canonical.go:50-90 | two manifests with one signing payload, one of them unambiguous, name the same contributor and the same subject |
| BindingLaws.TwoSubjectsUnbound | trust/canonical.go:50-90 | a manifest with the members Subject and subject has a canonical form and binds neither of their versions |
| VerifyLaws.EndorsedManifestIsClean | validate/manifest.go:38-107 | with the same clock, the validator reports no error about that manifest's contributor, signature, subject or binding and no warning about its profile |
| TrustLaws.EntryFlags | validate/verify.go:203-213 | an entry is endorsed if and only if the publisher accepts it in some manifest and the artifact verifies; it fails if and only if a manifest of the publisher fails or the publisher accepts it and the artifact fails |
| TrustLaws.TrustedIff | validate/verify.go:146-155 | Trusted if and only if the document is valid and names a host, some entry is endorsed and none fails |
| StatusLaws.LevelIff | validate/verify.go:146-155 | the level is Trusted if and only if the catalog is valid and names a host, an entry is endorsed and none fails; else Discoverable or Minimal by validity and host |
| TrustLaws.OthersDoNotMatter | validate/verify.go:192-214 | two versions of an entry with the same manifests of its publisher, whatever others there are and in whatever order, have the same verdicts |
| TrustLaws.InsertingOthers | validate/verify.go:192-214 | inserting a manifest of another signer at any position, or removing it, changes neither verdict |
| TrustLaws.SignatureUnderLess | validate/verify.go:236-280 | when some addresses no longer answer, a signature's status stays or becomes unverifiable |
| TrustLaws.ArtifactUnderLess | validate/verify.go:344-389 | and so does an artifact's |
| TrustLaws.EntryUnderLess | validate/verify.go:192-214 | an unreachable address never creates a verified or failed verdict: endorsed and failed entries only become fewer |
| TrustLaws.FewerAnswers | validate/verify.go:119-158 | the same for a whole document: endorsed and failed entries shrink, and validation does not change |
| HiddenAnswers.HidingCreatesTrust | validate/verify.go:146-155 | the Trusted level is not monotone: for any two publishers, of which the first has published a key and signed with it and the second answers with no DID document, a document of two entries is decoded that is Trusted while the second address does not answer, and is not when it does |
| StabilityLaws.TrustIsStableIff | validate/verify.go:146-280 | a Trusted document stays Trusted under every fetcher that answers more if and only if no publisher signature in the profile is unverifiable and no https artifact that its publisher accepts is unverifiable, given a body that is no DID document and, for every digest, a content that misses it |
| Discovery.Discoverer.Try | discovery/discovery.go:209-240 | one request unless the same was made before; the memory grows by exactly the key, the request and, without a catalog, the attempt |
| Discovery.Discoverer.TryAll | discovery/discovery.go:178-188 | the loop over the candidates stops at the first catalog and skips what is not https |
| Discovery.LinkCandidates | discovery/discovery.go:315-345 | the resolved targets of the Link headers, then those of the HTML links against the page's base |
| DiscoveryLaws.BareDomainIsHTTPS | discovery/discovery.go:246-256 | a bare domain is read as its https URL, and white space around the input changes nothing |
| DiscoveryLaws.InputIff | discovery/discovery.go:246-274 | the search starts at the https URL that the trimmed input spells, if that has a host, with an empty path written out; anything else is invalid |
| DiscoveryLaws.CandidateIff | discovery/discovery.go:152-176 | what is tried: resolved targets of the Link headers and of the HTML page of a success, and the well-known URIs of the host asked and of another host or scheme that answered |
| Discovery.ListCandidates | discovery/discovery.go:158-176 | links of a successful response, then the well-known URI of the host reached, if another, and of the host asked |
| Discovery.Discover | discovery/discovery.go:139-191 | refuses invalid input, and otherwise is the run of the specification: what it finds or the attempts it lists, and everything it fetched |
| DiscoveryLaws.RunIsConsistent | discovery/discovery.go:209-240 | every run requests only https URLs, no two that agree in scheme, user, host, path and query, and remembers exactly the requests made |
| DiscoveryLaws.NothingFoundAccount | discovery/discovery.go:178-190 | when nothing is found, the attempts are the fetches and the candidates that are not https, and there are at most as many fetches as candidates and one more |
| DiscoveryLaws.NothingFoundLists | discovery/discovery.go:178-240 | and they are, in order, the failures of the URL itself and of the candidates: not https, or asked for the first time without a catalog, under the URL that answered |
| DiscoveryLaws.NothingLeftOut | discovery/discovery.go:178-190 | when nothing is found, every https candidate has been requested, up to its fragment |
| DiscoveryLaws.RunFindsWhatSearchFinds | discovery/discovery.go:139-345 | for a fetcher that depends on the URL without its fragment, the search with a memory finds the same catalog, URL and method as trying, without one, the URL itself, the Link headers, the HTML links, the well-known URI of another host that was reached and that of the host asked, in this order, and taking the first success with a catalog that names a specVersion |

## Left out

- Payload.CanonicalizeForSignature: JSON text is the tree it denotes, with characters that are Unicode scalar values; invalid UTF-8, lone surrogates and malformed JSON, which the SDK refuses first, do not arise.
- Json.CanonDecidesSame: numbers are opaque tokens taken to be in the one form JCS writes; number formatting is library code.
- LinkScanner.NewLink: trimming, lowercasing and splitting at blanks are the ASCII operations; Unicode spaces and letters keep their form.
- Identity.ChecksDecideValidPublisher: of the texts without a colon, the address parser accepts dotted quads only; it is modelled by that rule.
- Semver.PrecedenceOrder: version texts are parsed by a library; comparison starts from the parsed version.
- Jws.DecodeMembers: token errors and trailing content are the decoder's, which is a parameter; the members come from the tree it yields.
- Jws.Parse: the header bytes are decoded by a parameter; member order and repeated names are kept, as the streaming decoder sees them.
- Validation.Validator.ValidateEntry: spec-version and extension-key patterns are parameters; policy URLs are modelled by the types of their two members.
- Validation.Validate: messages are not modelled; diagnostics are codes and paths.
- Decoding.Serve: the decoder is modelled for entries, trust manifests, contributors, subjects and signatures; other members come from a parameter. Case folding is that of the characters that fold to ASCII letters, which is all that field names are made of.
- Verify.VerifyDocument: reasons of outcomes and cancellation are not modelled.
- Verify.VerifyEntry: inline data is the tree it denotes; hash functions and curve operations are arbitrary functions, and nothing is claimed about collisions or forgery.
- Gates.TwoGates: the verifier rejects crit only after these checks, in the ES256 verification; the validator has no rule about it.
- Latest.GetLatest: entries are returned as positions in place of pointers.
- Discovery.Discover: context cancellation is not modelled, and requests have no cost or time; URLs are values, and their parsing and resolution, media types and the HTML tokenizer are parameters.
- Loops that share a method in the source stand in a method of their own here (`CheckKeySources`, `RequireMembers`, `ValidateManifests`, `ValidateEntries`, `VerifyEntries`, `TryAll`, `ReadPoint`, `BestVersion`, `LatestUpdate`); their contracts compose to that of the whole.
- HTTP clients, redirects, timeouts, size limits, providers, packaging and files.
- Queries by tag and text, builders, and the encoding of catalogs.
- CanonicalizeTrustManifest on manifests built in code, which re-encodes structures.
