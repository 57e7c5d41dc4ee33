# A verified model of the identity provider's core algorithms and protocols

This project restates, in Dafny, the parts of the identity provider that carry an
algorithm or a protocol of their own, and proves what they are for. Code that steps
through mutable state is modelled by classes and methods with loops, each proved
against a specification function; the theorems are lemmas about those functions,
over all inputs, all runs or all interleavings.

`dafny verify dfyconfig.toml` checks everything.

## What is modelled

- **Directory client.** `LdapFilter`, `LdapFilterGrammar`, `LdapParser` and
  `LdapTemplate` hold the search-filter parser (section 3 of RFC 4515), the escaping
  of identifiers and the substitution into `user_filter`; `LdapFilterText` says in the
  characters themselves which texts are read as what. The parser accepts exactly
  the renderings of trees within its limits, and an identifier of any bytes lands in a
  template as data; `LdapWire` carries that on to the bytes that are sent. `Ber` and
  `LdapStream` hold the reassembly of messages (section
  5.1 of RFC 4511) from arbitrary reads.
- **Client policies.** `Glob` is the greedy matcher against a declarative wildcard
  relation, `ClientPolicy` the ordered evaluation and its all-or-nothing verdict, and
  `PolicyMeaning` what conditions, executors and priorities mean for that verdict.
- **Backchannel authentication.** `Ciba` is one state machine with decisions in five
  interleaved steps, the two halves of a consent grant apart, token polls, consent
  revocation and clean-up; `CibaSafety` proves what holds in every run,
  `CibaConsents` exactly when a scope is in the stored consent, `CibaStatus` what the
  status of a request is and who may write, `CibaLevels` what the levels of sessions and
  the pace of polls come to, and `CibaRuns` shows two runs in which interleaving goes
  wrong.
- **Mapped claims.** `ClaimTree` is reading and writing JSON at a path with its laws,
  `ProtocolMappers` the validation of mappers and the mapper loop, and `MappedValues`
  what the claims in a token say of roles and user data.
- **Lifecycles.** `MigrationOrder`, `MigrationVersions` and `Migrations` are the file
  versions and the migration runners under failures and concurrency, `TokenCache` the
  per-realm token services, `ApiKeys` and `ApiKeyRuns` key generation, rotation,
  revocation and verification, `Sessions` the session repository.
- **Text.** `Base64Url` and `Jwe` are the compact framing of RFC 7516, `HtmlEscape`
  the two HTML escapers, `PasswordPolicy` the password rules, `Organization` the
  organization scopes. `Text` and `Ordering` are shared helpers.

## Where the code falls short of its purpose

Each of these is a lemma, with the exact condition next to it.

- A literal byte is tried before a star, so a client identifier that contains `*` is
  missed by some pattern that means it (`Glob.StarInValueIsMissed`), and every pattern
  with a `*` misses some value that it means (`Glob.StarInPatternMisses`). The matcher
  is right for every pattern if and only if the value has no star, and for every value
  if and only if the pattern has none (`Glob.RightExactlyWithoutStars`,
  `Glob.RightExactlyForStarlessPatterns`).
- A claim name with a leading dot passes validation, and insertion drops the empty
  segment: `.sub` is stored as `sub` (`ProtocolMappers.LeadingDotReachesSub`; exactly
  when: `ProtocolMappers.ProtectedClaimsExactly`).
- A user named `{identifier}` is told that the template lacks the placeholder
  (`LdapTemplate.UnchangedTextMeansNoPlaceholder`, an equivalence).
- Granting consent reads and writes in two steps, so of two approvals that both
  succeed one can lose its scope from the stored consent
  (`CibaRuns.InterleavedGrantsLoseAScope`). When a scope of an approved request is
  missing: `CibaConsents.ApprovedScopeMissingExactly`; grants that do not overlap lose
  nothing: `CibaConsents.ApprovedScopesStayWithoutOverlap`.
- A revocation between the two steps is undone by the write
  (`CibaConsents.RevocationIsUndone`). A revocation stands, until a consent is read
  anew, if and only if no call of the user for the client is about to write scopes
  that it had read (`CibaConsents.RevocationStandsExactly`).
- Consent is written before the decision, so a request can end denied with the consent
  of the losing approval stored (`CibaRuns.DeniedRequestLeavesConsent`). A decision
  takes effect if and only if nobody has decided the request and it has not expired
  (`CibaConsents.DecisionTakesEffectExactly`, and over runs
  `CibaConsents.TooLateExactly`). A stored scope has no approved request behind it if
  and only if every call that wrote it for its own request did so in vain
  (`CibaConsents.StoredWithoutApprovalExactly`).
- One failed key lookup leaves the global service in the cache for a realm that has
  its own keys, and every later caller is given it
  (`TokenCache.OneFailureSpoilsTheKey`, for every continuation). An entry is wrong if
  and only if the realm has keys and the last caller to store it had its lookup fail
  (`TokenCache.WrongEntryExactly`).
- A message above 4 MiB by less than one chunk, and no other, is delivered or refused
  depending on how the transport cuts it (`LdapStream.BothOutcomes`,
  `LdapStream.CutMattersExactly`; per cut: `LdapStream.FrameDelivered`).
- Message numbers are distinct if and only if no more are drawn than the largest 32-bit
  value (`LdapStream.IdsDistinct`).
- A generated API key parses back to its parts if and only if the environment name has
  no dot (`ApiKeys.FreshKeyParsesExactly`).
- A session created for a token family after the family was revoked is live
  (`Sessions.LateMemberIsFound`; exactly when a created session is found:
  `Sessions.FoundExactly`), and lookup by refresh token ignores every expiry
  (`Sessions.FoundByRefreshExactly`).
- `is_strong_password` promises eight characters and counts bytes: six characters can
  be enough (`PasswordPolicy.SixCharactersAreStrong`). The length rules of a policy
  count characters, whatever their limits, if and only if the password is ASCII
  (`PasswordPolicy.LengthRulesCountCharactersExactly`).

The in-memory key lookup still finds a key at the instant of its expiry, the SQL query
no longer does; `ApiKeyRuns.FreshKeyVerifiesExactly` holds of both, with that one
difference in its condition.

## Model

| member | source | states |
|---|---|---|
| LdapFilterGrammar.ParsesExactlyTheGrammar | crates/oidc-oidc/src/direct_ldap.rs:986-1123 | the parser returns a tree if and only if the input is that tree's rendering, the tree is well formed (1 to 32 children, non-empty attributes, proper escapes) and nests at most 16 deep |
| LdapFilterGrammar.RenderInjective | crates/oidc-oidc/src/direct_ldap.rs:1008-1104 | within the limits no text is the rendering of two trees |
| LdapFilterGrammar.FilterIsRendered | crates/oidc-oidc/src/direct_ldap.rs:1008-1053 | what a successful `filter` consumed is the rendering of its result, and nesting never passes the limit |
| LdapFilterGrammar.FilterAccepted | crates/oidc-oidc/src/direct_ldap.rs:1008-1053 | every rendering within the limits is accepted whatever follows it, and exactly it is consumed |
| LdapFilterGrammar.AssertionAccepted | crates/oidc-oidc/src/direct_ldap.rs:1076-1098 | assertion text is read up to the closing parenthesis and no further |
| LdapFilter.UnitIsLocal | crates/oidc-oidc/src/direct_ldap.rs:1086-1097 | the plain byte or escape at the front is read the same whatever follows |
| LdapParser.FilterParser.Filter | crates/oidc-oidc/src/direct_ldap.rs:1008-1053 | the cursor-moving parser returns the meaning of the specified tree, stops where the specification stops, restores the depth, and fails with the specified error |
| LdapParser.FilterParser.Children | crates/oidc-oidc/src/direct_ldap.rs:1019-1032 | the loop over children collects exactly the specified ones in order, refuses an empty list and a 33rd child |
| LdapParser.FilterParser.Item | crates/oidc-oidc/src/direct_ldap.rs:1055-1104 | an item is a presence test or an equality with the bytes its assertion stands for |
| LdapParser.FilterParser.Attribute | crates/oidc-oidc/src/direct_ldap.rs:1055-1068 | the scan takes the longest run of attribute bytes |
| LdapParser.FilterParser.Assertion | crates/oidc-oidc/src/direct_ldap.rs:1076-1098 | the loop that pushes bytes yields exactly the unescaped assertion |
| LdapParser.FilterParser.AssertionByte | crates/oidc-oidc/src/direct_ldap.rs:1086-1097 | one turn consumes one byte or a whole escape, or reports a bad escape |
| LdapParser.FilterParser.Take | crates/oidc-oidc/src/direct_ldap.rs:1109-1113 | takes the next byte if there is one |
| LdapParser.FilterParser.Expect | crates/oidc-oidc/src/direct_ldap.rs:1114-1122 | succeeds exactly on the expected byte and then consumes just that |
| LdapParser.ParseFilterText | crates/oidc-oidc/src/direct_ldap.rs:986-999 | the whole text is one filter, or the specified error |
| LdapParser.BuildUserFilter | crates/oidc-oidc/src/direct_ldap.rs:555-568 | a missing placeholder or the parse of the substituted text, error or filter; for a template that parses and holds a placeholder every identifier but the literal placeholder is looked up as data; any filter that is sent is within the limits |
| LdapTemplate.EscapeFilterValue | crates/oidc-oidc/src/direct_ldap.rs:973-984 | the loop computes the byte-by-byte escape |
| LdapTemplate.EscapeRoundTrip | crates/oidc-oidc/src/direct_ldap.rs:973-984 | escaping any bytes gives assertion text that unescapes to them |
| LdapTemplate.ParserRange | crates/oidc-oidc/src/direct_ldap.rs:986-1123 | a filter is the result of some parse if and only if it is within the limits, and parsing undoes the canonical printer on it |
| LdapTemplate.ParsePrintParse | crates/oidc-oidc/src/direct_ldap.rs:986-1123 | parsing, printing and parsing again gives the first result |
| LdapTemplate.IdentifierIsData | crates/oidc-oidc/src/direct_ldap.rs:556-568 | a substituted template parses to the template's own tree with exactly the identifier's bytes at the placeholders and the same connectives, attributes and presence tests |
| LdapTemplate.FillWithPlaceholder | crates/oidc-oidc/src/direct_ldap.rs:557-557 | filling in the placeholder itself gives what the template says as it stands |
| LdapTemplate.TemplateSafeIffItParses | crates/oidc-oidc/src/direct_ldap.rs:556-568 | a template is accepted for every identifier if and only if it parses by itself |
| LdapTemplate.UnchangedTextMeansNoPlaceholder | crates/oidc-oidc/src/direct_ldap.rs:557-562 | an unchanged text means a missing placeholder, except when the identifier is the placeholder |
| LdapTemplate.SubstituteRendering | crates/oidc-oidc/src/direct_ldap.rs:557-557 | substitution in the text of a tree touches its assertions alone |
| LdapFilterText.PresenceAcceptedExactly | crates/oidc-oidc/src/direct_ldap.rs:1055-1075 | `(a=*)` is a presence test of `a` if and only if `a` is some letters of either case, digits, `-`, `.` and `;` |
| LdapFilterText.PlainValueIsRead | crates/oidc-oidc/src/direct_ldap.rs:1076-1098 | behind `=` every byte but `)`, `*` and the backslash stands for itself |
| LdapFilterText.EscapesAreRead | crates/oidc-oidc/src/direct_ldap.rs:1086-1097 | a value with every byte written as two hexadecimal digits, in either case, is read as those bytes |
| LdapFilterText.ConnectivesAreRead | crates/oidc-oidc/src/direct_ldap.rs:1016-1041 | behind `&` one to 32 filters are their conjunction and behind a bar their disjunction, in order |
| LdapFilterText.BranchesAreLimited | crates/oidc-oidc/src/direct_ldap.rs:1019-1026 | 33 filters or more behind either are refused for too many branches |
| LdapFilterText.NegationsAreRead | crates/oidc-oidc/src/direct_ldap.rs:1009-1014 | a presence test behind `k` negations is read as that for `k` up to 15, and is too deep beyond |
| LdapFilterText.CaseNeverMatters | crates/oidc-oidc/src/direct_ldap.rs:1008-1132 | two texts that differ in the case of letters alone are both accepted or refused with the same error |
| LdapFilterText.EscapeExactly | crates/oidc-oidc/src/direct_ldap.rs:973-984 | printable ASCII but for parentheses, stars and backslashes is kept, every other byte becomes a backslash and two lower-case digits |
| LdapFilterText.EscapedIsPrintable | crates/oidc-oidc/src/direct_ldap.rs:973-984 | escaped text is printable and has no parenthesis or star, whatever was escaped |
| LdapFilterText.PlaceholderIsFilled | crates/oidc-oidc/src/direct_ldap.rs:556-568 | the template `(a={identifier})` looks up exactly the identifier's bytes under `a` |
| LdapWire.TagComesBack | crates/oidc-oidc/src/direct_ldap.rs:1033-1048 | a filter is read back from the tag that the parser builds for it |
| LdapWire.BytesComeBack | crates/oidc-oidc/src/direct_ldap.rs:1008-1104 | the bytes of a filter decode to that filter, whatever follows |
| LdapWire.BytesDiffer | crates/oidc-oidc/src/direct_ldap.rs:1008-1104 | different filters are sent as different bytes |
| LdapWire.SmallFiltersEncode | crates/oidc-oidc/src/direct_ldap.rs:1008-1104 | every filter of less than 4 GiB can be sent |
| LdapWire.IdentifierIsDataOnTheWire | crates/oidc-oidc/src/direct_ldap.rs:556-568 | what is sent for any identifier reads as the template's own filter with exactly the identifier's bytes at the placeholders |
| Ber.FrameThenMore | crates/oidc-oidc/src/direct_ldap.rs:499-504 | bytes after a complete tag are handed back untouched and do not change the tag |
| Ber.FrameCutShort | crates/oidc-oidc/src/direct_ldap.rs:505-506 | a tag that has not wholly arrived reads as incomplete, never as malformed or as another tag |
| Ber.DecodeEncode | crates/oidc-oidc/src/direct_ldap.rs:939-955 | decoding undoes encoding for every tree of tags, whatever follows |
| Ber.EncodingIsFrame | crates/oidc-oidc/src/direct_ldap.rs:498-504 | every encoded tag is a frame that the reader delivers as that tag, so the stream theorems are about all of them |
| LdapStream.LdapConnection.ReadMessage | crates/oidc-oidc/src/direct_ldap.rs:497-523 | the loop returns what the receive specification says, leaves exactly its buffer, and never holds the message limit plus a chunk |
| LdapStream.LdapConnection.TimedRead | crates/oidc-oidc/src/direct_ldap.rs:761-784 | one read yields at most a chunk, a failure or a timeout |
| LdapStream.LdapConnection.MessageId | crates/oidc-oidc/src/direct_ldap.rs:270-274 | hands out the current number and saturates |
| LdapStream.FrameDelivered | crates/oidc-oidc/src/direct_ldap.rs:497-523 | a message at the front of the stream is delivered if and only if the buffer never pauses at or above the limit before it is complete; otherwise the limit is reported |
| LdapStream.OversizedAlwaysPauses | crates/oidc-oidc/src/direct_ldap.rs:508-512 | a message longer than the limit by a chunk is refused however it is cut |
| LdapStream.BothOutcomes | crates/oidc-oidc/src/direct_ldap.rs:497-523 | every message above the limit by less than a chunk has a cut that is refused and a cut that is delivered |
| LdapStream.CutMattersExactly | crates/oidc-oidc/src/direct_ldap.rs:497-523 | some cuts of a message are refused and others not if and only if it is above the limit by less than a chunk |
| LdapStream.StreamDelivered | crates/oidc-oidc/src/direct_ldap.rs:497-508 | for frames within the limit and every cut of their bytes, successive calls receive exactly their tags in order and leave exactly the bytes that follow |
| LdapStream.UnfinishedEnds | crates/oidc-oidc/src/direct_ldap.rs:505-520 | when reads stop inside a message, one without bytes means closed, a failed one a transport error and none at all a timeout, and what had come stays in the buffer |
| LdapStream.MessageComesBack | crates/oidc-oidc/src/direct_ldap.rs:790-805 | a message encoded as a sequence of number, operation and controls is read back as those |
| LdapStream.MessagesExactly | crates/oidc-oidc/src/direct_ldap.rs:790-805 | a tag is a message if and only if it is a universal sequence of a primitive number, an operation and controls; the number is its integer modulo 2^32 as a signed value |
| LdapStream.MessagesDelivered | crates/oidc-oidc/src/direct_ldap.rs:497-523 | for encoded messages within the limit and every cut of their bytes, successive calls return exactly those messages in order and leave exactly the bytes that follow |
| LdapStream.IdIs | crates/oidc-oidc/src/direct_ldap.rs:270-274 | the n-th message number is n until the largest 32-bit value |
| LdapStream.IdsDistinct | crates/oidc-oidc/src/direct_ldap.rs:270-274 | the first n message numbers are distinct if and only if n is at most that value |
| Glob.RunGlob | crates/oidc-core/src/models/client_policy.rs:379-402 | the two loops terminate and compute the matcher's verdict; a verdict of match is sound for all values and exact for values without a star |
| Glob.MatcherIsSound | crates/oidc-core/src/models/client_policy.rs:379-402 | a reported match is a match in the declarative relation |
| Glob.MatcherIsComplete | crates/oidc-core/src/models/client_policy.rs:379-402 | on a value without a star every match is found |
| Glob.StarInValueIsMissed | crates/oidc-core/src/models/client_policy.rs:383-394 | any value with a star has a pattern that means it and is refused |
| Glob.RightExactlyWithoutStars | crates/oidc-core/src/models/client_policy.rs:379-402 | the matcher agrees with the relation on every pattern if and only if the value has no star |
| Glob.StarInPatternMisses | crates/oidc-core/src/models/client_policy.rs:383-394 | every pattern with a star has a value that it means and that is refused |
| Glob.RightExactlyForStarlessPatterns | crates/oidc-core/src/models/client_policy.rs:379-402 | the matcher agrees with the relation on every value if and only if the pattern has no star |
| ClientPolicy.ViolationIsExact | crates/oidc-core/src/models/client_policy.rs:291-377 | an executor is silent if and only if the client meets its demand |
| ClientPolicy.EvaluateClientPolicies | crates/oidc-core/src/models/client_policy.rs:192-247 | the loop over the ordered policies computes the specified evaluation |
| ClientPolicy.CheckProfiles | crates/oidc-core/src/models/client_policy.rs:215-243 | the loop over a policy's profiles records missing ones, lists names once and runs the executors in order |
| ClientPolicy.CheckExecutors | crates/oidc-core/src/models/client_policy.rs:233-242 | the loop over executors reports each violation in order |
| ClientPolicy.FoundProfile | crates/oidc-core/src/models/client_policy.rs:216-219 | a profile reference is resolved within the client's realm, and fails only when nothing there has its id |
| ClientPolicy.AllowedExactly | crates/oidc-core/src/models/client_policy.rs:192-247 | allowed if and only if every applying policy has only profiles of the client's realm whose executors the client meets |
| ClientPolicy.DenialIsFinal | crates/oidc-core/src/models/client_policy.rs:192-247 | adding policies never turns denied into allowed |
| ClientPolicy.VerdictIgnoresOrder | crates/oidc-core/src/models/client_policy.rs:192-247 | the verdict does not depend on order or repetition of policies |
| ClientPolicy.MatchedPoliciesSorted | crates/oidc-core/src/models/client_policy.rs:198-214 | the matched policies reported are exactly those that apply, sorted by priority and then name |
| ClientPolicy.MatchedProfilesExact | crates/oidc-core/src/models/client_policy.rs:215-232 | the matched profiles are exactly the names of the profiles referred to, each once |
| ClientPolicy.ViolationsExact | crates/oidc-core/src/models/client_policy.rs:206-245 | a violation is reported if and only if it is that of an unresolved reference of an applying policy, or of an executor of a resolved one |
| ClientPolicy.ViolationsInOrder | crates/oidc-core/src/models/client_policy.rs:206-245 | the report is the list, in order and with repeats, of one entry for each unresolved reference and one for each executor not complied with, over the applying policies by priority and name |
| ClientPolicy.Enforce | crates/oidc-core/src/models/client_policy.rs:249-263 | succeeds if and only if the evaluation allows; an error is the first of the violations |
| PolicyMeaning.AllowedMeans | crates/oidc-core/src/models/client_policy.rs:192-289 | allowed if and only if every enabled policy all of whose conditions the client meets is satisfied, with the meaning of each kind of condition and executor written out over sets, names and the wildcard relation |
| PolicyMeaning.ModesAreSets | crates/oidc-core/src/models/client_policy.rs:284-289 | `All` asks that the expected values be a subset of the client's, `Any` that the two sets meet |
| PolicyMeaning.MoreExpected | crates/oidc-core/src/models/client_policy.rs:284-289 | nothing expected satisfies `All` and fails `Any`; one more expected value can only help `Any` and only hurt `All` |
| PolicyMeaning.ModeDecides | crates/oidc-core/src/models/client_policy.rs:192-289 | a policy on scopes of which a client has some but not all denies it under `Any` and passes it under `All` |
| PolicyMeaning.PatternCharacters | crates/oidc-core/src/models/client_policy.rs:379-402 | for identifiers without a star `x*` means a prefix and `x?` one more byte |
| PolicyMeaning.ComplaintNames | crates/oidc-core/src/models/client_policy.rs:291-377 | a violation names its executor and, of several values, the first at fault |
| PolicyMeaning.ReportedByPriority | crates/oidc-core/src/models/client_policy.rs:198-214 | matched policies are named by smaller priority number first, then by name, and are exactly the enabled ones whose conditions are met |
| Ordering.SortIsStable | crates/oidc-core/src/models/client_policy.rs:198-199 | policies with equal priority and name keep their order |
| CibaSafety.RunKeeps | crates/oidc-oidc/src/endpoints/ciba.rs:260-325 | every step of every interleaving keeps the invariant that ties statuses, calls and consents to the log |
| CibaSafety.OneDecision | crates/oidc-repository/src/repositories/ciba_repo.rs:105-116 | in every run two calls that both report success are about different requests |
| CibaSafety.ApprovalIsBacked | crates/oidc-oidc/src/endpoints/ciba.rs:273-325 | every approval came from a session that meets the requested levels, within the lifetime, after the same call wrote a consent of the request's user for the client covering the scopes |
| CibaSafety.TokensOnceAfterApproval | crates/oidc-oidc/src/flows/ciba.rs:29-71 | tokens are issued at most once per request, before expiry and only after approval |
| CibaLevels.LevelsExactly | crates/oidc-oidc/src/endpoints/ciba.rs:392-395 | a silver session meets demands for silver or bronze, a bronze one for bronze, any other its own alone, and an empty list is met by all |
| CibaLevels.ApprovalHasLevel | crates/oidc-oidc/src/endpoints/ciba.rs:282-296 | in every run an approval in the log came from a session of a level that the request names, or from a silver one where it names bronze; where it names silver alone, from a silver one |
| CibaLevels.StoppedOnlyBelowLevel | crates/oidc-oidc/src/endpoints/ciba.rs:282-296 | in every run no silver session is stopped at a request that names bronze, nor any session at one that names its level or none |
| CibaLevels.SilverAloneNeedsSilver | crates/oidc-oidc/src/endpoints/ciba.rs:282-296 | in every run no session but a silver one gets past the check to approve a request that names silver alone |
| CibaLevels.PollAfter | crates/oidc-oidc/src/flows/ciba.rs:49-65 | a poll within the interval lengthens it by five seconds up to sixty, a later one leaves it |
| CibaLevels.RushedPolls | crates/oidc-oidc/src/flows/ciba.rs:49-65 | after n polls in a rush the interval has grown by 5n seconds or stands at sixty |
| CibaLevels.PatientPolls | crates/oidc-oidc/src/flows/ciba.rs:49-65 | polls that keep to the interval leave it as it is, however many |
| CibaStatus.CreatedExactly | crates/oidc-oidc/src/endpoints/ciba.rs:166-227 | for which configurations and requested lifetimes a request is created, and how long it lives |
| CibaStatus.StatusExactly | crates/oidc-repository/src/repositories/ciba_repo.rs:105-148 | in every run the log determines the status of an unexpired request, and that it is still stored while pending or approved |
| CibaStatus.TokensAreIssuedExactly | crates/oidc-oidc/src/flows/ciba.rs:29-71 | after any run a token request issues tokens if and only if the request was approved, has not expired and has had none |
| CibaStatus.CheckedForReason | crates/oidc-oidc/src/endpoints/ciba.rs:273-296 | in every run a call that was refused as unknown, no longer pending or below its level was found so at its check, and any other was found in order |
| CibaStatus.TracesFollowChecks | crates/oidc-oidc/src/endpoints/ciba.rs:273-325 | in every run only calls whose request was pending, unexpired, their user's and within their level when checked have written or decided anything |
| CibaStatus.CleanupExactly | crates/oidc-repository/src/repositories/ciba_repo.rs:141-148 | after any run the clean-up removes exactly what has expired and those stale rows that are consumed, denied or marked expired |
| CibaSafety.StatusFollows | crates/oidc-repository/src/repositories/ciba_repo.rs:105-148 | a status moves only from pending to decided, from approved to consumed, or to expired |
| CibaSafety.WinnerStands | crates/oidc-oidc/src/endpoints/ciba.rs:308-325 | a decided request keeps the winner's side in every run |
| CibaSafety.ConsentsAreLastWrites | crates/oidc-repository/src/repositories/user_consent_repo.rs:40-85 | the stored consents are what the last logged write for each user and client left |
| CibaConsents.ScopeStoredExactly | crates/oidc-repository/src/repositories/user_consent_repo.rs:40-85 | in every run a scope is stored if and only if, going back from the last write or revocation from each write to what its call had read, one comes to a request for it |
| CibaConsents.ApprovedScopeMissingExactly | crates/oidc-repository/src/repositories/user_consent_repo.rs:40-71 | a scope of an approved request is missing from the stored consent if and only if the last entry for the user and client, at or after the approval's write, is a revocation, or a write by a call that did not ask for the scope and read when the scope did not trace to a request |
| CibaConsents.ApprovedScopesStayWithoutOverlap | crates/oidc-repository/src/repositories/user_consent_repo.rs:40-71 | if nothing after an approval's write is a revocation or a write that read before it, all scopes of the approved request are stored |
| CibaConsents.DecisionTakesEffectExactly | crates/oidc-repository/src/repositories/ciba_repo.rs:105-116 | in every run a due decision takes effect if and only if nobody has decided the request and it has not expired |
| CibaConsents.TooLateExactly | crates/oidc-oidc/src/endpoints/ciba.rs:309-325 | in every run a call that tried to decide was too late if and only if another call's decision is in the log or none is, and none is only after expiry |
| CibaConsents.StoredWithoutApprovalExactly | crates/oidc-oidc/src/endpoints/ciba.rs:298-325 | a stored scope has no approved request behind it if and only if every call that wrote it for its own request did so in vain: the request denied, expired undecided, or still to be decided |
| CibaConsents.StoredScopeHasApprovingCall | crates/oidc-oidc/src/endpoints/ciba.rs:298-325 | behind every stored scope stands an approving call of that user for a request of that client that asks for it; once it has tried to decide, its approval took effect if and only if no other call decided the request and the request is not left undecided |
| CibaRuns.InterleavedGrantsLoseAScope | crates/oidc-repository/src/repositories/user_consent_repo.rs:40-71 | a run in which two approvals succeed and the stored consent lacks the scope of one |
| CibaRuns.DeniedRequestLeavesConsent | crates/oidc-oidc/src/endpoints/ciba.rs:298-325 | a run in which a request ends denied and the consent written by the losing approval is stored |
| CibaConsents.GrantWritesWhatItRead | crates/oidc-repository/src/repositories/user_consent_repo.rs:40-71 | whatever happens between the read and the write of a grant, the write leaves what was read plus the request's scopes |
| CibaConsents.DroppedScopeWasWrittenBetween | crates/oidc-repository/src/repositories/user_consent_repo.rs:40-71 | a scope that such a write drops was written in between by another call |
| CibaConsents.RevocationIsUndone | crates/oidc-repository/src/repositories/user_consent_repo.rs:73-85 | a revocation between the read and the write empties the consent, and the write brings everything back |
| CibaConsents.RevocationStandsExactly | crates/oidc-repository/src/repositories/user_consent_repo.rs:40-85 | in every run a revoked consent stays empty, whatever happens until a consent is read anew, if and only if no call of the user for the client was about to write scopes that it had read |
| ClaimTree.PutAt | crates/oidc-oidc/src/protocol_mappers.rs:149-165 | the walk that makes objects on the way and inserts at the last segment is the recursive write |
| ClaimTree.ClaimMap.InsertClaim | crates/oidc-oidc/src/protocol_mappers.rs:149-165 | the map becomes the one with the value at the path of the dotted name; a name without segments changes nothing |
| ClaimTree.GetPut | crates/oidc-oidc/src/protocol_mappers.rs:118-165 | reading back what was written |
| ClaimTree.PutGet | crates/oidc-oidc/src/protocol_mappers.rs:118-165 | writing what is there changes nothing |
| ClaimTree.PutPut | crates/oidc-oidc/src/protocol_mappers.rs:149-165 | the last write at a path wins |
| ClaimTree.DivergeOrPrefix | crates/oidc-oidc/src/protocol_mappers.rs:149-165 | two paths diverge if and only if neither is a prefix of the other, so the next three cover all pairs |
| ClaimTree.PutElsewhere | crates/oidc-oidc/src/protocol_mappers.rs:118-165 | a write does not change what is read at a diverging path, even when it replaces a scalar on the way |
| ClaimTree.PutAbove | crates/oidc-oidc/src/protocol_mappers.rs:118-165 | below a written path one reads parts of the written value and nothing older |
| ClaimTree.PutBelow | crates/oidc-oidc/src/protocol_mappers.rs:118-165 | above a written path there is an object with what it held and the write |
| ClaimTree.PutsCommute | crates/oidc-oidc/src/protocol_mappers.rs:149-165 | writes at diverging paths commute |
| ProtocolMappers.ResolveMappedClaims | crates/oidc-oidc/src/protocol_mappers.rs:22-116 | the loop builds the specified claims of each target, and audiences exactly from the audience mappers with a non-empty string, in ascending order without repeats |
| ProtocolMappers.TopLevelExact | crates/oidc-oidc/src/protocol_mappers.rs:48-112 | the top-level claims are exactly the first segments of the mappers that write to the target |
| ProtocolMappers.LastWriterIsRead | crates/oidc-oidc/src/protocol_mappers.rs:48-112 | a mapper's value is found at its path when later writers diverge from it |
| MappedValues.ClaimIsFound | crates/oidc-oidc/src/protocol_mappers.rs:68-112 | what a mapper's kind, source and multivalued flag yield is found under its name in each target that its flags feed, unless a later claim there disturbs it |
| MappedValues.NothingClaimed | crates/oidc-oidc/src/protocol_mappers.rs:65-112 | a mapper that yields nothing, or does not feed a target, leaves no trace there |
| MappedValues.RealmRolesFound | crates/oidc-oidc/src/protocol_mappers.rs:79-84 | the array under a realm-roles mapper lists in order exactly the names of the user's roles without a client |
| MappedValues.ClientRolesFound | crates/oidc-oidc/src/protocol_mappers.rs:85-97 | the array under a client-roles mapper lists in order exactly the names of the user's roles of its source's client |
| MappedValues.RolesArePartitioned | crates/oidc-oidc/src/protocol_mappers.rs:79-97 | the realm's list and those of all clients together hold every role's name once for each role |
| MappedValues.PropertyFound | crates/oidc-oidc/src/protocol_mappers.rs:69-70 | a property mapper shows the user's property that its source names |
| MappedValues.AttributeFound | crates/oidc-oidc/src/protocol_mappers.rs:71-77 | an attribute mapper shows what the user's attributes hold at its source |
| MappedValues.DottedParts | crates/oidc-oidc/src/protocol_mappers.rs:118-122 | a dotted name of proper segments is the path of those segments |
| MappedValues.NoUserNoData | crates/oidc-oidc/src/protocol_mappers.rs:31-42 | without a user no property or attribute is claimed and role lists are empty |
| ProtocolMappers.ValidExactly | crates/oidc-core/src/models/protocol_mapper.rs:65-176 | a mapper is valid if and only if it has a name, a claim that is not protected, and the source or value that its kind calls for |
| ProtocolMappers.PropertiesExactly | crates/oidc-core/src/models/protocol_mapper.rs:139-166 | what can be read of a user is the identifier, the login and the protected claims about a person but for address and full name |
| ProtocolMappers.RegisteredClaims | crates/oidc-core/src/models/protocol_mapper.rs:79-133 | of the seven registered claims of RFC 7519 all but `nbf` are protected |
| ProtocolMappers.ProtectedRootExactly | crates/oidc-core/src/models/protocol_mapper.rs:79-133 | of the names that pass the check, exactly those with a protected segment behind leading dots are stored under a protected claim |
| ProtocolMappers.ProtectedClaimsExactly | crates/oidc-core/src/models/protocol_mapper.rs:65-176 | validated mappers write a protected claim if and only if one of them hides it behind a leading dot |
| ProtocolMappers.NoLeadingDotNoProtectedClaim | crates/oidc-core/src/models/protocol_mapper.rs:79-133 | without leading dots no protected claim is written, for any user, roles and mappers |
| ProtocolMappers.LeadingDotReachesSub | crates/oidc-oidc/src/protocol_mappers.rs:149-153 | `.sub` passes validation and is stored as `sub`, whatever the value, the user and the roles |
| MigrationOrder.GroupByVersion | crates/oidc-migrate/src/main.rs:38-42 | the loop files every name under its version in order, or stops at a name without one |
| MigrationOrder.EnsureUniqueMigrationVersions | crates/oidc-migrate/src/main.rs:35-57 | succeeds if and only if all names have versions and none is shared; the duplicates reported are exactly the shared versions |
| MigrationVersions.NamedVersion | crates/oidc-migrate/src/main.rs:28-33 | `V`, perhaps a plus sign and zeros, a number in decimal, an underscore and anything: the version is the number up to 4294967295, and there is none above |
| MigrationVersions.VersionExactly | crates/oidc-migrate/src/main.rs:28-33 | a name has a version if and only if it spells that number so |
| MigrationVersions.UniqueExactly | crates/oidc-migrate/src/main.rs:35-57 | files count as duplicates if and only if they spell the same number |
| MigrationVersions.SmallerComesFirst | crates/oidc-migrate/src/main.rs:111-114 | in the plan of any listing the file with the smaller number comes first |
| MigrationVersions.SameNumberByName | crates/oidc-migrate/src/main.rs:111-114 | files with the same number come by name |
| MigrationVersions.TwoBeforeTen | crates/oidc-migrate/src/main.rs:109-114 | `V2_` comes before `V10_`, although its text does not |
| MigrationOrder.PlanIncreases | crates/oidc-migrate/src/main.rs:111-114 | with unique versions the order of application is strictly increasing and complete |
| MigrationOrder.PlanIsCanonical | crates/oidc-migrate/src/main.rs:111-114 | the order does not depend on the order of the directory listing |
| Migrations.RunKeeps | crates/oidc-migrate/src/main.rs:75-158 | every step of every run keeps rows, effects, lock and runners in agreement |
| Migrations.AppliedInOrderOnce | crates/oidc-migrate/src/main.rs:116-155 | in every run of concurrent, failing, crashing and restarting runners the applied scripts are a prefix of the version order, each applied at most once |
| Migrations.AmbiguousFilesChangeNothing | crates/oidc-migrate/src/main.rs:103-107 | with an unversioned or duplicated file nothing is applied and no runner completes |
| Migrations.CompletedMeansAll | crates/oidc-migrate/src/main.rs:116-158 | a completed run has applied every file, and no later run applies anything |
| Migrations.OneRunnerAtATime | crates/oidc-migrate/src/main.rs:13-26 | at most one runner is between taking and releasing the lock |
| Migrations.NeverStuck | crates/oidc-migrate/src/main.rs:75-158 | from every state of every run, with unique versions, there is a way on by which a new runner applies all that is missing |
| Migrations.OnlyWholeTransactions | crates/oidc-migrate/src/main.rs:134-155 | rows are added in a run only by committing a transaction in which the next file ran and was recorded |
| Migrations.WaitingEnds | crates/oidc-migrate/src/main.rs:13-26 | a waiting runner gets a free lock, or fails with the database as it was |
| Migrations.CrashFrees | crates/oidc-migrate/src/main.rs:75-158 | a runner that stops anywhere frees the lock it held and leaves what is committed |
| Migrations.Database.Migrate | crates/oidc-migrate/src/main.rs:99-158 | one runner leaves the rows of the specification, whichever of script, record or commit fails for a file, and keeps effects equal to rows |
| Migrations.Database.ApplyFile | crates/oidc-migrate/src/main.rs:134-155 | one transaction adds the file's record and effects, or neither |
| Migrations.ApplyFromExact | crates/oidc-migrate/src/main.rs:116-155 | whatever was recorded before, a runner adds only unrecorded files of its plan, each once, completes if and only if the database accepts those, and then has nothing left to do |
| Migrations.UndisturbedRunner | crates/oidc-migrate/src/main.rs:75-158 | for all outcomes a runner has a run of its own events alone that leaves exactly the rows of that loop, releases the lock, and ends in completion if and only if the loop completes |
| Migrations.OwnRunIsTheLoop | crates/oidc-migrate/src/main.rs:75-158 | every run of one runner's own events that ends, done or failed, leaves the rows of that loop for some outcomes, which complete the loop if the runner is done |
| TokenCache.CacheIsTransparent | crates/oidc-oidc/src/state.rs:132-186 | in every interleaving without failed lookups each loaded, each cached and each returned service is the one built from the realm's row and the issuer |
| TokenCache.ServedByRealm | crates/oidc-oidc/src/state.rs:150-173 | in such interleavings a realm with usable keys is served with its own material, one without keys with the global service, each under the issuer asked for, and one with unusable keys not at all |
| TokenCache.WrongEntryExactly | crates/oidc-oidc/src/state.rs:174-185 | a cache entry is wrong if and only if the realm has keys of its own and the last caller to store under that realm and issuer had its lookup fail |
| TokenCache.SettledStays | crates/oidc-oidc/src/state.rs:139-147 | an entry that no caller is about to overwrite stays through any further events, and every caller that arrives for it later is given it |
| TokenCache.OneFailureSpoilsTheKey | crates/oidc-oidc/src/state.rs:174-185 | after one failed lookup, in every continuation, every later caller for that realm and issuer is given the global service |
| TokenCache.RealmTokenServices.ForRealmWithIssuer | crates/oidc-oidc/src/state.rs:132-186 | a hit returns the entry, a miss the loaded service and stores it, an error stores nothing |
| TokenCache.IssuerNamesRealmExactly | crates/oidc-oidc/src/state.rs:243-268 | an issuer resolves to a realm if and only if it is, up to trailing slashes, the issuer of a stored realm with that identifier |
| TokenCache.IssuerRejectedExactly | crates/oidc-oidc/src/state.rs:257-266 | an issuer is turned away if and only if it begins like a realm issuer and is that of no stored realm |
| TokenCache.NoDatabase | crates/oidc-oidc/src/state.rs:243-268 | without an answer from the database exactly the issuers that could be a realm's are an error of the database, all others fare as with one |
| TokenCache.TrimmedExactly | crates/oidc-oidc/src/state.rs:248-251 | all slashes at the end of an issuer are cut off, and nothing else |
| ApiKeys.ParsesExactly | crates/oidc-apikey/src/service.rs:147-157 | a key text parses to some parts if and only if it is their printed form, without a dot in environment or prefix, and the prefix has eight bytes |
| ApiKeys.FreshKeyParsesExactly | crates/oidc-apikey/src/service.rs:36-44 | a generated key parses back to its parts if and only if the environment name has no dot |
| ApiKeys.ApiKeyService.FindByPrefix | crates/oidc-core/src/traits/mocks.rs:422-433 | finds some active key with the prefix, and none only if there is none |
| ApiKeys.ApiKeyService.VerifyKey | crates/oidc-apikey/src/service.rs:75-103 | the outcome is one that the stored keys allow, with the checks in their order |
| ApiKeys.ApiKeyService.GenerateKey | crates/oidc-apikey/src/service.rs:28-69 | adds exactly the new key, or nothing when hashing fails, and returns it with its raw text |
| ApiKeys.ApiKeyService.RotateKey | crates/oidc-apikey/src/service.rs:111-136 | marks the old key and adds one with its details; an unknown key changes nothing, and a failure to make the new key leaves the old one marked |
| ApiKeys.ApiKeyService.RevokeKey | crates/oidc-core/src/traits/mocks.rs:465-474 | revokes that key and nothing else |
| ApiKeys.ApiKeyService.IncrementUsage | crates/oidc-core/src/traits/mocks.rs:477-487 | counts the use of that key and nothing else |
| ApiKeyRuns.KeyAfterRun | crates/oidc-core/src/traits/mocks.rs:455-499 | after any run a key has its identity, hash and expiry, is revoked if and only if it was or the run revoked it, and carries the run's last rotation |
| ApiKeyRuns.VerifiedIsAlive | crates/oidc-apikey/src/service.rs:75-103 | whatever verifies is stored, not revoked, not expired, within its grace period, and its hash accepts the text |
| ApiKeyRuns.RevokedNeverVerifies | crates/oidc-apikey/src/service.rs:106-108 | a revoked key never verifies again, in any run |
| ApiKeyRuns.RotatedStopsAfterGrace | crates/oidc-apikey/src/service.rs:89-96 | a rotated key never verifies later than 24 hours after its last rotation |
| ApiKeyRuns.FreshKeyVerifiesExactly | crates/oidc-apikey/src/service.rs:28-103 | after any run the text of a generated key verifies, as that key, if and only if the key was not revoked, has not expired and is within the grace of its last rotation |
| ApiKeyRuns.FreshKeyLasts | crates/oidc-apikey/src/service.rs:46-103 | in numbers: a key made for n days verifies until n times 86400 seconds after it was made, and a rotation ends it 86400 seconds later |
| ApiKeyRuns.FreshKeyRefusedExactly | crates/oidc-apikey/src/service.rs:75-103 | why the text of a generated key is refused: unknown, expired or rotated out, each exactly when |
| ApiKeyRuns.StoredKeyRefused | crates/oidc-apikey/src/service.rs:75-103 | with which error a text with the prefix of a stored key is refused |
| ApiKeyRuns.FreshKeyRecord | crates/oidc-apikey/src/service.rs:46-69 | a generated key starts unused and keeps its details and the time at which it was made |
| ApiKeyRuns.UsesAreCounted | crates/oidc-core/src/traits/mocks.rs:477-487 | over a run the counter grows by the number of uses, and the last of them leaves its time |
| Sessions.InMemorySessionRepo.FindByAccessTokenHash | crates/oidc-core/src/traits/mocks.rs:286-300 | finds some live session with the hash, and none only if there is none |
| Sessions.InMemorySessionRepo.FindByRefreshTokenHash | crates/oidc-core/src/traits/mocks.rs:303-317 | finds some unrevoked session with the hash, and none only if there is none |
| Sessions.InMemorySessionRepo.CreateSession | crates/oidc-core/src/traits/mocks.rs:320-327 | stores the session under its id and changes no other |
| Sessions.InMemorySessionRepo.RevokeSession | crates/oidc-core/src/traits/mocks.rs:330-339 | revokes that session and changes no other |
| Sessions.InMemorySessionRepo.RevokeTokenFamily | crates/oidc-core/src/traits/mocks.rs:366-378 | the loop marks exactly the members of the family |
| Sessions.InMemorySessionRepo.RevokeUserSessions | crates/oidc-core/src/traits/mocks.rs:381-392 | the loop revokes exactly the user's sessions |
| Sessions.SessionAfterRun | crates/oidc-core/src/traits/mocks.rs:320-392 | after any run with fresh ids a session has its identity and is revoked, or revoked with its family, if and only if it was or some operation reached it |
| Sessions.MarksAfterRun | crates/oidc-core/src/traits/mocks.rs:341-363 | after any run the two marks bear the times of the last rotation and of the last reuse |
| Sessions.InvariantKeptExactly | crates/oidc-core/src/traits/mocks.rs:320-392 | a step keeps "revoked with the family implies revoked" if and only if it does not create a session that breaks it |
| Sessions.RunKeepsInvariant | crates/oidc-core/src/traits/mocks.rs:320-392 | so does every run whose created sessions satisfy it |
| Sessions.RevokedStaysHidden | crates/oidc-core/src/traits/mocks.rs:286-392 | a revoked session is never found again by either token |
| Sessions.UnrevokedExactly | crates/oidc-core/src/traits/mocks.rs:320-392 | in runs whose ids may repeat, a session is unrevoked in the end if and only if it stayed so without being replaced, or a created one took its place and stayed so |
| Sessions.BackToLifeExactly | crates/oidc-core/src/traits/mocks.rs:320-327 | a revoked session comes back in a run if and only if an unrevoked one is created under its id, not replaced later and not reached by a later operation |
| Sessions.SessionsAreIndependent | crates/oidc-core/src/traits/mocks.rs:320-392 | what becomes of a session in a run does not depend on the state of any other |
| Sessions.FamilyRevocationExactly | crates/oidc-core/src/traits/mocks.rs:366-378 | family revocation hides its current members in every later run, and leaves every other session as it would have been without |
| Sessions.FoundExactly | crates/oidc-core/src/traits/mocks.rs:286-300 | a created session is found by its access token, after any run, if and only if it has not expired and no later operation reached it |
| Sessions.FoundByRefreshExactly | crates/oidc-core/src/traits/mocks.rs:303-317 | the same by its refresh token, with no expiry |
| Sessions.LateMemberIsFound | crates/oidc-core/src/traits/mocks.rs:366-378 | a member created after the family's revocation is found |
| Base64Url.DecodeEncode | crates/oidc-core/src/utils/jwe.rs:48-62 | decoding undoes encoding, and no encoding has a dot |
| Base64Url.DecodesExactly | crates/oidc-core/src/utils/jwe.rs:84-132 | a text decodes to some bytes if and only if it is their encoding |
| Base64Url.EncodedLength | crates/oidc-apikey/src/service.rs:36-41 | the length of an encoding without padding |
| Jwe.SplitFrame | crates/oidc-core/src/utils/jwe.rs:69-83 | splitting at the dots gives the five parts back, empty ones included |
| Jwe.DecryptDirExact | crates/oidc-core/src/utils/jwe.rs:69-152 | the direct decrypter yields a payload if and only if the text frames a proper header, an empty key part and content that opens to it |
| Jwe.DecryptRsaExact | crates/oidc-core/src/utils/jwe.rs:206-288 | the RSA decrypter likewise, with a key part that unwraps to a key that opens the content |
| Jwe.DecryptUndoesEncrypt | crates/oidc-core/src/utils/jwe.rs:295-382 | decryption gives back what encryption took, for every payload under both algorithms |
| Jwe.EncryptsExactly | crates/oidc-core/src/utils/jwe.rs:344-382 | which settings encrypt, leave alone or refuse |
| HtmlEscape.PassesAreOneMap | crates/oidc-core/src/models/realm_presentation.rs:378-385 | the five passes equal one map of characters, for both spellings of the apostrophe |
| HtmlEscape.EscapedIsSafeAndFaithful | crates/oidc-core/src/models/realm_presentation.rs:378-385 | the result has no raw `<`, `>`, `"` or `'`, and decoding its entities gives the input |
| HtmlEscape.EscapeInjective | crates/oidc-core/src/utils/html.rs:4-10 | different texts stay different |
| PasswordPolicy.CharacterClasses | crates/oidc-core/src/models/password_policy.rs:135-153 | a flag is set if and only if some character is of its class |
| PasswordPolicy.LongestRun | crates/oidc-core/src/models/password_policy.rs:180-198 | the one-pass counter reaches n if and only if some n adjacent characters are equal |
| PasswordPolicy.IsDisallowed | crates/oidc-core/src/models/password_policy.rs:201-209 | reports exactly the passwords that equal a listed one in lower case |
| PasswordPolicy.ValidatePassword | crates/oidc-core/src/models/password_policy.rs:125-216 | the rules reported are the broken ones in order |
| PasswordPolicy.ReportedExactly | crates/oidc-core/src/models/password_policy.rs:125-216 | each of the nine rules is reported if and only if its declarative form is broken |
| PasswordPolicy.DefaultIsStrongUpTo128Bytes | crates/oidc-core/src/utils/validation.rs:58-75 | the default policy accepts exactly the strong passwords of at most 128 bytes |
| PasswordPolicy.SixCharactersAreStrong | crates/oidc-core/src/utils/validation.rs:52-60 | six characters, three of them of two bytes, pass the check that promises eight characters |
| PasswordPolicy.CharactersSuffice | crates/oidc-core/src/utils/validation.rs:52-75 | counting bytes accepts all that counting characters accepts, and the same in ASCII |
| PasswordPolicy.LengthRulesCountCharactersExactly | crates/oidc-core/src/models/password_policy.rs:129-134 | both length rules count characters, for every limit, if and only if the password is ASCII |
| Text.BytesAndCharacters | crates/oidc-core/src/models/password_policy.rs:129-134 | a text has at least as many bytes as characters, and exactly as many if and only if it is ASCII |
| Text.Utf8HasByteLength | crates/oidc-core/src/models/password_policy.rs:129-134 | the length in bytes is that of the text in UTF-8 |
| Text.Utf8IsRead | crates/oidc-core/src/models/password_policy.rs:129-134 | the bytes taken for a character say how many they are and which character they stand for |
| PasswordPolicy.IsStrongPassword | crates/oidc-core/src/utils/validation.rs:58-75 | strong means eight bytes with an upper-case letter, a lower-case letter and a digit |
| Organization.Resolve | crates/oidc-oidc/src/organization_claims.rs:30-107 | for each answer, claim or error, the requests and memberships that get it, each condition stated by itself |
| Organization.OutcomeIsDetermined | crates/oidc-oidc/src/organization_claims.rs:30-107 | those conditions exclude each other and fix the answer |
| Organization.BuildClaim | crates/oidc-oidc/src/organization_claims.rs:71-91 | the loop describes exactly the selected organizations, the last of two with one alias |
| Organization.ClaimExactly | crates/oidc-oidc/src/organization_claims.rs:30-107 | which requests get a claim, and that its keys are the named aliases or all of the user's |
| Organization.BareScopeYieldsAtMostOne | crates/oidc-oidc/src/organization_claims.rs:64-69 | the bare scope yields at most one organization |
| Organization.MixedFormatsFail | crates/oidc-oidc/src/organization_claims.rs:53-60 | any two scopes of different formats in a request make it fail, whatever else it holds and whatever the user belongs to |
| Organization.ClaimStaysWithinAllowed | crates/oidc-oidc/src/organization_claims.rs:12-16 | a client allowed only named aliases never gets a claim about another |
| Organization.DisclosedExactly | crates/oidc-oidc/src/organization_claims.rs:18-28 | of an organization a claim shows its identifier, name and the user's membership, and of its attributes exactly those that it lists for disclosure |
| Organization.ScopeAllowedExactly | crates/oidc-oidc/src/organization_claims.rs:12-16 | a scope may be asked for if and only if it is listed, or names an organization and the bare scope is listed |

## Left out

- Ber.DecodeEncode: the BER library is not part of this repository; definite lengths and tag numbers below 31 are modelled, other forms read as malformed, and content cut short inside a complete tag reads as malformed too.
- LdapStream.LdapConnection.ReadMessage: the transport is a given sequence of reads; timeouts, TLS and the socket are not modelled.
- LdapStream.MessagesExactly: the library's reading of an integer is taken to be big-endian in 64 bits.
- LdapWire.SmallFiltersEncode: the encoder is the model's own, as the library's is not part of this repository.
- Searches, paging, bind and the mapping of directory entries to users, which wrap the reader and the parser.
- Glob.RunGlob: the pattern and the value are byte strings, as the source's `as_bytes` makes them.
- ClientPolicy.ViolationIsExact: URL parsing is given; whether a URI parses, its scheme and its host are inputs. `EvaluateClientPolicies` calls the sort as a function, stable like the library's. Storing and naming of policies is left out.
- CibaSafety.ApprovalIsBacked: level and user of the session are read once, at the start of a call; the audit record and the ping are left out. Scopes are sets, so their stored order is not modelled.
- CibaConsents.ScopeStoredExactly: the log of writes and the position at which each call read are the model's own record; the source keeps neither.
- CibaSafety.TokensOnceAfterApproval: the checks between the status check and issuing are one choice that the run makes; building the tokens is left out. The age condition of the clean-up for decided rows is any subset of them.
- ClaimTree.PutAt: the source follows one mutable reference down the tree; the model keeps the maps above it and closes them again, so aliasing is not modelled.
- ProtocolMappers.ResolveMappedClaims: a user's properties are a given map by name, and the effective roles a given list. Which mappers are active is left out.
- Migrations.Database.Migrate: the scripts are opaque, and what the database makes of a file's transaction is a function of its name; reading of directory and files and the creation of the tracking table are left out. Transactions and the session-held lock are taken as the database promises them.
- TokenCache.CacheIsTransparent: key rows stay fixed during a run, as nothing in the source evicts an entry; decryption and parsing of keys is one usable-or-not flag, and a poisoned mutex is left out.
- ApiKeys.ApiKeyService.GenerateKey: the clock is read once per generation, and ids, random bytes and salts are inputs; hashing is any function that accepts what it hashed. Listing by realm is left out.
- ApiKeyRuns.FreshKeyVerifiesExactly: ids and prefixes drawn in a run are taken to be new, which the source leaves to chance.
- Sessions.InMemorySessionRepo.CreateSession: fields the repository neither reads nor writes are left out, as is the lock around the map; one operation is one step.
- Jwe.DecryptUndoesEncrypt: AES-GCM, RSA-OAEP and the JSON of headers are functions with the stated laws; that the laws hold, and that wrong keys are refused, is not modelled.
- PasswordPolicy.ValidatePassword: Unicode lower-casing is an input; password history is checked elsewhere.
- Organization.Resolve: memberships and organizations are given, so failing lookups are left out; the text that lists missing aliases is their set.
- Message templates, locale choice and placeholder checks of realm presentation; the workflow engine, the token endpoint and refresh rotation; HTTP handlers, SQL, TLS, e-mail and DNS; randomness quality and timing of comparisons.
