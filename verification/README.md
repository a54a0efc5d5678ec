# Ardur agent: verified model of its governance core

This project models, in Dafny, the parts of the Ardur agent runtime whose correctness the
rest of the system leans on, and proves what they promise for every input or every run.

* **Capability tokens.** A token is a list of blocks of checks. The verifier prints the
  appended blocks back as text, parses that text with a small hand-written grammar and
  projects the effective claims. The central result is that these claims describe exactly
  the authority which the checks enforce (`CapTokenExact`), that the parser accepts exactly
  one grammar per statement (`CapTokenGrammar`), that revocation is permanent
  (`CapVerifier`, `DenyList`), and when a refusal names its cause (`CapAttribution`).
* **Receipts.** Canonical JSON (RFC 8785) is a complete invariant of the data (`Json`,
  `Unicode`, `Jcs`, `JcsCanonical`). Execution receipts bind the call through that form
  (`ExecutionReceipt`) and form hash chains that their last element fixes (`HashChain`,
  `ReceiptChain`, `ReceiptLog`). Cost roll-ups over the log conserve spend (`Costs`) and list
  days by date (`DayLabels`).
* **State that survives.** Journal replay with rollbacks refines a snapshot machine
  (`JournalReplay`), an approval lets one call through (`Approvals`),
  schedules fire at most once per minute and the file store refines a map (`Scheduler`),
  and restoring a backup loses no state at any crash point (`Restore`).
* **Wire formats.** ACP frames round-trip (`AcpWire`) and the server-sent event stream does
  not depend on how the network cuts it (`Sse`).

Code that updates state in place is modelled by classes and loops whose contracts equate the
new state with a specification function; the theorems are about those functions. Code
outside the repository (Biscuit's printer of dates and sets, SHA-256, base64url, ES256,
serde, cron matching, the calendar) is a function-valued parameter. Chain theorems do not
assume that a hash is injective: they conclude equality *or* an explicit pair of different
texts of the given chains with the same hash.

`dafny verify dfyconfig.toml` checks the whole project.

## Where the code differs from what a reader might expect

Each of these has a concrete witness and an exact condition in the model.

* A declared cost beyond `i64::MAX` is clamped before the budget check, so a request whose
  cost exceeds a ceiling of at least `i64::MAX` still passes (`SaturatedCostPasses`).
  `ExactUnlessSaturated` shows that this is the only case in which the claims, read with the
  cost as declared, differ from the checks.
* An attenuated token is documented as strictly narrower. A rule no tighter than the token,
  with a date that prints, is accepted and has no effect (`WiderRuleChangesNothing`); with a
  date that does not print it makes the token unusable (`UndatableRuleRefused`).
  `StrictlyNarrowerIff` gives the exact condition over the verifier's verdict.
* A checkpoint that reuses an id revives entries that an earlier rollback excluded
  (`ReusedIdRevives`; exact condition in `RevivedIff`). Ids are random UUIDs in the program.
* A rollback to a checkpoint that an earlier rollback excluded does not bring back the
  history at that checkpoint (`DeadCheckpointIsNotRestored`; exact condition in
  `RollbackRestoresIff`).
* A revocation appended to a deny list whose last line is unfinished is merged into that line
  (`TornLineLosesRevocation`; exact condition in `RevocationSeenIff`). So a revocation that
  fails half way and is tried again can be lost (`RetryLosesRevocation`; exact condition in
  `RetrySeenIff`).
* The refusal is attributed by looking for the name of a predicate anywhere in the printed
  checks. An audience or tool whose name contains `time(` or `audience(` is reported as another
  cause (`AudienceReportedAsExpiry`; exact condition in `AttributedRightIff`).
* A receipt lifetime that runs past the end of `u64` wraps in a release build, and the receipt
  expires before it was issued (`EndlessLifetimeExpired`; exact condition in `ProjectTotal`).
* When a chunk of the event stream completes a frame that does not parse, the good frames of
  that chunk are not shown, so what a failed read shows depends on the cutting
  (`OneChunkLosesText`; exact condition in `TranscriptsAgreeIff`).
* A JSON-RPC response whose result is `null` encodes but is rejected when decoded, and `null`
  parameters are dropped (`NullResultRejected`, `NullParamsDropped`; exact condition in
  `RoundTripIffNoNull`).
* The daily roll-up is documented as most recent day first, and it is sorted by label. A year of
  more than four digits prints with a plus sign and sorts below every ordinary one
  (`YearTenThousandListedLast`, `YearHundredThousandListedBelow`; exact order of every two labels
  in `LabelOrderIff`).

## Model

| member | source | states |
|---|---|---|
| `CapTokenProjection.BlockStatements` | crates/cap-token/src/verify.rs:187-201 | the loop over the printed block yields exactly the `check if ..;` bodies, and fails on the first line that is anything else |
| `CapTokenProjection.ParseStringSet` | crates/cap-token/src/verify.rs:294-313 | the loop over a set literal computes the recursive reading of it |
| `CapTokenProjection.NarrowByBlock` | crates/cap-token/src/verify.rs:145-165 | one block narrows the claims by each of its statements in order, or fails as a whole |
| `CapTokenProjection.EffectiveClaimsFromBlocks` | crates/cap-token/src/verify.rs:135-168 | the loop over appended blocks is the fold `Project` over all of them |
| `CapTokenGrammar.BoundExact` | crates/cap-token/src/verify.rs:263-280 | `name($v), $v <= operand` is read iff the text is exactly that, blanks aside, with the same variable twice |
| `CapTokenGrammar.BudgetExact` | crates/cap-token/src/verify.rs:240-244 | a budget is accepted with ceiling `n` iff the statement is one cost bound whose literal is the `i64` `n >= 0` |
| `Text.ParseI64Exact` | crates/cap-token/src/verify.rs:240-244 | a literal is read as the number `n` iff `n` fits `i64` and the text is an optional sign, any zeros and the decimal of `n` |
| `CapTokenGrammar.ExpiryExact` | crates/cap-token/src/verify.rs:233-237 | an expiry is accepted iff the statement is one time bound whose date the date parser reads |
| `CapTokenGrammar.StringSetExact` | crates/cap-token/src/verify.rs:294-313 | a set literal is accepted with set `S` iff its inside is a list of quoted names, separated by commas, that lists exactly `S` |
| `CapTokenGrammar.ToolsExact` | crates/cap-token/src/verify.rs:247-251 | a tool statement is accepted with set `S` iff it is one membership check of a literal denoting `S` |
| `CapTokenGrammar.AudienceExact` | crates/cap-token/src/verify.rs:254-258 | an audience statement is accepted iff it is one quoted name without a quote in it |
| `CapTokenGrammar.ClassifyExact` | crates/cap-token/src/verify.rs:205-226 | a statement is classified as a narrowing iff it is `check if` and the text of that narrowing; at most one reader accepts, so their order does not matter |
| `CapTokenGrammar.SourceExact` | crates/cap-token/src/verify.rs:119-226 | a block source narrows the claims to `c` iff, blank lines aside, every line is `check if`, one of the four grammars and `;`, and `c` is what these leave; any other text is rejected |
| `CapTokenExact.ClassifyInvertsPrint` | crates/cap-token/src/verify.rs:205-226 | classifying the printed form of a check gives back its meaning; no statement is read as another kind |
| `CapTokenExact.StatementsOfPrinted` | crates/cap-token/src/verify.rs:187-201 | splitting a printed one-check block returns that one check |
| `CapTokenExact.ProjectRules` | crates/cap-token/src/verify.rs:135-168 | projecting the blocks of a list of attenuations equals narrowing by the list, and succeeds iff each attenuated expiry is a representable date |
| `CapTokenExact.NarrowRulesMeaning` | crates/cap-token/src/verify.rs:145-165 | the narrowed bounds are met iff the original and every attenuated bound is met |
| `CapTokenExact.AuthorizedMeaning` | crates/cap-token/src/attenuate.rs:28-52 | the checks of all blocks pass iff the issued scope and every attenuation admit the request |
| `CapTokenExact.IssuedBlockMeaning` | crates/cap-token/src/issue.rs:60-71 | the authority block's four checks pass iff the request fits the issued scope |
| `CapTokenExact.ClaimsAreExact` | crates/cap-token/src/verify.rs:119-168 | for every scope, attenuation list and request: projection succeeds iff the dates are representable, and then all checks pass iff the request fits the projected claims and the audience pins |
| `CapTokenExact.ExactUnlessSaturated` | crates/cap-token/src/verify.rs:67-68 | read with the declared cost, the claims are exact iff the request is not a saturated one, said in terms of scope, rules and request |
| `CapTokenExact.SaturatedCostPasses` | crates/cap-token/src/verify.rs:67-68 | a concrete request that passes the checks and exceeds the budget claim |
| `CapTokenExact.ChecksNarrowIff` | crates/cap-token/src/attenuate.rs:28-52 | the checks of a child never pass where its parent's fail, and fail where they pass iff the pins agree and the rule takes something away |
| `CapTokenExact.NarrowRulesTools` | crates/cap-token/src/verify.rs:145-165 | the projected tool list is the issued list, in its order, restricted to the tools every attenuation permits |
| `CapToken.AttenuateAllBlocks` | crates/cap-token/src/attenuate.rs:28-52 | attenuation keeps the context and every earlier block and appends one block per rule |
| `CapVerifier.Verify` | crates/cap-token/src/verify.rs:47-116 | signature, revocation, checks, context, projection, with the refusal of the first that fails; the list is read afresh from the file |
| `CapVerifier.RefusalOrder` | crates/cap-token/src/verify.rs:47-116 | each refusal with the exact condition for it: a bad signature, then garbled bytes, then a revoked block, then a failed check, then a missing context |
| `CapAttribution.AttributedRightIff` | crates/cap-token/src/error.rs:74-111 | the refusal reported for failed checks is the most fundamental kind among them iff no name in them contains the text of a more fundamental predicate; some cause is always reported |
| `CapAttribution.RefusalsAttributed` | crates/cap-token/src/error.rs:74-111 | the same for every attenuated token and every request its checks refuse |
| `CapAttribution.AudienceReportedAsExpiry` | crates/cap-token/src/error.rs:98-103 | a concrete audience mismatch that is reported as expiry |
| `CapVerifier.AcceptsExactly` | crates/cap-token/src/verify.rs:47-116 | a token is accepted iff no block is revoked, its dates are representable and the request fits the claims returned, which carry the id, the holder and the audience it was issued with |
| `CapVerifier.StrictlyNarrowerIff` | crates/cap-token/src/attenuate.rs:13-52 | verification never accepts for a child what it refuses for the parent, and refuses for the child something it accepts for the parent iff the parent is usable and the rule takes something away, or the child's own block is revoked or its date does not print |
| `CapVerifier.WiderRuleChangesNothing` | crates/cap-token/src/attenuate.rs:13-52 | a concrete rule that is accepted and leaves every verdict and every returned claim as it was |
| `CapVerifier.UndatableRuleRefused` | crates/cap-token/src/verify.rs:233-237 | the same rule with a date that does not print is refused for every request |
| `CapVerifier.MoreRulesShrink` | crates/cap-token/src/attenuate.rs:28-52 | what is accepted under more attenuations is accepted under fewer, unless that token is revoked, and the claims returned are no later, no larger and hold no other tool, whatever the ids of the blocks |
| `CapVerifier.RuleOrderIrrelevant` | crates/cap-token/src/attenuate.rs:28-52 | revocation aside, acceptance and the returned claims depend only on which attenuations were applied, not on order or repetition, whatever the ids of the blocks |
| `CapVerifier.RevokedForGood` | crates/cap-token/src/denylist.rs:99-158 | after a token is revoked in a file of complete lines, readable or not, every token sharing a block is refused as revoked at every later verification |
| `DenyList.FileDenyList.Revoke` | crates/cap-token/src/denylist.rs:99-108 | appends one hex line to the shared file and the id to the cache; a failing append leaves a part of the line and the cache as it was |
| `DenyList.FileDenyList.RevokeToken` | crates/cap-token/src/denylist.rs:115-120 | appends the lines of all block ids in order and caches them, and stops at the first append that fails |
| `DenyList.FileDenyList.IsRevoked` | crates/cap-token/src/denylist.rs:149-158 | answers from the file, not the cache; an unreadable file revokes every non-empty id list |
| `DenyList.FileDenyList.Reload` | crates/cap-token/src/denylist.rs:122-145 | the line loop loads the ids of the file, or fails on one malformed line |
| `DenyList.HexRoundTrip` | crates/cap-token/src/denylist.rs:99-108 | decoding undoes hex encoding |
| `DenyList.RevokeAddsOne` | crates/cap-token/src/denylist.rs:99-145 | on complete lines, a revocation adds exactly its id to what is loaded (nothing for the empty id) |
| `DenyList.RevocationsAccumulate` | crates/cap-token/src/denylist.rs:99-145 | after any sequence of revocations a load yields the earlier ids and all revoked ones |
| `DenyList.UnreadableStays` | crates/cap-token/src/denylist.rs:128-145 | a file with a malformed line stays unreadable under every append, so it goes on revoking everything |
| `DenyList.SharedBlockStaysRevoked` | crates/cap-token/src/denylist.rs:115-158 | a lookup of any token sharing a revoked block answers revoked, whatever is appended meanwhile |
| `DenyList.TornLineLosesRevocation` | crates/cap-token/src/denylist.rs:99-108 | a concrete unfinished line that swallows the next revocation |
| `DenyList.RevocationSeenIff` | crates/cap-token/src/denylist.rs:99-145 | on every readable file a revocation takes effect iff the last line is finished or ends in a blank, or the id was already there |
| `DenyList.RevokedUnderAnyAppend` | crates/cap-token/src/denylist.rs:122-158 | what a complete line revokes stays revoked whatever is appended later, whole or torn |
| `DenyList.AppendSeenIff` | crates/cap-token/src/denylist.rs:99-145 | after the digits that failed appends left behind, an append takes effect iff they are none or odd in number, or the file was unreadable or held the id |
| `DenyList.RetrySeenIff` | crates/cap-token/src/denylist.rs:99-108 | when an append fails after some characters and the next one of the same id succeeds, the id is revoked iff the first left nothing, an odd number of digits or its whole line, or the file was unreadable or held the id |
| `DenyList.RetryLosesRevocation` | crates/cap-token/src/denylist.rs:99-108 | a concrete retry after which the id is not revoked |
| `DenyList.AppendedTwice` | crates/cap-token/src/denylist.rs:99-108 | two appends in a row that succeed revoke whatever stood there before |
| `Json.ReadStringEscape` | crates/ardur-governance/src/jcs.rs:69-87 | reading an escaped string returns the string and what follows it |
| `Json.EscapeIsShortest` | crates/ardur-governance/src/jcs.rs:68-87 | escaping is minimal: no text that reads as the string is shorter than its escaped form |
| `Json.EscapeCharExact` | crates/ardur-governance/src/jcs.rs:68-87 | which characters are escaped, which of them by two characters, and that the others take lower-case hexadecimal |
| `Json.ReadPrint` | crates/ardur-governance/src/jcs.rs:32-66 | reading a printed value in any context returns the value and the rest |
| `Json.ParsePrint` | crates/ardur-governance/src/jcs.rs:32-66 | parsing a printed value returns it |
| `Unicode.Utf16TotalOrder` | crates/ardur-governance/src/jcs.rs:90-92 | comparing keys is a total order on strings, equal only for equal strings, and says less iff at the first unit in which the UTF-16 forms differ the first has the smaller one, or its form is a proper prefix |
| `Unicode.CompareExact` | crates/ardur-governance/src/jcs.rs:90-92 | comparing two lists of units says less, greater or equal iff the first precedes, follows or is the second in lexicographic order |
| `Unicode.Utf16Decodes` | crates/ardur-governance/src/jcs.rs:90-92 | decoding the UTF-16 units of a string, surrogate pairs and all, returns the string |
| `Unicode.Utf16OrderDiffers` | crates/ardur-governance/src/jcs.rs:90-92 | two characters that the order of UTF-16 units and the order of code points put in opposite order |
| `Unicode.Utf8Injective` | crates/ardur-governance/src/jcs.rs:26-30 | different strings have different UTF-8 bytes |
| `Unicode.Utf8Decodes` | crates/ardur-governance/src/jcs.rs:26-30 | decoding the UTF-8 bytes of a string returns the string |
| `Unicode.Utf8OrderIsCodePointOrder` | crates/admin-ui/src/costs.rs:127-138 | comparing strings by their UTF-8 bytes, as Rust does, is comparing them by code points |
| `Jcs.SortAscending` | crates/ardur-governance/src/jcs.rs:49-63 | sorted members with distinct keys are strictly ascending: of every two, the earlier key precedes the later one in UTF-16 units |
| `Jcs.SortElements` | crates/ardur-governance/src/jcs.rs:49-63 | sorting keeps exactly the members |
| `Jcs.AscendingUnique` | crates/ardur-governance/src/jcs.rs:49-63 | an ascending list of members is determined by its set of members |
| `Jcs.WriteString` | crates/ardur-governance/src/jcs.rs:69-87 | the character loop appends the quoted, escaped string |
| `Jcs.WriteValue` | crates/ardur-governance/src/jcs.rs:32-66 | the recursive writer appends the canonical text of the value |
| `Jcs.WriteArray` | crates/ardur-governance/src/jcs.rs:39-48 | the item loop appends the canonical text of the array |
| `Jcs.WriteObject` | crates/ardur-governance/src/jcs.rs:49-63 | sorting and the member loop append the canonical text of the object |
| `Jcs.ToCanonicalBytes` | crates/ardur-governance/src/jcs.rs:26-30 | the bytes are the UTF-8 of the canonical text, which decodes to it (`Utf8Decodes`) |
| `JcsCanonical.NormalizeOrdered` | crates/ardur-governance/src/jcs.rs:49-63 | in the normal form of every object, at every depth, each key precedes the later ones in the lexicographic order of UTF-16 units |
| `JcsCanonical.CanonicalReadsBack` | crates/ardur-governance/src/jcs.rs:26-66 | parsing the canonical text returns the same data with ordered keys |
| `JcsCanonical.CanonicalBytesIffSameContent` | crates/ardur-governance/src/jcs.rs:26-66 | two values have the same canonical bytes iff they are the same data up to member order |
| `ExecutionReceipt.SignedVerifies` | crates/ardur-governance/src/sign.rs:121-220 | a signed receipt verifies to the claim set that was signed |
| `ExecutionReceipt.VerifiesExactly` | crates/ardur-governance/src/sign.rs:162-220 | a text verifies to a receipt iff it is three parts joined by dots whose header, payload and signature are those of that receipt |
| `ExecutionReceipt.ProjectTotal` | crates/ardur-governance/src/project.rs:121-262 | projection fails iff its input is malformed; the verdict invariant never rejects, the verdict is compliant iff the call was allowed, and the receipt expires after it was issued, by the lifetime asked for, iff that does not run past the end of `u64` |
| `ExecutionReceipt.ReceiptSays` | crates/ardur-governance/src/project.rs:172-232 | the outcome can be read back from the verdict and the denial fields, decision and reason are worded by it, and every other field is that of the claims, the call or the step it was projected from |
| `ExecutionReceipt.RefusedIff` | crates/ardur-governance/src/project.rs:121-131 | a step is refused iff an id, the nonce, the step id or the target breaks its length limit or alphabet, or the time has no date |
| `ExecutionReceipt.ArgumentsHashBinds` | crates/ardur-governance/src/project.rs:133-134 | receipts with equal argument hashes were projected from the same argument data, or the hash collides on the two canonical texts |
| `ExecutionReceipt.ReceiptIdBinds` | crates/ardur-governance/src/project.rs:160-166 | receipts with equal ids stem from the same trace, nonce, step, grant and invocation digest, or the shortened hash collides on the two seeds |
| `ExecutionReceipt.JtiBinds` | crates/ardur-governance/src/project.rs:167-170 | equal token ids come from the same receipt id and issue time, or the shortened hash collides |
| `ExecutionReceipt.EndlessLifetimeExpired` | crates/ardur-governance/src/project.rs:155 | a lifetime of `u64::MAX` wraps to an expiry before the issue time |
| `ExecutionReceipt.NamesDistinct` | crates/ardur-governance/src/project.rs:133-151 | the names of action and side-effect classes in the envelope tell the classes apart |
| `ExecutionReceipt.NamesExact` | crates/ardur-governance/src/er.rs:13-45 | each action and side-effect class is written under its own snake-case name, and the name reads back as that class only |
| `ExecutionReceipt.EnvelopeDetermines` | crates/ardur-governance/src/project.rs:133-151 | envelopes with the same content come from the same call, grant and argument data |
| `ExecutionReceipt.DigestBindsCall` | crates/ardur-governance/src/project.rs:133-151 | receipts with equal invocation digests were projected from the same call, grant and argument data, or the digest collides on the two envelopes |
| `HashChain.TailFixesChain` | crates/ardur-governance/src/sign.rs:227-262 | linked chains with the same last text are equal, or two of their texts collide |
| `HashChain.NoRepeats` | crates/ardur-governance/src/sign.rs:227-262 | no text occurs twice in a linked chain, or two of its texts collide |
| `HashChain.SkippedLink` | crates/admin-ui/src/trust.rs:89-110 | a later text put in an earlier place breaks the link, or two texts collide |
| `ReceiptChain.VerifyErChain` | crates/ardur-governance/src/sign.rs:227-262 | the loop accepts iff every receipt verifies and links to its predecessor; otherwise it names the first that does not |
| `ReceiptChain.AcceptedIsLinked` | crates/ardur-governance/src/sign.rs:227-262 | an accepted chain is hash-linked |
| `ReceiptChain.AcceptedNamesParents` | crates/ardur-governance/src/sign.rs:227-262 | in an accepted chain every receipt names its predecessor by the first 16 characters of its hash, and the first names none |
| `ReceiptChain.ChainFixedByTail` | crates/ardur-governance/src/sign.rs:227-262 | accepted chains ending in the same JWS hold the same receipts throughout |
| `ReceiptChain.ChainHasNoRepeats` | crates/ardur-governance/src/sign.rs:227-262 | no receipt occurs twice in an accepted chain |
| `ReceiptChain.ProjectedLinks` | crates/ardur-governance/src/project.rs:153-170 | a projected receipt carries its parent's hash and the id cut from that hash |
| `ReceiptChain.GrownChainsAccepted` | crates/ardur-governance/src/project.rs:121-238 | every chain grown by projecting onto the last receipt and signing is accepted, also where steps are rejected in between |
| `ReceiptLog.LoadChain` | crates/admin-ui/src/receipts.rs:111-129 | the line loop loads the non-blank lines that decode, in order; a missing file is empty, any other read error is passed on |
| `ReceiptLog.VerifyReceipts` | crates/admin-ui/src/trust.rs:89-110 | valid iff every parent hash is that of the predecessor; otherwise the error index is the first broken link |
| `ReceiptLog.Survivors` | crates/admin-ui/src/receipts.rs:111-129 | a damaged log loads as the lines before the first loss followed by what survives after it |
| `ReceiptLog.LossDetected` | crates/admin-ui/src/trust.rs:89-110 | when lines of a valid log become unreadable, verification fails exactly at the first loss, unless nothing after it survives or two lines collide |
| `Costs.AggregateReceipts` | crates/admin-ui/src/costs.rs:81-149 | one loop with saturating adds yields the saturated exact sums of the four windows and the two sorted roll-ups |
| `Costs.BucketsExact` | crates/admin-ui/src/costs.rs:110-116 | each bucket holds the saturated spend and the number of receipts of its key |
| `Costs.BucketTotals` | crates/admin-ui/src/costs.rs:110-116 | the bucket sums saturate to the total and the counts add up to the number of receipts |
| `Costs.RollUpsConserve` | crates/admin-ui/src/costs.rs:118-148 | both reported lists are permutations of the exact buckets, in order, with distinct keys, and conserve spend and count |
| `Costs.CostlierExact` | crates/admin-ui/src/costs.rs:127-138 | providers are listed by more spend first and then by name in code-point order, days by the greater label first |
| `Costs.WithinExact` | crates/admin-ui/src/costs.rs:100-108 | a receipt is in a window of some days iff it was issued no more than that many times 86,400,000 milliseconds ago or in the future |
| `Costs.SameLabelSameDay` | crates/admin-ui/src/costs.rs:72-76 | instants with the same day label are less than a day apart, also where the label is the fallback and where the cast wraps |
| `Costs.WindowsNest` | crates/admin-ui/src/costs.rs:89-108 | today's spend is within seven days', that within thirty days', that within the total |
| `DayLabels.CalendarNamesDays` | crates/admin-ui/src/costs.rs:72-76 | printing chronological dates as `%Y-%m-%d` names days apart, which is what the window theorems ask of the calendar |
| `DayLabels.FourDigitOrder` | crates/admin-ui/src/costs.rs:133-138 | with four-digit years, labels are ordered as their dates |
| `DayLabels.LabelOrderIff` | crates/admin-ui/src/costs.rs:133-138 | for every two instants, which day label sorts first: by kind of label, then by date or day number, years compared digit by digit from the left |
| `DayLabels.LabelsFollowTimeIff` | crates/admin-ui/src/costs.rs:133-138 | for every two instants of different days, the later one is listed first iff that order holds of them, as it always does for four-digit years |
| `DayLabels.YearHundredThousandListedBelow` | crates/admin-ui/src/costs.rs:133-138 | a receipt of the year 100000 is listed below one of the year before |
| `DayLabels.YearTenThousandListedLast` | crates/admin-ui/src/costs.rs:133-138 | a receipt of the year 10000 is listed below one of 1970 |
| `DayLabels.DaysDescend` | crates/admin-ui/src/costs.rs:133-138 | for receipts of four-digit years, every day listed before another is the later day |
| `JournalReplay.MarkBetween` | crates/cli/src/lib.rs:390-392 | marks exactly the slots after the checkpoint up to the rollback |
| `JournalReplay.JournalEntriesToHistory` | crates/cli/src/lib.rs:374-417 | the three loops return the messages of the entries that no rollback excludes, in order, each with the role and the content of its entry |
| `JournalReplay.HistoryTranscribes` | crates/cli/src/lib.rs:397-417 | for every log the history is in one-to-one, order-keeping correspondence with the live message entries: the same number, each under its own role and with its own content |
| `JournalReplay.ExcludedExactly` | crates/cli/src/lib.rs:374-395 | for every log: what is excluded after one more entry |
| `JournalReplay.ExcludedAppend` | crates/cli/src/lib.rs:374-395 | an entry with a fresh checkpoint id adds exactly its own exclusions |
| `JournalReplay.NeverRevived` | crates/cli/src/lib.rs:366-395 | an excluded entry stays excluded however the log goes on, if checkpoint ids are distinct |
| `JournalReplay.ReusedIdRevives` | crates/cli/src/lib.rs:375-380 | a concrete log in which a reused checkpoint id revives an entry |
| `JournalReplay.RevivedIff` | crates/cli/src/lib.rs:374-395 | an entry revives iff the next entry is a checkpoint whose id is the target of every rollback that excludes it |
| `JournalReplay.ReplayIsSnapshotRestore` | crates/cli/src/lib.rs:362-417 | with distinct ids and rollbacks to live checkpoints, replay returns what a machine that saves and restores histories holds |
| `JournalReplay.DeadCheckpointIsNotRestored` | crates/cli/src/lib.rs:382-395 | a concrete log in which a rollback to an excluded checkpoint does not restore it |
| `JournalReplay.RollbackRestoresIff` | crates/cli/src/lib.rs:382-395 | a rollback restores the history at its checkpoint iff no message live there has been excluded since |
| `JournalReplay.LiveCheckpointLosesNothing` | crates/cli/src/lib.rs:382-395 | that condition holds whenever the checkpoint itself is live |
| `JournalReplay.ReplayIsTruncation` | crates/cli/src/lib.rs:366-395 | for every log with distinct ids, the live entries are those of a machine that truncates at each rollback |
| `Approvals.ApprovalStore.FindMatching` | crates/approvals/src/lib.rs:243-256 | finds a card of the key that is not consumed iff there is one |
| `Approvals.ApprovalStore.ProposeCard` | crates/approvals/src/lib.rs:283-308 | stores a pending card under the minted id, or refuses a malformed id |
| `Approvals.ApprovalStore.DecideCard` | crates/approvals/src/lib.rs:319-341 | settles a pending card once; a settled, missing or malformed one is an error and changes nothing |
| `Approvals.DecidedExact` | crates/approvals/src/lib.rs:319-341 | deciding stamps the time and the verdict, and on denial the reason, and changes nothing else of the card |
| `Approvals.ApprovalStore.ConsumeCard` | crates/approvals/src/lib.rs:265-275 | uses an approved card; a consumed one is returned again, a pending or denied one is an error, and neither changes |
| `Approvals.CardsEvolve` | crates/approvals/src/lib.rs:189-341 | over every run a card keeps its identity, its status only moves forward and its decision is stamped exactly once |
| `Approvals.ApprovalsConserved` | crates/approvals/src/lib.rs:258-341 | over every run of store operations the cards granted for a key are as many as its successful approvals, so consumed cards never outnumber approvals |
| `Approvals.ApprovalStore.RequireApproval` | crates/fused-runtime/src/runtime.rs:1400-1470 | the gate uses up an approved card and lets the call through, refuses on a denied or pending one, and proposes a card when none matches |
| `Approvals.OneApprovalOneCall` | crates/fused-runtime/src/runtime.rs:1400-1470 | over every run of decisions and gated calls, the calls of a key let through are as many as its used cards and at most as many as its approvals, and at most one card per key is open |
| `Approvals.ProposalStored` | crates/fused-runtime/src/runtime.rs:1430-1470 | a call that finds no card stores a pending one with its capability, reason and time, which the next call of the key finds, and leaves all others as they were |
| `Approvals.AskedAgain` | crates/fused-runtime/src/runtime.rs:1400-1470 | where each key has at most one open card, a call let through leaves none that a lookup would find, so the next call of the key asks again |
| `Approvals.OneOpenCardPerKey` | crates/fused-runtime/src/runtime.rs:1400-1460 | if proposals follow a failed lookup, each key has at most one card that is not consumed |
| `Scheduler.FileScheduleStore.UpsertSchedule` | crates/automation/src/proactive.rs:354-364 | replaces in place or appends a valid schedule, refuses an invalid one |
| `Scheduler.FileScheduleStore.RemoveSchedule` | crates/automation/src/proactive.rs:366-375 | the retain loop removes the schedule, or reports that it is missing |
| `Scheduler.FileScheduleStore.RecordSuccessfulFire` | crates/automation/src/proactive.rs:377-392 | stamps and counts one fire of a stored schedule and returns it updated |
| `Scheduler.Search` | crates/automation/src/proactive.rs:358-384 | the search loop finds the first schedule with the id, or the end |
| `Scheduler.FileRefinesMap` | crates/automation/src/proactive.rs:347-445 | each file-store operation is the in-memory store's operation, with the same error, and keeps ids unique |
| `Scheduler.FileRunRefinesMapRun` | crates/automation/src/proactive.rs:347-445 | over every run of operations the two stores hold the same schedules and give the same answers |
| `Scheduler.AutomationLoop.FireOne` | crates/automation/src/proactive.rs:583-635 | one fire delivers and then records, or stops at the step that fails; it is reported delivered only if recorded |
| `Scheduler.AutomationLoop.FireAllDue` | crates/automation/src/proactive.rs:553-566 | a tick fires the due schedules of the list loaded at its start (due as `DueIff` says), in order, with one report each; a failing load changes nothing |
| `Scheduler.NotYetThisMinute` | crates/automation/src/proactive.rs:201-208 | a due schedule was not recorded earlier in this minute |
| `Scheduler.DueIff` | crates/automation/src/proactive.rs:201-208 | a schedule is due iff it is enabled, its expression matches and it never fired or last fired in another year, month, day, hour or minute |
| `Scheduler.RefusedIff` | crates/automation/src/proactive.rs:638-661 | a schedule is invalid iff its name or prompt is blank, it has no attenuation or every part of its budget is zero |
| `Scheduler.RunsKeep` | crates/automation/src/proactive.rs:553-635 | over every serial run on a clock that does not go back, with any failures: recorded fires were enabled, valid and due, at most one per schedule and minute, counters and stamps agree with them, and each was delivered |
| `Scheduler.TickRecordsExactly` | crates/automation/src/proactive.rs:553-635 | a tick records exactly one fire of each schedule that is enabled, matches, did not fire in this year, month, day, hour and minute, is valid and succeeds, and none of any other |
| `Scheduler.RunRecordsExactly` | crates/automation/src/proactive.rs:553-635 | the same of the last tick of every serial run, over what the run had recorded before |
| `Scheduler.ReportsAreTruthful` | crates/automation/src/proactive.rs:553-635 | over any list a tick reports delivery of a schedule exactly as often as it records its fire |
| `Restore.Stage` | crates/cli/src/backup.rs:121-165 | extraction and verification touch only the staging path and succeed iff no step fails and the chain verifies |
| `Restore.RestoreBackup` | crates/cli/src/backup.rs:116-209 | at every disk state it goes through the old tree is whole or a verified tree is live, and without `force` the old tree is always whole at the root or aside; exactly when it succeeds and what is then at the root and aside; for each step that fails, what is then at the root, in staging and aside |
| `AcpWire.FrameReader.ReadMessage` | crates/acp/src/wire.rs:276-283 | consumes exactly one frame and returns its message or error; nothing at the end of the stream |
| `AcpWire.FrameWriter.WriteMessage` | crates/acp/src/wire.rs:308-313 | appends the frame of a valid message and nothing for an invalid one |
| `AcpWire.EncodeSucceeds` | crates/acp/src/wire.rs:223-232 | encoding succeeds iff the message is valid: rendered JSON never holds a line ending |
| `AcpWire.ValidIff` | crates/acp/src/wire.rs:163-215 | a message is valid iff its version is `2.0` and its method is not blank or it has exactly one of result and error |
| `AcpWire.DecodesExactly` | crates/acp/src/wire.rs:235-251 | which lines decode, with or without a line ending: those whose text has no line break and reads as an object of a valid message; and which error each other line gives |
| `AcpWire.MembersReadBack` | crates/acp/src/wire.rs:235-251 | the untagged variants are told apart: each message's fields read back as it, without `null` payloads |
| `AcpWire.FromMembersSame` | crates/acp/src/wire.rs:235-251 | what a frame is read as depends on its content only, not on the order of its members |
| `AcpWire.RoundTripIffNoNull` | crates/acp/src/wire.rs:223-251 | a valid message survives encoding and decoding, as data, iff no payload field is `null` |
| `AcpWire.NullResultRejected` | crates/acp/src/wire.rs:191-251 | a response whose result is `null` encodes and its frame is rejected |
| `AcpWire.NullParamsDropped` | crates/acp/src/wire.rs:223-251 | a request with `null` parameters is read back without them |
| `AcpWire.WriteMessages` | crates/acp/src/transport.rs:79-81 | offering messages to the writer one by one leaves the frames of the valid ones on the stream |
| `AcpWire.ReadMessages` | crates/acp/src/transport.rs:83-85 | reading until the end of the stream decodes every frame in order and consumes all of it |
| `AcpWire.StreamRoundTrip` | crates/acp/src/wire.rs:276-313 | messages without `null` payloads offered to the writer come back from the reader as data: exactly the valid ones, in order |
| `AcpWire.JsonParseReadsBack` | crates/acp/src/wire.rs:235-251 | the compact JSON reader of this project meets the assumption about the JSON library for every message with distinct object keys |
| `Sse.SplitSse` | web-client/sse.js:12-27 | the loop returns the payloads of the complete events of buffer and chunk, and the incomplete rest |
| `Sse.SplitAppend` | web-client/sse.js:12-27 | splitting a text in two steps through the buffer gives the events and the rest of the whole |
| `Sse.ChunkingIrrelevant` | web-client/app.js:64-74 | what the client has read depends only on the concatenation of the chunks |
| `Sse.CuttingsAgree` | web-client/app.js:64-74 | two ways of cutting the same stream fail together, and while they do not fail they agree in buffer, payloads and transcript |
| `Sse.ShownUpToLoss` | web-client/app.js:64-74 | a read, failed or not, shows the good text of the whole stream without the part that the failing chunk loses |
| `Sse.TranscriptsAgreeIff` | web-client/app.js:64-74 | two ways of cutting one stream end with the same transcript iff they lose equally much, and nothing is lost unless the read fails |
| `Sse.NothingLostIfAllParse` | web-client/sse.js:12-27 | a stream that fails only by an error payload loses nothing however it is cut |
| `Sse.OneChunkLosesText` | web-client/app.js:64-74 | a good frame before one that does not parse is shown when they arrive apart and lost when they arrive together |
| `Sse.FrameData` | web-client/sse.js:12-27 | the data of a server frame is its payload |
| `Sse.ManyDataLines` | web-client/sse.js:17-22 | a payload of several lines, each sent as a data line of one event, is read back with its line breaks |
| `Sse.NothingToRead` | web-client/sse.js:23 | the end marker and events without a data line yield no payload |
| `Sse.ContentExact` | web-client/sse.js:29-38 | a payload stops the stream iff its type is `error`, and adds text iff its type is `content` and the text is a string; the last of repeated members counts |
| `Sse.StreamDelivered` | web-client/sse.js:1-38 | however the frames of a reply are cut, the client ends with an empty buffer, all payloads in order and their text shown, or fails iff one does not parse or is an error |

## Left out

- CapTokenExact.ClaimsAreExact: assumes tool and audience names without a double quote or a line break, because how Biscuit prints such names is outside the repository.
- CapVerifier.Verify: how Biscuit checks signatures and how the context's JSON is read are inputs of the model; the limits of the Datalog run are not modelled.
- Scheduler.RunsKeep: assumes ticks do not overlap and the clock does not go back; `fire_now`, which ignores the minute, and upserts between ticks, which may reset the stamp, are not events of the run.
- Approvals.ApprovalStore.ProposeCard: the id is a parameter; that minted ids are fresh is an assumption of the run theorems. Failing writes are not modelled.
- Restore.RestoreBackup: assumes fresh staging and displaced paths, and treats a rename as one atomic step.
- ExecutionReceipt.SignedVerifies: ES256, base64url and serde are parameters assumed to invert; unforgeability is not stated. Constant claim fields are not modelled.
- Jcs.WriteValue: numbers are integers; the formatting of non-integers is not modelled.
- AcpWire.StreamRoundTrip: streams are characters, not UTF-8 bytes, and asynchronous input/output errors are not modelled.
- DenyList.FileDenyList.Revoke: appends of two processes do not interleave.
- ExecutionReceipt.ProjectTotal: a debug build panics where the model wraps.
- File-system errors of the approval and schedule stores, corrupt approval cards and the order in which a directory lists them.
- `top_sessions` of the cost report, which reads session journals.
- Making a backup, its symlink guards and the schema migrations.
- The provider adapters, the fused runtime's cost gate, policies, memory, channels and the other crates.
