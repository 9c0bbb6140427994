# Verified model of the lending backend's guards, meters and jobs

The backend of this repository is mostly wiring, but a handful of its files hold
algorithms of their own. This project models those and proves what they are for:

- `JsonText.dfy`, `ShapeScanner.dfy`: the one-pass byte scanner that bounds nesting depth
  and array length of a request body before it is parsed. `JsonText` holds every JSON text
  of RFC 8259 (all whitespace, all string escapes) together with its value tree. The
  scanner's loop is proved against a byte automaton, and the automaton against the tree.
- `RouteLimits.dfy`: the choice of payload limits by longest matching route prefix.
- `ExportQuota.dfy`: the rolling-window tally of exported rows, proved against a history
  that is never pruned, with its exact waiting time and its overshoot under concurrency.
- `IpAddress.dfy`, `IpRanges.dfy`: the IPv4 and IPv6 text parsers (RFC 4291 section 2.2)
  and the CIDR matching (RFC 4632 section 3.1) of the admin allowlist, with the 32-bit and
  BigInt operators of JavaScript written out, and the gate that the list controls.
- `RepaymentAudit.dfy`: the loan delinquency machine, over whole runs of the daily audit
  in which handlers may fail before or after their row update.
- `SlowQueryDigest.dfy`: the grouping pass, the comparator and the ranking of slow queries.
- `CommentThreads.dfy`: the comment forest built from shared mutable nodes, and the rule
  for posting that keeps it whole.
- `Metering.dfy`, `TenantRateLimit.dfy`, `AuthGuards.dfy`, `ApiKeyQuota.dfy`: fixed-window
  and billing-period admission counters, and the guards that call the first of them.
- `Text.dfy`, `Arithmetic.dfy`, `Wrappers.dfy`: string operations, rounding and `Option`.

Code that changes things in place is modelled by classes and methods with loops, each
proved against a specification function or predicate; the lemmas then prove what the
source promises about that specification. Clocks, random identifiers, store failures and
Node's `net.isIP` are parameters. Times are integer milliseconds, money is integer, and
averages are exact.

Where the code and its own words differ, the model follows the code:

- The comment of `loadAdminIpAllowlistConfig` (`backend/src/middleware/adminIpAllowlist.ts:213-215`)
  says that a bad entry must never widen the policy. A list none of whose entries parses
  is not in force (line 241), and the gate then lets everyone through (lines 359-362), as it
  does for an empty list. `IpRanges.PolicyHoldsExactlyWhen` gives the condition: the promise
  holds if and only if some entry parses. `IpRanges.GarbageAdmitsEveryone` is an instance.
- The comment of `assertJsonShape` (`backend/src/middleware/payloadLimits.ts:145-147`)
  promises to refuse every array longer than `maxArrayLength`. The count is checked at
  commas only, so an array of one element is never refused.
  `ShapeScanner.StatedRuleHoldsExactlyWhen` gives the exact limits for which the stated rule
  holds on all texts; the deployed ones are among them.
- `tenantRateLimitMiddleware` is meant to budget authenticated traffic
  (`backend/src/middleware/tenantRateLimit.ts:41-45`), but it counts only what a guard of `auth.ts`
  hands it. Callers authenticated by `requireScopedApiKey` or `requireAnyApiKey`
  (`backend/src/middleware/apiKeyAuth.ts`, used for `/api/exports` and `/api/keys` at
  `backend/src/index.ts:342-343`) never reach it. A session that `requireAdmin` identifies and then
  refuses (`backend/src/middleware/auth.ts:166-175`) is not counted on a route with no other guard.
  Nor is a request whose plan limit is invalid, which spends the mark; the shipped plans
  (`backend/src/services/entitlements.ts:54`, 66 and 73) are all valid, and the throw ends the chain of
  guards. `AuthGuards.CountedExactlyWhen` gives the exact condition over any sequence of guard calls.
- The comment in `parseIPv4` (`backend/src/middleware/adminIpAllowlist.ts:87-88`) says that
  leading zeros are rejected. They are accepted and read as decimal
  (`IpAddress.LeadingZeroAccepted`). The function is private to its file and every call of
  it for an IPv4 address comes after `isIP` or `isIPv4`, which refuse such text, and the call from
  `parseIPv6` after `isIP` too; so this is about the function, not about what the allowlist takes.
- `parseIPv6` rewrites a dotted quad that is glued to hexadecimal digits
  (`IpAddress.GluedQuadAccepted`), which RFC 4291 section 2.2 does not allow;
  `IpAddress.MixedExactlyAfterColon` tells the two apart. Its callers ask `isIP` first as well.
- An IPv6 range does not match every address whose 128-bit value lies in it: dotted-mapped text is
  turned into its IPv4 form first (`backend/src/middleware/adminIpAllowlist.ts:142-152`), so it matches
  neither `::/0` nor an entry for `::ffff:0:0/96`. `IpRanges.IPv6MatchIsByValueExactlyWhen` gives the
  exact condition.

## Model

| member | source | states |
|---|---|---|
| `ShapeScanner.AssertJsonShape` | backend/src/middleware/payloadLimits.ts:154-216 | The index loop with its escape skip terminates on any bytes and throws exactly when the byte automaton fails, with its reason; on the text of any document it throws nothing if and only if the value is within the limits, and otherwise the reason of the violation whose byte comes first |
| `ShapeScanner.ScanShape` | backend/src/middleware/payloadLimits.ts:170-215 | The loop itself, with its invariant: the bytes read so far and the state they lead to, the stack within its bounds |
| `ShapeScanner.FeedConcat` | backend/src/middleware/payloadLimits.ts:170-215 | Scanning a concatenation is scanning its parts in turn, from any state |
| `ShapeScanner.MemoryStaysBounded` | backend/src/middleware/payloadLimits.ts:158-205 | On arbitrary bytes, the stack never exceeds `maxDepth` entries, each an object mark, an empty-array mark or a count up to the array limit |
| `ShapeScanner.FeedValue` | backend/src/middleware/payloadLimits.ts:154-216 | Scanning any serialisation of a value either leaves the stack as it was but for the enclosing array's count, or stops at the value's first violation |
| `ShapeScanner.ScannerAgreesWithTree` | backend/src/middleware/payloadLimits.ts:143-216 | For every JSON text and any limits: accepted if and only if the tree is a scalar or at most `maxDepth` deep, and every array is at most `maxArrayLength` long (one element always passes) |
| `ShapeScanner.StatedRuleHoldsExactlyWhen` | backend/src/middleware/payloadLimits.ts:145-147 | The rule as documented is met on all texts if and only if `maxDepth` is zero, or it is positive and `maxArrayLength` is at least one |
| `ShapeScanner.OneElementArray` | backend/src/middleware/payloadLimits.ts:197-209 | `[null]` is accepted whatever the array limit, so a limit below one is not enforced |
| `ShapeScanner.RefusalIsTheFirstViolation` | backend/src/middleware/payloadLimits.ts:183-209 | A refusal's reason is true of the value, and its witnessing bracket or comma comes before every other one in the text |
| `ShapeScanner.FirstLeads` | backend/src/middleware/payloadLimits.ts:183-209 | Every broken limit in a text has a first one at or before it, inside the text of the value |
| `ShapeScanner.WitnessJustified` | backend/src/middleware/payloadLimits.ts:187-208 | A bracket below `maxDepth` or a comma after element `maxArrayLength` proves that the tree breaks that limit |
| `ShapeScanner.FirstDecidesFit` | backend/src/middleware/payloadLimits.ts:183-209 | A value has no witnessing byte if and only if its tree meets the limits at its depth |
| `ShapeScanner.FailurePointsAtItsByte` | backend/src/middleware/payloadLimits.ts:183-209 | On any bytes, too deep is reported at an opening bracket and too long at a comma that was read |
| `ShapeScanner.TwoElementsText` | backend/src/middleware/payloadLimits.ts:133-143 | The modelled text of one document, written out byte by byte |
| `RouteLimits.ResolveLimits` | backend/src/middleware/payloadLimits.ts:113-131 | The label is the prefix of the earliest longest matching rule, and each limit is the rule's own if it has one and the default otherwise; the defaults under the label `default` when nothing matches |
| `RouteLimits.MatchMeans` | backend/src/middleware/payloadLimits.ts:102-105 | A prefix matches the path equal to it and every path below it, with or without one slash at its end |
| `RouteLimits.MatchIsOnSegmentBoundaries` | backend/src/middleware/payloadLimits.ts:102-105 | A prefix matches exactly the paths whose slash-separated segments begin with its own |
| `RouteLimits.EqualLengthMatchesAreEqual` | backend/src/middleware/payloadLimits.ts:102-105 | Two equally long prefixes that match one path are the same prefix, trailing slash or not |
| `RouteLimits.OrderOfRulesIsIrrelevant` | backend/src/middleware/payloadLimits.ts:112-131 | With distinct prefixes, listing the rules in another order cannot change the resolution |
| `ExportQuota.ExportQuotaTracker.Entries` | backend/src/middleware/exportRateLimit.ts:67-73 | Pruning returns the live part of the full history of the key and leaves other keys alone |
| `ExportQuota.ExportQuotaTracker.Used` | backend/src/middleware/exportRateLimit.ts:75-77 | Used rows are the windowed total over everything ever recorded for the key, whatever was pruned before and whatever other keys did |
| `ExportQuota.ExportQuotaTracker.Record` | backend/src/middleware/exportRateLimit.ts:79-84 | A positive row count is appended to the key's history at the second clock reading; any other count changes nothing |
| `ExportQuota.ExportQuotaTracker.RetryAfterSeconds` | backend/src/middleware/exportRateLimit.ts:90-102 | Zero under the quota; at or over a positive quota, the exact wait; the last return is reached only for a quota that is not positive |
| `ExportQuota.ExportLimiter.Limit` | backend/src/middleware/exportRateLimit.ts:118-147 | A request passes exactly while the key's windowed usage is below the quota; a refusal carries the exact wait, or zero when enough usage aged out between the two looks at the clock; the request is logged, and the log explains the tracker's history |
| `ExportQuota.ExportLimiter.RecordExportedRows` | backend/src/middleware/exportRateLimit.ts:104-147 | An admitted request finishes with the rows it returns, and the log still explains the tracker's history |
| `ExportQuota.ExportLimiter.UsageIsBounded` | backend/src/routes/exports.ts:39-57 | In every state the limiter reaches, with any keys interleaved, a key's windowed usage is at most `maxRows - 1` and one page for each request in flight |
| `ExportQuota.PruningIsSafe` | backend/src/middleware/exportRateLimit.ts:67-73 | What one pruning drops never counts at any later moment |
| `ExportQuota.WaitIsExact` | backend/src/middleware/exportRateLimit.ts:94-99 | After the announced wait usage is below the quota, and one second earlier it still is not |
| `ExportQuota.ExactWaitIsUnique` | backend/src/middleware/exportRateLimit.ts:86-102 | No other number of seconds is an exact wait |
| `ExportQuota.UsageOnlyFalls` | backend/src/middleware/exportRateLimit.ts:67-77 | Without new records, windowed usage never rises |
| `ExportQuota.OvershootIsBounded` | backend/src/middleware/exportRateLimit.ts:125-147 | In every run, windowed usage plus what admitted unfinished requests may still record stays within the quota less one and one page for each of k requests in flight |
| `ExportQuota.WindowedUsageBound` | backend/src/routes/exports.ts:39-57 | Hence windowed usage never exceeds `maxRows - 1 + page * k` |
| `ExportQuota.BoundIsReached` | backend/src/routes/exports.ts:39-57 | The bound is tight: for every positive quota, window and page and every k of at least one, some lawful run reaches it |
| `IpAddress.ParseIPv4` | backend/src/middleware/adminIpAllowlist.ts:82-95 | The loop with its 32-bit wrap computes the value that `IPv4Value` describes |
| `IpAddress.IPv4Value` | backend/src/middleware/adminIpAllowlist.ts:82-95 | Accepted if and only if there are four parts of one to three digits up to 255; the value is the four octets in network order, and the wrap never bites |
| `IpAddress.IPv4RoundTrip` | backend/src/middleware/adminIpAllowlist.ts:82-95 | Parsing undoes printing on all 2^32 addresses |
| `IpAddress.IPv4PrintsBackExactlyWhen` | backend/src/middleware/adminIpAllowlist.ts:87-89 | Printing undoes parsing if and only if no octet has a leading zero |
| `IpAddress.LeadingZeroAccepted` | backend/src/middleware/adminIpAllowlist.ts:87-93 | An octet with a leading zero is accepted and read as decimal, contrary to the comment |
| `IpAddress.ToBigInt` | backend/src/middleware/adminIpAllowlist.ts:117-124 | The group loop computes the fold that the lemmas equate with the number the groups stand for |
| `IpAddress.ParseIPv6` | backend/src/middleware/adminIpAllowlist.ts:98-140 | The whole parser computes the specification function the forms below are proved about |
| `IpAddress.ValueOfEight` | backend/src/middleware/adminIpAllowlist.ts:117-124 | The value of eight groups is the sum of g_i * 65536^(7-i) |
| `IpAddress.FullForm` | backend/src/middleware/adminIpAllowlist.ts:126-130 | Eight groups, in either case and with or without leading zeros, parse to their value |
| `IpAddress.CompressedForm` | backend/src/middleware/adminIpAllowlist.ts:132-139 | Replacing any non-empty run of zero groups by `::` does not change the value |
| `IpAddress.MixedForm` | backend/src/middleware/adminIpAllowlist.ts:106-115 | Six groups and a dotted quad parse to the groups' value times 2^32 plus the quad |
| `IpAddress.CompressedMixedForm` | backend/src/middleware/adminIpAllowlist.ts:106-139 | The same with any non-empty run of zeros among the six groups written as `::` |
| `IpAddress.HexTextAcceptsExactly` | backend/src/middleware/adminIpAllowlist.ts:126-139 | Without zone and quad, a text is accepted if and only if it is eight groups, or at most seven around one `::` |
| `IpAddress.IPv6AcceptsExactly` | backend/src/middleware/adminIpAllowlist.ts:98-140 | A text is accepted if and only if, up to a zone, it is one of these forms once the longest dotted quad that ends it, if there is one, is valid and rewritten as two groups |
| `IpAddress.GluedQuadAccepted` | backend/src/middleware/adminIpAllowlist.ts:108-115 | Hexadecimal digits directly in front of the longest quad that ends the text run into its upper half, as long as the group they make has at most four digits |
| `IpAddress.GluedExample` | backend/src/middleware/adminIpAllowlist.ts:108-115 | `::a1.2.3.4` is accepted and read as `::a102:304` |
| `IpAddress.GluedDigitExample` | backend/src/middleware/adminIpAllowlist.ts:108-115 | `::1001.2.3.4` is accepted and read as `::1102:304`: its quad is `001.2.3.4` |
| `IpAddress.MixedExactlyAfterColon` | backend/src/middleware/adminIpAllowlist.ts:98-140 | An accepted text that ends in a quad is a mixed form of RFC 4291 section 2.2 if and only if a colon stands in front of the quad |
| `IpAddress.IPv6RoundTrip` | backend/src/middleware/adminIpAllowlist.ts:98-140 | Parsing undoes printing over all 2^128 addresses, for the full text and for every compression of zeros |
| `IpAddress.IPv6UpperRoundTrip` | backend/src/middleware/adminIpAllowlist.ts:117-140 | Parsing undoes printing in upper case over all 2^128 addresses, compressed or not |
| `Text.HexDigitValues` | backend/src/middleware/adminIpAllowlist.ts:120-121 | The sixteen digits have their usual values in either case |
| `Text.OnlyHexDigits` | backend/src/middleware/adminIpAllowlist.ts:120 | Nothing else is a digit |
| `IpAddress.ZoneIsIgnored` | backend/src/middleware/adminIpAllowlist.ts:101-104 | A zone index never changes the address |
| `IpAddress.IPv6Bounded` | backend/src/middleware/adminIpAllowlist.ts:117-139 | Whatever is accepted fits in 128 bits |
| `IpRanges.Mask4Value` | backend/src/middleware/adminIpAllowlist.ts:174-177 | The mask made by 32-bit shifts is `prefix` leading ones |
| `IpRanges.ShiftBy32KeepsAllOnes` | backend/src/middleware/adminIpAllowlist.ts:174-177 | Without the special case a zero prefix would give an all-ones mask |
| `IpRanges.Mask6Value` | backend/src/middleware/adminIpAllowlist.ts:183-184 | The BigInt mask is `prefix` leading ones of 128 |
| `IpRanges.ParsedRangeIsRange` | backend/src/middleware/adminIpAllowlist.ts:155-189 | A parsed entry has the prefix length its text names, or the full width when it names none, and its network is the value of the text's own address |
| `IpRanges.EntryMatchesItsBlock` | backend/src/middleware/adminIpAllowlist.ts:155-206 | End to end: a parsed entry matches an address if and only if the two addresses lie in the same block of the prefix length the entry names |
| `IpRanges.SlashedEntry` | backend/src/middleware/adminIpAllowlist.ts:155-187 | For any address text a and any text after a slash: one to three digits n give a range exactly if `net.isIP` and the family's parser accept a and n is at most the family's width, with a's value and the mask 2^bits - 2^(bits-n); anything else after the slash is refused |
| `IpRanges.NumberedEntry` | backend/src/middleware/adminIpAllowlist.ts:155-187 | The same for every number n printed after the slash |
| `IpRanges.AddressEntry` | backend/src/middleware/adminIpAllowlist.ts:155-187 | An address without a slash is a range of the full width |
| `IpRanges.PaddedEntry` | backend/src/middleware/adminIpAllowlist.ts:156 | White space around an entry does not change its range |
| `IpRanges.NormalizedMappedText` | backend/src/middleware/adminIpAllowlist.ts:149-152 | Mapped text with the four letters in either case is shortened to its quad |
| `IpRanges.NormalizedOtherText` | backend/src/middleware/adminIpAllowlist.ts:149-152 | No other text is changed |
| `IpRanges.BlockBounds` | backend/src/middleware/adminIpAllowlist.ts:196-205 | Block k holds exactly the addresses from k * 2^h up to (k + 1) * 2^h |
| `IpRanges.MatchIsSameBlock` | backend/src/middleware/adminIpAllowlist.ts:189-206 | An address matches if and only if it lies in the same aligned block of 2^(bits - prefix) addresses as the network |
| `IpRanges.ZeroPrefixMatchesAll` | backend/src/middleware/adminIpAllowlist.ts:175-206 | A zero prefix matches exactly the family |
| `IpRanges.NarrowerInsideOrDisjoint` | backend/src/middleware/adminIpAllowlist.ts:192-206 | Of two ranges of one family, the narrower lies inside the wider or outside it |
| `IpRanges.RangesNestOrAreDisjoint` | backend/src/middleware/adminIpAllowlist.ts:155-206 | Any two configured entries are nested or disjoint |
| `IpRanges.MappedMatchesAsIPv4` | backend/src/middleware/adminIpAllowlist.ts:142-152 | Dotted IPv4-mapped text matches every range exactly as its IPv4 form does |
| `IpRanges.MappedValue` | backend/src/middleware/adminIpAllowlist.ts:106-115 | Parsed as IPv6, mapped text is ::ffff:0:0/96 plus the quad |
| `IpRanges.IPv6MatchIsByValueExactlyWhen` | backend/src/middleware/adminIpAllowlist.ts:192-206 | An address accepted as IPv6 matches an IPv6 range by its value if and only if it is not dotted-mapped text, which matches none |
| `IpRanges.MappedTextIsInNoIPv6Range` | backend/src/middleware/adminIpAllowlist.ts:192-206 | Dotted-mapped text matches no IPv6 range, although its value lies in the one that holds everything |
| `IpRanges.LoadAllowlist` | backend/src/middleware/adminIpAllowlist.ts:217-249 | The configuration holds the parsed ranges and the rejected texts, each in order, and is in force exactly while it holds a range |
| `IpRanges.EntriesOfList` | backend/src/middleware/adminIpAllowlist.ts:220-223 | The entries of a comma-separated list are its items in order, without the white space around them |
| `IpRanges.BlankItemsAreSkipped` | backend/src/middleware/adminIpAllowlist.ts:220-223 | A blank item changes nothing |
| `IpRanges.OrderIsKept` | backend/src/middleware/adminIpAllowlist.ts:225-231 | Ranges and rejected texts keep the order of the entries |
| `IpRanges.OneEntry` | backend/src/middleware/adminIpAllowlist.ts:228-230 | A single entry is kept as its range or rejected |
| `IpRanges.OnlyValidEntriesAdmit` | backend/src/middleware/adminIpAllowlist.ts:222-231 | An address is on the list of ranges if and only if a well-formed entry covers it; no entry is lost |
| `IpRanges.GatePassesExactlyWhen` | backend/src/middleware/adminIpAllowlist.ts:349-384 | The gate lets a client through if and only if it carries an override, or no entry parses at all, or its address is known and a well-formed entry covers it |
| `IpRanges.PolicyHoldsExactlyWhen` | backend/src/middleware/adminIpAllowlist.ts:213-241 | That whoever passes without an override is covered by a well-formed entry holds if and only if some entry parses |
| `IpRanges.BadListAdmitsEveryone` | backend/src/middleware/adminIpAllowlist.ts:241-362 | A list of one word that is no address is reported as invalid and lets every client through |
| `IpRanges.GarbageAdmitsEveryone` | backend/src/middleware/adminIpAllowlist.ts:241-362 | The list `garbage` does, for every client |
| `RepaymentAudit.RunRepaymentAudit` | backend/src/jobs/repaymentAudit.ts:16-76 | Every row takes exactly its own step whatever fails elsewhere, and both counters are exact |
| `RepaymentAudit.AuditRow` | backend/src/jobs/repaymentAudit.ts:32-69 | The branches of the sweep pick the handler, and a throw counts as a failure |
| `RepaymentAudit.OthersAreLeftAlone` | backend/src/jobs/repaymentAudit.ts:20-35 | A deleted loan, one not Approved, Disbursing or Repaying, and one without a due date are never touched |
| `RepaymentAudit.AuditChangesExactly` | backend/src/jobs/repaymentAudit.ts:47-64 | Exactly when a row enters grace, misses a payment or is left, with the new dates in milliseconds, the fee and the third miss written out |
| `RepaymentAudit.SafeguardChangesExactly` | backend/src/jobs/repaymentAudit.ts:37-44 | What the safeguard would do to a selected loan with three misses |
| `RepaymentAudit.FailuresChangeExactly` | backend/src/jobs/repaymentAudit.ts:66-69 | A failing handler counts as a failure and leaves the row as it was, or updated without the demand |
| `RepaymentAudit.DemandChangesExactly` | backend/src/jobs/repaymentAudit.ts:230-253 | The demand is made exactly on entering default with a guarantor |
| `RepaymentAudit.OutcomesAddUp` | backend/src/jobs/repaymentAudit.ts:27-72 | Processed, failed and untouched rows are all the rows |
| `RepaymentAudit.LoanRow.HandleEnterGracePeriod` | backend/src/jobs/repaymentAudit.ts:78-111 | Grace ends three days later, and nothing else but the version changes |
| `RepaymentAudit.LoanRow.HandleMissedPayment` | backend/src/jobs/repaymentAudit.ts:113-184 | One more missed payment and fee than the counts it is given; the third is default, the others reschedule 30 days on |
| `RepaymentAudit.LoanRow.HandleDefault` | backend/src/jobs/repaymentAudit.ts:186-205 | The safeguard's update and demand |
| `RepaymentAudit.LoanRow.InvokeGuarantorLiability` | backend/src/jobs/repaymentAudit.ts:230-253 | One demand if there is a guarantor, none otherwise |
| `RepaymentAudit.StepKeepsInv` | backend/src/jobs/repaymentAudit.ts:31-64 | Each audit keeps the books' invariant and advances by at most one of six steps |
| `RepaymentAudit.AuditsKeepTheBooks` | backend/src/jobs/repaymentAudit.ts:16-184 | From a fresh loan, after any audits with any failures: fees are 50 per missed payment, at most three, default if and only if three, at most one demand on the guarantor and only in default |
| `RepaymentAudit.DemandIsMadeExactlyWhen` | backend/src/jobs/repaymentAudit.ts:113-147 | The audit that puts a loan in default settles the demand: one if there is a guarantor and nothing in it failed, none ever otherwise |
| `RepaymentAudit.GuarantorIsAskedExactlyWhen` | backend/src/jobs/repaymentAudit.ts:31-253 | After any run a guarantor has been asked if and only if some audit put the loan in default without failing |
| `RepaymentAudit.DefaultIsAbsorbing` | backend/src/jobs/repaymentAudit.ts:20-25 | No audit changes a loan in default |
| `RepaymentAudit.SafeguardIsUnreachable` | backend/src/jobs/repaymentAudit.ts:37-44 | No run selects a loan with three missed payments |
| `RepaymentAudit.DefaultIsNotEarly` | backend/src/jobs/repaymentAudit.ts:31-64 | The defaulting audit runs strictly more than 69 days after the first due date |
| `RepaymentAudit.DefaultComesInTime` | backend/src/jobs/repaymentAudit.ts:31-162 | Whatever fails: with audits at most `gap` apart that reach the loan within `lag`, default comes by 69 days, six gaps and five lags after the first due date, and one more gap for each audit whose update fails; failed notices cost nothing |
| `SlowQueryDigest.GroupRecords` | backend/src/jobs/slowQueryDigest.ts:90-113 | The one-pass map holds the summary of each fingerprint's members and no other key, in order of first appearance |
| `SlowQueryDigest.SummaryDescribes` | backend/src/jobs/slowQueryDigest.ts:90-113 | A group's count, total, extremes and latest time are those of its members; its texts are the first member's |
| `SlowQueryDigest.GroupsPartition` | backend/src/jobs/slowQueryDigest.ts:90-147 | The groups partition the records as multisets, and their counts add up to the total |
| `SlowQueryDigest.RankingIsAStrictTotalOrder` | backend/src/jobs/slowQueryDigest.ts:128-141 | Irreflexive, asymmetric, transitive through exact averages, and total on different fingerprints |
| `SlowQueryDigest.RankMeans` | backend/src/jobs/slowQueryDigest.ts:128-141 | Ranking keeps the multiset of patterns and, when their fingerprints differ, leaves every earlier one strictly before every later one |
| `SlowQueryDigest.OrderIsUnique` | backend/src/jobs/slowQueryDigest.ts:128-141 | Only one ordering of the patterns is ranked, whatever algorithm sorts them |
| `SlowQueryDigest.AggregateSlowQueries` | backend/src/jobs/slowQueryDigest.ts:61-149 | The digest shows `topN` groups, or all if there are fewer, each described exactly, in order and in front of every group not shown: by frequency the more frequent first, then the slower on average, then by fingerprint; by duration with the first two keys exchanged |
| `SlowQueryDigest.InWindowAppend` | backend/src/jobs/slowQueryDigest.ts:73-76 | The window keeps the order of the records |
| `SlowQueryDigest.InWindowOne` | backend/src/jobs/slowQueryDigest.ts:73-76 | A record is in the window unless it is before its start or after its end |
| `SlowQueryDigest.PatternsDescribeTheirMembers` | backend/src/jobs/slowQueryDigest.ts:115-126 | Every ranked pattern describes its own members exactly, with their mean |
| `SlowQueryDigest.CutRanksAfterKept` | backend/src/jobs/slowQueryDigest.ts:143-148 | Every pattern cut by `topN` ranks after every kept one |
| `SlowQueryDigest.RecordOrderIsIrrelevant` | backend/src/jobs/slowQueryDigest.ts:54-149 | Any permutation of the records gives the same total and the same ranked numbers |
| `CommentThreads.BuildThread` | backend/src/routes/loan.ts:594-609 | The two loops leave a fresh node for each comment whose replies are its replies in list order, and roots in list order |
| `CommentThreads.Place` | backend/src/routes/loan.ts:600-607 | One round puts one node under its parent or among the roots, and changes no other node |
| `CommentThreads.OrderIsKept` | backend/src/routes/loan.ts:600-607 | Replies and roots keep the order of the list |
| `CommentThreads.OneComment` | backend/src/routes/loan.ts:600-607 | A comment is a reply to the one it names, and a root if that one is not listed |
| `CommentThreads.PostIsRejectedExactlyWhen` | backend/src/routes/loan.ts:622-643 | A post is refused if and only if the author is missing, the text is blank or too long, or a parent is named that is no comment of the same loan |
| `CommentThreads.PostedCommentKeeps` | backend/src/routes/loan.ts:645-653 | An accepted comment keeps its loan, author and parent, and its text without the white space around it |
| `CommentThreads.ForestHoldsEachCommentOnce` | backend/src/routes/loan.ts:594-609 | Written out from the roots, an acyclic list's forest is the list as a multiset |
| `CommentThreads.OneReplyLeads` | backend/src/routes/loan.ts:600-604 | Below a comment, exactly one reply leads to each of its descendants and none to any other comment |
| `CommentThreads.OneRootLeads` | backend/src/routes/loan.ts:600-607 | Exactly one root leads to each comment |
| `CommentThreads.ParentsComeFirst` | backend/src/routes/loan.ts:636-653 | In every store reachable by posting, identifiers are distinct and each parent was posted earlier for the same loan |
| `CommentThreads.PostedThreadsAreWhole` | backend/src/routes/loan.ts:589-653 | For any listing of a loan's posted comments the forest holds each exactly once, `total` of them, and roots are exactly the comments without a parent |
| `CommentThreads.BuiltForestIsWhole` | backend/src/routes/loan.ts:589-609 | The nodes in memory, written out from the built roots, are the listing |
| `CommentThreads.WholeExactlyWhenRanked` | backend/src/routes/loan.ts:594-609 | A list is written out whole at some depth if and only if its comments can be ranked with parents below replies |
| `CommentThreads.MutualParentsAreLost` | backend/src/routes/loan.ts:600-607 | Without the posting rule comments can be lost: two that name each other are in no thread |
| `Metering.AdmitsExactlyTheLimit` | backend/src/middleware/tenantRateLimit.ts:71-80 | Of n requests in a bucket exactly min(n, limit) are admitted, in any interleaving of buckets |
| `TenantRateLimit.TenantWindows.Middleware` | backend/src/middleware/tenantRateLimit.ts:46-97 | Counts a request exactly if this is the first call to find it identified and the plan limit is valid, admits it exactly while the count is within the plan's limit, at most 240, and otherwise names the seconds, rounded up, to the window's end; every call is logged, and the windows are those of the counted requests |
| `TenantRateLimit.DecisionMeans` | backend/src/middleware/tenantRateLimit.ts:72-94 | A count within the limit passes with what remains; a refusal's wait ends less than a second after the clock's minute does |
| `TenantRateLimit.WindowIsAMinute` | backend/src/middleware/tenantRateLimit.ts:62 | Windows are the minutes of the clock |
| `TenantRateLimit.CountIsRequestsInMinute` | backend/src/middleware/tenantRateLimit.ts:62-71 | The count a request meets is its tenant's requests in its aligned minute so far |
| `TenantRateLimit.MinuteAllowsExactlyTheLimit` | backend/src/middleware/tenantRateLimit.ts:62-80 | Each aligned minute allows a tenant exactly min(requests, limit) |
| `TenantRateLimit.AnyMinuteAllowsAtMostTwice` | backend/src/middleware/tenantRateLimit.ts:10-97 | Any interval one minute long allows at most twice the limit, and so at most 480 |
| `TenantRateLimit.AnyMinutePermitsAtMost480` | backend/src/middleware/tenantRateLimit.ts:29-97 | The bound of 480 holds whatever plans the tenant has in the course of the run |
| `TenantRateLimit.TwiceTheLimitIsReached` | backend/src/middleware/tenantRateLimit.ts:10-97 | Twice the limit is reached, for every valid plan and any so many requests |
| `TenantRateLimit.OtherTenantsHaveNoEffect` | backend/src/middleware/tenantRateLimit.ts:27-71 | A tenant's window is the one its own requests alone would leave |
| `TenantRateLimit.MeteredAtMostOnce` | backend/src/middleware/tenantRateLimit.ts:51-59 | Over any sequence of calls a request is counted at most once, and it is counted if and only if some call finds it identified and the plan limit is valid at the first such call |
| `TenantRateLimit.InvalidPlanIsNeverMetered` | backend/src/middleware/tenantRateLimit.ts:35-60 | Any invalid plan limit at the first call spends the mark: a second call with any limit counts nothing |
| `AuthGuards.Guards.AuthMiddleware` | backend/src/middleware/auth.ts:52-113 | Hands the request on exactly for an active support session or, without one, a verified token, and answers otherwise; it logs the pass, after which the meter's calls and every request's identification are those of the log |
| `AuthGuards.Guards.OptionalAuthMiddleware` | backend/src/middleware/auth.ts:116-133 | Hands the request on always; it logs the pass, after which the meter's calls and every request's identification are those of the log |
| `AuthGuards.Guards.RequireAdmin` | backend/src/middleware/auth.ts:139-182 | Hands the request on exactly for the API key or the admin's session, and answers otherwise; it logs the pass, after which the meter's calls and every request's identification are those of the log |
| `AuthGuards.FirstCallIsFirstHandOn` | backend/src/middleware/auth.ts:52-182 | The meter first sees a request identified at the first guard that hands it on after it or an earlier one identified it |
| `AuthGuards.CountedExactlyWhen` | backend/src/middleware/auth.ts:52-182 | Over any sequence of guard calls on any requests, a request is counted at most once, and once if and only if some guard hands it on identified and the plan limit is valid at the first that does |
| `AuthGuards.RefusedSessionIsNotCounted` | backend/src/middleware/auth.ts:160-176 | A verified session that is not the admin's is identified, refused and not counted |
| `ApiKeyQuota.PeriodHoldsTheInstant` | backend/src/middleware/apiKeyQuota.ts:67-78 | The resolved period is one of the key's, and holds the instant if and only if the key existed then |
| `ApiKeyQuota.PeriodsTileTime` | backend/src/middleware/apiKeyQuota.ts:67-78 | Consecutive periods meet, and an instant lies in no period but the resolved one |
| `ApiKeyQuota.RowsArePeriods` | backend/src/middleware/apiKeyQuota.ts:93-99 | Two instants share a usage row if and only if one period holds both |
| `ApiKeyQuota.KeysNeverShareRows` | backend/src/middleware/apiKeyQuota.ts:95-96 | Different keys never share a row |
| `ApiKeyQuota.ApiKeyUsage.RecordApiKeyRequest` | backend/src/middleware/apiKeyQuota.ts:87-102 | The upsert adds one to the key's row of the current period, creates it at one, and touches no other |
| `ApiKeyQuota.ApiKeyUsage.ReadApiKeyUsage` | backend/src/middleware/apiKeyQuota.ts:109-120 | Reading reports the current counter and changes no row |
| `ApiKeyQuota.ApiKeyUsage.Middleware` | backend/src/middleware/apiKeyQuota.ts:130-176 | Passes without metering when there is no key or the store fails; otherwise admits exactly while the counter is within the plan's quota, and refuses with a wait that ends after the period, by less than two seconds |
| `ApiKeyQuota.CounterCountsIncrements` | backend/src/middleware/apiKeyQuota.ts:87-120 | A row counts exactly the increments of its own key and period |
| `ApiKeyQuota.PeriodAdmitsExactlyTheQuota` | backend/src/middleware/apiKeyQuota.ts:141-172 | For any interleaving with reads, other keys and other periods, exactly min(n, quota) of n requests are admitted |

## Left out

- Requests, responses, headers, logging, metrics and message texts: only decisions and state changes are modelled.
- Reading limits and quotas from the environment (`positiveInt`, `parseScopeQuotas`, `parsePlanQuotas` and the loaders): easy members; limits are arguments here.
- The byte limit of `payloadLimits` and its middleware wiring.
- Node's `net.isIP`, which is a function argument: the range theorems hold for any answer it gives.
- The bypass token's verification, trust proxy settings and everything cryptographic in the allowlist's file: whether a valid override was presented is an argument of the gate.
- Databases: a usage row is an atomic map entry, and a loan row is read and written by one audit at a time, so the sweep passes its handlers the row's current counts. Concurrent writers of one row are not modelled.
- `requireScopedApiKey` and `requireAnyApiKey` themselves: they only find a key.
- Verification of tokens and support sessions in `auth.ts`: its outcome is an argument. That a plan limit is an integer is assumed.
- Payments and fee waivers between audits: the run theorems of `RepaymentAudit` are about unpaid loans.
- A tenant plan or key quota that changes during a run: the exact counts per minute and period are for one limit, while the two `Middleware` methods take the limit of each call and `AnyMinutePermitsAtMost480` allows any.
- Row counts that are not finite numbers (`exportRateLimit.ts:80`): rows are integers.
- `localeCompare`, modelled as comparison by code unit; only its being a total order is used.
- The algorithm of `Array.prototype.sort`, modelled by insertion; `OrderIsUnique` shows that any algorithm gives the same list. The in-place update of the array is not captured.
- Floating-point rounding: averages are exact and fees are integers. Adding days in UTC is exact milliseconds.
- Mentions, audit entries, ownership checks and timestamps of comments: a listing may have any order.
- A comment's author and text of another type than string.
- UTF-8 validity of string bytes in JSON, and the requirement that objects have member names and arrays do not: the texts covered include all of RFC 8259 and some more.
- The rest of `loan.ts`, and the services and contracts behind these files.
