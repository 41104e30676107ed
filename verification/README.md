# Verified model of keymod

keymod is the runtime an agent uses to hold keys and secrets, to send requests with injected
credentials and to move money under a mandate. This project models its two crates, `mandate` and
`wallet`, in Dafny 4.11 and proves what they promise over all inputs, all backend replies, all
host failures and whole runs. Check it with `dafny verify dfyconfig.toml`.

| file | models |
|---|---|
| `Text.dfy` | `str::replace` and substring search |
| `Scanner.dfy`, `Substitution.dfy`, `Residue.dfy`, `Template.dfy` | finding placeholders and filling them in |
| `Scrub.dfy` | scrubbing secrets from responses |
| `Policy.dfy` | the policy engine, as functions on values and as a class proved against them |
| `Runs.dfy` | the events that make up runs of the engine |
| `Windows.dfy`, `Spending.dfy`, `Interleaving.dfy`, `Rates.dfy` | runs with a ledger of what they paid and which secrets they sent |
| `Lives.dfy` | runs across restarts, each of which begins with a new engine |
| `Destination.dfy` | the URL that is sent against the URL whose domain was checked |
| `Usdc.dfy` | the money parser |
| `Host.dfy`, `Wallet.dfy`, `Vault.dfy` | the host store, key persistence and the secret vault |
| `Hex.dfy` | hex text and the bytes it spells |
| `Backend.dfy`, `Mandate.dfy` | backend replies; initialization, transactions, requests |
| `Actions.dfy` | every operation of the module as one action, and what a restart forgets |
| `Lifetime.dfy` | whole lifetimes, with the books of what the actions paid and sent |
| `Instances.dfy` | a cipher and a codec that have the properties required of these parameters |

## Inputs from outside

* The clock, the backend's replies, the HTTP responder and the order of every hash map are
  arbitrary: parameters or nondeterministic choices.
* Randomness and host writes may fail at every call, and the store counts these failures, so that
  contracts can say what succeeds when none occurs. A failed write changes nothing; reads are
  faithful up to the 4096-byte buffer.
* Cipher, index codec, text decoding, signing and key-id derivation are parameters. Of the cipher
  only the round trip and the length of nonce and tag are required, of the codec the round trip and
  that dropping a name or re-encoding does not lengthen an index. `Instances.TagCipherIsSound` and
  `Instances.NameCodecIsSound` give instances.
* Machine sums wrap, as in the release build. `Width` selects wrapping or exact sums, so that both
  can be compared. Strings are ASCII, so byte and character offsets agree.

## Where the code does not do what its comments say

* `max_daily` is documented as a limit per 24-hour rolling window. The windows tumble: while the
  engine lives, some 24 hours can record exactly twice the limit, never more, whatever policies
  within that limit are adopted on the way. The documented promise holds exactly for a policy that
  allows nothing or expires within a day of the engine's start (`Spending.SlidingDayBound`,
  `Spending.TwiceTheLimitIsReached`, `Spending.RollingPromiseExactly`).
* The engine is kept in memory only, and the `daily_spent` that the backend reports is never read,
  so what was spent does not survive a restart. A day with r restarts can pay r + 2 limits, never
  more; twice the limit is the bound exactly for days without a restart (`Lives.PaymentsBound`,
  `Lives.PaymentsBoundIsReached`, `Lives.DayHoldsExactly`). Of any number of boots at one time, each
  that initializes pays up to the full limit again, and all do from a configuration that holds the
  keys (`Actions.PayEveryBoot`).
* A restart also forgets the calls that were counted and the rules for secrets, which initialization
  does not restore: until a policy is set again, a request to any URL succeeds exactly when its
  secrets can be retrieved (`Actions.CallAfterRestart`), and boots that set it each time can send a
  secret any number of times at one time, whatever its limits (`Actions.CallEveryBoot`).
* The check of the calldata is described as keeping payments from being redirected. It fixes the
  recipient that the calldata spells, and nothing else: what is signed is `user_op_hash`, which may
  be any 32 bytes whatever the calldata (`Backend.AcceptableExactly`,
  `Backend.AcceptedCalldataSpellsRecipient`, `Backend.SignedHashIsFree`).
* Substitution is described as replacing each placeholder by its value. It replaces one after the
  other in the whole text, so a value can complete a token that a later replace rewrites. It is
  simultaneous exactly when no value can share characters with another secret's token
  (`Substitution.SimultaneousExactly`), and leaves no placeholder exactly when all values are inert
  (`Residue.LeavesNoPlaceholderExactly`).
* Scrubbing is described as removing any occurrence of a secret. A pattern that lies inside the
  marker `[REDACTED]` survives every time, and one that overlaps its edge can, unless another
  pattern masks it (`Scrub.MaskedPattern`). If every pattern contains one that cannot overlap an
  edge, completeness holds exactly when none lies inside (`Scrub.CompleteExactly`); for one value
  see `Scrub.ShortValueCompleteExactly` and `Scrub.LongValueCompleteExactly`. Secrets without
  brackets that are not part of the word REDACTED, and if they have sixteen or more characters do not
  begin or end with it, leave no trace (`Mandate.BracketFreeIsSpotless`).
* Of all texts, the money parser reads correctly exactly those that it accepts, that have no plus
  sign among the first six characters of the fraction and only digits behind them, and whose
  micro-units fit 64 bits (`Usdc.ParsedCorrectlyExactly`). Others are accepted and misread: larger
  amounts wrap, characters after the sixth of the fraction are not looked at
  (`Usdc.FractionTailIsNotInspected`), and a plus sign behind the point counts as a zero, so that
  `1.+5` is 1.05 (`Usdc.PlusIsReadAsZero`, `Usdc.OnePlusFive`).
* The wrapping spending check decides as exact arithmetic in all reachable states exactly when the
  two limits together fit 64 bits or the policy has expired before the engine starts
  (`Spending.CheckNeverWrapsExactly`).
* A limit of zero calls lets the first call through, so a counter stays within its limit exactly
  when the limit is positive (`Rates.LimitsKeptExactly`). `rate_limit` is documented as the calls
  per minute. These windows tumble too, so without a restart every minute keeps it exactly when it
  is positive and at least twice the daily limit (`Rates.EveryMinuteKeptExactly`); with r restarts
  in the minute, exactly when it has room for r + 2 daily limits, or for r + 1 calls if the daily
  limit is zero. No limit is kept whatever the number of restarts (`Lives.MinuteHoldsExactly`).
* Allowed domains are looked for in the template's URL, with its placeholders. Braces apart, a
  domain that was found is in the URL that is sent exactly if it has some character that names
  cannot have, such as a point or a small letter (`Destinations.KeptInEveryUrlExactly`).
* A deposit can return true and lose data: a value over 4068 bytes is listed but unreadable, and an
  index over 4096 bytes hides every name. `Vault.DepositIsUpdateExactly` states when the map
  is updated.

## Model

| member | source | states |
|---|---|---|
| Text.ReplaceMatches | mandate/src/inject.rs:61 | The library's copying loop computes the recursive definition of replacement |
| Text.ReplaceAll | mandate/src/inject.rs:61 | The same for every pattern, the empty one included |
| Text.RewriteFirstMatch | mandate/src/inject.rs:61 | Replacement keeps the text before the leftmost match, puts the replacement for it, and goes on behind it |
| Text.RewriteAbsent | mandate/src/inject.rs:61 | Replacing what does not occur changes nothing |
| Text.RewriteChanges | mandate/src/inject.rs:61 | Replacing an occurring pattern by anything else changes the text |
| Text.ContainsExactly | mandate/src/policy.rs:129-141 | A text contains another exactly when it is that text with something before and something behind it |
| Scanner.HeadTokenExact | mandate/src/inject.rs:19-36 | A text starts with `{NAME}` exactly when NAME is made of capital letters, digits and underscores and does not begin with a digit; the longest-run reading finds it |
| Scanner.ParsePlaceholders | mandate/src/inject.rs:12-41 | The skipping, re-scanning loop returns the names of all tokens, and its inner loop advances at most as often as the text is long |
| Scanner.ScannerExact | mandate/src/inject.rs:10-49 | The result is duplicate-free, holds exactly the names, character by character of that grammar, that occur in braces anywhere, in order of first occurrence |
| Scanner.ScanIsUnique | mandate/src/inject.rs:10-41 | No other list meets that description |
| Substitution.Substitute | mandate/src/inject.rs:53-70 | Succeeds exactly when every placeholder has a secret; otherwise names the first one that has none |
| Substitution.ReplaceIsSinglePass | mandate/src/inject.rs:60-61 | Replacing one token everywhere is one left-to-right pass with that secret |
| Substitution.PassesCompose | mandate/src/inject.rs:57-67 | A pass followed by the replacement of one more token is a single pass over both, if no inserted value interacts with that token |
| Substitution.AnyOrderIsOnePass | mandate/src/inject.rs:57-67 | For compatible secrets the chain of global replaces, in any order of the names, is one simultaneous pass |
| Substitution.InteractionIsVisible | mandate/src/inject.rs:57-67 | If a value interacts with another secret's token, some template is not substituted simultaneously |
| Substitution.SimultaneousExactly | mandate/src/inject.rs:51-70 | All templates are substituted simultaneously if and only if the secrets are compatible |
| Residue.InertExactly | mandate/src/inject.rs:10-11 | The syntactic test for inert values is exactly "shares no characters with any token in any context" |
| Residue.LeavesNoPlaceholderExactly | mandate/src/inject.rs:51-70 | No substituted template holds a placeholder if and only if every value is inert |
| Residue.PlainValuesSubstituteCleanly | mandate/src/inject.rs:51-70 | Brace-free values with some character outside the name alphabet: simultaneous, and no placeholder is left |
| Residue.NestedTokenIsRewrittenTwice | mandate/src/inject.rs:57-67 | For all names a, b: in the template {{a}}{b} a value b of a is rewritten twice, so the condition is needed |
| Template.CollectAllPlaceholders | mandate/src/inject.rs:100-134 | Each name mentioned in URL, header names, header values or body, once, those of the URL first, whatever the header order |
| Template.MentionsExactly | mandate/src/inject.rs:100-134 | A template mentions exactly the names of the grammar that occur in braces in its URL, in the name or value of a header, or in its body |
| Template.SubstituteHeaders | mandate/src/inject.rs:143-148 | Headers are filled in exactly when all their names have secrets; every result header comes from some original one |
| Template.SubstituteTemplate | mandate/src/inject.rs:137-161 | Succeeds exactly when every mentioned name has a secret, and then every field is filled in |
| Template.HydratedMentionsNothing | mandate/src/inject.rs:137-161 | With inert secrets no field of the hydrated request mentions a placeholder |
| Scrub.ScrubResponse | mandate/src/inject.rs:75-92 | The loop over values redacts all of each value and then, from sixteen characters on, what is left of its first eight and its last eight |
| Scrub.RewriteLeavesOut | mandate/src/inject.rs:80-87 | A replace by the marker leaves none of its own pattern and brings back none that was gone |
| Scrub.ScrubIsComplete | mandate/src/inject.rs:72-92 | For every response and every order, all patterns are gone if each contains one of the list that shares no characters with the marker |
| Scrub.ScrubIsIdempotent | mandate/src/inject.rs:72-92 | Scrubbing again, in any order, changes nothing |
| Scrub.PatternInsideMarkerSurvives | mandate/src/inject.rs:80-87 | A pattern inside the marker is left in every response that held it |
| Scrub.CompleteExactly | mandate/src/inject.rs:72-92 | If each pattern contains one of the list that cannot overlap an edge of the marker: complete for all responses if and only if no pattern lies inside it |
| Scrub.BracketFreeCompleteExactly | mandate/src/inject.rs:72-92 | For patterns without brackets: complete if and only if none lies inside the word REDACTED |
| Scrub.ShortValueCompleteExactly | mandate/src/inject.rs:78-80 | One value below sixteen characters, brackets included, is replaced by `[REDACTED]` and is left in no response if and only if it is not empty and cannot survive its own replacement |
| Scrub.LongValueCompleteExactly | mandate/src/inject.rs:80-87 | Of one longer value whose first and last eight characters cannot overlap an edge of the marker, neither the value nor one of these ends is left in any response if and only if neither end lies inside `[REDACTED]`, whatever is between them |
| Scrub.MaskedPattern | mandate/src/inject.rs:78-87 | A list can be complete in either order although one of its patterns alone is not |
| Windows.SlidingBound | mandate/src/policy.rs:64-83 | In a ledger of tumbling windows every sliding interval of window length counts at most two caps |
| Policies.ResetTwice | mandate/src/policy.rs:65-83 | Resetting again at the same time changes nothing |
| Policies.PolicyEngine.constructor | mandate/src/policy.rs:44-52 | A new engine has spent nothing and starts its window at the given time |
| Policies.PolicyEngine.SetPolicy | mandate/src/policy.rs:55-57 | Only the policy changes |
| Policies.PolicyEngine.ResetIfNeeded | mandate/src/policy.rs:65-83 | The in-place loop over all usages restarts exactly the days that began 86400 and the minutes that began 60 seconds ago or earlier |
| Policies.PolicyEngine.CheckSpending | mandate/src/policy.rs:87-113 | The verdict of the specification, in the order expiry, per transaction, daily |
| Policies.PolicyEngine.RecordSpending | mandate/src/policy.rs:116-119 | Adds the amount to both counters, wrapping |
| Policies.PolicyEngine.CheckSecretUsage | mandate/src/policy.rs:122-160 | The verdict of the specification: unrestricted without entry, domains, then minute, then day |
| Policies.PolicyEngine.RecordSecretUsage | mandate/src/policy.rs:163-170 | Counts one call in a possibly new entry and changes no other |
| Runs.RecordAllCountsOnce | mandate/src/lib.rs:219-224 | Recording a request counts each of its distinct secrets once and no other |
| Runs.RequestOnlyResetsSpending | mandate/src/lib.rs:149-224 | To the spending counters a request is a reset at its time, or nothing when it has no placeholder |
| Spending.RunIsOfEngine | mandate/src/lib.rs:59-78 | Spending and calls run on one engine: the state of a spending run is that of the events |
| Rates.RunIsOfEngine | mandate/src/lib.rs:59-78 | and so is the state of a metered run of the same events |
| Spending.RunKeepsBooks | mandate/src/policy.rs:65-119 | Invariant of all runs with any requests and changes of policy: counters are ledger sums, windows do not overlap and none begins before the engine |
| Spending.CountersAreLedgerSums | mandate/src/policy.rs:116-119 | All-time total is the sum of all recorded amounts, today's spending that of the current window, bounded by the limit in force at the latest of them |
| Spending.PolicyChangesKeepSpending | mandate/src/policy.rs:55-57 | Any number of policy changes anywhere in a run leave counters, window and ledger as they were |
| Spending.LedgerOnlyGrows | mandate/src/policy.rs:115-119 | Nothing recorded is forgotten, whatever happens later, and the all-time total never falls |
| Spending.RunIsTumbling | mandate/src/policy.rs:65-119 | Through any changes of policy, each window records at most the largest daily limit adopted |
| Spending.EveryRecordWithinLimits | mandate/src/policy.rs:87-103 | Every record is a settled spend, within the transaction limit and before the expiry of the policy in force at that moment |
| Spending.SlidingDayBound | mandate/src/lib.rs:593-600 | Through any requests and changes of policy, any half-open 24 hours record at most twice the largest daily limit, and the first 24 hours of an engine at most once |
| Spending.FixedPolicyDayBound | mandate/src/policy.rs:105-110 | Under one policy the day's counter stays within the limit and every 24 hours within twice the limit |
| Spending.TwiceTheLimitIsReached | mandate/src/policy.rs:65-70 | For every policy with a positive transaction limit some run records exactly twice the limit within 24 hours |
| Spending.AcrossMidnightIsClocked | mandate/src/policy.rs:65-70 | That run has a non-decreasing clock and a fixed policy and ends with the first second of the second window |
| Spending.RollingPromiseExactly | mandate/src/types.rs:16-17 | The documented rolling window limit holds over all runs if and only if a limit is zero or the mandate expires before a second window can begin |
| Spending.MachineAgrees | mandate/src/policy.rs:67-119 | If the largest limits adopted fit 64 bits together, the wrapping engine keeps ledger, decisions and counters of exact arithmetic, the all-time total modulo 2^64 |
| Spending.MachineSlidingDayBound | mandate/src/policy.rs:65-119 | So the 24-hour bound and the counters as ledger sums hold of the wrapping engine, through requests and changes of policy |
| Spending.CheckNeverWrapsExactly | mandate/src/policy.rs:105 | The wrapping check agrees with the exact one in all reachable states if and only if both limits together fit 64 bits or the policy had expired when the engine started |
| Lives.RestartBound | mandate/src/lib.rs:44-78 | Over any lives one after the other, an interval holds what one life can put into it and one more cap for each restart in it, be it payments or calls |
| Lives.PaymentsBound | mandate/src/lib.rs:44-78 | So every 24 hours pay at most two limits and one more for each restart in them |
| Lives.PaymentsBoundIsReached | mandate/src/lib.rs:44-78 | For every r some lives with r restarts pay exactly r + 2 limits within 24 hours |
| Lives.DayHoldsExactly | mandate/src/lib.rs:44-78 | For days with r restarts, twice the limit is a bound if and only if r is zero or nothing is allowed |
| Lives.MinuteCallsBound | mandate/src/policy.rs:122-170 | If a secret is only called under rules within these limits, every minute holds at most twice the smaller limit and once more for each restart in it |
| Lives.DayCallsBound | mandate/src/policy.rs:122-170 | and every day at most twice the daily limit and once more for each restart in it |
| Lives.ZeroCallsBound | mandate/src/policy.rs:143-157 | With a limit of zero, one call and one for each restart |
| Lives.CallsBoundIsReached | mandate/src/policy.rs:143-170 | For positive limits and every r some lives with r restarts make r + 2 times as many calls as the smaller limit within one minute |
| Lives.OneCallForEveryLife | mandate/src/policy.rs:143-157 | Whatever the limits, r restarts let r + 1 calls through at one time |
| Lives.MinuteHoldsExactly | mandate/src/types.rs:26-27 | For every r, the limit per minute holds in all minutes with r restarts if and only if it is positive and has room for r + 2 daily limits, or for r + 1 calls if that is zero; never for all r |
| Lives.CallDayHoldsExactly | mandate/src/types.rs:28-29 | If the daily limit is positive and not the larger one: twice of it is a bound for days with r restarts if and only if r is zero |
| Interleaving.InterleavedBound | mandate/src/lib.rs:597-600 | Spent plus in flight stays within the daily limit plus k-1 times the most one flow can carry, in every interleaving of at most k flows with requests, resets and changes of policy anywhere between check and record |
| Interleaving.OvershootIsReached | mandate/src/lib.rs:708 | For every k and all positive limits some interleaving records exactly that bound |
| Interleaving.FlowAlone | mandate/src/lib.rs:593-708 | A flow that runs alone, begun and settled or aborted, is one step of the sequential runs |
| Interleaving.SequentialRun | mandate/src/lib.rs:593-708 | So every sequential run, with requests, resets and changes of policy, is an interleaving in which no two flows overlap |
| Rates.RateLimitsHold | mandate/src/lib.rs:149-224 | From any engine on and through changes of policy, as long as the policy in force at each call has an entry within these limits: a sliding minute holds at most twice the smaller, a sliding day twice the daily one, a zero limit one call ever; counters of a new secret stay within max(1, limit) |
| Rates.FirstLimitsHold | mandate/src/policy.rs:72-82 | A minute or day that begins no later than the engine holds at most the limit once |
| Rates.LimitsKeptExactly | mandate/src/policy.rs:143-157 | For every secret with an entry, no run counts more calls than the limit per minute if and only if that limit is positive; the same for the day |
| Rates.EveryMinuteKeptExactly | mandate/src/types.rs:26-27 | Within the life of one engine, no sliding minute holds more calls than the limit if and only if it is positive and at least twice the daily limit |
| Rates.TwiceTheCallsAreReached | mandate/src/policy.rs:72-82 | For every secret with an entry some run makes twice as many calls as the smaller limit within one minute |
| Rates.CallsOnlyToAllowedDomains | mandate/src/policy.rs:129-141 | Over all runs a secret is counted only for requests whose template URL the policy in force then allows |
| Destinations.KeptInEveryUrlExactly | mandate/src/lib.rs:149-201 | For domains without braces: filling in any URL with any secrets keeps a domain that was found in it if and only if it is empty or has a character that names cannot have |
| Destinations.SentWhereAllowed | mandate/src/lib.rs:149-201 | So an admitted request goes to a URL that holds an allowed domain of each of its secrets, if these domains have such characters |
| Rates.FirstCallIsLetThrough | mandate/src/policy.rs:143-157 | Whatever the limits, the first call of a secret to an allowed URL passes and is counted once |
| Usdc.ParseDecimal | mandate/src/lib.rs:467-503 | Digits on both sides of the point parse to the micro-units modulo 2^64; an integer part out of range is rejected |
| Usdc.MicrosIsFloor | mandate/src/lib.rs:486-502 | Micro-units are the floor of the exact value times 10^6 for parts of any length |
| Usdc.TrimExactly | mandate/src/lib.rs:468 | Trimming takes blanks, and all of them, from both ends of a text and nothing else |
| Usdc.SplitExactly | mandate/src/lib.rs:473-476 | A text is split at its first point; without a point all of it is the whole part |
| Usdc.NumeralExactly | mandate/src/lib.rs:478-498 | What parses as an integer, its size apart, are digits with an optional plus sign before them |
| Usdc.AcceptedExactly | mandate/src/lib.rs:467-503 | Of all texts, exactly which are accepted: of the fraction six characters are looked at, and they may begin with a plus sign |
| Usdc.ParsedCorrectlyExactly | mandate/src/lib.rs:465-503 | Of all texts, exactly which are read as the floor of their decimal value: accepted, no plus sign in the six characters, only digits behind them, and micro-units that fit 64 bits |
| Usdc.AmountAccepted | mandate/src/lib.rs:478-484 | A decimal number is rejected if and only if its integer part alone does not fit 64 bits |
| Usdc.PlusIsReadAsZero | mandate/src/lib.rs:490-500 | A plus sign behind the point is accepted and read as the digit zero, whatever digits follow |
| Usdc.OnePlusFive | mandate/src/lib.rs:490-500 | So 1.+5 is accepted as 1.05 |
| Usdc.PointIsOptional | mandate/src/lib.rs:473-476 | An integer parses like the same integer with a point behind it |
| Usdc.ParseIsMonotone | mandate/src/lib.rs:465-503 | A decimal of no larger value does not parse to more |
| Usdc.TrailingZerosIgnored | mandate/src/lib.rs:486-500 | Zeros at the end of the fraction change nothing |
| Usdc.ParseInvertsRender | mandate/src/lib.rs:465-503 | Parsing inverts the six-digit rendering of every 64-bit amount |
| Usdc.ParseInvertsDigits | mandate/src/lib.rs:511 | Parsing inverts the digits of every 64-bit integer |
| Usdc.FractionTailIsNotInspected | mandate/src/lib.rs:490-491 | Whatever follows six fractional digits is not looked at |
| Host.Cipher.DecryptInvertsEncrypt | mandate/src/secrets.rs:168-203 | Decryption undoes encryption and a blob is 28 bytes longer than its plaintext |
| Host.EntriesAreDistinct | wallet/src/lib.rs:181 | Worker, session, secret and reserved entries never share a key, whatever the suffix |
| Host.EntriesAreInjective | mandate/src/secrets.rs:122 | Different names have different entries |
| Host.HostStore.Read | wallet/src/lib.rs:119-134 | Entries over 4096 bytes read as absent |
| Host.HostStore.Write | wallet/src/lib.rs:137-150 | A write either stores the data or changes nothing and counts as a failure |
| Wallet.KeyWallet.InitMasterKey | wallet/src/lib.rs:172-197 | Succeeds exactly when no readable entry has the wrong length and no host call fails; takes a stored key of 32 bytes, writes only over an unreadable entry, and so at most once ever |
| Wallet.KeyWallet.PersistKey | wallet/src/lib.rs:200-207 | Exactly when a master key is cached and no host call fails, stores the key encrypted under the stored master key; otherwise changes nothing; other persisted keys stay readable |
| Wallet.KeyWallet.LoadKey | wallet/src/lib.rs:210-216 | Gives back the key last persisted under the id whenever its entry fits the buffer |
| Wallet.NoKeyEntryChanged | wallet/src/lib.rs:200-216 | Changes to the vault's entries do not affect master or persisted keys |
| Vault.SecretVault.constructor | mandate/src/secrets.rs:23-25 | A fresh vault over a used store is valid, so names and map are what they were |
| Vault.SecretVault.EnsureMasterKey | mandate/src/secrets.rs:37-59 | Succeeds exactly when no readable entry has the wrong length and no host call fails; generates a key only when none is readable, which never hides a listed secret |
| Vault.SecretVault.AddToIndex | mandate/src/secrets.rs:83-90 | Lists the name once unless the write fails, keeps the listing then, and hides all names when the index outgrows the buffer |
| Vault.SecretVault.Deposit | mandate/src/secrets.rs:108-133 | True exactly when the master key is usable and no host call fails; false leaves the map unchanged; true gives the exact map, also where value or index outgrow the buffer |
| Vault.SecretVault.Retrieve | mandate/src/secrets.rs:140-154 | Lookup in the map; the store does not change |
| Vault.SecretVault.Remove | mandate/src/secrets.rs:94-161 | True exactly when the name was listed and the write succeeds, and then it is deleted; false leaves the map unchanged |
| Vault.SecretVault.ListNames | mandate/src/secrets.rs:164-166 | The listed names, each once, among them all names of the map |
| Vault.DroppedExactly | mandate/src/secrets.rs:97-98 | Retaining the other names removes every occurrence of one name and nothing else |
| Vault.SecretsAfterDeposit | mandate/src/secrets.rs:115-132 | What can be read after entry and index were written |
| Vault.DepositIsUpdateExactly | mandate/src/secrets.rs:108-133 | That is the plain update if and only if the value has at most 4068 bytes and the index with the name at most 4096; a larger index hides all names, a larger value itself |
| Vault.Session | mandate/src/secrets.rs:37-166 | Any session of deposits, removals and restarts, any host call failing: which operations succeed and exactly what is listed and readable afterwards |
| Vault.SessionOnPlainMap | mandate/src/secrets.rs:37-166 | As long as values and lists of the names fit the buffer, that is the session on a plain map |
| Hex.HexDecodeExactly | mandate/src/lib.rs:642-660 | Decoding gives exactly the bytes that the text spells, two digits each, capital letters or not |
| Hex.DecodeInvertsEncode | mandate/src/lib.rs:642-660 | Decoding inverts encoding, in small letters and in capitals, for all bytes |
| Hex.IsHexExactly | mandate/src/lib.rs:642 | What can be decoded are the texts of pairs of the characters 0-9, a-f and A-F |
| Backend.AcceptableExactly | mandate/src/lib.rs:625-675 | Exactly which preparations are signed, by the text of the reply: no error status, success set, an id, a hash of 64 hex digits, and for a hex recipient calldata that spells it in characters 32 to 71, capital letters or not |
| Backend.AcceptedCalldataSpellsRecipient | mandate/src/lib.rs:637-666 | The calldata of an acceptable reply for a hex recipient, with or without 0x on either, spells that address digit by digit in bytes 16 to 35 |
| Backend.SomePreparation | mandate/src/lib.rs:625-675 | Whoever is to be paid, some preparation is acceptable |
| Backend.AnyHashIsAccepted | mandate/src/lib.rs:668-676 | An acceptable reply stays acceptable with any other 32-byte hash, which is then what is signed |
| Backend.SignedHashIsFree | mandate/src/lib.rs:637-676 | Whatever 32 bytes are to be signed, some acceptable reply with the same calldata has them signed |
| Mandate.Module.constructor | mandate/src/lib.rs:43-48 | A restarted instance holds no keys and no configuration and is valid over a used store |
| Mandate.Module.WithPolicyEngine | mandate/src/lib.rs:59-78 | An engine that does not exist yet starts without allowance at the caller's clock |
| Mandate.Module.GenerateKeys | mandate/src/lib.rs:293-324 | Succeeds exactly when the wallet is usable and no host call fails; then both held keys are persisted under the returned ids; on failure held keys stay |
| Mandate.Module.FindKey | mandate/src/lib.rs:365-385 | A held key stays; else the persisted key if there is one, the configured one if nothing is stored, and some 32-byte key whenever a valid one is configured |
| Mandate.HexKeyExactly | mandate/src/lib.rs:377-406 | A configuration holds exactly the 32-byte key that its hex text spells |
| Mandate.Module.LoadKeys | mandate/src/lib.rs:362-407 | The same for worker and session key, the latter only once the former is held |
| Mandate.Module.Init | mandate/src/lib.rs:353-450 | Exactly when it succeeds, which keys it restores from store or configuration even when it fails, and that the limits of the engine become those of the mandate, each from the field of its name, and nothing else changes |
| Mandate.Module.SpendingSummary | mandate/src/lib.rs:259-267 | Resets the engine, which it may have to create, and returns both counters |
| Mandate.Module.SetPolicy | mandate/src/lib.rs:237-248 | Only the policy changes |
| Mandate.Module.ReadPreparation | mandate/src/lib.rs:629-675 | Exactly when the reply is acceptable for the recipient, its transaction id and the 32 bytes that its hash spells |
| Mandate.Module.Converse | mandate/src/lib.rs:602-706 | The calls are a prefix of check, prepare, submit, record: prepared exactly if the check was answered below status 400, submitted exactly if the preparation is acceptable as well, recorded exactly if the submission was answered with a transaction hash |
| Mandate.AllCallsCarry | mandate/src/lib.rs:602-704 | What four calls carry: the amount to check, recipient and amount to prepare, transaction id and signature of the hash the preparation spells, the amount to record |
| Mandate.Module.PreFlight | mandate/src/lib.rs:576-600 | The local checks: succeeds exactly if initialized and the amount is a number within the limits, of an engine whose elapsed windows are restarted |
| Mandate.Module.TxFlow | mandate/src/lib.rs:570-711 | Calls begin exactly if the local checks pass and go on exactly as far as each reply allows; all four calls mean success; a refused check means one call and a reset; the engine takes the step of a settled or unsettled spend of the runs |
| Mandate.Module.CheckEach | mandate/src/lib.rs:149-163 | Separately locked checks admit the request exactly when every placeholder passes at that time |
| Mandate.Module.RetrieveSecrets | mandate/src/lib.rs:165-190 | All values as text, exactly when each can be retrieved and decoded |
| Mandate.Module.Hydrate | mandate/src/lib.rs:165-201 | Once every secret is retrieved, substitution cannot fail |
| Mandate.Module.RecordSecrets | mandate/src/lib.rs:219-224 | An admitted request takes the counting step of the runs |
| Mandate.ScrubAll | mandate/src/lib.rs:206-217 | Status, body and headers are those of the response with the patterns of all secrets redacted, the secrets in some order, each once |
| Mandate.ScrubHeaders | mandate/src/lib.rs:210-217 | Header names and values are redacted, and there are no other headers |
| Mandate.ScrubbedIsSpotless | mandate/src/lib.rs:206-217 | Of guarded secrets neither the value nor, from sixteen characters on, its first or last eight are then left in any field |
| Mandate.BracketFreeIsSpotless | mandate/src/lib.rs:206-217 | So for all secrets without brackets that are not part of the word REDACTED and, if long, do not begin or end with it |
| Mandate.Module.ExecuteRequest | mandate/src/lib.rs:132-234 | Succeeds exactly when admitted and all secrets are ready; sends the hydrated request then and only then; returns the scrubbed response to it; counts exactly the mentioned secrets |
| Mandate.Module.DepositSecret | mandate/src/lib.rs:102-104 | The vault's deposit with its exact outcome, leaving keys alone |
| Mandate.Module.RemoveSecret | mandate/src/lib.rs:108-110 | The vault's removal with its exact outcome, leaving keys alone |
| Actions.FirstBoot | mandate/src/lib.rs:43-48 | On a store nobody has written to a module starts valid and usable, with no key persisted and no secret |
| Actions.GenerateRestartInit | mandate/src/lib.rs:293-407 | Generate, restart, init with the returned ids restores exactly the generated keys, even if the backend refuses, and does so unless the host fails |
| Actions.InitAdopts | mandate/src/lib.rs:429-444 | For all 64-bit limits and expiry times: a mandate that writes them out makes exactly these the limits of the engine, and none or `null` means no expiry |
| Actions.Act | mandate/src/lib.rs:43-78 | Each operation is one event of the runs or none; a transaction pays exactly if the local checks pass and no reply refuses it, and stops at the first reply that does; keys are generated, secrets deposited and removed unless the host fails, and nothing else changes them |
| Lifetimes.Lifetime | mandate/src/lib.rs:43-48 | Over any operations, failures and restarts: counters are the sums of what transactions paid since the last start, 24 hours pay at most two limits and one more per restart, calls under rules likewise per minute and day; the engine knows the rules set since the last start; without host failures the vault keeps what deposits and removals say; held keys have 32 bytes, master keys are written at most once, persisted keys load |
| Actions.PayEveryBoot | mandate/src/lib.rs:59-78 | Of any number of boots at one time each one that initializes pays an amount up to the full limit again, and from a configuration with both keys all do |
| Actions.SomeUnopposedFlow | mandate/src/lib.rs:570-711 | There are such flows for every recipient and every amount within the limits |
| Actions.CallAfterRestart | mandate/src/lib.rs:59-78 | After a restart a request to any URL succeeds exactly when its secrets can be retrieved |
| Actions.CallEveryBoot | mandate/src/lib.rs:59-78 | Any number of boots at one time that set the same policy all send their request, whatever its limits on calls |

## Left out

- Scrub.CompleteExactly: does not cover lists in which a pattern can overlap an edge of the marker and contains no other pattern of the list that cannot; for one short value Scrub.ShortValueCompleteExactly does.
- Scrub.LongValueCompleteExactly: does not cover a long value with an end that can overlap an edge of the marker; there the replacements of both ends act on each other.
- Rates.TwiceTheCallsAreReached: shows the bound for sliding days reached only where the daily limit is the smaller one; with a larger one the calls of a day are also bounded by its minutes.
- Scrub.ScrubResponse: slices by character; the code slices by byte offset and needs the offsets to be character boundaries.
- Wallet.KeyWallet.PersistKey: a failing random source returns false here and aborts in the code.
- Mandate.Module.TxFlow: calls run one after the other here; Interleaving covers flows that overlap. A session key that is no valid curve scalar is not distinguished.
- Mandate.Module.Init: fetching and decoding the backend's mandate is one optional input; `daily_spent` is not used by the engine.
- Lifetimes.Lifetime: interleaves whole calls, as the single-threaded module does, not their statements.
- Cryptographic primitives, HTTP, header signing and nonces, JSON and the wasm boundary: libraries and plumbing, parameters here.
- UTF-8: strings are ASCII; Unicode white space around an amount is not trimmed.
- Domain matching beyond substring containment, the answer of `policy::check`, sign and verify exports and the in-memory key store of the wallet: one branch each.
- Error message texts and ISO dates, which the code does not parse either.
