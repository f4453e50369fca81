# CrptApi client core, modelled in Dafny

`CrptApi` is a Java client for the "Chestny ZNAK" (CRPT) goods-marking API.
It creates "introduction of goods" documents. This project models the three
parts of `src/main/java/com/example/crpt/CrptApi.java` that carry logic:

- **The sliding-window rate limiter** (`RateLimiter`). This is a deque of
  admission instants.
  - `trim(now)` evicts the head entries whose age `now - ts` is at least one
    window.
  - One pass of `acquire()` admits the caller when fewer than `limit` entries
    remain. Otherwise it computes how long to park:
    `windowNanos - (now - oldest)`.
  - The model is the class `RateLimiting.RateLimiter`. Its ledger is a
    `seq<int>` field that the methods reassign.
  - A ghost history of every admission carries the limiter's promise: at most
    `limit` admissions in any window-long interval. That promise is proved in
    module `Ledger` (sorted, spaced histories), which also holds the pure
    facts about `trim`.
- **Client-side validation** (`validateInputs`, `isBlank`, `isValidDate`).
  - The document and its products are datatypes whose fields are `Option`s
    (Java `null`).
  - `Validation.ValidateInputs` walks the same checks in the same order. It
    appends the same messages and fails with the same text.
  - Its result is tied to the rule predicate `Conforms` and to the list of
    violations `Violations`.
- **Response helpers** (`parseErrorMessage`, `ensureNoTrailingSlash`), as
  functions in module `Responses`.

The JDK behaviour these depend on is written out in module `JavaString`:

- `String.trim()` strips characters up to U+0020;
- `String.isBlank()` uses `Character.isWhitespace`;
- the regular-expression subset `\d{n}` and literal characters;
- `Integer.toString` of a non-negative index;
- `String.join`.

The clock is a parameter. `now` (one pass) and `readings` (the values
`System.nanoTime()` returns to successive passes of `acquire()`) are passed
in. Whether the signature decodes as Base64 is the parameter `decodes`.

## Model

| member | source | states |
|---|---|---|
| RateLimiting.NanosIn | src/main/java/com/example/crpt/CrptApi.java:418 | the window is `unit.toNanos(1)`, a positive number of nanoseconds for every unit |
| RateLimiting.RateLimiter.Create | src/main/java/com/example/crpt/CrptApi.java:410-419 | a limit <= 0 is refused first, then a missing unit; otherwise the limiter is new, holds `limit`, has a window of one unit, and has an empty ledger and history, consistent with every clock reading |
| RateLimiting.RateLimiter.constructor | src/main/java/com/example/crpt/CrptApi.java:417-419 | stores the limit and window and starts with an empty deque |
| RateLimiting.RateLimiter.Trim | src/main/java/com/example/crpt/CrptApi.java:446-460 | the new deque is the old one with its expired head removed (`Ledger.Trimmed`); the signal is raised exactly when something was removed; size bound and soundness are kept |
| RateLimiting.RateLimiter.TryAcquire | src/main/java/com/example/crpt/CrptApi.java:428-438 | admitted exactly when fewer than `limit` entries survive trimming; then exactly `now` is appended and nothing else changes; otherwise the wait is `windowNanos - (now - oldest)`; under a consistent clock the wait lies in (0, window], the retry branch cannot occur, and every window-long interval holds at most `limit` admissions |
| RateLimiting.RateLimiter.Acquire | src/main/java/com/example/crpt/CrptApi.java:424-444 | over non-decreasing clock readings, the caller is granted exactly when some reading finds the ledger, trimmed at that reading, below `limit`; the grant happens at the first such reading (`Ledger.FirstRoom`), the ledger is then the original ledger trimmed at it plus that reading, and the history gains exactly that admission; with no grant nothing is recorded, the ledger is the original one trimmed at the last reading, and every reading lies within one window of the first; the ledger stays consistent with the last reading, and no window-long interval of the history holds more than `limit` admissions |
| RateLimiting.RateLimiter.Pass | src/main/java/com/example/crpt/CrptApi.java:428-432 | one pass of the loop on a ledger that is `base` trimmed at an earlier reading: trimming at `now` gives the same ledger as trimming the old one at `now`; the caller is granted exactly when fewer than `limit` entries remain, in which case exactly `now` is appended to the ledger and the history; otherwise the ledger is just the trimmed one and the history is unchanged |
| Ledger.RefusedPass | src/main/java/com/example/crpt/CrptApi.java:429-438 | a pass that finds the trimmed ledger full leaves no entry later than a reading `t` that no entry was later than, and can only happen less than one window after `t` |
| Ledger.TrimmedTwice | src/main/java/com/example/crpt/CrptApi.java:428-429 | trimming at one reading and then at a later one is the same as trimming at the later one alone, so successive passes compose |
| Ledger.FirstRoom | src/main/java/com/example/crpt/CrptApi.java:427-432 | the first reading (from a given position on) at which the trimmed ledger holds fewer than `limit` entries, or the number of readings when there is none; at the index it returns there is room |
| Ledger.FirstRoomFullBefore | src/main/java/com/example/crpt/CrptApi.java:427-438 | every reading before the one `FirstRoom` returns found the trimmed ledger full |
| Ledger.NoRoomWithinWindow | src/main/java/com/example/crpt/CrptApi.java:427-438 | when no reading finds room, every reading lies less than one window after the first |
| Ledger.SoundAfterLaterTrim | src/main/java/com/example/crpt/CrptApi.java:427-438 | a caller refused at every reading leaves the ledger trimmed at the last reading, consistent with the history at that reading |
| Ledger.SoundAfterGrant | src/main/java/com/example/crpt/CrptApi.java:427-432 | a grant at a reading between the first and the last leaves the ledger, trimmed at that reading and extended by it, consistent with the extended history at the last reading |
| Ledger.SoundBoundsWindows | src/main/java/com/example/crpt/CrptApi.java:399-403 | a ledger consistent with its history implies that every window-long interval of the history holds at most `limit` admissions |
| Ledger.Trimmed | src/main/java/com/example/crpt/CrptApi.java:448-456 | the trimmed deque is no longer, and its head is not expired |
| Ledger.Expired | src/main/java/com/example/crpt/CrptApi.java:450 | an entry has expired when its age `now - ts` is at least the window; an age equal to the window counts as expired (defined, no contract of its own; used by `Trimmed` and `TrimmedDropsOnlyExpired`) |
| Ledger.TrimmedIsTail | src/main/java/com/example/crpt/CrptApi.java:448-456 | trimming removes a prefix only: the survivors are a suffix, order unchanged |
| Ledger.TrimmedDropsOnlyExpired | src/main/java/com/example/crpt/CrptApi.java:450-452 | every removed entry had age >= window (equal age counts as expired) |
| Ledger.TrimmedIsLongestExpiredPrefix | src/main/java/com/example/crpt/CrptApi.java:448-456 | trimming stops at the first entry younger than the window: the result is exactly the suffix after the longest expired prefix |
| Ledger.TrimmedLeavesOnlyLive | src/main/java/com/example/crpt/CrptApi.java:446-456 | on a sorted deque the survivors stay sorted and every one is younger than the window |
| Ledger.TrimmedIdempotent | src/main/java/com/example/crpt/CrptApi.java:446-456 | trimming twice at the same instant is trimming once |
| Ledger.TrimmedAllExpired | src/main/java/com/example/crpt/CrptApi.java:448-456 | when every entry is expired the deque empties |
| Ledger.TrimmedAfterFullWindow | src/main/java/com/example/crpt/CrptApi.java:448-456 | a full window after the newest entry, the deque is empty |
| Ledger.WaitWithinWindow | src/main/java/com/example/crpt/CrptApi.java:434-438 | with no entry in the future, the computed wait satisfies 0 < wait <= window |
| Ledger.SoundAfterTrim | src/main/java/com/example/crpt/CrptApi.java:446-456 | trimming keeps the ledger consistent with the admission history |
| Ledger.SoundAfterAdmit | src/main/java/com/example/crpt/CrptApi.java:430-432 | appending `now` to a non-full trimmed ledger keeps history and ledger sorted and bounded by `limit`, and keeps any `limit` consecutive admissions a full window apart |
| Ledger.SoundLater | src/main/java/com/example/crpt/CrptApi.java:428 | consistency survives the clock moving forward |
| Ledger.SoundLedgerSorted | src/main/java/com/example/crpt/CrptApi.java:431 | a ledger consistent with its history is non-decreasing, so appending `now` keeps the deque in chronological order |
| Ledger.TailOfTail | src/main/java/com/example/crpt/CrptApi.java:451 | removing from the head of a suffix leaves a suffix |
| Ledger.NotAfterTail | src/main/java/com/example/crpt/CrptApi.java:451 | a suffix of a ledger without future entries has none either |
| Ledger.CountWithinAppend | src/main/java/com/example/crpt/CrptApi.java:431 | admissions counted in an interval add up over concatenated histories |
| Ledger.CountWithinNoneReached | src/main/java/com/example/crpt/CrptApi.java:431 | an interval ending before every admission counts none |
| Ledger.CountWithin | src/main/java/com/example/crpt/CrptApi.java:399 | the number of admissions in an interval `[start, start + window)` is at most the number of admissions |
| Ledger.AtMostLimitPerWindow | src/main/java/com/example/crpt/CrptApi.java:399-403 | for a sorted, spaced history, any interval one window long contains at most `limit` admissions |
| JavaString.Trim | src/main/java/com/example/crpt/CrptApi.java:258 | `trim()` never lengthens a string, and a non-empty result starts and ends with a character above U+0020 |
| JavaString.StripLeading | src/main/java/com/example/crpt/CrptApi.java:258 | the leading part of `trim()`: the result starts with a character above U+0020, or is empty |
| JavaString.StripTrailing | src/main/java/com/example/crpt/CrptApi.java:258 | the trailing part of `trim()`: the result is a prefix that ends with a character above U+0020, or is empty |
| JavaString.TrimEmptyIffAllTrimmable | src/main/java/com/example/crpt/CrptApi.java:258 | `s.trim().isEmpty()` holds exactly when every character is at most U+0020 |
| JavaString.StripLeadingEmpty | src/main/java/com/example/crpt/CrptApi.java:258 | the leading strip empties a string exactly when every character is at most U+0020 |
| JavaString.StripTrailingKeepsHead | src/main/java/com/example/crpt/CrptApi.java:258 | the trailing strip cannot empty a string that starts with a character above U+0020 |
| JavaString.LeadingWhitespace | src/main/java/com/example/crpt/CrptApi.java:150 | the run of `Character.isWhitespace` characters at the front is no longer than the string |
| JavaString.IsWhitespace | src/main/java/com/example/crpt/CrptApi.java:150 | `Character.isWhitespace`: U+0009-U+000D, U+001C-U+0020, U+1680, U+2000-U+2006, U+2008-U+200A, U+2028, U+2029, U+205F and U+3000, without the no-break spaces (defined, no contract of its own; used by `IsBlankString`) |
| JavaString.IsBlankString | src/main/java/com/example/crpt/CrptApi.java:150 | `String.isBlank()`: the run of leading `Character.isWhitespace` characters covers the whole string (defined, no contract of its own; characterised by `BlankStringIffAllWhitespace`) |
| JavaString.BlankStringIffAllWhitespace | src/main/java/com/example/crpt/CrptApi.java:150 | `String.isBlank()` holds exactly when every character is whitespace |
| JavaString.DigitChar | src/main/java/com/example/crpt/CrptApi.java:232 | a digit value below 10 is printed as a character '0'..'9' |
| JavaString.DigitValue | src/main/java/com/example/crpt/CrptApi.java:232 | each decimal digit character has one digit value, and it maps back to that character |
| JavaString.Decimal | src/main/java/com/example/crpt/CrptApi.java:232 | an index is printed as a non-empty string of decimal digits |
| JavaString.DecimalRoundTrip | src/main/java/com/example/crpt/CrptApi.java:232 | reading the printed index back gives the index; it has no leading zero unless it is 0 |
| JavaString.Join | src/main/java/com/example/crpt/CrptApi.java:253 | no parts join to the empty string, and one part joins to itself |
| JavaString.JoinAppend | src/main/java/com/example/crpt/CrptApi.java:253 | joining two non-empty lists of parts one after the other is joining each and putting one separator between the results |
| Validation.IsBlank | src/main/java/com/example/crpt/CrptApi.java:257-259 | `isBlank(s)`: `s` is null or made only of characters up to U+0020 (defined, no contract of its own; characterised by `BlankIffTrimEmpty`) |
| Validation.BlankIffTrimEmpty | src/main/java/com/example/crpt/CrptApi.java:257-259 | `isBlank(s)` is `s == null` or `s.trim().isEmpty()` |
| Validation.IsValidDate | src/main/java/com/example/crpt/CrptApi.java:261-264 | `isValidDate(s)`: `s` matches `\\d{4}-\\d{2}-\\d{2}` (defined, no contract of its own; characterised by `ValidDateIffShape`) |
| Validation.ValidDateIffShape | src/main/java/com/example/crpt/CrptApi.java:261-264 | `s.matches("\\d{4}-\\d{2}-\\d{2}")` holds exactly when `s` has 10 characters, '-' at positions 4 and 7, and decimal digits everywhere else |
| JavaString.Matches | src/main/java/com/example/crpt/CrptApi.java:263 | `String.matches` for a concatenation of fixed repetitions: the whole string must be consumed by the pattern (defined, no contract of its own; characterised for the date pattern by `ValidDateIffShape`) |
| Validation.AddIf | src/main/java/com/example/crpt/CrptApi.java:194-196 | `if (c) errors.add(v)` grows the list by one exactly when `c` holds |
| Validation.Message | src/main/java/com/example/crpt/CrptApi.java:195-246 | the exact text `validateInputs` adds for each violation, with product indices printed in decimal (defined, no contract of its own; used through `Messages`) |
| Validation.Messages | src/main/java/com/example/crpt/CrptApi.java:193-247 | one message per violation |
| Validation.HeaderChecks | src/main/java/com/example/crpt/CrptApi.java:194-205 | the product-group and signature checks never shorten the list of violations |
| Validation.FieldChecks | src/main/java/com/example/crpt/CrptApi.java:209-225 | the checks on the document's own fields never shorten the list of violations |
| Validation.DocumentChecks | src/main/java/com/example/crpt/CrptApi.java:206-251 | the document checks never shorten the list of violations |
| Validation.ProductChecks | src/main/java/com/example/crpt/CrptApi.java:231-247 | the checks on one product never shorten the list; a null product appends exactly its "must not be null" violation and nothing else |
| Validation.ProductListChecks | src/main/java/com/example/crpt/CrptApi.java:229-249 | the loop over the products never shortens the list of violations |
| Validation.ProductChecksPassIff | src/main/java/com/example/crpt/CrptApi.java:231-247 | one product adds no message exactly when it is non-null, has a TN VED code, has a UIT or UITU code, and has well-formed dates where dates are given |
| Validation.ProductListChecksPassIff | src/main/java/com/example/crpt/CrptApi.java:229-249 | the loop over the products adds no message exactly when every product conforms |
| Validation.ProductChecksAppend | src/main/java/com/example/crpt/CrptApi.java:231-247 | which violations one product contributes does not depend on what was found before |
| Validation.ProductChecksNameIt | src/main/java/com/example/crpt/CrptApi.java:231-247 | every violation a product contributes names that product's own index |
| Validation.ProductListChecksMembers | src/main/java/com/example/crpt/CrptApi.java:229-249 | a violation that names a product is in the result exactly when it was there before the loop or the product at that index has it, so each product's violations are reported under its own index and no others |
| Validation.DescribesMessages | src/main/java/com/example/crpt/CrptApi.java:193-247 | an error list that holds, position by position, each violation's message is the list of messages of the violations |
| Validation.Violations | src/main/java/com/example/crpt/CrptApi.java:193-251 | the whole list of violations `validateInputs` finds, header checks first, then the document checks (defined, no contract of its own; characterised by `ViolationsEmptyIffConforms` and the `ProductListChecks` lemmas, and tied to `ValidateInputs`) |
| Validation.ViolationsEmptyIffConforms | src/main/java/com/example/crpt/CrptApi.java:192-251 | no violation is found exactly when all the rules hold |
| Validation.ValidateInputs | src/main/java/com/example/crpt/CrptApi.java:192-255 | fails exactly when some rule is violated; the failure text is "Validation failed: " followed by the messages of all violations, in the order they are checked, joined by "; " |
| Validation.FailureText | src/main/java/com/example/crpt/CrptApi.java:253 | the exception text: "Validation failed: " followed by the messages joined by "; " (defined, no contract of its own) |
| Validation.FailureTextAppend | src/main/java/com/example/crpt/CrptApi.java:253 | each further message lengthens the text by "; " and that message, so the text lists the messages in the order they were added |
| Validation.CheckHeader | src/main/java/com/example/crpt/CrptApi.java:194-205 | the product-group and signature checks record exactly `HeaderChecks` |
| Validation.CheckDocument | src/main/java/com/example/crpt/CrptApi.java:206-251 | the document checks, including the loop over the products, record exactly `DocumentChecks` |
| Validation.CheckFields | src/main/java/com/example/crpt/CrptApi.java:209-225 | the checks on the document's own fields record exactly `FieldChecks` |
| Validation.CheckProduct | src/main/java/com/example/crpt/CrptApi.java:231-248 | one pass of the product loop records exactly `ProductChecks`; a null product records only its own message |
| Validation.Add | src/main/java/com/example/crpt/CrptApi.java:195 | `errors.add(...)` appends the violation's message, keeping messages and violations in step |
| Responses.Abbreviate | src/main/java/com/example/crpt/CrptApi.java:164 | a body of at most 500 characters is kept whole; a longer one becomes its first 500 characters followed by U+2026 |
| Responses.Usable | src/main/java/com/example/crpt/CrptApi.java:155 | the guard `s != null && !s.isBlank()`, by `Character.isWhitespace` (defined, no contract of its own; used by `ParseErrorMessage` and its lemmas) |
| Responses.AbbreviateBounded | src/main/java/com/example/crpt/CrptApi.java:164 | the result has at most 501 characters and starts with the body (up to the cut) |
| Responses.AbbreviateIdempotent | src/main/java/com/example/crpt/CrptApi.java:164 | cutting an already cut body changes nothing |
| Responses.ParseErrorMessage | src/main/java/com/example/crpt/CrptApi.java:149-165 | a missing or blank body gives "Empty response"; a non-blank body that Jackson cannot read gives the cut body; otherwise the result is the cut body or one of the two message fields |
| Responses.CamelCaseWins | src/main/java/com/example/crpt/CrptApi.java:155-157 | a usable `errorMessage` is the result, whatever `error_message` holds |
| Responses.SnakeCaseOnlyAsFallback | src/main/java/com/example/crpt/CrptApi.java:155-160 | a usable `error_message` is the result exactly when `errorMessage` is not usable |
| Responses.NoUsableFieldFallsBack | src/main/java/com/example/crpt/CrptApi.java:153-164 | an error object with neither field usable gives the cut body, the same result as a body Jackson cannot read |
| Responses.ParseErrorMessageNeverBlank | src/main/java/com/example/crpt/CrptApi.java:149-165 | the exception always gets a message that is not blank, so in particular not empty |
| Responses.EnsureNoTrailingSlash | src/main/java/com/example/crpt/CrptApi.java:167-169 | the URL is unchanged, or it loses exactly one final '/'; it changes exactly when it ends with '/' |
| Responses.DropsOneSlash | src/main/java/com/example/crpt/CrptApi.java:167-169 | of a URL ending in "//", exactly one slash is removed |
| Responses.NoSlashFixed | src/main/java/com/example/crpt/CrptApi.java:167-169 | a URL that does not end with '/' is left alone |

## Left out

- Locking, the fair `ReentrantLock`, the `slotFreed` condition (`awaitNanos`, `signalAll`) and `InterruptedException`: these exist only for concurrency. `Trim` returns the "signal the waiters" decision as a boolean. Parking is the `Wait` outcome, after which the next clock reading is taken.
- `System.nanoTime()`: the clock value is a parameter.
- RateLimiting.RateLimiter.Acquire: the `for (;;)` loop is unbounded. The model follows it over a finite list of clock readings, one per pass, and returns `None` when the list runs out. It also requires those readings to be non-decreasing and the ledger to be consistent with the first of them, as `System.nanoTime()` guarantees within one JVM. `TryAcquire` makes no such assumption; it models the `waitNanos <= 0` branch as `Retry`. It describes a caller whose passes are not interleaved with other callers': `awaitNanos` at line 439 releases the lock, so other threads may trim or admit between two passes, and then the grant at the first reading with room and the final ledger no longer follow from the original ledger alone. What still holds under contention is `TryAcquire`'s contract for each single pass.
- Java `long` wrap-around in `now - ts` and in `windowNanos - (now - oldest)`: instants are unbounded integers.
- `TimeUnit.toNanos` saturation: `Days` and smaller units all fit in a `long`, so none happens.
- Base64 decoding of the signature: `Base64.getDecoder().decode` belongs to the JDK. Whether it throws is the function parameter `decodes`.
- The HTTP request and response handling, `URLEncoder`, `URI.resolve`, Jackson (de)serialisation, Base64 encoding of the product document, the 2xx branch and `UUID.fromString`.
- Responses.ParseErrorMessage: whether Jackson can read the body as an `ErrorResponse` is a parameter (`None` means it threw `IOException`). The JSON parsing itself is not modelled.
- Responses.ParseErrorMessage: a body that is the JSON literal `null` makes Jackson's `readValue` return `null` instead of throwing, so line 155 dereferences `null` and the `NullPointerException` escapes: the `catch` at line 161 only handles `IOException`. The `parsed` parameter has no value for this outcome, so the model cannot express that path; it only covers bodies that Jackson reads as an object or rejects with `IOException`.
- `TokenProvider`, `FixedTokenProvider`, the `Builder` and the `ProductGroup` constants: they hold no logic.
- Strings are sequences of Unicode scalar values, not UTF-16 code units. `body.length()` and `substring(0, 500)` count code units in Java, so for text outside the Basic Multilingual Plane the length at the cut and the 500-unit boundary are not modelled.
- Characters U+0000-U+0008 and U+000E-U+001B count as whitespace for `trim()` but not for `Character.isWhitespace`. Both rules are modelled as the source uses them (`trim` in `isBlank`, `String.isBlank` in `parseErrorMessage`); the model does not reconcile them.
