# CrptApi admission gate, in Dafny

`CrptApi` lets many threads submit product-registration documents to a remote API
while keeping at most `requestLimit` requests inside each time window. Each call to
`createDocumentToSendInSalesProductMadeInRussia` does four things in order:

1. It serializes the document to JSON.
2. It builds a signed POST request.
3. It spins on a synchronized check-and-increment of the shared `requestCounter` until it is admitted.
4. It sends the request and waits for the response.

A `java.util.Timer` task sets the counter back to zero once per window.

This project models that core and proves properties of the model:

- `java_int.dfy`: the Java `int`. It is a 32-bit newtype with two's-complement wrap-around (`Wrap`) and the `31 * result + h` step of every `hashCode` (`Mix`).
- `throttling.dfy`: the gate.
  - The first part is a specification on traces of atomic events: `Admit` is one pass through the synchronized block, and `Reset` is one run of the timer task.
  - The second part is the class `RateGate` with fields `count` and `limit`. It keeps a ghost history of the events it has taken. `Valid()` ties `count` to the count the trace specification computes for that history.
- `requests.dfy`: `makeSignedRequest`, as a record of URI, method, headers in the order they are added, and body.
- `crpt_api.dfy`: the submit path.
  - The JSON serializer and the HTTP transport are function parameters that may fail.
  - The `while (true)` loop is `AwaitAdmission`. It runs against a finite schedule `timerFired`: before attempt `i`, the timer task resets the counter exactly when `timerFired[i]` holds.
- `documents.dfy`: the three value classes with their hand-written `equals` and `hashCode`.
  - A `null` field is `None`.
  - The `equals`/`hashCode` of `String`, `LocalDate` and `Boolean` are parameters (a `Library`). Only the general contract of `Object.equals`/`Object.hashCode` is assumed of them, and value equality where that is stated.
- `wrappers.dfy`: `Option` and `Result`.

Four behaviours of the code shape the model:

- **The limit is not validated.** The constructor does not check the limit. Any `int` limit is accepted, and a limit of zero or below admits nothing, ever (`Capacity(limit)` is `max(limit, 0)`). The window is one unit of the given `TimeUnit`, in whole milliseconds (`timeUnit.toMillis(1)`), and the first reset fires immediately. For a unit finer than a millisecond that period is 0, and `Timer.scheduleAtFixedRate` rejects it, so construction throws.
- **Busy-spin, no shutdown.** A waiting caller spins on the lock rather than blocking, and the gate has no shutdown or "closed" signal. A caller that is never admitted spins forever. The model marks this as `StillWaiting` when a finite timer schedule runs out.
- **The reset is not under the gate's lock.** `requestCounter.set(0)` runs outside `synchronized`, so the reset can land between another thread's check and its increment. `ResetBetweenCheckAndIncrement` shows that this leaves the same counter and the same admissions as a reset followed by the attempt.
- **The caller waits for the response.** After admission the caller blocks on `CompletableFuture.get()` until the response arrives. Transport failures come back as exceptions, after the admission has been consumed.

## Model

| member | source | states |
|---|---|---|
| Throttling.Step | src/main/java/com/test/CrptApi.java:65-70 | One atomic event. An attempt admits exactly when the counter is below the limit, and then raises it by exactly one; a refused attempt leaves it unchanged. A reset (line 88) sets it to 0 and admits nothing |
| Throttling.RateGate.constructor | src/main/java/com/test/CrptApi.java:23-33 | A new gate has counter 0, keeps the limit it was given, has an empty history and satisfies the gate invariant |
| Throttling.RateGate.TryAdmit | src/main/java/com/test/CrptApi.java:65-70 | The synchronized step admits exactly when the old counter is below the limit. On admission the counter rises by one; otherwise it is unchanged. One `Admit` is appended to the history, its outcome is the returned flag, and `0 <= count <= max(limit, 0)` still holds |
| Throttling.RateGate.Reset | src/main/java/com/test/CrptApi.java:85-91 | The timer task sets the counter to 0 whatever it was, appends one `Reset` that admits nothing, and keeps the gate invariant |
| Throttling.CountStaysInRange | src/main/java/com/test/CrptApi.java:63-72 | From a counter in `[0, max(limit, 0)]`, any trace of admits and resets keeps the counter in that range |
| Throttling.RunAppend | src/main/java/com/test/CrptApi.java:63-72 | Running two traces one after the other gives the same counter and the same per-event outcomes as running their concatenation |
| Throttling.RunSnoc | src/main/java/com/test/CrptApi.java:65-70 | One more event at the end of a trace moves the counter by that event's step, and adds that step's outcome |
| Throttling.AdmissionsRaiseCount | src/main/java/com/test/CrptApi.java:66-67 | Without resets, the counter grows by exactly the number of admissions, and those never exceed the room left below the limit |
| Throttling.WindowBound | src/main/java/com/test/CrptApi.java:63-72 | In any stretch of a run from a fresh gate that contains no reset, at most `max(limit, 0)` attempts are admitted |
| Throttling.BetweenResets | src/main/java/com/test/CrptApi.java:63-72 | Between two consecutive resets, at most `max(limit, 0)` attempts are admitted |
| Throttling.NonPositiveLimitNeverAdmits | src/main/java/com/test/CrptApi.java:66 | With a limit of zero or below, no event of any run from a fresh gate admits a request |
| Throttling.AttemptsFrom | src/main/java/com/test/CrptApi.java:66-67 | Of `n` consecutive attempts from counter `c`, exactly the first `max(limit, 0) - c` succeed and all later ones fail. The counter ends at `c + min(n, max(limit, 0) - c)` |
| Throttling.FreshWindow | src/main/java/com/test/CrptApi.java:88 | After a reset, from any counter value, the next `max(limit, 0)` attempts succeed and every further attempt before the next reset fails |
| Throttling.ResetBetweenCheckAndIncrement | src/main/java/com/test/CrptApi.java:66-67 | A reset landing between a successful check and its increment leaves the counter at 1, as a reset followed by a whole attempt does, and only the attempt admits |
| Throttling.NoSuccesses | src/main/java/com/test/CrptApi.java:63-72 | A run records zero admissions exactly when none of its outcomes is an admission |
| Requests.MakeSignedRequest | src/main/java/com/test/CrptApi.java:44-51 | The request is a POST to the push URI `https://postman-echo.com/post` (line 555). Its `Content-type` header reads `Application/json`, its `Authorization` header reads `"Bearer " + signToken`, the token can be read back from that header, and the body is the payload unchanged |
| Requests.StripPrefix | src/main/java/com/test/CrptApi.java:48 | Removing the `"Bearer "` scheme succeeds exactly when the value starts with it, and gives back what follows it |
| Requests.SignedRequestInjective | src/main/java/com/test/CrptApi.java:44-51 | Two signed requests are equal exactly when their bodies and their tokens are equal |
| CrptApi.TurnRun | src/main/java/com/test/CrptApi.java:64-71 | One turn of the spin loop (an optional reset, then an attempt) admits exactly when the counter after the optional reset is below the limit, and then admits exactly once |
| CrptApi.SpinStep | src/main/java/com/test/CrptApi.java:64-71 | For a caller not yet admitted, one more turn extends the steps taken by the schedule's next turn. The caller is then admitted exactly when the counter after the optional reset was below the limit. If it is, the run holds exactly one admission, at its last step; if not, it holds none |
| CrptApi.SpinFinish | src/main/java/com/test/CrptApi.java:64-71 | When the loop stops, the history it left extends the old one by a prefix of the scheduled steps. When not admitted, that prefix is the whole schedule. When admitted, it holds exactly one admission and ends with it |
| CrptApi.SpinRunUnique | src/main/java/com/test/CrptApi.java:64-71 | The loop's postcondition fixes its result: two spins from the same history, counter and schedule take the same steps and both are admitted or both are not. So the loop stops at the first admitting turn (line 68) |
| CrptApi.AdmittedPrefixesAgree | src/main/java/com/test/CrptApi.java:66-68 | Two prefixes of one run that each admit exactly once, at their last step, are the same prefix |
| Throttling.LaterAdmissionCounts | src/main/java/com/test/CrptApi.java:66-67 | A run that extends a shorter one and ends with an admission has strictly more admissions than the shorter one |
| CrptApi.AwaitAdmission | src/main/java/com/test/CrptApi.java:63-72 | The spin loop returns admitted exactly when some scheduled turn admits. It stops at the first admission and takes exactly one admission then, or takes every scheduled step and none. The gate invariant holds throughout |
| CrptApi.Submit | src/main/java/com/test/CrptApi.java:35-42 | A serialization failure is reported before the gate is touched: counter and history are unchanged and no request exists. Otherwise the signed request with the serialized body is built, the caller spins on the gate, and only after admission is that request handed to the transport once. Its response or failure is reported, and a failed send keeps the admission |
| JavaInt.Wrap | src/main/java/com/test/CrptApi.java:318 | The wrapped value is congruent to the exact value modulo 2^32 and equals it when it fits in 32 bits |
| JavaInt.Mix | src/main/java/com/test/CrptApi.java:318 | `31 * result + h` in Java `int` arithmetic: congruent to the exact value modulo 2^32, and equal to it when no overflow occurs |
| Documents.FieldEquals | src/main/java/com/test/CrptApi.java:294-312 | The null-safe comparison `a != null ? a.equals(b) : b == null`. A null field equals only a null field, on either side; two non-null fields are compared with their class's `equals` |
| Documents.FieldHash | src/main/java/com/test/CrptApi.java:317-329 | The null-safe `a != null ? a.hashCode() : 0`: a null field hashes to 0 |
| Documents.DescriptionEquals | src/main/java/com/test/CrptApi.java:363-371 | `Description.equals` is false for a null argument, and when it holds, `participantInn` is null in both or in neither |
| Documents.DescriptionHash | src/main/java/com/test/CrptApi.java:373-376 | `Description.hashCode` is 0 when `participantInn` is null |
| Documents.ProductEquals | src/main/java/com/test/CrptApi.java:515-534 | `Product.equals` is false for a null argument, and when it holds, each of the nine fields is null in both or in neither |
| Documents.DocumentEquals | src/main/java/com/test/CrptApi.java:289-313 | The document's `equals` is false for a null argument, and when it holds, each of the thirteen fields is null in both or in neither |
| Documents.ListEquals | src/main/java/com/test/CrptApi.java:310 | `List<Product>.equals`, as `products.equals` uses it: when it holds, the lists have the same length and each element is null in both or in neither |
| Documents.ListHash | src/main/java/com/test/CrptApi.java:327 | `List<Product>.hashCode`, as `products.hashCode()` uses it: the `31 * h + e` fold over the element hashes starting from 1, a null element hashing to 0 |
| Documents.FieldLaws | src/main/java/com/test/CrptApi.java:294-312 | The null-safe comparison and hash of a field keep reflexivity, symmetry, transitivity and equal-hash-for-equal of the field's class |
| Documents.HashFoldIsPolynomial | src/main/java/com/test/CrptApi.java:316-331 | The `31 * result + h` fold over the field hashes equals the base-31 polynomial of those hashes, reduced to 32 bits with wrap-around |
| Documents.HashFoldOfNine | src/main/java/com/test/CrptApi.java:537-548 | Folding nine field hashes is the nine-step accumulation of `hashCode` |
| Documents.HashFoldOfThirteen | src/main/java/com/test/CrptApi.java:316-331 | Folding thirteen field hashes is the thirteen-step accumulation of `hashCode` |
| Documents.DescriptionLaws | src/main/java/com/test/CrptApi.java:363-376 | `Description.equals`/`hashCode` keep the general contract when `String`'s do |
| Documents.ProductLaws | src/main/java/com/test/CrptApi.java:515-548 | `Product.equals`/`hashCode` keep the general contract when `String`'s and `LocalDate`'s do |
| Documents.ProductHashCode | src/main/java/com/test/CrptApi.java:537-548 | The step-by-step accumulation into `result` yields the fold of the nine field hashes in declaration order, `0` standing for a null field |
| Documents.ListEqualsPointwise | src/main/java/com/test/CrptApi.java:310 | `List<Product>.equals` holds exactly when both lists have the same length and the elements are pairwise equal, a null element equal only to null |
| Documents.ListLaws | src/main/java/com/test/CrptApi.java:327 | `List<Product>.equals`/`hashCode` keep the general contract when `Product`'s do |
| Documents.DocumentHashCode | src/main/java/com/test/CrptApi.java:316-331 | The step-by-step accumulation into `result` yields the fold of the thirteen field hashes in declaration order, `0` standing for a null field |
| Documents.DocumentReflexive | src/main/java/com/test/CrptApi.java:289-313 | The document's `equals` is reflexive when the library classes keep the general contract |
| Documents.DocumentSymmetric | src/main/java/com/test/CrptApi.java:289-313 | The document's `equals` is symmetric when the library classes keep the general contract |
| Documents.DocumentTransitive | src/main/java/com/test/CrptApi.java:289-313 | The document's `equals` is transitive when the library classes keep the general contract |
| Documents.DocumentHashAgrees | src/main/java/com/test/CrptApi.java:315-331 | Documents that are `equals` have the same `hashCode` when the library classes keep the general contract |
| Documents.DocumentLaws | src/main/java/com/test/CrptApi.java:289-331 | The document's `equals`/`hashCode` keep the general contract when `String`'s, `LocalDate`'s and `Boolean`'s do |
| Documents.EqualsContract | src/main/java/com/test/CrptApi.java:289-331 | The three `equals` methods are false for a null argument (lines 292, 366, 518). When the library classes keep the general contract, all three classes keep it: reflexive, symmetric, transitive, and equal objects have equal hash codes |
| Documents.EqualsIsValueEquality | src/main/java/com/test/CrptApi.java:289-313 | When `String`, `LocalDate` and `Boolean` compare by value, the document's `equals` holds exactly between documents whose fields are all equal |

## Left out

- HTTP transport (`HttpClient.send`, `CompletableFuture.supplyAsync`, `.get()`, lines 53-61 and 74-83): network I/O and asynchronous execution. The transport is a function parameter of `Submit`, called once after admission. The exceptions those lines wrap into `RuntimeException` (I/O or interruption, and `ExecutionException`) are its failure value.
- `HttpRequest` header validation: the model does not capture `HttpRequest.Builder` rejecting a header value (a token with a newline, say), which throws `IllegalArgumentException` before the gate is touched. Header lookup in the model is case-sensitive, while `HttpHeaders` lookup is case-insensitive.
- `Timer.scheduleAtFixedRate` and `TimeUnit.toMillis(1)` (line 32): real-time scheduling. The timer is only the `Reset` event. In `AwaitAdmission` it is a schedule of booleans, one per turn, saying whether the reset fired before that attempt.
- Thread interleaving, `volatile`, and the fairness and liveness of the `while (true)` loop (line 64): concurrency. The synchronized block is one atomic step. The trace lemmas hold for any interleaving of admits and resets from all threads. `AwaitAdmission` sees only one caller's attempts and the timer's resets.
- AwaitAdmission: a caller that is never admitted spins forever in the source. The model's loop is bounded by a finite schedule of timer firings and reports `StillWaiting` when the schedule runs out.
- Jackson serialization, its annotations and the `yyyy-MM-dd` format of `LocalDate` (line 37 and the field annotations): a foreign library. The serializer is a function parameter of `Submit` that may fail.
- Getters and setters of the three value classes: boilerplate with no logic.
- `System.err.println("Sent")` (line 77): console I/O.
- The `this == o` shortcut and the `getClass()` check of the three `equals` methods: the model compares values of one type, so an argument of another class is not expressible. A `null` argument is `None`.
- A `null` `requestLimit`: unboxing it at line 66 throws `NullPointerException`. The model's limit is an `int32`, which cannot be null.
- A `null` `signToken`: line 48 then builds the header `"Bearer null"`. The model's token is a `string`, which cannot be null.
- A `TimeUnit` finer than a millisecond: `timeUnit.toMillis(1)` is then 0, and `Timer.scheduleAtFixedRate` at line 32 throws `IllegalArgumentException` for a period that is not positive, so the constructor fails. The model's constructor has no time unit and always succeeds.
- `Main.java`: a demo driver that starts threads against the gate, with no logic of its own.
