# Barcode screen view model in Dafny

This project models `BarcodeScreenViewModel`, the view model of a SwiftUI barcode screen. The view model has three fields:

- `barcodeResponse`: the optional barcode on display.
- `isLoadingBarcode`: the loading flag.
- `isUsingPayPayPoints`: a user preference that the toggle writes.

Its `binding()` does two things. It fetches the barcode once. It also watches the preference through `dropFirst().removeDuplicates()`. Each value that passes the filter is submitted to the repository, and the barcode is then fetched again.

The model is a sequential state machine made of pure functions:

- **`types.dfy` (`BarcodeTypes`)**:
  - the response value;
  - the outcomes of fetches and submits;
  - the repository as an oracle, which gives the answer to the n-th fetch and the n-th submit;
  - the view model's fields;
  - the calls made on the repository.

  A fetch call records the view-model fields as they stand while the fetch is suspended.
- **`publisher.dfy` (`Publisher`)**: the event filter as sequence functions (`DropFirst`, `RemoveDuplicates`, `Changes`). It includes a reference characterisation of duplicate removal (`StutterOf` together with `NoAdjacentDuplicates`) and a change counter (`CountChanges`).
- **`view_model.dfy` (`BarcodeScreen`)**:
  - `getBarcode` and `toggleUsingPayPayPoints`;
  - one write to the preference, which goes through the filter and may trigger a reaction;
  - `binding()` as a fold over a sequence of writes (`Run`).
- **`binding.dfy` (`BindingLoop`)**: `binding()` as the loop that handles the writes one at a time (`Binding`). Its loop invariant is that it has computed the fold `Run` for the writes handled so far.
- **`protocol.dfy` (`BindingProtocol`)**: whole-session properties:
  - the order of calls;
  - the loading flag;
  - the displayed response;
  - call counts;
  - the effect of the filter.
- **`scenarios.dfy` (`BarcodeScenarios`)**: the unit-test scenarios, stated for a test double that gives the same answer to every fetch.

Schedule: `binding()` subscribes to the preference and completes the initial fetch. Each write is then handled to completion before the next one. The repository, the clock and the Swift scheduler are inputs or are left out; see below.

## Filter behaviour
The filter applies `dropFirst` before `removeDuplicates` (`LearnSwiftUI/ContentView.swift:84-85`). `dropFirst` consumes the value present when `binding()` subscribes, so `removeDuplicates` never sees it. As a result the first write is always passed on, even when it equals that starting value. Every later write is passed on exactly when it differs from the write before it.

- `FirstWriteOfCurrentValueReacts` exhibits the first-write case.
- `SubmitCount` gives the exact count: one reaction per write that differs from the value before it, plus one when the first write repeats the starting value.

The duplicate-removal stage is idempotent (`RemoveDuplicatesIdempotent`). The whole filter is not: applying it again drops one more value (`ChangesTwice`).

## Model
| member | source | states |
|---|---|---|
| BarcodeTypes.Initial | LearnSwiftUI/ContentView.swift:47-49 | a new view model displays nothing, is not loading, and has the preference off |
| BarcodeScreen.GetBarcode | LearnSwiftUI/ContentView.swift:57-65 | the flag is up while the repository is asked and always down afterwards; success stores exactly the returned response; failure keeps the old one; exactly one fetch call is added and nothing else changes |
| BarcodeScreen.SubmitPreference | LearnSwiftUI/ContentView.swift:68-72 | one submit call carrying the value is added; the fields do not depend on what the submit answers |
| BarcodeScreen.ToggleUsingPayPayPoints | LearnSwiftUI/ContentView.swift:67-74 | one reaction is exactly one submit carrying the value, immediately followed by exactly one fetch made with the flag up; the flag ends down |
| BarcodeScreen.Write | LearnSwiftUI/ContentView.swift:83-89 | a write sets the preference; a repeat of the value received last causes no call and leaves the display unchanged; any other value is submitted and fetched once |
| BarcodeScreen.Start | LearnSwiftUI/ContentView.swift:77-84 | the session begins with exactly one fetch and no submit; the starting preference is consumed by dropFirst |
| BarcodeScreen.WriteCounts | LearnSwiftUI/ContentView.swift:85-89 | a write adds one submit of its value and one fetch when the filter passes it, and no call otherwise |
| BarcodeScreen.Run | LearnSwiftUI/ContentView.swift:76-93 | the writes are handled in order, each after the earlier ones; after any writes, the flag is down, the preference is the last write, and the filter remembers the last write |
| BarcodeScreen.RunCounts | LearnSwiftUI/ContentView.swift:77-90 | the submitted values are exactly the writes with repeats of the previous write removed, in order, and there is one more fetch than submits |
| BarcodeScreen.WriteKeepsCounts | LearnSwiftUI/ContentView.swift:85-89 | one write keeps the submits equal to the filtered writes and the fetches one ahead of the submits |
| BindingLoop.Binding | LearnSwiftUI/ContentView.swift:76-93 | the loop that handles one reaction at a time computes the same session as the fold `Run`, and ends with the flag down, the preference at the last write, the filtered writes submitted in order, each submit followed by a fetch made with the flag up, and the last successful answer on display |
| Publisher.DropFirst | LearnSwiftUI/ContentView.swift:84 | the first emitted value followed by the result gives back the stream |
| Publisher.RemoveDuplicates | LearnSwiftUI/ContentView.swift:85 | `removeDuplicates()` over a stream; its own contract bounds the output by the input length, and which values pass is stated by `RemoveDuplicatesAppend` and `RemoveDuplicatesCharacterization` |
| Publisher.Changes | LearnSwiftUI/ContentView.swift:83-86 | the whole filter, `dropFirst()` then `removeDuplicates()`, over the stream the preference publishes; on a non-empty stream its output is strictly shorter, because the value present at subscription is never passed on |
| Publisher.RemoveDuplicatesShape | LearnSwiftUI/ContentView.swift:85 | the output has no adjacent duplicates, is no longer than the input, is empty only for an empty input, and keeps the input's first and last values |
| Publisher.RemoveDuplicatesAppend | LearnSwiftUI/ContentView.swift:85 | a new value is passed exactly when it differs from the value received before it |
| Publisher.RemoveDuplicatesStutters | LearnSwiftUI/ContentView.swift:85 | the output keeps the input's order and one value per run of equal values |
| Publisher.StutterDeterminesRemoveDuplicates | LearnSwiftUI/ContentView.swift:85 | any duplicate-free run-collapse of the input is exactly the output |
| Publisher.RemoveDuplicatesCharacterization | LearnSwiftUI/ContentView.swift:85 | the output equals r if and only if r has no adjacent duplicates and collapses the input run by run |
| Publisher.RemoveDuplicatesLength | LearnSwiftUI/ContentView.swift:85 | one value is passed for the first element and one for every change of value |
| Publisher.RemoveDuplicatesKeepsDistinct | LearnSwiftUI/ContentView.swift:85 | a stream without adjacent duplicates passes unchanged |
| Publisher.RemoveDuplicatesIdempotent | LearnSwiftUI/ContentView.swift:85 | removing duplicates twice is the same as once |
| Publisher.ChangesIgnoreCurrentValue | LearnSwiftUI/ContentView.swift:83-85 | the value present at subscription never reaches the reaction task; only the writes are filtered |
| Publisher.ChangesTwice | LearnSwiftUI/ContentView.swift:84-85 | the duplicate-removal stage is idempotent on the filter's output; the whole filter applied again drops one more value |
| Publisher.RemoveDuplicatesLengthAfter | LearnSwiftUI/ContentView.swift:83-85 | duplicate removal over the writes passes one value per change of value in the starting value followed by the writes, plus one when the first write repeats the starting value |
| Publisher.ChangesLength | LearnSwiftUI/ContentView.swift:83-85 | the number of values received is the number of writes that differ from their predecessor, plus one if the first write repeats the starting value |
| BindingProtocol.WriteExtendsAlternates | LearnSwiftUI/ContentView.swift:85-90 | a write appends a submit-and-fetch pair exactly when the filter passes it, and leaves earlier calls in place |
| BindingProtocol.WriteKeepsAlternating | LearnSwiftUI/ContentView.swift:85-90 | one write keeps the calls alternating between submits and fetches, with the submits being the submitted values |
| BindingProtocol.CallsAlternate | LearnSwiftUI/ContentView.swift:67-74 | every session's calls are one fetch, then a submit-and-fetch pair for each submitted value, in submission order |
| BindingProtocol.SubmittedAreChanges | LearnSwiftUI/ContentView.swift:83-89 | the submitted values are the filter's output for the starting value followed by the writes |
| BindingProtocol.CallOrder | LearnSwiftUI/ContentView.swift:77-90 | the calls are the initial fetch, then one submit of each filtered write in write order, each followed immediately by a fetch |
| BindingProtocol.AlternatesCounts | LearnSwiftUI/ContentView.swift:67-74 | that call pattern has one more fetch than submits, and the submitted values are exactly the received ones |
| BindingProtocol.WriteKeepsFetchesSawLoading | LearnSwiftUI/ContentView.swift:58-61 | a write adds only fetches made with the flag up, and does not change earlier calls |
| BindingProtocol.LoadingDuringEveryFetch | LearnSwiftUI/ContentView.swift:58-61 | every fetch of a session is made while the flag is up, and the flag is down when the session's work is done |
| BindingProtocol.WriteKeepsLatestResponse | LearnSwiftUI/ContentView.swift:60-64 | after a write, the displayed response is still the last successful fetch's answer |
| BindingProtocol.ResponseIsLatestSuccess | LearnSwiftUI/ContentView.swift:60-64 | the displayed response is the last successful fetch's answer, or the starting one if every fetch failed |
| BindingProtocol.SubmitFailuresIgnored | LearnSwiftUI/ContentView.swift:68-73 | two repositories that answer fetches alike give identical sessions, whatever their submits answer |
| BindingProtocol.WriteIgnoresSubmitAnswers | LearnSwiftUI/ContentView.swift:68-73 | one write gives the same session for two repositories that answer fetches alike |
| BindingProtocol.RepeatedWriteIsSwallowed | LearnSwiftUI/ContentView.swift:85 | writing the value written last changes nothing: no call and no field change |
| BindingProtocol.DistinctWriteReacts | LearnSwiftUI/ContentView.swift:85-89 | writing a value that differs from the last write submits it and adds exactly one fetch |
| BindingProtocol.SubmitCount | LearnSwiftUI/ContentView.swift:83-85 | the numbers of submits and re-fetches are counted against the writes, including the extra reaction for a first write that repeats the starting value |
| BindingProtocol.FirstWriteOfCurrentValueReacts | LearnSwiftUI/ContentView.swift:83-85 | the starting value alone causes no submit, but a first write of that same value is submitted and fetched |
| BindingProtocol.LastSubmitIsFinalPreference | LearnSwiftUI/ContentView.swift:85-89 | after any writes, the last submitted value is the preference's final value |
| BarcodeScenarios.MockRepository | LearnSwiftUITests/LearnSwiftUITests.swift:79-93 | the test double gives the same answer to every fetch |
| BarcodeScenarios.ToggleOnceShowsBarcode | LearnSwiftUITests/LearnSwiftUITests.swift:12-28 | binding and one toggle to true give two fetches, one submit, and "barcode" on display |
| BarcodeScenarios.LoadingFlagAroundInitialFetch | LearnSwiftUITests/LearnSwiftUITests.swift:32-50 | the flag is up during the initial fetch and down afterwards |
| BarcodeScenarios.NoWritesFetchesOnce | LearnSwiftUITests/LearnSwiftUITests.swift:60-62 | without writes there is one fetch and no submit, and the preference stays false |
| BarcodeScenarios.EachToggleFetchesOnceMore | LearnSwiftUITests/LearnSwiftUITests.swift:64-68 | toggling to true and then to false gives two and then three fetches, and submits true before false |
| BarcodeScenarios.FailingFetchesDisplayNothing | LearnSwiftUITests/LearnSwiftUITests.swift:73 | when every fetch fails, nothing is ever displayed and the flag still comes down |

## Left out
- The SwiftUI view and its preview (`LearnSwiftUI/ContentView.swift:3-19`): presentation only.
- `DefaultBarcodeRepository` (`LearnSwiftUI/ContentView.swift:30-42`): random sleeps and a static counter. Any repository, including that one, is an instance of the oracle `Repository`.
- The task group and main-actor scheduling (`LearnSwiftUI/ContentView.swift:77-92`). In the source, the initial fetch and the first reaction can interleave, and their flag and response writes follow last-write-wins. The model runs the initial fetch first and each reaction to completion before the next write.
- BindingProtocol.LoadingDuringEveryFetch: states the loading flag only for this sequential schedule. Under interleaving, one task's deferred reset can lower the flag while the other task's fetch is still in flight, so the source gives no such promise in that case.
- The demand and buffering mechanics of Combine's `@Published` publisher and its `.values` sequence. The model assumes every value that passes the filter is delivered, in write order.
- Cancellation and the end of a session. A session ends after the given writes. The `for await` loop in the source never finishes on its own, so the tests that wait for `binding()` to return would wait forever. This covers `await task.value` at `LearnSwiftUITests/LearnSwiftUITests.swift:48`, which waits on the task started at :38, so the assertion at :49 is never reached. It also covers `await sut.binding()` at `LearnSwiftUITests/LearnSwiftUITests.swift:60`. The scenarios state what those tests assert about the session after the given writes.
- Publisher.RemoveDuplicates: the function's own contract states only the length bound. The rule for which values pass is in the lemmas `RemoveDuplicatesAppend`, `RemoveDuplicatesShape` and `RemoveDuplicatesCharacterization`, not in the function's contract, so that proofs which only mention the function stay cheap for the verifier.
- Error values: a thrown error is modelled only as a failed outcome, because both call sites discard it.
