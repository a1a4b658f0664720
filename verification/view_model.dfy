/** The barcode screen's view model as a sequential state machine. A session
    is the view model's fields, the memory of the reaction task's filter, and
    the calls made on the repository so far. The initial fetch runs first and
    every write to the preference is handled to completion, in order. */
module BarcodeScreen {
  import opened BarcodeTypes
  import opened Publisher

  /** `upstream` is what `removeDuplicates()` last received (after
      `dropFirst()` has consumed the value present at subscription); `None`
      until the first write. */
  datatype Session = Session(vm: ViewModel, upstream: Option<bool>, calls: seq<Call>)

  /** The number of `getBarcode` calls in `calls`. */
  function FetchCount(calls: seq<Call>): nat
    decreases |calls|
  {
    if calls == [] then 0
    else FetchCount(DropLast(calls)) + (if Last(calls).Fetch? then 1 else 0)
  }

  /** The values carried by the `toggleUsingPayPayPoints` calls in `calls`, in call order. */
  function Submitted(calls: seq<Call>): seq<bool>
    decreases |calls|
  {
    if calls == [] then []
    else Submitted(DropLast(calls)) + (if Last(calls).Submit? then [Last(calls).value] else [])
  }

  lemma FetchCountAppend(calls: seq<Call>, call: Call)
    ensures FetchCount(calls + [call]) == FetchCount(calls) + (if call.Fetch? then 1 else 0)
  {
    assert DropLast(calls + [call]) == calls;
  }

  lemma SubmittedAppend(calls: seq<Call>, call: Call)
    ensures Submitted(calls + [call]) == Submitted(calls) + (if call.Submit? then [call.value] else [])
  {
    assert DropLast(calls + [call]) == calls;
  }

  /** `getBarcode`: raise the loading flag, ask the repository (which sees
      the fields with the flag up), store the response on success and keep the
      old one on failure, and lower the flag on both paths (the deferred reset). */
  function GetBarcode(s: Session, repo: Repository): (r: Session)
    ensures r.calls == s.calls + [Fetch(s.vm.(isLoadingBarcode := true))]
    ensures !r.vm.isLoadingBarcode
    ensures repo.getBarcode(FetchCount(s.calls)).Fetched? ==>
              r.vm.barcodeResponse == Some(repo.getBarcode(FetchCount(s.calls)).response)
    ensures repo.getBarcode(FetchCount(s.calls)).FetchFailed? ==>
              r.vm.barcodeResponse == s.vm.barcodeResponse
    ensures r.vm.isUsingPayPayPoints == s.vm.isUsingPayPayPoints && r.upstream == s.upstream
  {
    var loading := s.vm.(isLoadingBarcode := true);
    var stored :=
      match repo.getBarcode(FetchCount(s.calls))
      case Fetched(response) => loading.(barcodeResponse := Some(response))
      case FetchFailed => loading;
    Session(stored.(isLoadingBarcode := false), s.upstream, s.calls + [Fetch(loading)])
  }

  /** The submit half of `toggleUsingPayPayPoints`: one call carrying `value`;
      an error it throws is caught and discarded. */
  function SubmitPreference(s: Session, repo: Repository, value: bool): (r: Session)
    ensures r.vm == s.vm && r.upstream == s.upstream
    ensures r.calls == s.calls + [Submit(value)]
  {
    var submitted := s.(calls := s.calls + [Submit(value)]);
    match repo.toggleUsingPayPayPoints(|Submitted(s.calls)|, value)
    case Accepted => submitted
    case Rejected => submitted
  }

  /** `toggleUsingPayPayPoints`: the reaction to one filtered value. Exactly
      one submit carrying `value`, then exactly one fetch made with the flag
      up, whatever the submit answered; the fetch's answer is handled as in
      `GetBarcode` and the flag ends down. */
  function ToggleUsingPayPayPoints(s: Session, repo: Repository, value: bool): (r: Session)
    ensures r.calls == s.calls + [Submit(value), Fetch(s.vm.(isLoadingBarcode := true))]
    ensures !r.vm.isLoadingBarcode
    ensures repo.getBarcode(FetchCount(s.calls)).Fetched? ==>
              r.vm.barcodeResponse == Some(repo.getBarcode(FetchCount(s.calls)).response)
    ensures repo.getBarcode(FetchCount(s.calls)).FetchFailed? ==>
              r.vm.barcodeResponse == s.vm.barcodeResponse
    ensures r.vm.isUsingPayPayPoints == s.vm.isUsingPayPayPoints && r.upstream == s.upstream
  {
    var submitted := SubmitPreference(s, repo, value);
    FetchCountAppend(s.calls, Submit(value));
    GetBarcode(submitted, repo)
  }

  /** The presentation layer writes `value` to `isUsingPayPayPoints`; the
      publisher emits it, `removeDuplicates()` passes it unless it equals the
      value it received last, and a passed value is reacted to at once. */
  function Write(s: Session, repo: Repository, value: bool): (r: Session)
    ensures r.vm.isUsingPayPayPoints == value && r.upstream == Some(value)
    ensures s.upstream == Some(value) ==> r.calls == s.calls && r.vm == s.vm.(isUsingPayPayPoints := value)
    ensures s.upstream != Some(value) ==>
              r.calls == s.calls + [Submit(value), Fetch(s.vm.(isLoadingBarcode := true, isUsingPayPayPoints := value))]
    ensures !s.vm.isLoadingBarcode ==> !r.vm.isLoadingBarcode
  {
    var written := s.(vm := s.vm.(isUsingPayPayPoints := value), upstream := Some(value));
    if s.upstream == Some(value) then written
    else ToggleUsingPayPayPoints(written, repo, value)
  }

  /** What one write adds to the submitted values and to the fetch count. */
  lemma WriteCounts(s: Session, repo: Repository, value: bool)
    ensures Submitted(Write(s, repo, value).calls)
         == if s.upstream == Some(value) then Submitted(s.calls) else Submitted(s.calls) + [value]
    ensures FetchCount(Write(s, repo, value).calls)
         == if s.upstream == Some(value) then FetchCount(s.calls) else FetchCount(s.calls) + 1
  {
    if s.upstream != Some(value) {
      var r := Write(s, repo, value);
      var submit := Submit(value);
      var fetch := r.calls[|s.calls| + 1];
      assert r.calls == (s.calls + [submit]) + [fetch];
      SubmittedAppend(s.calls, submit);
      SubmittedAppend(s.calls + [submit], fetch);
      FetchCountAppend(s.calls, submit);
      FetchCountAppend(s.calls + [submit], fetch);
    }
  }

  /** The session right after `binding()` starts from fields `vm`: the
      reaction task has subscribed (dropFirst consumed the current value) and
      the initial fetch has completed. */
  function Start(repo: Repository, vm: ViewModel): (r: Session)
    ensures r.calls == [Fetch(vm.(isLoadingBarcode := true))]
    ensures r.upstream.None? && !r.vm.isLoadingBarcode
    ensures r.vm.isUsingPayPayPoints == vm.isUsingPayPayPoints
  {
    GetBarcode(Session(vm, None, []), repo)
  }

  /** `binding()` started from fields `vm`, followed by `writes` to the
      preference, each handled before the next. */
  function Run(repo: Repository, vm: ViewModel, writes: seq<bool>): (r: Session)
    ensures !r.vm.isLoadingBarcode
    ensures r.vm.isUsingPayPayPoints == if writes == [] then vm.isUsingPayPayPoints else Last(writes)
    ensures r.upstream == if writes == [] then None else Some(Last(writes))
    decreases |writes|
  {
    if writes == [] then Start(repo, vm)
    else Write(Run(repo, vm, DropLast(writes)), repo, Last(writes))
  }

  /** Handling one more write is one more step of the fold. */
  lemma RunAppend(repo: Repository, vm: ViewModel, writes: seq<bool>, value: bool)
    ensures Run(repo, vm, writes + [value]) == Write(Run(repo, vm, writes), repo, value)
  {
    assert DropLast(writes + [value]) == writes;
  }

  /** A session submits exactly the writes removeDuplicates passes, in order,
      and fetches once more than it submits. */
  lemma {:induction false} RunCounts(repo: Repository, vm: ViewModel, writes: seq<bool>)
    ensures Submitted(Run(repo, vm, writes).calls) == RemoveDuplicates(writes)
    ensures FetchCount(Run(repo, vm, writes).calls) == 1 + |Submitted(Run(repo, vm, writes).calls)|
    decreases |writes|
  {
    if writes == [] {
      var r := Start(repo, vm);
      assert r.calls == [] + [r.calls[0]] && r.calls[0].Fetch?;
      FetchCountAppend([], r.calls[0]);
      SubmittedAppend([], r.calls[0]);
    } else {
      var front, value := DropLast(writes), Last(writes);
      RunCounts(repo, vm, front);
      assert front + [value] == writes;
      WriteKeepsCounts(Run(repo, vm, front), repo, front, value);
      assert Run(repo, vm, writes) == Write(Run(repo, vm, front), repo, value);
    }
  }

  /** The step of `RunCounts`: a write keeps the submits equal to the
      filtered writes and the fetches one ahead of them. */
  lemma WriteKeepsCounts(s: Session, repo: Repository, writes: seq<bool>, value: bool)
    requires s.upstream == if writes == [] then None else Some(Last(writes))
    requires Submitted(s.calls) == RemoveDuplicates(writes)
    requires FetchCount(s.calls) == 1 + |Submitted(s.calls)|
    ensures Submitted(Write(s, repo, value).calls) == RemoveDuplicates(writes + [value])
    ensures FetchCount(Write(s, repo, value).calls) == 1 + |Submitted(Write(s, repo, value).calls)|
  {
    WriteCounts(s, repo, value);
    RemoveDuplicatesAppend(writes, value);
  }
}
