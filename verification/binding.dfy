/** `binding()` as the loop the reaction task runs: after the initial fetch,
    each write is handled to completion before the next one. The loop
    computes the fold `Run`, so the session properties proved of `Run` hold
    of it. */
module BindingLoop {
  import opened BarcodeTypes
  import opened Publisher
  import opened BarcodeScreen
  import opened BindingProtocol

  method Binding(repo: Repository, vm: ViewModel, writes: seq<bool>) returns (s: Session)
    ensures s == Run(repo, vm, writes)
    ensures !s.vm.isLoadingBarcode
    ensures s.vm.isUsingPayPayPoints == if writes == [] then vm.isUsingPayPayPoints else Last(writes)
    ensures Submitted(s.calls) == Changes([vm.isUsingPayPayPoints] + writes)
    ensures FetchCount(s.calls) == 1 + |Submitted(s.calls)|
    ensures Alternates(s.calls, Submitted(s.calls))
    ensures FetchesSawLoading(s.calls)
    ensures s.vm.barcodeResponse == LatestResponse(repo, FetchCount(s.calls), vm.barcodeResponse)
  {
    s := Start(repo, vm);
    for i := 0 to |writes|
      invariant s == Run(repo, vm, writes[..i])
    {
      RunAppend(repo, vm, writes[..i], writes[i]);
      assert writes[..i + 1] == writes[..i] + [writes[i]];
      s := Write(s, repo, writes[i]);
    }
    assert writes[..|writes|] == writes;
    RunCounts(repo, vm, writes);
    SubmittedAreChanges(repo, vm, writes);
    CallsAlternate(repo, vm, writes);
    LoadingDuringEveryFetch(repo, vm, writes);
    ResponseIsLatestSuccess(repo, vm, writes);
  }
}
