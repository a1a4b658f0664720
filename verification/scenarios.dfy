/** The unit-test scenarios of the barcode screen, stated for the model. The
    test double answers every fetch with one fixed outcome and counts calls;
    here the counts are read off the session's call list. */
module BarcodeScenarios {
  import opened BarcodeTypes
  import opened Publisher
  import opened BarcodeScreen
  import opened BindingProtocol

  /** A repository that answers every fetch with `result` and accepts every submit. */
  function MockRepository(result: FetchOutcome): (repo: Repository)
    ensures forall n :: repo.getBarcode(n) == result
  {
    Repository(n => result, (n, value) => Accepted)
  }

  /** Binding, then one toggle to true, against a repository answering
      "barcode": two fetches, one submit, and "barcode" displayed. */
  lemma ToggleOnceShowsBarcode()
    ensures var s := Run(MockRepository(Fetched(BarcodeResponse("barcode"))), Initial(), [true]);
      && s.vm.barcodeResponse == Some(BarcodeResponse("barcode"))
      && FetchCount(s.calls) == 2
      && Submitted(s.calls) == [true]
  {
    RunCounts(MockRepository(Fetched(BarcodeResponse("barcode"))), Initial(), [true]);
    RemoveDuplicatesShape([true]);
  }

  /** The loading flag is up while the initial fetch is in progress and down
      once binding's work is done. */
  lemma LoadingFlagAroundInitialFetch(result: FetchOutcome)
    ensures var s := Run(MockRepository(result), Initial(), []);
      && s.calls[0].Fetch? && s.calls[0].seen.isLoadingBarcode
      && !s.vm.isLoadingBarcode
  {
  }

  /** Without writes: one fetch, no submit, and the preference still false. */
  lemma NoWritesFetchesOnce(result: FetchOutcome)
    ensures var s := Run(MockRepository(result), Initial(), []);
      && FetchCount(s.calls) == 1
      && Submitted(s.calls) == []
      && !s.vm.isUsingPayPayPoints
  {
    RunCounts(MockRepository(result), Initial(), []);
  }

  /** Toggling to true and then to false submits true before false, and each
      toggle adds exactly one fetch. */
  lemma EachToggleFetchesOnceMore(result: FetchOutcome)
    ensures FetchCount(Run(MockRepository(result), Initial(), [true]).calls) == 2
    ensures FetchCount(Run(MockRepository(result), Initial(), [true, false]).calls) == 3
    ensures Submitted(Run(MockRepository(result), Initial(), [true, false]).calls) == [true, false]
  {
    var repo := MockRepository(result);
    var one: seq<bool> := [true];
    var two: seq<bool> := one + [false];
    assert two == [true, false];
    NoWritesFetchesOnce(result);
    DistinctWriteReacts(repo, Initial(), [], true);
    assert [] + [true] == one;
    DistinctWriteReacts(repo, Initial(), one, false);
  }

  /** Against the test double's default answer (a thrown error), nothing is
      ever displayed and the flag still comes down. */
  lemma FailingFetchesDisplayNothing(writes: seq<bool>)
    ensures Run(MockRepository(FetchFailed), Initial(), writes).vm.barcodeResponse.None?
    ensures !Run(MockRepository(FetchFailed), Initial(), writes).vm.isLoadingBarcode
  {
    var repo := MockRepository(FetchFailed);
    ResponseIsLatestSuccess(repo, Initial(), writes);
    NoSuccessKeepsInitial(repo, FetchCount(Run(repo, Initial(), writes).calls), Initial().barcodeResponse);
  }

  /** With every fetch failing, the latest response stays the initial one. */
  lemma {:induction false} NoSuccessKeepsInitial(repo: Repository, n: nat, initial: Option<BarcodeResponse>)
    requires forall i :: repo.getBarcode(i) == FetchFailed
    ensures LatestResponse(repo, n, initial) == initial
  {
    if n > 0 {
      NoSuccessKeepsInitial(repo, n - 1, initial);
    }
  }
}
