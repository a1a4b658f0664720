/** Properties of whole sessions of `binding()`: the order of the repository
    calls, the loading flag, the displayed response, and the filter's effect
    on what is submitted. */
module BindingProtocol {
  import opened BarcodeTypes
  import opened Publisher
  import opened BarcodeScreen

  /** The call pattern of a session whose reaction task received `values`:
      one fetch, then for each value a submit carrying it followed by a fetch. */
  predicate Alternates(calls: seq<Call>, values: seq<bool>)
  {
    && |calls| == 1 + 2 * |values|
    && calls[0].Fetch?
    && forall k :: 0 <= k < |values| ==> calls[2 * k + 1] == Submit(values[k]) && calls[2 * k + 2].Fetch?
  }

  /** The response shown after `n` fetches from a view model that showed
      `initial`: the last successful answer among the first `n`, or `initial`
      when all of them failed. */
  function LatestResponse(repo: Repository, n: nat, initial: Option<BarcodeResponse>): Option<BarcodeResponse>
  {
    if n == 0 then initial
    else
      match repo.getBarcode(n - 1)
      case Fetched(response) => Some(response)
      case FetchFailed => LatestResponse(repo, n - 1, initial)
  }

  /** One write extends the call pattern by a submit and a fetch exactly
      when the filter passes the written value. */
  lemma WriteExtendsAlternates(s: Session, repo: Repository, value: bool, values: seq<bool>)
    requires Alternates(s.calls, values)
    ensures Alternates(Write(s, repo, value).calls, if s.upstream == Some(value) then values else values + [value])
  {
    if s.upstream != Some(value) {
      var after := Write(s, repo, value).calls;
      var extended := values + [value];
      var n := |s.calls|;
      assert after[..n] == s.calls;
      forall k | 0 <= k < |extended|
        ensures after[2 * k + 1] == Submit(extended[k]) && after[2 * k + 2].Fetch?
      {
        if k < |values| {
          assert after[2 * k + 1] == after[..n][2 * k + 1];
          assert after[2 * k + 2] == after[..n][2 * k + 2];
        }
      }
    }
  }

  /** A write keeps the calls following the pattern for the submitted values. */
  lemma WriteKeepsAlternating(s: Session, repo: Repository, value: bool)
    requires Alternates(s.calls, Submitted(s.calls))
    ensures Alternates(Write(s, repo, value).calls, Submitted(Write(s, repo, value).calls))
  {
    WriteExtendsAlternates(s, repo, value, Submitted(s.calls));
    WriteCounts(s, repo, value);
  }

  /** The calls of a session follow the pattern for the values it submitted. */
  lemma {:induction false} CallsAlternate(repo: Repository, vm: ViewModel, writes: seq<bool>)
    ensures Alternates(Run(repo, vm, writes).calls, Submitted(Run(repo, vm, writes).calls))
    decreases |writes|
  {
    if writes != [] {
      var front := DropLast(writes);
      CallsAlternate(repo, vm, front);
      assert Run(repo, vm, writes) == Write(Run(repo, vm, front), repo, Last(writes));
      WriteKeepsAlternating(Run(repo, vm, front), repo, Last(writes));
    }
  }

  /** The values a session submits are exactly what the filter passes. */
  lemma SubmittedAreChanges(repo: Repository, vm: ViewModel, writes: seq<bool>)
    ensures Submitted(Run(repo, vm, writes).calls) == Changes([vm.isUsingPayPayPoints] + writes)
  {
    RunCounts(repo, vm, writes);
    ChangesIgnoreCurrentValue(vm.isUsingPayPayPoints, writes);
  }

  /** The initial fetch comes first, and every value the filter lets through
      is submitted, in write order, each submit immediately followed by its
      fetch. */
  lemma CallOrder(repo: Repository, vm: ViewModel, writes: seq<bool>)
    ensures Alternates(Run(repo, vm, writes).calls, Changes([vm.isUsingPayPayPoints] + writes))
  {
    CallsAlternate(repo, vm, writes);
    SubmittedAreChanges(repo, vm, writes);
  }

  /** Every fetch in `calls` saw the loading flag up. */
  predicate FetchesSawLoading(calls: seq<Call>)
  {
    forall i :: 0 <= i < |calls| && calls[i].Fetch? ==> calls[i].seen.isLoadingBarcode
  }

  /** A write adds at most a submit and a fetch made with the flag up, and
      leaves the earlier calls as they were. */
  lemma WriteKeepsFetchesSawLoading(s: Session, repo: Repository, value: bool)
    requires FetchesSawLoading(s.calls)
    ensures FetchesSawLoading(Write(s, repo, value).calls)
  {
    if s.upstream != Some(value) {
      var after := Write(s, repo, value).calls;
      var n := |s.calls|;
      assert after[..n] == s.calls;
      forall i | 0 <= i < n
        ensures after[i] == s.calls[i]
      {
        assert after[i] == after[..n][i];
      }
    }
  }

  /** Every fetch of a session happens while the loading flag is up, and the
      flag is down once the session's work is done. */
  lemma {:induction false} LoadingDuringEveryFetch(repo: Repository, vm: ViewModel, writes: seq<bool>)
    ensures FetchesSawLoading(Run(repo, vm, writes).calls)
    ensures !Run(repo, vm, writes).vm.isLoadingBarcode
    decreases |writes|
  {
    if writes != [] {
      var front := DropLast(writes);
      LoadingDuringEveryFetch(repo, vm, front);
      RunAppend(repo, vm, front, Last(writes));
      WriteKeepsFetchesSawLoading(Run(repo, vm, front), repo, Last(writes));
    }
  }

  /** A write keeps the display at the latest successful answer. */
  lemma WriteKeepsLatestResponse(s: Session, repo: Repository, value: bool, initial: Option<BarcodeResponse>)
    requires s.vm.barcodeResponse == LatestResponse(repo, FetchCount(s.calls), initial)
    ensures Write(s, repo, value).vm.barcodeResponse
         == LatestResponse(repo, FetchCount(Write(s, repo, value).calls), initial)
  {
    if s.upstream != Some(value) {
      var written := s.(vm := s.vm.(isUsingPayPayPoints := value), upstream := Some(value));
      var submitted := SubmitPreference(written, repo, value);
      var n := FetchCount(s.calls);
      assert FetchCount(submitted.calls) == n by {
        assert DropLast(submitted.calls) == s.calls;
      }
      var r := GetBarcode(submitted, repo);
      assert r == Write(s, repo, value);
      assert FetchCount(r.calls) == n + 1;
      match repo.getBarcode(n)
      case Fetched(response) =>
        assert r.vm.barcodeResponse == Some(response);
      case FetchFailed =>
        assert r.vm.barcodeResponse == s.vm.barcodeResponse;
    }
  }

  /** The response a session ends with is the last successful fetch's, or the
      one the view model started with if every fetch failed. */
  lemma {:induction false} ResponseIsLatestSuccess(repo: Repository, vm: ViewModel, writes: seq<bool>)
    ensures Run(repo, vm, writes).vm.barcodeResponse
         == LatestResponse(repo, FetchCount(Run(repo, vm, writes).calls), vm.barcodeResponse)
    decreases |writes|
  {
    if writes != [] {
      var front := DropLast(writes);
      ResponseIsLatestSuccess(repo, vm, front);
      RunAppend(repo, vm, front, Last(writes));
      WriteKeepsLatestResponse(Run(repo, vm, front), repo, Last(writes), vm.barcodeResponse);
    }
  }

  /** A session's calls and fields do not depend on what the submits answer:
      a failed submit is discarded and the fetch after it still happens. */
  lemma {:induction false} SubmitFailuresIgnored(repo: Repository, other: Repository, vm: ViewModel, writes: seq<bool>)
    requires forall n :: repo.getBarcode(n) == other.getBarcode(n)
    ensures Run(repo, vm, writes) == Run(other, vm, writes)
    decreases |writes|
  {
    if writes == [] {
      assert repo.getBarcode(0) == other.getBarcode(0);
    } else {
      var front := DropLast(writes);
      SubmitFailuresIgnored(repo, other, vm, front);
      WriteIgnoresSubmitAnswers(Run(repo, vm, front), repo, other, Last(writes));
    }
  }

  /** One write takes nothing from the repository but fetch answers. */
  lemma WriteIgnoresSubmitAnswers(s: Session, repo: Repository, other: Repository, value: bool)
    requires forall n :: repo.getBarcode(n) == other.getBarcode(n)
    ensures Write(s, repo, value) == Write(s, other, value)
  {
    var n := FetchCount(s.calls + [Submit(value)]);
    assert repo.getBarcode(n) == other.getBarcode(n);
  }

  /** Writing the value written last changes nothing: no submit, no fetch. */
  lemma RepeatedWriteIsSwallowed(repo: Repository, vm: ViewModel, writes: seq<bool>)
    requires writes != []
    ensures Run(repo, vm, writes + [Last(writes)]) == Run(repo, vm, writes)
  {
    RunAppend(repo, vm, writes, Last(writes));
  }

  /** Writing a value different from the value written last submits it and
      fetches once more. */
  lemma DistinctWriteReacts(repo: Repository, vm: ViewModel, writes: seq<bool>, value: bool)
    requires writes == [] || Last(writes) != value
    ensures Submitted(Run(repo, vm, writes + [value]).calls) == Submitted(Run(repo, vm, writes).calls) + [value]
    ensures FetchCount(Run(repo, vm, writes + [value]).calls) == FetchCount(Run(repo, vm, writes).calls) + 1
  {
    RunAppend(repo, vm, writes, value);
    WriteCounts(Run(repo, vm, writes), repo, value);
  }

  /** The number of submits, and of fetches after the initial one, counted
      against the writes: one per write that differs from the value before it
      (for the first write, the value present when binding started), plus one
      when the first write repeats that value. */
  lemma SubmitCount(repo: Repository, vm: ViewModel, writes: seq<bool>)
    ensures |Submitted(Run(repo, vm, writes).calls)|
         == CountChanges([vm.isUsingPayPayPoints] + writes)
            + (if writes != [] && writes[0] == vm.isUsingPayPayPoints then 1 else 0)
    ensures FetchCount(Run(repo, vm, writes).calls) == 1 + |Submitted(Run(repo, vm, writes).calls)|
  {
    RunCounts(repo, vm, writes);
    ChangesIgnoreCurrentValue(vm.isUsingPayPayPoints, writes);
    ChangesLength(vm.isUsingPayPayPoints, writes);
  }

  /** The value present when binding starts is never submitted on its own
      account, but because dropFirst runs before removeDuplicates, a first
      write of that same value is not recognised as a duplicate and reacts. */
  lemma FirstWriteOfCurrentValueReacts(repo: Repository, vm: ViewModel)
    ensures Submitted(Run(repo, vm, []).calls) == []
    ensures Submitted(Run(repo, vm, [vm.isUsingPayPayPoints]).calls) == [vm.isUsingPayPayPoints]
    ensures FetchCount(Run(repo, vm, [vm.isUsingPayPayPoints]).calls) == 2
  {
    RunCounts(repo, vm, []);
    RunCounts(repo, vm, [vm.isUsingPayPayPoints]);
    assert RemoveDuplicates([vm.isUsingPayPayPoints]) == [vm.isUsingPayPayPoints] by {
      assert DropLast([vm.isUsingPayPayPoints]) == [];
    }
  }

  /** After any writes, the last value submitted is the value the preference
      holds: the repository ends up told the user's final choice. */
  lemma LastSubmitIsFinalPreference(repo: Repository, vm: ViewModel, writes: seq<bool>)
    requires writes != []
    ensures Submitted(Run(repo, vm, writes).calls) != []
    ensures Last(Submitted(Run(repo, vm, writes).calls)) == Run(repo, vm, writes).vm.isUsingPayPayPoints
  {
    RunCounts(repo, vm, writes);
    RemoveDuplicatesShape(writes);
  }

  /** Dropping the last submit-and-fetch pair keeps the call pattern. */
  lemma AlternatesFront(calls: seq<Call>, values: seq<bool>)
    requires Alternates(calls, values) && values != []
    ensures Alternates(calls[..|calls| - 2], DropLast(values))
  {
    var k := |values| - 1;
    var front := calls[..|calls| - 2];
    forall j | 0 <= j < k
      ensures front[2 * j + 1] == Submit(DropLast(values)[j]) && front[2 * j + 2].Fetch?
    {
      assert calls[2 * j + 1] == Submit(values[j]) && calls[2 * j + 2].Fetch?;
    }
  }

  /** The call pattern determines the counts: one more fetch than submits,
      and the submitted values are the received ones. */
  lemma {:induction false} AlternatesCounts(calls: seq<Call>, values: seq<bool>)
    requires Alternates(calls, values)
    ensures FetchCount(calls) == 1 + |values|
    ensures Submitted(calls) == values
    decreases |values|
  {
    if values == [] {
      assert calls == [] + [calls[0]];
      FetchCountAppend([], calls[0]);
      SubmittedAppend([], calls[0]);
    } else {
      var front := calls[..|calls| - 2];
      var submit := calls[|calls| - 2];
      var fetch := calls[|calls| - 1];
      assert submit == Submit(Last(values)) && fetch.Fetch?;
      AlternatesFront(calls, values);
      AlternatesCounts(front, DropLast(values));
      assert calls == (front + [submit]) + [fetch];
      FetchCountAppend(front, submit);
      FetchCountAppend(front + [submit], fetch);
      SubmittedAppend(front, submit);
      SubmittedAppend(front + [submit], fetch);
      assert values == DropLast(values) + [Last(values)];
    }
  }
}
