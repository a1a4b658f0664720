/** Value types shared by the barcode screen: the fetched response, the
    outcomes the repository can answer with, the repository itself (as an
    oracle), the view model's three published fields, and the calls the view
    model makes on the repository. */
module BarcodeTypes {

  datatype Option<T> = None | Some(value: T)

  /** The display value; compared by value, like the Equatable struct. */
  datatype BarcodeResponse = BarcodeResponse(barcode: string)

  /** What one `getBarcode` call on the repository answers: a response, or a thrown error. */
  datatype FetchOutcome = Fetched(response: BarcodeResponse) | FetchFailed

  /** What one `toggleUsingPayPayPoints` call on the repository answers: it returns, or it throws. */
  datatype SubmitOutcome = Accepted | Rejected

  /** The repository as an oracle. `getBarcode(n)` is the answer to the n-th
      fetch (counting from 0); `toggleUsingPayPayPoints(n, b)` is the answer to
      the n-th submit, which carries `b`. Any repository, including one whose
      answers depend on how often it was called, is one of these. */
  datatype Repository = Repository(
    getBarcode: nat -> FetchOutcome,
    toggleUsingPayPayPoints: (nat, bool) -> SubmitOutcome)

  /** The view model's published fields. */
  datatype ViewModel = ViewModel(
    barcodeResponse: Option<BarcodeResponse>,
    isLoadingBarcode: bool,
    isUsingPayPayPoints: bool)

  /** The field values a freshly constructed view model holds. */
  function Initial(): (vm: ViewModel)
    ensures vm.barcodeResponse.None?
    ensures !vm.isLoadingBarcode && !vm.isUsingPayPayPoints
  {
    ViewModel(None, false, false)
  }

  /** One call the view model makes on the repository. A fetch records the
      view model's fields as they stand while the fetch is suspended, i.e. what
      anyone looking at the view model during the call sees. */
  datatype Call = Fetch(seen: ViewModel) | Submit(value: bool)
}
