/** The Open Food Facts stage of smart.py: `lookup_off` (lines 106-120),
    `process_off` (lines 226-227) and the found/not-found summary of `main`
    (lines 279-280). */
module OpenFoodFacts {
  import opened GoUpc

  /** The three fields requested from Open Food Facts; an absent one is "". */
  datatype OffProduct = OffProduct(productName: string, brands: string, imageUrl: string)

  /** An Open Food Facts answer: the `code` it echoes, its `status` (1 when
      the product is known) and its `product`. */
  datatype OffRecord = OffRecord(code: string, status: int, product: OffProduct)

  datatype OffBody = OffJson(record: OffRecord) | OffMalformed

  /** What the single `requests.get` of `lookup_off` gives. */
  datatype OffAttempt = OffResponse(httpStatus: int, body: OffBody) | OffTimedOut | OffNetworkError

  const EmptyProduct := OffProduct("", "", "")

  /** `{'code': upc, 'status': 0, 'product': {}}`: what `lookup_off` returns
      for every kind of failure. */
  function Canonical(upc: string): (r: OffRecord)
    ensures r.code == upc && r.status != 1
    ensures r.product.productName == "" && r.product.brands == "" && r.product.imageUrl == ""
  {
    OffRecord(upc, 0, EmptyProduct)
  }

  /** The answer passes `raise_for_status`, its body decodes and its
      `status` is 1. */
  predicate Accepted(a: OffAttempt): (b: bool)
    ensures b ==> a.OffResponse? && a.body.OffJson? && a.body.record.status == 1
    ensures a.OffResponse? && 400 <= a.httpStatus < 600 ==> !b
    ensures a.OffTimedOut? || a.OffNetworkError? ==> !b
  {
    a.OffResponse? && !RaisesForStatus(a.httpStatus) && a.body.OffJson? && a.body.record.status == 1
  }

  /** `lookup_off(upc)` when the request gets `a`. It never fails: an
      accepted answer is passed on unchanged, anything else (an error
      status, a timeout, a network error, a body that is not JSON, a `status`
      other than 1) becomes the canonical empty record for `upc`. */
  function LookupOff(upc: string, a: OffAttempt): (r: OffRecord)
    ensures r.status == 1 <==> Accepted(a)
    ensures Accepted(a) ==> r == a.body.record
    ensures !Accepted(a) ==> r == Canonical(upc)
  {
    match a
    case OffResponse(httpStatus, body) =>
      if RaisesForStatus(httpStatus) then Canonical(upc)
      else if body.OffMalformed? then Canonical(upc)
      else if body.record.status != 1 then Canonical(upc)
      else body.record
    case OffTimedOut => Canonical(upc)
    case OffNetworkError => Canonical(upc)
  }

  /** `process_off(failed)`, where the lookup of `failed[i]` gets
      `answers[i]`. */
  function ProcessOff(failed: seq<string>, answers: seq<OffAttempt>): (r: seq<OffRecord>)
    requires |answers| == |failed|
    ensures |r| == |failed|
    ensures forall i :: 0 <= i < |r| ==> r[i] == LookupOff(failed[i], answers[i])
  {
    if failed == [] then []
    else
      var n := |failed| - 1;
      ProcessOff(failed[..n], answers[..n]) + [LookupOff(failed[n], answers[n])]
  }

  /** `sum(1 for r in off_results if r.get('status') == 1)`. */
  function FoundCount(results: seq<OffRecord>): (n: nat)
    ensures n <= |results|
  {
    if results == [] then 0
    else FoundCount(results[..|results| - 1]) + if results[|results| - 1].status == 1 then 1 else 0
  }

  /** `not_found = len(off_results) - found`. */
  function NotFoundCount(results: seq<OffRecord>): nat {
    |results| - FoundCount(results)
  }

  /** How many of the answers are accepted. */
  function AcceptedCount(answers: seq<OffAttempt>): nat {
    if answers == [] then 0
    else AcceptedCount(answers[..|answers| - 1]) + if Accepted(answers[|answers| - 1]) then 1 else 0
  }

  /** The number of records that are not found: canonical for their query. */
  function CanonicalCount(failed: seq<string>, results: seq<OffRecord>): nat
    requires |results| == |failed|
  {
    if results == [] then 0
    else
      var n := |results| - 1;
      CanonicalCount(failed[..n], results[..n]) + if results[n] == Canonical(failed[n]) then 1 else 0
  }

  /** The summary line: `found` counts exactly the accepted answers, and
      `not_found` the other barcodes, so together they are `len(failed)`. */
  lemma {:induction false} SummaryCounts(failed: seq<string>, answers: seq<OffAttempt>)
    requires |answers| == |failed|
    ensures FoundCount(ProcessOff(failed, answers)) == AcceptedCount(answers)
    ensures FoundCount(ProcessOff(failed, answers)) + NotFoundCount(ProcessOff(failed, answers)) == |failed|
    decreases |failed|
  {
    if failed != [] {
      var n := |failed| - 1;
      var r := ProcessOff(failed, answers);
      assert r[..n] == ProcessOff(failed[..n], answers[..n]);
      SummaryCounts(failed[..n], answers[..n]);
    }
  }

  /** `not_found` is the number of records that came back canonical. */
  lemma {:induction false} NotFoundAreCanonical(failed: seq<string>, answers: seq<OffAttempt>)
    requires |answers| == |failed|
    ensures NotFoundCount(ProcessOff(failed, answers)) == CanonicalCount(failed, ProcessOff(failed, answers))
    decreases |failed|
  {
    if failed != [] {
      var n := |failed| - 1;
      var r := ProcessOff(failed, answers);
      assert r[..n] == ProcessOff(failed[..n], answers[..n]);
      NotFoundAreCanonical(failed[..n], answers[..n]);
    }
  }
}
