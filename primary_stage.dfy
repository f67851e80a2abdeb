/** `process_all` (smart.py:123-144): every row of the input CSV is looked up
    on Go-UPC, and its answer goes to `records` or its barcode to `failed`. */
module PrimaryStage {
  import opened Options
  import opened Text
  import opened GoUpc

  /** Why the run ends without results: the `sys.exit` of `lookup_upc` on
      401 or 403, or a row too short to have a `barcode` cell, where
      `row.get('barcode', '')` gives `None` and `.strip()` raises, which ends
      the program through the handler of `main` (smart.py:283-284). */
  datatype Halt = AuthFailure(code: int) | MissingCell

  /** What `process_all` ends with: the two lists it returns, or a halt. */
  datatype Stage = Done(records: seq<Payload>, failed: seq<string>) | Halted(reason: Halt)

  /** The barcode of a row (line 133). */
  function Barcode(cell: string): string {
    Strip(cell)
  }

  /** One answer sequence per row; rows that are skipped ignore theirs. */
  ghost predicate Answered(cells: seq<Option<string>>, net: seq<seq<Attempt>>) {
    |net| == |cells| && forall i :: 0 <= i < |net| ==> |net[i]| >= MaxRetries
  }

  lemma AnsweredPrefix(cells: seq<Option<string>>, net: seq<seq<Attempt>>, n: nat)
    requires Answered(cells, net) && n <= |cells|
    ensures Answered(cells[..n], net[..n])
  {
    assert forall i :: 0 <= i < n ==> net[..n][i] == net[i];
  }

  /** Lines 133-141 applied to one row, given the state so far. */
  function Step(st: Stage, cell: Option<string>, outcomes: seq<Attempt>): Stage
    requires |outcomes| >= MaxRetries
  {
    match st
    case Halted(_) => st
    case Done(records, failed) =>
      match cell
      case None => Halted(MissingCell)
      case Some(v) =>
        var upc := Barcode(v);
        if upc == "" then st
        else
          match LookupOutcome(outcomes)
          case Found(p) => Done(records + [p], failed)
          case Failed(_) => Done(records, failed + [upc])
          case Fatal(code) => Halted(AuthFailure(code))
  }

  /** A halt is final, a row without its cell halts, and otherwise at most
      one entry is appended to one of the two lists, never removing any. */
  lemma StepAppends(st: Stage, cell: Option<string>, outcomes: seq<Attempt>)
    requires |outcomes| >= MaxRetries
    ensures st.Halted? ==> Step(st, cell, outcomes) == st
    ensures st.Done? && cell.None? ==> Step(st, cell, outcomes) == Halted(MissingCell)
    ensures var r := Step(st, cell, outcomes);
      r.Done? ==> st.Done? && st.records <= r.records && st.failed <= r.failed
                  && |r.records| + |r.failed| <= |st.records| + |st.failed| + 1
  {
  }

  /** The loop of `process_all` over all rows. */
  ghost function Run(cells: seq<Option<string>>, net: seq<seq<Attempt>>): Stage
    requires Answered(cells, net)
  {
    if cells == [] then Done([], [])
    else
      var n := |cells| - 1;
      AnsweredPrefix(cells, net, n);
      Step(Run(cells[..n], net[..n]), cells[n], net[n])
  }

  /** Whether row `n` is looked up and then paced by `time.sleep(REQUEST_DELAY)`:
      its barcode is not empty and its lookup returns or raises `HTTPError`. */
  predicate Paces(st: Stage, cell: Option<string>, outcomes: seq<Attempt>)
    requires |outcomes| >= MaxRetries
  {
    st.Done? && cell.Some? && Barcode(cell.value) != "" && !LookupOutcome(outcomes).Fatal?
  }

  /** How many pauses of `REQUEST_DELAY` the loop makes. */
  ghost function Paced(cells: seq<Option<string>>, net: seq<seq<Attempt>>): nat
    requires Answered(cells, net)
  {
    if cells == [] then 0
    else
      var n := |cells| - 1;
      AnsweredPrefix(cells, net, n);
      Paced(cells[..n], net[..n]) + if Paces(Run(cells[..n], net[..n]), cells[n], net[n]) then 1 else 0
  }

  /** The non-empty barcodes of the rows, in order: the ones that are looked
      up. */
  function Queried(cells: seq<Option<string>>): seq<string> {
    if cells == [] then []
    else
      var n := |cells| - 1;
      Queried(cells[..n]) + if cells[n].Some? && Barcode(cells[n].value) != "" then [Barcode(cells[n].value)] else []
  }

  /** The Go-UPC answers of the rows whose lookup succeeds, in order. */
  ghost function FoundOf(cells: seq<Option<string>>, net: seq<seq<Attempt>>): seq<Payload>
    requires Answered(cells, net)
  {
    if cells == [] then []
    else
      var n := |cells| - 1;
      AnsweredPrefix(cells, net, n);
      FoundOf(cells[..n], net[..n]) +
        if cells[n].Some? && Barcode(cells[n].value) != "" && LookupOutcome(net[n]).Found?
        then [LookupOutcome(net[n]).payload] else []
  }

  /** The barcodes of the rows whose lookup raises `HTTPError`, in order. */
  ghost function FailedOf(cells: seq<Option<string>>, net: seq<seq<Attempt>>): seq<string>
    requires Answered(cells, net)
  {
    if cells == [] then []
    else
      var n := |cells| - 1;
      AnsweredPrefix(cells, net, n);
      FailedOf(cells[..n], net[..n]) +
        if cells[n].Some? && Barcode(cells[n].value) != "" && LookupOutcome(net[n]).Failed?
        then [Barcode(cells[n].value)] else []
  }

  /** Row `i` neither lacks its cell nor makes the lookup exit. */
  predicate RowCompletes(cell: Option<string>, outcomes: seq<Attempt>)
    requires |outcomes| >= MaxRetries
  {
    cell.Some? && (Barcode(cell.value) == "" || !LookupOutcome(outcomes).Fatal?)
  }

  /** No row is missing its cell and no lookup exits. */
  ghost predicate Completes(cells: seq<Option<string>>, net: seq<seq<Attempt>>)
    requires Answered(cells, net)
  {
    forall i :: 0 <= i < |cells| ==> RowCompletes(cells[i], net[i])
  }

  lemma CompletesSnoc(cells: seq<Option<string>>, net: seq<seq<Attempt>>)
    requires Answered(cells, net) && cells != []
    ensures Completes(cells, net) <==>
      Completes(cells[..|cells| - 1], net[..|cells| - 1]) && RowCompletes(cells[|cells| - 1], net[|cells| - 1])
  {
    var n := |cells| - 1;
    assert forall i :: 0 <= i < n ==> cells[..n][i] == cells[i] && net[..n][i] == net[i];
  }

  /** Each row adds at most one entry to the two lists together. */
  lemma {:induction false} RunBound(cells: seq<Option<string>>, net: seq<seq<Attempt>>)
    requires Answered(cells, net)
    ensures var r := Run(cells, net); r.Done? ==> |r.records| + |r.failed| <= |cells|
    decreases |cells|
  {
    if cells != [] {
      var n := |cells| - 1;
      AnsweredPrefix(cells, net, n);
      RunBound(cells[..n], net[..n]);
      StepAppends(Run(cells[..n], net[..n]), cells[n], net[n]);
    }
  }

  /** Once the run has halted, later rows change nothing: no lookup and no
      pause. */
  lemma {:induction false} HaltPersists(cells: seq<Option<string>>, net: seq<seq<Attempt>>, j: nat)
    requires Answered(cells, net) && j <= |cells|
    requires Run(cells[..j], net[..j]).Halted?
    ensures Run(cells, net) == Run(cells[..j], net[..j]) && Paced(cells, net) == Paced(cells[..j], net[..j])
    decreases |cells|
  {
    AnsweredPrefix(cells, net, j);
    if j < |cells| {
      var n := |cells| - 1;
      AnsweredPrefix(cells, net, n);
      assert cells[..n][..j] == cells[..j] && net[..n][..j] == net[..j];
      HaltPersists(cells[..n], net[..n], j);
    } else {
      assert cells[..j] == cells && net[..j] == net;
    }
  }

  /** The run ends with results exactly when every row has its cell and no
      lookup exits. */
  lemma {:induction false} RunCompletes(cells: seq<Option<string>>, net: seq<seq<Attempt>>)
    requires Answered(cells, net)
    ensures Run(cells, net).Done? <==> Completes(cells, net)
    decreases |cells|
  {
    if cells != [] {
      var n := |cells| - 1;
      RunCompletes(cells[..n], net[..n]);
      CompletesSnoc(cells, net);
    }
  }

  /** When it does, `records` holds the answers of the successful lookups
      and `failed` the barcodes of the others, both in input order. */
  lemma {:induction false} RunResults(cells: seq<Option<string>>, net: seq<seq<Attempt>>)
    requires Answered(cells, net) && Completes(cells, net)
    ensures Run(cells, net) == Done(FoundOf(cells, net), FailedOf(cells, net))
    decreases |cells|
  {
    if cells != [] {
      var n := |cells| - 1;
      CompletesSnoc(cells, net);
      RunResults(cells[..n], net[..n]);
    }
  }

  /** Each looked-up barcode lands in exactly one of the two lists, so their
      lengths add up to the number of non-empty barcodes. */
  lemma {:induction false} PartitionCounts(cells: seq<Option<string>>, net: seq<seq<Attempt>>)
    requires Answered(cells, net) && Completes(cells, net)
    ensures |FoundOf(cells, net)| + |FailedOf(cells, net)| == |Queried(cells)|
    decreases |cells|
  {
    if cells != [] {
      var n := |cells| - 1;
      CompletesSnoc(cells, net);
      PartitionCounts(cells[..n], net[..n]);
    }
  }

  /** A failed barcode is never empty and never has surrounding whitespace. */
  lemma {:induction false} FailedAreStripped(cells: seq<Option<string>>, net: seq<seq<Attempt>>)
    requires Answered(cells, net)
    ensures forall u :: u in FailedOf(cells, net) ==> u != "" && Strip(u) == u
    decreases |cells|
  {
    if cells != [] {
      var n := |cells| - 1;
      AnsweredPrefix(cells, net, n);
      FailedAreStripped(cells[..n], net[..n]);
    }
  }

  /** With every run complete, each pause follows a lookup that returned or
      raised `HTTPError`: one per entry of `records` or `failed`. */
  lemma {:induction false} PausesPerLookup(cells: seq<Option<string>>, net: seq<seq<Attempt>>)
    requires Answered(cells, net) && Completes(cells, net)
    ensures Paced(cells, net) == |Queried(cells)|
    decreases |cells|
  {
    if cells != [] {
      var n := |cells| - 1;
      CompletesSnoc(cells, net);
      PausesPerLookup(cells[..n], net[..n]);
      RunResults(cells[..n], net[..n]);
    }
  }

  /** `process_all`: rows are the `barcode` cells of the CSV (`None` for a
      row too short to have one) and `net[i]` is what the network would
      answer to row `i`'s lookup. It also reports how many times it paused
      for `REQUEST_DELAY`. */
  method ProcessAll(cells: seq<Option<string>>, net: seq<seq<Attempt>>) returns (s: Stage, ghost pauses: nat)
    requires Answered(cells, net)
    ensures s == Run(cells, net)
    ensures pauses == Paced(cells, net)
  {
    var records: seq<Payload>, failed: seq<string> := [], [];
    pauses := 0;
    var i := 0;
    while i < |cells|
      invariant 0 <= i <= |cells|
      invariant Run(cells[..i], net[..i]) == Done(records, failed)
      invariant pauses == Paced(cells[..i], net[..i])
    {
      AnsweredPrefix(cells, net, i + 1);
      assert cells[..i + 1][..i] == cells[..i] && net[..i + 1][..i] == net[..i];
      var cell := cells[i];
      if cell.None? {
        s := Halted(MissingCell);
        HaltPersists(cells, net, i + 1);
        return;
      }
      var upc := Strip(cell.value);
      if upc == "" {
        i := i + 1;
        continue;
      }
      var r;
      ghost var requests, sleeps;
      r, requests, sleeps := LookupUpc(net[i]);
      match r {
        case Found(p) =>
          records := records + [p];
        case Failed(_) =>
          failed := failed + [upc];
        case Fatal(code) =>
          s := Halted(AuthFailure(code));
          HaltPersists(cells, net, i + 1);
          return;
      }
      pauses := pauses + 1;
      i := i + 1;
    }
    assert cells[..i] == cells && net[..i] == net;
    s := Done(records, failed);
  }
}
