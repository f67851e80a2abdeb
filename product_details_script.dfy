/** The Go-UPC script that sorts a column of barcodes into found products and
    barcodes not found: the top-level loop of newProductDetailsScript.py
    (lines 11-49), of which productDetailsExtractionSeparate.py is an exact
    copy. */
module ProductDetailsScript {
  import opened Options
  import opened Text

  /** A non-empty `product` object; an absent field is "". */
  datatype ScriptProduct = NoProduct | ProductFields(name: string, brand: string, upc: string, imageUrl: string)

  /** A JSON body: its `code` ("" when absent) and its `product`, where a
      missing, `null` or empty `product` is `NoProduct`; or a body
      `response.json()` cannot decode. */
  datatype ScriptBody = ScriptJson(code: string, product: ScriptProduct) | ScriptMalformed

  /** What `requests.get` gives for one barcode: an answer, or an exception
      (a timeout or a connection error). */
  datatype ScriptAttempt = Reply(status: int, body: ScriptBody) | Raised

  /** An entry of `found_records` (lines 35-41). */
  datatype FoundRecord = FoundRecord(barcode: string, productName: string, brand: string, upc: string, imageUrl: string)

  /** An entry of `not_found_barcodes`: `{"go_upc_barcodes": barcode}`. */
  datatype NotFoundEntry = NotFoundEntry(goUpcBarcodes: string)

  /** Where one barcode ends up. */
  datatype Verdict = Hit(record: FoundRecord) | Miss(entry: NotFoundEntry)

  /** `df['barcode'].dropna().astype(str).str.strip()` (line 12): missing
      cells are dropped and the others stripped of whitespace. */
  function ColumnBarcodes(cells: seq<Option<string>>): (r: seq<string>)
    ensures |r| <= |cells|
    ensures forall i :: 0 <= i < |r| ==> Strip(r[i]) == r[i]
  {
    if cells == [] then []
    else
      var n := |cells| - 1;
      StripIdempotent(if cells[n].Some? then cells[n].value else "");
      ColumnBarcodes(cells[..n]) + if cells[n].Some? then [Strip(cells[n].value)] else []
  }

  lemma StripIdempotent(s: string)
    ensures Strip(Strip(s)) == Strip(s)
  {
  }

  /** Dropping missing cells happens before stripping, so a cell of blanks
      survives as an empty barcode, which the loop still queries. */
  lemma BlankCellKept(cells: seq<Option<string>>, blank: string)
    requires AllStripped(Whitespace, blank)
    ensures ColumnBarcodes(cells + [Some(blank)]) == ColumnBarcodes(cells) + [""]
  {
    assert (cells + [Some(blank)])[..|cells|] == cells;
  }

  /** The column is read cell by cell: the barcodes of two stretches of
      cells are those of the first followed by those of the second. */
  lemma {:induction false} ColumnConcat(c1: seq<Option<string>>, c2: seq<Option<string>>)
    ensures ColumnBarcodes(c1 + c2) == ColumnBarcodes(c1) + ColumnBarcodes(c2)
    decreases |c2|
  {
    if c2 != [] {
      var n := |c2| - 1;
      var c := c1 + c2;
      assert c[..|c| - 1] == c1 + c2[..n];
      assert c[|c| - 1] == c2[n];
      ColumnConcat(c1, c2[..n]);
    } else {
      assert c1 + c2 == c1;
    }
  }

  /** A present cell gives its stripped value and a missing cell gives
      nothing; with `ColumnConcat` this fixes the barcodes of every column:
      the stripped values of the present cells, in order. */
  lemma ColumnCell(v: string)
    ensures ColumnBarcodes([Some(v)]) == [Strip(v)]
    ensures ColumnBarcodes([None]) == []
  {
    var present: seq<Option<string>>, missing: seq<Option<string>> := [Some(v)], [None];
    assert present[..0] == [] && missing[..0] == [];
  }

  /** Lines 28-49 for one barcode. */
  function Classify(barcode: string, a: ScriptAttempt): (v: Verdict)
    ensures v.Hit? <==> a.Reply? && a.status == 200 && a.body.ScriptJson? && a.body.product.ProductFields?
    ensures v.Hit? ==> v.record == FoundRecord(a.body.code, a.body.product.name, a.body.product.brand,
                                                a.body.product.upc, a.body.product.imageUrl)
    ensures v.Miss? ==> v.entry == NotFoundEntry(barcode)
  {
    match a
    case Raised => Miss(NotFoundEntry(barcode))
    case Reply(status, body) =>
      if status != 200 then Miss(NotFoundEntry(barcode))
      else
        match body
        case ScriptMalformed => Miss(NotFoundEntry(barcode))
        case ScriptJson(code, product) =>
          match product
          case NoProduct => Miss(NotFoundEntry(barcode))
          case ProductFields(name, brand, upc, imageUrl) => Hit(FoundRecord(code, name, brand, upc, imageUrl))
  }

  /** `found_records` after the loop, when barcode `i` gets `answers[i]`. */
  function FoundOf(barcodes: seq<string>, answers: seq<ScriptAttempt>): seq<FoundRecord>
    requires |answers| == |barcodes|
  {
    if barcodes == [] then []
    else
      var n := |barcodes| - 1;
      var v := Classify(barcodes[n], answers[n]);
      FoundOf(barcodes[..n], answers[..n]) + if v.Hit? then [v.record] else []
  }

  /** `not_found_barcodes` after the loop. */
  function NotFoundOf(barcodes: seq<string>, answers: seq<ScriptAttempt>): seq<NotFoundEntry>
    requires |answers| == |barcodes|
  {
    if barcodes == [] then []
    else
      var n := |barcodes| - 1;
      var v := Classify(barcodes[n], answers[n]);
      NotFoundOf(barcodes[..n], answers[..n]) + if v.Miss? then [v.entry] else []
  }

  /** The loop of lines 19-49: each barcode is fetched once and its verdict
      appended to one of the two lists. */
  method FetchAll(barcodes: seq<string>, answers: seq<ScriptAttempt>)
      returns (found: seq<FoundRecord>, notFound: seq<NotFoundEntry>)
    requires |answers| == |barcodes|
    ensures found == FoundOf(barcodes, answers)
    ensures notFound == NotFoundOf(barcodes, answers)
  {
    found, notFound := [], [];
    var idx := 0;
    while idx < |barcodes|
      invariant 0 <= idx <= |barcodes|
      invariant found == FoundOf(barcodes[..idx], answers[..idx])
      invariant notFound == NotFoundOf(barcodes[..idx], answers[..idx])
    {
      assert barcodes[..idx + 1][..idx] == barcodes[..idx] && answers[..idx + 1][..idx] == answers[..idx];
      var barcode := barcodes[idx];
      match answers[idx] {
        case Raised =>
          notFound := notFound + [NotFoundEntry(barcode)];
        case Reply(status, body) =>
          if status == 200 {
            match body {
              case ScriptMalformed =>
                notFound := notFound + [NotFoundEntry(barcode)];
              case ScriptJson(code, product) =>
                if product.ProductFields? {
                  found := found + [FoundRecord(code, product.name, product.brand, product.upc, product.imageUrl)];
                } else {
                  notFound := notFound + [NotFoundEntry(barcode)];
                }
            }
          } else {
            notFound := notFound + [NotFoundEntry(barcode)];
          }
      }
      idx := idx + 1;
    }
    assert barcodes[..idx] == barcodes && answers[..idx] == answers;
  }

  /** Every barcode lands in exactly one list, so the two lengths add up to
      the number of barcodes. */
  lemma {:induction false} CountsAddUp(barcodes: seq<string>, answers: seq<ScriptAttempt>)
    requires |answers| == |barcodes|
    ensures |FoundOf(barcodes, answers)| + |NotFoundOf(barcodes, answers)| == |barcodes|
    decreases |barcodes|
  {
    if barcodes != [] {
      var n := |barcodes| - 1;
      CountsAddUp(barcodes[..n], answers[..n]);
    }
  }

  /** The barcodes are handled one after another and independently: an
      exception for one barcode changes nothing for the ones after it, and
      `found_records` keeps input order. */
  lemma {:induction false} FoundSplits(b1: seq<string>, a1: seq<ScriptAttempt>, b2: seq<string>, a2: seq<ScriptAttempt>)
    requires |a1| == |b1| && |a2| == |b2|
    ensures FoundOf(b1 + b2, a1 + a2) == FoundOf(b1, a1) + FoundOf(b2, a2)
    decreases |b2|
  {
    if b2 == [] {
      assert b1 + b2 == b1 && a1 + a2 == a1;
    } else {
      var n := |b2| - 1;
      var b, a := b1 + b2, a1 + a2;
      assert b[..|b| - 1] == b1 + b2[..n] && a[..|a| - 1] == a1 + a2[..n];
      assert b[|b| - 1] == b2[n] && a[|a| - 1] == a2[n];
      var v := Classify(b2[n], a2[n]);
      var last := if v.Hit? then [v.record] else [];
      FoundSplits(b1, a1, b2[..n], a2[..n]);
      calc {
        FoundOf(b, a);
        FoundOf(b1 + b2[..n], a1 + a2[..n]) + last;
        (FoundOf(b1, a1) + FoundOf(b2[..n], a2[..n])) + last;
        FoundOf(b1, a1) + (FoundOf(b2[..n], a2[..n]) + last);
        FoundOf(b1, a1) + FoundOf(b2, a2);
      }
    }
  }

  /** The same for `not_found_barcodes`. */
  lemma {:induction false} NotFoundSplits(b1: seq<string>, a1: seq<ScriptAttempt>, b2: seq<string>, a2: seq<ScriptAttempt>)
    requires |a1| == |b1| && |a2| == |b2|
    ensures NotFoundOf(b1 + b2, a1 + a2) == NotFoundOf(b1, a1) + NotFoundOf(b2, a2)
    decreases |b2|
  {
    if b2 == [] {
      assert b1 + b2 == b1 && a1 + a2 == a1;
    } else {
      var n := |b2| - 1;
      var b, a := b1 + b2, a1 + a2;
      assert b[..|b| - 1] == b1 + b2[..n] && a[..|a| - 1] == a1 + a2[..n];
      assert b[|b| - 1] == b2[n] && a[|a| - 1] == a2[n];
      var v := Classify(b2[n], a2[n]);
      var last := if v.Miss? then [v.entry] else [];
      NotFoundSplits(b1, a1, b2[..n], a2[..n]);
      calc {
        NotFoundOf(b, a);
        NotFoundOf(b1 + b2[..n], a1 + a2[..n]) + last;
        (NotFoundOf(b1, a1) + NotFoundOf(b2[..n], a2[..n])) + last;
        NotFoundOf(b1, a1) + (NotFoundOf(b2[..n], a2[..n]) + last);
        NotFoundOf(b1, a1) + NotFoundOf(b2, a2);
      }
    }
  }

  /** A barcode whose fetch raises is reported as not found. */
  lemma ErrorIsNotFound(barcodes: seq<string>, answers: seq<ScriptAttempt>, barcode: string)
    requires |answers| == |barcodes|
    ensures FoundOf(barcodes + [barcode], answers + [Raised]) == FoundOf(barcodes, answers)
    ensures NotFoundOf(barcodes + [barcode], answers + [Raised]) == NotFoundOf(barcodes, answers) + [NotFoundEntry(barcode)]
  {
    var b, a := barcodes + [barcode], answers + [Raised];
    assert b[..|barcodes|] == barcodes && a[..|barcodes|] == answers;
  }

  /** Every not-found entry names a barcode of the input, and every found
      record is the `product` of an answer with status 200. */
  lemma {:induction false} EntriesComeFromInput(barcodes: seq<string>, answers: seq<ScriptAttempt>)
    requires |answers| == |barcodes|
    ensures forall e :: e in NotFoundOf(barcodes, answers) ==> e.goUpcBarcodes in barcodes
    ensures forall r :: r in FoundOf(barcodes, answers) ==>
      exists i :: 0 <= i < |answers| && answers[i].Reply? && answers[i].status == 200 && Classify(barcodes[i], answers[i]) == Hit(r)
    decreases |barcodes|
  {
    if barcodes != [] {
      var n := |barcodes| - 1;
      EntriesComeFromInput(barcodes[..n], answers[..n]);
      forall r | r in FoundOf(barcodes[..n], answers[..n])
        ensures exists i :: 0 <= i < |answers| && answers[i].Reply? && answers[i].status == 200 && Classify(barcodes[i], answers[i]) == Hit(r)
      {
        var i :| 0 <= i < n && answers[..n][i].Reply? && answers[..n][i].status == 200 && Classify(barcodes[..n][i], answers[..n][i]) == Hit(r);
        assert answers[i] == answers[..n][i] && barcodes[i] == barcodes[..n][i];
      }
      forall e | e in NotFoundOf(barcodes[..n], answers[..n]) ensures e.goUpcBarcodes in barcodes {
        assert e.goUpcBarcodes in barcodes[..n];
      }
    }
  }
}
