/** The rows smart.py writes to its two product sheets: `save_to_xlsx`
    (lines 147-208), which backfills missing Go-UPC fields from Open Food
    Facts, and `save_off_xlsx` (lines 230-269). Workbook styling and the
    bytes of the images are not modelled; a row is its four cells, and the
    image it stores, by name. */
module Reports {
  import opened Options
  import opened GoUpc
  import opened OpenFoodFacts
  import opened ImageName

  const NotFound := "Not Found"

  /** A worksheet cell: its value and whether it is filled with `RED_FILL`. */
  datatype Cell = Cell(value: string, red: bool)

  /** A product's name, brand and image URL; an absent one is "". */
  datatype Fields = Fields(name: string, brand: string, url: string)

  /** One row of a sheet and the name of the image file stored for it. */
  datatype Line = Line(cells: seq<Cell>, image: Option<string>)

  /** Python's `a or b` on strings. */
  function OrElse(a: string, b: string): string {
    if a != "" then a else b
  }

  /** Lines 200-202 on one cell: an empty or "Not Found" cell reads
      "Not Found" and is filled red; any other cell is left alone. */
  function Marked(c: Cell): (m: Cell)
    ensures m.value != ""
    ensures m.value == NotFound <==> (c.value == "" || c.value == NotFound)
    ensures m.value == NotFound ==> m.red
    ensures m.value != NotFound ==> m == c
  {
    if c.value == "" || c.value == NotFound then Cell(NotFound, true) else c
  }

  /** Marking a row cell by cell. */
  function MarkRow(s: seq<Cell>): (r: seq<Cell>)
    ensures |r| == |s|
    ensures forall i :: 0 <= i < |s| ==> r[i] == Marked(s[i])
  {
    if s == [] then [] else MarkRow(s[..|s| - 1]) + [Marked(s[|s| - 1])]
  }

  /** The loop of lines 198-202 (and 263-267) over the cells of the row just
      appended. */
  method MarkMissing(row: array<Cell>)
    modifies row
    ensures row[..] == MarkRow(old(row[..]))
  {
    for c := 0 to row.Length
      invariant forall j :: 0 <= j < c ==> row[j] == Marked(old(row[j]))
      invariant forall j :: c <= j < row.Length ==> row[j] == old(row[j])
    {
      if row[c].value == "" || row[c].value == NotFound {
        row[c] := Cell(NotFound, true);
      }
    }
  }

  /** The row for a product: `[upc, name or 'Not Found', brand or
      'Not Found', url or 'Not Found']` (lines 195-196 and 260-261), then
      marked. Every row has the four cells UPC, name, brand and URL; each
      shows its value, or "Not Found" when that value is empty, and exactly
      the "Not Found" cells are red. */
  function ShapeRow(upc: string, f: Fields): (r: seq<Cell>)
    ensures |r| == 4
    ensures r[0].value == OrElse(upc, NotFound) && r[1].value == OrElse(f.name, NotFound)
    ensures r[2].value == OrElse(f.brand, NotFound) && r[3].value == OrElse(f.url, NotFound)
    ensures forall i :: 0 <= i < 4 ==> r[i].value != "" && (r[i].red <==> r[i].value == NotFound)
  {
    [Marked(Cell(upc, false)), Marked(Cell(OrElse(f.name, NotFound), false)),
     Marked(Cell(OrElse(f.brand, NotFound), false)), Marked(Cell(OrElse(f.url, NotFound), false))]
  }

  /** The image file stored for a product with an image URL: the extension
      of lines 179 and 245, the name of lines 180 and 246, renamed to PNG for
      WebP (lines 186-189). */
  function StoredImage(brand: string, name: string, url: string): (r: string)
    ensures '/' !in r
  {
    var ext := ImageExtension(url);
    StoredNameIsFlat(brand, name, url);
    DestinationName(MakeImageFilename(brand, name, ext), ext)
  }

  /** The stored image, when there is a URL and its download (and for WebP
      its conversion) succeeds; a failure is caught and only printed. A file
      name of `.` makes `image_dir / fn` the image directory itself, so
      writing it raises, which is caught the same way. A stored image is
      therefore always a file directly inside the image directory. */
  function ImageOf(f: Fields, downloaded: bool): (r: Option<string>)
    ensures r.Some? <==> f.url != "" && downloaded && StoredImage(f.brand, f.name, f.url) != "."
    ensures r.Some? ==> r.value == StoredImage(f.brand, f.name, f.url) && r.value != "." && '/' !in r.value
  {
    if f.url != "" && downloaded && StoredImage(f.brand, f.name, f.url) != "." then
      Some(StoredImage(f.brand, f.name, f.url))
    else None
  }

  /** Lines 178-193 (and 244-259): the name the image is stored under, when
      there is a URL and the download and the write succeed. */
  method DownloadImage(brand: string, name: string, url: string, downloaded: bool) returns (image: Option<string>)
    ensures image == ImageOf(Fields(name, brand, url), downloaded)
  {
    image := None;
    if url != "" && downloaded {
      var ext := ImageExtension(url);
      var fn := MakeImageFilename(brand, name, ext);
      var dest := DestinationName(fn, ext);
      if dest != "." {
        image := Some(dest);
      }
    }
  }

  /** An image URL whose suffix is only a dot before the query, as in
      `http://x/a.?v=1`, gives the extension `.`; with a brand and name that
      sanitise to nothing the file name is `.`, which is the image directory,
      so a successful download still stores nothing. */
  lemma DirectoryNameNotStored(brand: string, name: string)
    requires Sanitize(brand) == [] && Sanitize(name) == []
    ensures ImageExtension("http://x/a.?v=1") == "."
    ensures StoredImage(brand, name, "http://x/a.?v=1") == "."
    ensures ImageOf(Fields(name, brand, "http://x/a.?v=1"), true) == None
  {
    DotBeforeQuery();
    DotFileName(brand, name);
  }

  /** Lines 195-202 (and 260-267): the row is appended to the sheet and its
      cells are then marked in place. */
  method AppendRow(upc: string, name: string, brand: string, url: string) returns (cells: seq<Cell>)
    ensures cells == ShapeRow(upc, Fields(name, brand, url))
  {
    var row := new Cell[4] [Cell(upc, false), Cell(OrElse(name, NotFound), false),
                            Cell(OrElse(brand, NotFound), false), Cell(OrElse(url, NotFound), false)];
    MarkMissing(row);
    cells := row[..];
  }

  /** The fields `save_to_xlsx` reads from a Go-UPC answer (lines 157-161). */
  function PrimaryFields(p: Payload): Fields {
    Fields(p.product.name, p.product.brand, p.product.imageUrl)
  }

  /** Line 164: some field is falsy. */
  predicate NeedsBackfill(f: Fields) {
    f.name == "" || f.brand == "" || f.url == ""
  }

  /** Lines 166-175: each empty field takes the Open Food Facts value, and a
      present field is never changed. */
  function Backfill(f: Fields, off: OffRecord): (r: Fields)
    ensures r.name == if f.name != "" then f.name else off.product.productName
    ensures r.brand == if f.brand != "" then f.brand else off.product.brands
    ensures r.url == if f.url != "" then f.url else off.product.imageUrl
  {
    Fields(if f.name == "" then OrElse(off.product.productName, f.name) else f.name,
           if f.brand == "" then OrElse(off.product.brands, f.brand) else f.brand,
           if f.url == "" then OrElse(off.product.imageUrl, f.url) else f.url)
  }

  /** The fields of a Go-UPC answer after lines 164-175, when the lookup of
      its code on Open Food Facts would get `a`: a present field is never
      changed. */
  function Merged(p: Payload, a: OffAttempt): (m: Fields)
    ensures var f := PrimaryFields(p);
      && (f.name != "" ==> m.name == f.name)
      && (f.brand != "" ==> m.brand == f.brand)
      && (f.url != "" ==> m.url == f.url)
  {
    var f := PrimaryFields(p);
    if NeedsBackfill(f) then Backfill(f, LookupOff(p.code, a)) else f
  }

  /** What the backfill depends on: when Open Food Facts knows the product
      its fields fill the gaps, and when it does not, nothing changes. */
  lemma MergedFields(p: Payload, a: OffAttempt)
    ensures Accepted(a) ==> Merged(p, a) == Backfill(PrimaryFields(p), a.body.record)
    ensures !Accepted(a) ==> Merged(p, a) == PrimaryFields(p)
  {
    var f := PrimaryFields(p);
    if NeedsBackfill(f) && !Accepted(a) {
      assert Backfill(f, Canonical(p.code)) == f;
    }
  }

  /** A product with every field present is never looked up: its line is
      the same whatever Open Food Facts would answer. */
  lemma CompleteNeedsNoLookup(p: Payload, a: OffAttempt, b: OffAttempt)
    requires !NeedsBackfill(PrimaryFields(p))
    ensures Merged(p, a) == Merged(p, b) == PrimaryFields(p)
  {
  }

  /** Lines 156-203 for one Go-UPC answer `p`: the answer its Open Food
      Facts lookup would get and whether its image download succeeds. */
  function ProductLine(p: Payload, a: OffAttempt, downloaded: bool): Line {
    var f := Merged(p, a);
    Line(ShapeRow(p.code, f), ImageOf(f, downloaded))
  }

  /** One pass of the loop of `save_to_xlsx` (lines 157-203) on the
      Go-UPC answer `item`, reporting whether `lookup_off` was called. */
  method ProductRow(item: Payload, a: OffAttempt, downloaded: bool) returns (line: Line, ghost asked: seq<string>)
    ensures line == ProductLine(item, a, downloaded)
    ensures asked == LookedUp(item)
  {
    var upc := item.code;
    var name, brand, url := item.product.name, item.product.brand, item.product.imageUrl;
    asked := [];
    if name == "" || brand == "" || url == "" {
      var offRecord := LookupOff(upc, a);
      asked := [upc];
      if name == "" {
        name := OrElse(offRecord.product.productName, name);
      }
      if brand == "" {
        brand := OrElse(offRecord.product.brands, brand);
      }
      if url == "" {
        url := OrElse(offRecord.product.imageUrl, url);
      }
    }
    assert Fields(name, brand, url) == Merged(item, a);
    var image := DownloadImage(brand, name, url, downloaded);
    var row := AppendRow(upc, name, brand, url);
    line := Line(row, image);
  }

  /** The code `save_to_xlsx` passes to `lookup_off` for the answer `p`, if
      any (line 164). */
  function LookedUp(p: Payload): seq<string> {
    if NeedsBackfill(PrimaryFields(p)) then [p.code] else []
  }

  /** The codes `save_to_xlsx` looks up on Open Food Facts while handling
      the first `n` answers, in order: those of the answers with an empty
      field. */
  function AskedUpTo(data: seq<Payload>, n: nat): seq<string>
    requires n <= |data|
  {
    if n == 0 then []
    else AskedUpTo(data, n - 1) + LookedUp(data[n - 1])
  }

  /** The lines for the first `n` answers. */
  function ProductLines(data: seq<Payload>, off: seq<OffAttempt>, downloads: seq<bool>, n: nat): seq<Line>
    requires n <= |data| == |off| == |downloads|
  {
    if n == 0 then []
    else ProductLines(data, off, downloads, n - 1) + [ProductLine(data[n - 1], off[n - 1], downloads[n - 1])]
  }

  lemma {:induction false} ProductLinesAt(data: seq<Payload>, off: seq<OffAttempt>, downloads: seq<bool>, n: nat)
    requires n <= |data| == |off| == |downloads|
    ensures |ProductLines(data, off, downloads, n)| == n
    ensures forall i :: 0 <= i < n ==> ProductLines(data, off, downloads, n)[i] == ProductLine(data[i], off[i], downloads[i])
  {
    if n > 0 {
      ProductLinesAt(data, off, downloads, n - 1);
      var prev, all := ProductLines(data, off, downloads, n - 1), ProductLines(data, off, downloads, n);
      assert all == prev + [ProductLine(data[n - 1], off[n - 1], downloads[n - 1])];
      forall i | 0 <= i < n
        ensures all[i] == ProductLine(data[i], off[i], downloads[i])
      {
        if i < n - 1 {
          assert all[i] == prev[i];
        }
      }
    }
  }

  lemma AskedNext(data: seq<Payload>, n: nat)
    requires n < |data|
    ensures AskedUpTo(data, n + 1) == AskedUpTo(data, n) + LookedUp(data[n])
  {
  }

  /** `save_to_xlsx(data, ...)`: one line per Go-UPC answer, in order. `off[i]`
      is what the Open Food Facts lookup for `data[i]` would get and
      `downloads[i]` whether its image download succeeds. Besides the lines
      it reports the codes passed to `lookup_off`. */
  method ProductSheet(data: seq<Payload>, off: seq<OffAttempt>, downloads: seq<bool>)
      returns (lines: seq<Line>, ghost lookups: seq<string>)
    requires |off| == |data| && |downloads| == |data|
    ensures |lines| == |data|
    ensures forall i :: 0 <= i < |data| ==> lines[i] == ProductLine(data[i], off[i], downloads[i])
    ensures lookups == AskedUpTo(data, |data|)
  {
    lines, lookups := [], [];
    var idx := 0;
    while idx < |data|
      invariant 0 <= idx <= |data|
      invariant lines == ProductLines(data, off, downloads, idx)
      invariant lookups == AskedUpTo(data, idx)
    {
      var line, asked := ProductRow(data[idx], off[idx], downloads[idx]);
      AskedNext(data, idx);
      lookups := lookups + asked;
      lines := lines + [line];
      idx := idx + 1;
    }
    ProductLinesAt(data, off, downloads, idx);
  }

  /** Lines 239-268 for one Open Food Facts record: the same row shape, with
      no backfill. */
  function OffLine(r: OffRecord, downloaded: bool): Line {
    var f := Fields(r.product.productName, r.product.brands, r.product.imageUrl);
    Line(ShapeRow(r.code, f), ImageOf(f, downloaded))
  }

  /** `save_off_xlsx(data, ...)`: one line per record, in order. */
  method OffSheet(data: seq<OffRecord>, downloads: seq<bool>) returns (lines: seq<Line>)
    requires |downloads| == |data|
    ensures |lines| == |data|
    ensures forall i :: 0 <= i < |data| ==> lines[i] == OffLine(data[i], downloads[i])
  {
    lines := [];
    var idx := 0;
    while idx < |data|
      invariant 0 <= idx <= |data|
      invariant |lines| == idx
      invariant forall i :: 0 <= i < idx ==> lines[i] == OffLine(data[i], downloads[i])
    {
      var item := data[idx];
      var upc := item.code;
      var name, brands, url := item.product.productName, item.product.brands, item.product.imageUrl;
      var image := DownloadImage(brands, name, url, downloads[idx]);
      var row := AppendRow(upc, name, brands, url);
      lines := lines + [Line(row, image)];
      idx := idx + 1;
    }
  }

  /** A canonical record from a failed lookup gives the row
      `[upc, 'Not Found', 'Not Found', 'Not Found']` with those three cells
      red, and no image. */
  lemma CanonicalLine(upc: string, downloaded: bool)
    requires upc != "" && upc != NotFound
    ensures OffLine(Canonical(upc), downloaded) ==
      Line([Cell(upc, false), Cell(NotFound, true), Cell(NotFound, true), Cell(NotFound, true)], None)
  {
  }

  /** Whether the image was stored never changes the row. */
  lemma RowIgnoresImage(p: Payload, a: OffAttempt, r: OffRecord)
    ensures ProductLine(p, a, true).cells == ProductLine(p, a, false).cells
    ensures OffLine(r, true).cells == OffLine(r, false).cells
  {
  }
}
