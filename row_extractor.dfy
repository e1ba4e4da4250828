/**
 * The Row Extractor: how one results table becomes a list of row
 * dictionaries and the header list (brightmls.py `scrape_data`, the part
 * after the table has been located and parsed).  Locating the table and
 * parsing its HTML are not modelled; the extractor is given what they yield:
 * the header texts and, for every body `<tr>`, either its cells or the fact
 * that reading the row's markup raised a stale-element error.
 */
module RowExtractor {
  import opened Wrappers
  import opened Text
  import opened Records

  /**
   * The first `<img>` of a cell with the three attributes the extractor
   * reads.  An absent attribute is the empty string: the source only tests
   * them for truthiness, where `None` and `''` agree.
   */
  datatype Img = Img(src: string, title: string, dataOriginalTitle: string)

  /** A `<td>`/`<th>`: its text (`get_text(strip=True)`) and its first image. */
  datatype Cell = Cell(text: string, img: Option<Img>)

  /** One body `<tr>` as read from the live page. */
  datatype RowRead = StaleRow | Row(cells: seq<Cell>)

  /** What locating and parsing the results table yields. */
  datatype Table = Table(headers: seq<string>, hasBody: bool, rows: seq<RowRead>)

  /** The price-change annotation of a row: its type and its title. */
  datatype Marker = Marker(kind: string, title: string)

  /** `(data, headers)` as `scrape_data` returns them. */
  datatype PageResult = PageResult(data: seq<Record>, headers: seq<string>)

  const PRICE_DOWN_ICON := "pricedown"
  const PRICE_UP_ICON := "priceup"
  const TYPE_COLUMN := "PriceChangeType"
  const TITLE_COLUMN := "PriceChangeTitle"
  const COLUMN_PREFIX := "Column_"

  /** `img.get('title') or img.get('data-original-title') or ''`. */
  function Tooltip(img: Img): string
  {
    if img.title != "" then img.title else img.dataOriginalTitle
  }

  /** The marker one cell contributes, if any. */
  function CellMarker(c: Cell): Option<Marker>
  {
    match c.img
    case None => None
    case Some(img) =>
      if img.src == "" then None
      else if Contains(img.src, PRICE_DOWN_ICON) then
        Some(Marker("down", if Tooltip(img) != "" then Tooltip(img) else "Price Decrease"))
      else if Contains(img.src, PRICE_UP_ICON) then
        Some(Marker("up", if Tooltip(img) != "" then Tooltip(img) else "Price Increase"))
      else None
  }

  /**
   * A cell has a marker exactly when its image names one of the two icons.
   * The down icon is tested before the up icon, and a missing tooltip falls
   * back to a fixed, non-empty title.
   */
  lemma CellMarkerMeaning(c: Cell)
    ensures CellMarker(c).Some? <==>
      c.img.Some? && (Contains(c.img.value.src, PRICE_DOWN_ICON) || Contains(c.img.value.src, PRICE_UP_ICON))
    ensures CellMarker(c).Some? ==> CellMarker(c).value.kind == if Contains(c.img.value.src, PRICE_DOWN_ICON) then "down" else "up"
    ensures CellMarker(c).Some? ==> CellMarker(c).value.title != ""
    ensures CellMarker(c).Some? && Tooltip(c.img.value) != "" ==> CellMarker(c).value.title == Tooltip(c.img.value)
    ensures CellMarker(c).Some? && Tooltip(c.img.value) == "" ==>
      CellMarker(c).value.title == if CellMarker(c).value.kind == "down" then "Price Decrease" else "Price Increase"
  {
  }

  /** The marker of the last cell that has one: later cells overwrite earlier ones. */
  function LastMarker(cells: seq<Cell>): Option<Marker>
  {
    if cells == [] then None
    else
      match CellMarker(cells[|cells| - 1])
      case Some(m) => Some(m)
      case None => LastMarker(cells[..|cells| - 1])
  }

  /** The last qualifying cell wins. */
  lemma {:induction false} LastMarkerIsLastQualifying(cells: seq<Cell>, j: nat)
    requires j < |cells| && CellMarker(cells[j]).Some?
    requires forall k | j < k < |cells| :: CellMarker(cells[k]).None?
    ensures LastMarker(cells) == CellMarker(cells[j])
  {
    if j < |cells| - 1 {
      var init := cells[..|cells| - 1];
      assert forall k | j < k < |init| :: init[k] == cells[k];
      LastMarkerIsLastQualifying(init, j);
    }
  }

  /** A row has no marker exactly when none of its cells qualifies. */
  lemma {:induction false} LastMarkerAbsent(cells: seq<Cell>)
    ensures LastMarker(cells).None? <==> forall k | 0 <= k < |cells| :: CellMarker(cells[k]).None?
  {
    if cells != [] {
      var init := cells[..|cells| - 1];
      LastMarkerAbsent(init);
      assert forall k | 0 <= k < |init| :: init[k] == cells[k];
    }
  }

  /** The two extra values appended to every row. */
  function MarkerSlots(m: Option<Marker>): seq<string>
  {
    match m
    case Some(mk) => [mk.kind, mk.title]
    case None => ["", ""]
  }

  function Texts(cells: seq<Cell>): (ts: seq<string>)
    ensures |ts| == |cells|
  {
    seq(|cells|, i requires 0 <= i < |cells| => cells[i].text)
  }

  /** `row_data` for one `<tr>`: the cell texts, then the marker's type and title. */
  function RowValues(cells: seq<Cell>): seq<string>
  {
    Texts(cells) + MarkerSlots(LastMarker(cells))
  }

  lemma RowValuesShape(cells: seq<Cell>)
    ensures |RowValues(cells)| == |cells| + 2
    ensures forall i | 0 <= i < |cells| :: RowValues(cells)[i] == cells[i].text
    ensures RowValues(cells)[|cells|..] == MarkerSlots(LastMarker(cells))
  {
    var slots := MarkerSlots(LastMarker(cells));
    assert |slots| == 2;
  }

  /** The two positions after the cell texts hold the marker's type and title. */
  lemma RowValuesMarker(cells: seq<Cell>)
    ensures |RowValues(cells)| == |cells| + 2
    ensures RowValues(cells)[|cells|] == MarkerSlots(LastMarker(cells))[0]
    ensures RowValues(cells)[|cells| + 1] == MarkerSlots(LastMarker(cells))[1]
  {
    RowValuesShape(cells);
    var values, n := RowValues(cells), |cells|;
    assert values[n] == values[n..][0] && values[n + 1] == values[n..][1];
  }

  /** `any(cell.strip() for cell in row_data)`: some value is not all white space. */
  predicate Kept(values: seq<string>)
  {
    exists i | 0 <= i < |values| :: !AllSpace(values[i])
  }

  /** The keep test is Python's: a value counts when stripping leaves something. */
  lemma KeptIsStripTest(values: seq<string>)
    ensures Kept(values) <==> exists i | 0 <= i < |values| :: Strip(values[i]) != ""
  {
  }

  /** The row one `<tr>` contributes, if any. */
  function RowOf(tr: RowRead): Option<seq<string>>
  {
    match tr
    case StaleRow => None
    case Row(cells) =>
      if cells == [] then None
      else if Kept(RowValues(cells)) then Some(RowValues(cells))
      else None
  }

  /** The rows one `<tr>` contributes: none or one. */
  function RowsOf(tr: RowRead): seq<seq<string>>
  {
    match RowOf(tr)
    case Some(v) => [v]
    case None => []
  }

  /** `rows`: the kept rows, in document order. */
  function KeptRows(trs: seq<RowRead>): seq<seq<string>>
  {
    if trs == [] then [] else KeptRows(trs[..|trs| - 1]) + RowsOf(trs[|trs| - 1])
  }

  /**
   * Builds `row_data` for one row the way lines 144-167 do: one pass over
   * the cells that collects the texts and overwrites the marker whenever a
   * cell qualifies.
   */
  method BuildRow(cells: seq<Cell>) returns (values: seq<string>)
    ensures |values| == |cells| + 2
    ensures forall i | 0 <= i < |cells| :: values[i] == cells[i].text
    ensures values[|cells|..] == MarkerSlots(LastMarker(cells))
  {
    values := [];
    var marker: Option<Marker> := None;
    for i := 0 to |cells|
      invariant values == Texts(cells[..i])
      invariant marker == LastMarker(cells[..i])
    {
      var cell := cells[i];
      if cell.img.Some? && cell.img.value.src != "" {
        var img := cell.img.value;
        var title := Tooltip(img);
        if Contains(img.src, PRICE_DOWN_ICON) {
          marker := Some(Marker("down", if title != "" then title else "Price Decrease"));
        } else if Contains(img.src, PRICE_UP_ICON) {
          marker := Some(Marker("up", if title != "" then title else "Price Increase"));
        }
      }
      values := values + [cell.text];
      assert cells[..i + 1][..i] == cells[..i];
    }
    assert cells[..|cells|] == cells;
    match marker {
      case Some(m) => values := values + [m.kind, m.title];
      case None => values := values + ["", ""];
    }
  }

  /**
   * Lines 135-169: walks the body rows, skips a row whose markup went stale
   * and a row without cells, and keeps a row when some value is not blank.
   */
  method CollectRows(trs: seq<RowRead>) returns (rows: seq<seq<string>>)
    ensures rows == KeptRows(trs)
  {
    rows := [];
    for i := 0 to |trs|
      invariant rows == KeptRows(trs[..i])
    {
      assert trs[..i + 1][..i] == trs[..i];
      match trs[i] {
        case StaleRow =>
        case Row(cells) =>
          if cells != [] {
            var rowData := BuildRow(cells);
            assert rowData == RowValues(cells);
            if Kept(rowData) {
              rows := rows + [rowData];
            }
          }
      }
    }
    assert trs[..|trs|] == trs;
  }

  /** Every kept row has its cells plus the two marker values, and is not blank. */
  lemma {:induction false} KeptRowsShape(trs: seq<RowRead>)
    ensures |KeptRows(trs)| <= |trs|
    ensures forall k | 0 <= k < |KeptRows(trs)| :: |KeptRows(trs)[k]| >= 3 && Kept(KeptRows(trs)[k])
  {
    if trs != [] {
      KeptRowsShape(trs[..|trs| - 1]);
      match trs[|trs| - 1]
      case StaleRow =>
      case Row(cells) =>
        assert |RowValues(cells)| == |cells| + 2;
    }
  }

  /** Rows are taken in document order: the rows of a concatenation concatenate. */
  lemma {:induction false} KeptRowsConcat(a: seq<RowRead>, b: seq<RowRead>)
    ensures KeptRows(a + b) == KeptRows(a) + KeptRows(b)
  {
    if b == [] {
      assert a + b == a;
    } else {
      var b' := b[..|b| - 1];
      assert (a + b)[..|a + b| - 1] == a + b';
      KeptRowsConcat(a, b');
    }
  }

  /** Every returned row is the row of some `<tr>`. */
  lemma {:induction false} KeptRowsFrom(trs: seq<RowRead>, v: seq<string>)
    requires v in KeptRows(trs)
    ensures exists k | 0 <= k < |trs| :: RowOf(trs[k]) == Some(v)
  {
    var init, last := trs[..|trs| - 1], trs[|trs| - 1];
    if v in KeptRows(init) {
      KeptRowsFrom(init, v);
      var k :| 0 <= k < |init| && RowOf(init[k]) == Some(v);
      assert trs[k] == init[k];
    } else {
      assert v in RowsOf(last);
      assert RowOf(trs[|trs| - 1]) == Some(v);
    }
  }

  /** The row of every kept `<tr>` is returned. */
  lemma {:induction false} KeptRowsInclude(trs: seq<RowRead>, k: nat)
    requires k < |trs| && RowOf(trs[k]).Some?
    ensures RowOf(trs[k]).value in KeptRows(trs)
  {
    var init, last := trs[..|trs| - 1], trs[|trs| - 1];
    if k < |init| {
      assert init[k] == trs[k];
      KeptRowsInclude(init, k);
    } else {
      assert RowsOf(last) == [RowOf(trs[k]).value];
    }
  }

  /** A `<tr>` whose markup went stale, or that has no cells, contributes nothing wherever it stands. */
  lemma SkippedRowsIgnored(a: seq<RowRead>, tr: RowRead, b: seq<RowRead>)
    requires tr == StaleRow || tr == Row([])
    ensures KeptRows(a + [tr] + b) == KeptRows(a + b)
  {
    assert RowOf(tr) == None;
    assert KeptRows([tr]) == [] by {
      assert [tr][..0] == [];
    }
    KeptRowsConcat(a, [tr]);
    KeptRowsConcat(a + [tr], b);
    KeptRowsConcat(a, b);
  }

  /** `headers + ['PriceChangeType', 'PriceChangeTitle']` when there are headers. */
  function WithMarkerColumns(headers: seq<string>): seq<string>
  {
    if headers != [] then headers + [TYPE_COLUMN, TITLE_COLUMN] else headers
  }

  /** The key of the value at position `i`: the header there, else `Column_<i>`. */
  function KeyFor(headers: seq<string>, i: nat): string
  {
    if i < |headers| then headers[i] else COLUMN_PREFIX + NatToString(i)
  }

  /** The keys of the first `n` positions of a row. */
  function PositionKeys(headers: seq<string>, n: nat): seq<string>
  {
    seq(n, i requires 0 <= i < n => KeyFor(headers, i))
  }

  /** A dictionary filled by assigning `values[i]` to `keys[i]` for the first `n` positions, in order. */
  function Fill(values: seq<string>, keys: seq<string>, n: nat): Record
    requires n <= |values| && n <= |keys|
  {
    if n == 0 then EMPTY
    else Put(Fill(values, keys, n - 1), keys[n - 1], values[n - 1])
  }

  /** `row_dict` for one row: every value assigned to its position's key, in position order. */
  function RowDict(values: seq<string>, headers: seq<string>): Record
  {
    Fill(values, PositionKeys(headers, |values|), |values|)
  }

  /** Filling keeps the dictionary well-formed. */
  lemma FillValid(values: seq<string>, keys: seq<string>, n: nat)
    requires n <= |values| && n <= |keys|
    ensures Valid(Fill(values, keys, n))
  {
    for i := 0 to n
      invariant Valid(Fill(values, keys, i))
    {
      FillStepValid(values, keys, i + 1);
    }
  }

  /** One assignment keeps the dictionary well-formed. */
  lemma FillStepValid(values: seq<string>, keys: seq<string>, n: nat)
    requires 0 < n <= |values| && n <= |keys|
    ensures Valid(Fill(values, keys, n - 1)) ==> Valid(Fill(values, keys, n))
  {
    PutValid(Fill(values, keys, n - 1), keys[n - 1], values[n - 1]);
  }

  /** One assignment adds at most its own key. */
  lemma FillStepKeys(values: seq<string>, keys: seq<string>, n: nat)
    requires 0 < n <= |values| && n <= |keys|
    ensures |Keys(Fill(values, keys, n))| <= |Keys(Fill(values, keys, n - 1))| + 1
    ensures forall k | k in Keys(Fill(values, keys, n)) :: k == keys[n - 1] || k in Keys(Fill(values, keys, n - 1))
  {
    PutKeysGrow(Fill(values, keys, n - 1), keys[n - 1], values[n - 1]);
  }

  /** A filled dictionary has at most one key per assignment, each one of the assigned keys. */
  lemma FillKeys(values: seq<string>, keys: seq<string>, n: nat)
    requires n <= |values| && n <= |keys|
    ensures |Keys(Fill(values, keys, n))| <= n
    ensures forall k | k in Keys(Fill(values, keys, n)) :: k in keys[..n]
  {
    FillKeyCount(values, keys, n);
    FillKeysAssigned(values, keys, n);
  }

  lemma FillKeyCount(values: seq<string>, keys: seq<string>, n: nat)
    requires n <= |values| && n <= |keys|
    ensures |Keys(Fill(values, keys, n))| <= n
  {
    for i := 0 to n
      invariant |Keys(Fill(values, keys, i))| <= i
    {
      FillStepKeys(values, keys, i + 1);
    }
  }

  lemma FillKeysAssigned(values: seq<string>, keys: seq<string>, n: nat)
    requires n <= |values| && n <= |keys|
    ensures forall k | k in Keys(Fill(values, keys, n)) :: k in keys[..n]
  {
    for i := 0 to n
      invariant forall k | k in Keys(Fill(values, keys, i)) :: k in keys[..i]
    {
      FillStepKeys(values, keys, i + 1);
      PrefixMembersGrow(keys, i, Keys(Fill(values, keys, i)), Keys(Fill(values, keys, i + 1)));
    }
  }

  /** Members drawn from the first `i` keys or equal to key `i` are drawn from the first `i + 1`. */
  lemma PrefixMembersGrow(keys: seq<string>, i: nat, s: seq<string>, s': seq<string>)
    requires i < |keys|
    requires forall k | k in s :: k in keys[..i]
    requires forall k | k in s' :: k == keys[i] || k in s
    ensures forall k | k in s' :: k in keys[..i + 1]
  {
    assert keys[..i + 1] == keys[..i] + [keys[i]];
  }

  /** The value under an assigned key is the last value assigned to it. */
  lemma {:induction false} FillValue(values: seq<string>, keys: seq<string>, n: nat, i: nat)
    requires i < n <= |values| && n <= |keys|
    requires forall j | i < j < n :: keys[j] != keys[i]
    ensures Get(Fill(values, keys, n), keys[i]) == Some(values[i])
  {
    if i < n - 1 {
      FillValue(values, keys, n - 1, i);
      FillKeepsOther(values, keys, n, keys[i]);
    } else {
      FillLastValue(values, keys, n);
    }
  }

  /** The last assignment leaves every other key's value as it was. */
  lemma FillKeepsOther(values: seq<string>, keys: seq<string>, n: nat, k: string)
    requires 0 < n <= |values| && n <= |keys| && keys[n - 1] != k
    ensures Get(Fill(values, keys, n), k) == Get(Fill(values, keys, n - 1), k)
  {
    PutOther(Fill(values, keys, n - 1), keys[n - 1], values[n - 1], k);
  }

  /** The last assignment's key holds its value. */
  lemma FillLastValue(values: seq<string>, keys: seq<string>, n: nat)
    requires 0 < n <= |values| && n <= |keys|
    ensures Get(Fill(values, keys, n), keys[n - 1]) == Some(values[n - 1])
  {
  }

  /** An assignment to a key not yet present appends it to the key order. */
  lemma FillStepNewKey(values: seq<string>, keys: seq<string>, n: nat)
    requires 0 < n <= |values| && n <= |keys| && keys[n - 1] !in Keys(Fill(values, keys, n - 1))
    ensures Keys(Fill(values, keys, n)) == Keys(Fill(values, keys, n - 1)) + [keys[n - 1]]
  {
  }

  /** Distinct keys end up in assignment order. */
  lemma FillKeyOrder(values: seq<string>, keys: seq<string>, n: nat)
    requires n <= |values| && n <= |keys|
    requires forall i, j | 0 <= i < j < n :: keys[i] != keys[j]
    ensures Keys(Fill(values, keys, n)) == keys[..n]
  {
    for i := 0 to n
      invariant Keys(Fill(values, keys, i)) == keys[..i]
    {
      FreshKey(keys, i, n);
      FillStepNewKey(values, keys, i + 1);
      PrefixStep(keys, i);
    }
  }

  /** With distinct keys, key `i` is not among the earlier ones. */
  lemma FreshKey(keys: seq<string>, i: nat, n: nat)
    requires i < n <= |keys|
    requires forall i, j | 0 <= i < j < n :: keys[i] != keys[j]
    ensures keys[i] !in keys[..i]
  {
  }

  lemma PrefixStep(keys: seq<string>, i: nat)
    requires i < |keys|
    ensures keys[..i + 1] == keys[..i] + [keys[i]]
  {
  }

  /**
   * A row dictionary has distinct keys, at most one per value, and every key
   * is the key of some position.
   */
  lemma RowDictKeys(values: seq<string>, headers: seq<string>)
    ensures Valid(RowDict(values, headers))
    ensures |Keys(RowDict(values, headers))| <= |values|
    ensures forall k | k in Keys(RowDict(values, headers)) :: exists i | 0 <= i < |values| :: KeyFor(headers, i) == k
  {
    var keys := PositionKeys(headers, |values|);
    FillValid(values, keys, |values|);
    FillKeys(values, keys, |values|);
    assert keys[..|values|] == keys;
    forall k | k in Keys(RowDict(values, headers))
      ensures exists i | 0 <= i < |values| :: KeyFor(headers, i) == k
    {
      var i :| 0 <= i < |keys| && keys[i] == k;
    }
  }

  /**
   * The value stored under a position's key is that position's value unless
   * a later position has the same key (a repeated header, say).
   */
  lemma RowDictValue(values: seq<string>, headers: seq<string>, i: nat)
    requires i < |values|
    requires forall j | i < j < |values| :: KeyFor(headers, j) != KeyFor(headers, i)
    ensures Get(RowDict(values, headers), KeyFor(headers, i)) == Some(values[i])
  {
    FillValue(values, PositionKeys(headers, |values|), |values|, i);
  }

  /** When the positions' keys are pairwise distinct, the keys are exactly those, in position order. */
  lemma RowDictKeyOrder(values: seq<string>, headers: seq<string>)
    requires forall i, j | 0 <= i < j < |values| :: KeyFor(headers, i) != KeyFor(headers, j)
    ensures Keys(RowDict(values, headers)) == PositionKeys(headers, |values|)
  {
    var keys := PositionKeys(headers, |values|);
    FillKeyOrder(values, keys, |values|);
    assert keys[..|values|] == keys;
  }

  /** Without headers every key is `Column_<i>`, one per value, in order. */
  lemma ColumnKeysWithoutHeaders(values: seq<string>)
    ensures Keys(RowDict(values, [])) == seq(|values|, i requires 0 <= i < |values| => COLUMN_PREFIX + NatToString(i))
    ensures forall i | 0 <= i < |values| :: Get(RowDict(values, []), COLUMN_PREFIX + NatToString(i)) == Some(values[i])
  {
    forall i, j | 0 <= i < j < |values| ensures KeyFor([], i) != KeyFor([], j) {
      if KeyFor([], i) == KeyFor([], j) {
        assert NatToString(i) == KeyFor([], i)[|COLUMN_PREFIX|..];
        NatToStringInjective(i, j);
      }
    }
    RowDictKeyOrder(values, []);
    forall i | 0 <= i < |values| ensures Get(RowDict(values, []), COLUMN_PREFIX + NatToString(i)) == Some(values[i]) {
      RowDictValue(values, [], i);
    }
  }

  /** The dictionaries of a page: one per kept row, in order. */
  function ZipAll(rows: seq<seq<string>>, headers: seq<string>): (data: seq<Record>)
    ensures |data| == |rows|
  {
    seq(|rows|, k requires 0 <= k < |rows| => RowDict(rows[k], headers))
  }

  /** What a successful extraction attempt returns for a parsed table. */
  function Extract(t: Table): PageResult
  {
    var rows := if t.hasBody then KeptRows(t.rows) else [];
    var headers := WithMarkerColumns(t.headers);
    PageResult(ZipAll(rows, headers), headers)
  }

  /** Lines 176-181: builds one row dictionary by assigning position by position. */
  method ZipRow(values: seq<string>, headers: seq<string>) returns (rowDict: Record)
    ensures rowDict == RowDict(values, headers)
  {
    rowDict := EMPTY;
    for i := 0 to |values|
      invariant rowDict == Fill(values, PositionKeys(headers, |values|), i)
    {
      if i < |headers| {
        rowDict := Put(rowDict, headers[i], values[i]);
      } else {
        rowDict := Put(rowDict, COLUMN_PREFIX + NatToString(i), values[i]);
      }
    }
  }

  /** Lines 174-182: one dictionary per kept row. */
  method ZipRows(rows: seq<seq<string>>, headers: seq<string>) returns (data: seq<Record>)
    ensures data == ZipAll(rows, headers)
  {
    data := [];
    for k := 0 to |rows|
      invariant data == ZipAll(rows[..k], headers)
    {
      var rowDict := ZipRow(rows[k], headers);
      data := data + [rowDict];
    }
    assert rows[..|rows|] == rows;
  }

  /**
   * Lines 117-183 once the table is parsed: collect the rows (only when the
   * table has a body), add the marker columns to non-empty headers, zip.
   */
  method ExtractTable(t: Table) returns (page: PageResult)
    ensures page == Extract(t)
    ensures |page.data| <= |t.rows|
  {
    var rows: seq<seq<string>> := [];
    if t.hasBody {
      rows := CollectRows(t.rows);
    }
    var headers := t.headers;
    if headers != [] {
      headers := headers + [TYPE_COLUMN, TITLE_COLUMN];
    }
    var data := ZipRows(rows, headers);
    page := PageResult(data, headers);
    KeptRowsShape(t.rows);
  }

  /**
   * Every key of every extracted row is a header, a marker column, or a
   * synthetic `Column_<i>` name.
   */
  lemma ExtractKeys(t: Table, k: nat, key: string)
    requires k < |Extract(t).data| && key in Keys(Extract(t).data[k])
    ensures key in WithMarkerColumns(t.headers) || exists i: nat :: key == COLUMN_PREFIX + NatToString(i)
  {
    var rows := if t.hasBody then KeptRows(t.rows) else [];
    RowDictKeys(rows[k], WithMarkerColumns(t.headers));
    var i :| 0 <= i < |rows[k]| && KeyFor(WithMarkerColumns(t.headers), i) == key;
    if i >= |WithMarkerColumns(t.headers)| {
      assert key == COLUMN_PREFIX + NatToString(i);
    }
  }
}
