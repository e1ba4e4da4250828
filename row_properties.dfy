/**
 * Properties of the Row Extractor that concern whole rows: where the
 * price-change marker ends up in a row dictionary, and the two worked
 * examples of a marked row and of a blank row.
 */
module RowProperties {
  import opened Wrappers
  import opened Text
  import opened Records
  import opened RowExtractor

  /** The last two positions of a row keep their values when their keys differ. */
  lemma LastTwoPositions(values: seq<string>, h: seq<string>, n: nat)
    requires |values| == n + 2 && KeyFor(h, n) != KeyFor(h, n + 1)
    ensures Get(RowDict(values, h), KeyFor(h, n)) == Some(values[n])
    ensures Get(RowDict(values, h), KeyFor(h, n + 1)) == Some(values[n + 1])
  {
    RowDictValue(values, h, n);
    RowDictValue(values, h, n + 1);
  }

  /** The two values after the base headers land under the marker columns. */
  lemma MarkerColumnsAt(values: seq<string>, headers: seq<string>)
    requires headers != [] && |values| == |headers| + 2
    ensures Get(RowDict(values, WithMarkerColumns(headers)), TYPE_COLUMN) == Some(values[|headers|])
    ensures Get(RowDict(values, WithMarkerColumns(headers)), TITLE_COLUMN) == Some(values[|headers| + 1])
  {
    var h, n := WithMarkerColumns(headers), |headers|;
    assert TYPE_COLUMN[12] != TITLE_COLUMN[12];
    assert KeyFor(h, n) == TYPE_COLUMN && KeyFor(h, n + 1) == TITLE_COLUMN;
    LastTwoPositions(values, h, n);
  }

  /**
   * A row with exactly as many cells as there are headers carries its
   * marker under the two marker columns.
   */
  lemma MarkerUnderMarkerColumns(cells: seq<Cell>, headers: seq<string>)
    requires cells != [] && |cells| == |headers|
    ensures Get(RowDict(RowValues(cells), WithMarkerColumns(headers)), TYPE_COLUMN) == Some(MarkerSlots(LastMarker(cells))[0])
    ensures Get(RowDict(RowValues(cells), WithMarkerColumns(headers)), TITLE_COLUMN) == Some(MarkerSlots(LastMarker(cells))[1])
  {
    RowValuesMarker(cells);
    MarkerColumnsAt(RowValues(cells), headers);
  }

  /** The two values after the first `n` land under the base headers `n` and `n + 1`. */
  lemma BaseHeadersAt(values: seq<string>, headers: seq<string>, n: nat)
    requires |values| == n + 2 && n + 2 <= |headers| && headers[n] != headers[n + 1]
    ensures Get(RowDict(values, WithMarkerColumns(headers)), headers[n]) == Some(values[n])
    ensures Get(RowDict(values, WithMarkerColumns(headers)), headers[n + 1]) == Some(values[n + 1])
  {
    var h := WithMarkerColumns(headers);
    assert KeyFor(h, n) == headers[n] && KeyFor(h, n + 1) == headers[n + 1];
    LastTwoPositions(values, h, n);
  }

  /**
   * A row with at least two cells fewer than the headers stores its marker
   * under the two base headers that follow its last cell (positional keying,
   * as written), provided those two headers differ.
   */
  lemma MarkerUnderBaseHeaders(cells: seq<Cell>, headers: seq<string>)
    requires cells != [] && |cells| + 2 <= |headers|
    requires headers[|cells|] != headers[|cells| + 1]
    ensures Get(RowDict(RowValues(cells), WithMarkerColumns(headers)), headers[|cells|]) == Some(MarkerSlots(LastMarker(cells))[0])
    ensures Get(RowDict(RowValues(cells), WithMarkerColumns(headers)), headers[|cells| + 1]) == Some(MarkerSlots(LastMarker(cells))[1])
  {
    RowValuesMarker(cells);
    BaseHeadersAt(RowValues(cells), headers, |cells|);
  }

  /**
   * When the two base headers after a short row's last cell are equal, the
   * title is assigned to that key after the type and overwrites it, so the
   * row keeps only the title (positional keying, as written).
   */
  lemma MarkerUnderRepeatedHeader(cells: seq<Cell>, headers: seq<string>)
    requires cells != [] && |cells| + 2 <= |headers|
    requires headers[|cells|] == headers[|cells| + 1]
    ensures Get(RowDict(RowValues(cells), WithMarkerColumns(headers)), headers[|cells|]) == Some(MarkerSlots(LastMarker(cells))[1])
  {
    RowValuesMarker(cells);
    RepeatedHeaderAt(RowValues(cells), headers, |cells|);
  }

  /** Of the two values after the first `n`, the second wins under a repeated header. */
  lemma RepeatedHeaderAt(values: seq<string>, headers: seq<string>, n: nat)
    requires |values| == n + 2 && n + 2 <= |headers| && headers[n] == headers[n + 1]
    ensures Get(RowDict(values, WithMarkerColumns(headers)), headers[n]) == Some(values[n + 1])
  {
    var h := WithMarkerColumns(headers);
    assert KeyFor(h, n + 1) == headers[n + 1];
    RowDictValue(values, h, n + 1);
  }

  /**
   * A row exactly one cell short stores the marker's type under the last
   * base header and its title under `PriceChangeType` (positional keying, as
   * written), provided the last base header is not itself `PriceChangeType`.
   */
  lemma MarkerOneCellShort(cells: seq<Cell>, headers: seq<string>)
    requires cells != [] && |cells| + 1 == |headers|
    requires headers[|cells|] != TYPE_COLUMN
    ensures Get(RowDict(RowValues(cells), WithMarkerColumns(headers)), headers[|cells|]) == Some(MarkerSlots(LastMarker(cells))[0])
    ensures Get(RowDict(RowValues(cells), WithMarkerColumns(headers)), TYPE_COLUMN) == Some(MarkerSlots(LastMarker(cells))[1])
  {
    RowValuesMarker(cells);
    LastBaseHeaderAt(RowValues(cells), headers, |cells|);
  }

  /** The two values after the first `n` land under the last base header and `PriceChangeType`. */
  lemma LastBaseHeaderAt(values: seq<string>, headers: seq<string>, n: nat)
    requires |values| == n + 2 && n + 1 == |headers| && headers[n] != TYPE_COLUMN
    ensures Get(RowDict(values, WithMarkerColumns(headers)), headers[n]) == Some(values[n])
    ensures Get(RowDict(values, WithMarkerColumns(headers)), TYPE_COLUMN) == Some(values[n + 1])
  {
    var h := WithMarkerColumns(headers);
    assert KeyFor(h, n) == headers[n] && KeyFor(h, n + 1) == TYPE_COLUMN;
    LastTwoPositions(values, h, n);
  }

  /** A row whose values, marker slots included, fit under the base headers has no marker column when no base header is named like one. */
  lemma NoMarkerColumnsInShortRow(values: seq<string>, headers: seq<string>)
    requires |values| <= |headers|
    requires TYPE_COLUMN !in headers && TITLE_COLUMN !in headers
    ensures TYPE_COLUMN !in Keys(RowDict(values, WithMarkerColumns(headers)))
    ensures TITLE_COLUMN !in Keys(RowDict(values, WithMarkerColumns(headers)))
  {
    var h := WithMarkerColumns(headers);
    RowDictKeys(values, h);
    forall i | 0 <= i < |values| ensures KeyFor(h, i) in headers {
      assert KeyFor(h, i) == headers[i];
    }
  }

  /** A price-down icon with a tooltip annotates the row with "down" and that tooltip. */
  lemma PriceDownScenario()
    ensures Extract(Table(["Price"], true, [Row([Cell("$500,000", Some(Img("/images/pricedown.gif", "Reduced $10k", "")))])])).data
      == [Record(["Price", TYPE_COLUMN, TITLE_COLUMN], map["Price" := "$500,000", TYPE_COLUMN := "down", TITLE_COLUMN := "Reduced $10k"])]
  {
    var img := Img("/images/pricedown.gif", "Reduced $10k", "");
    var cells := [Cell("$500,000", Some(img))];
    var values := ["$500,000", "down", "Reduced $10k"];
    MarkedRowValues(img, cells, values);
    assert KeptRows([Row(cells)]) == [values] by {
      assert !AllSpace(values[0]) by { assert !IsSpace(values[0][0]); }
      assert [Row(cells)][..0] == [];
    }
    var h := ["Price", TYPE_COLUMN, TITLE_COLUMN];
    assert WithMarkerColumns(["Price"]) == h;
    ThreeColumnRow(values, h);
  }

  lemma MarkedRowValues(img: Img, cells: seq<Cell>, values: seq<string>)
    requires img == Img("/images/pricedown.gif", "Reduced $10k", "")
    requires cells == [Cell("$500,000", Some(img))]
    requires values == ["$500,000", "down", "Reduced $10k"]
    ensures RowValues(cells) == values
  {
    assert OccursAt(img.src, PRICE_DOWN_ICON, 8);
    assert CellMarker(cells[0]) == Some(Marker("down", "Reduced $10k"));
    assert LastMarker(cells) == Some(Marker("down", "Reduced $10k"));
    RowValuesShape(cells);
    assert RowValues(cells)[1..] == values[1..];
  }

  lemma ThreeColumnRow(values: seq<string>, h: seq<string>)
    requires |values| == 3 && |h| == 3 && h[0] != h[1] && h[0] != h[2] && h[1] != h[2]
    ensures RowDict(values, h) == Record(h, map[h[0] := values[0], h[1] := values[1], h[2] := values[2]])
  {
    assert PositionKeys(h, 3) == h;
    FillThree(values, h);
  }

  /** The first key filled. */
  lemma FillOne(values: seq<string>, h: seq<string>)
    requires |values| == 3 && |h| == 3
    ensures Fill(values, h, 1) == Record([h[0]], map[h[0] := values[0]])
  {
    assert Fill(values, h, 1) == Put(EMPTY, h[0], values[0]);
    PutNew(EMPTY, h[0], values[0]);
  }

  /** Two distinct keys filled in order. */
  lemma FillTwo(values: seq<string>, h: seq<string>)
    requires |values| == 3 && |h| == 3 && h[0] != h[1]
    ensures Fill(values, h, 2) == Record([h[0], h[1]], map[h[0] := values[0], h[1] := values[1]])
  {
    FillOne(values, h);
    assert Fill(values, h, 2) == Put(Record([h[0]], map[h[0] := values[0]]), h[1], values[1]);
    PutNew(Record([h[0]], map[h[0] := values[0]]), h[1], values[1]);
  }

  /** Three distinct keys filled in order. */
  lemma FillThree(values: seq<string>, h: seq<string>)
    requires |values| == 3 && |h| == 3 && h[0] != h[1] && h[0] != h[2] && h[1] != h[2]
    ensures Fill(values, h, 3) == Record(h, map[h[0] := values[0], h[1] := values[1], h[2] := values[2]])
  {
    FillTwo(values, h);
    assert [h[0], h[1]] + [h[2]] == h;
    FillLast(values, h, Record([h[0], h[1]], map[h[0] := values[0], h[1] := values[1]]),
      Record(h, map[h[0] := values[0], h[1] := values[1], h[2] := values[2]]));
  }

  /** The third assignment adds a new key to the two filled before it. */
  lemma FillLast(values: seq<string>, h: seq<string>, r2: Record, r3: Record)
    requires |values| == 3 && |h| == 3 && Fill(values, h, 2) == r2 && h[2] !in r2.keys
    requires r3 == Record(r2.keys + [h[2]], r2.values[h[2] := values[2]])
    ensures Fill(values, h, 3) == r3
  {
    assert Fill(values, h, 3) == Put(r2, h[2], values[2]);
    PutNew(r2, h[2], values[2]);
  }

  lemma PutNew(r: Record, k: string, v: string)
    requires k !in r.keys
    ensures Put(r, k, v) == Record(r.keys + [k], r.values[k := v])
  {
  }

  /** A row whose cells are all blank and carry no marker is dropped. */
  lemma BlankRowDropped()
    ensures KeptRows([Row([Cell("", None), Cell("", None), Cell("", None)])]) == []
  {
    var cells := [Cell("", None), Cell("", None), Cell("", None)];
    LastMarkerAbsent(cells);
    assert RowValues(cells) == ["", "", "", "", ""];
    assert [Row(cells)][..0] == [];
  }
}
