/** Feature preparation for one ticker (`preparar_datos`): indicator columns,
    completion of the classifier's schema, null filling, latest price and
    day-over-day variation. */
module Features {
  import opened Wrappers
  import opened Frames

  /** The classifier's input column at position `i`, in the order it was
      trained on. */
  function FeatureAt(i: nat): Label {
    if i == 0 then Rsi
    else if i == 1 then Macd
    else if i == 2 then MacdSignal
    else if i == 3 then Sma10
    else if i == 4 then Ema10
    else if i == 5 then Momentum
    else if i == 6 then Volume
    else if i == 7 then BbBbm
    else if i == 8 then BbBbh
    else if i == 9 then BbBbl
    else if i == 10 then BbBandwidth
    else if i == 11 then Atr
    else if i == 12 then Cci
    else if i == 13 then Adx
    else Roc
  }

  /** The classifier's input columns. */
  function FeatureNames(): seq<Label> {
    seq(15, i requires 0 <= i => FeatureAt(i))
  }

  /** The list of input columns, written out. */
  lemma FeatureNamesListed()
    ensures FeatureNames() == [
      Rsi, Macd, MacdSignal, Sma10, Ema10, Momentum, Volume,
      BbBbm, BbBbh, BbBbl, BbBandwidth,
      Atr, Cci, Adx, Roc]
  {
  }

  /** The input columns under the names the classifier was trained with. */
  lemma FeatureNamesText()
    ensures seq(|FeatureNames()|, i requires 0 <= i < |FeatureNames()| => Text(FeatureNames()[i])) == [
      "RSI", "MACD", "MACD_Signal", "SMA_10", "EMA_10", "Momentum", "Volume",
      "bb_bbm", "bb_bbh", "bb_bbl", "bb_bandwidth",
      "atr", "cci", "adx", "roc"]
  {
  }

  /** No input column is named twice. */
  lemma FeatureNamesDistinct(i: nat, j: nat)
    requires i < j < |FeatureNames()|
    ensures FeatureNames()[i] != FeatureNames()[j]
  {
  }

  /** What the technical-analysis library returns; its computations are not
      part of this model. */
  datatype Indicators = Indicators(
    rsi: Column, macd: Column, macdSignal: Column, sma10: Column, ema10: Column,
    bbm: Column, bbh: Column, bbl: Column,
    atr: Column, cci: Column, adx: Column, roc: Column)

  /** The library, as an opaque function of the close, high and low series. */
  type Library = (Column, Column, Column) -> Indicators

  /** The library's outputs for a frame's price columns. */
  function Indicate(lib: Library, close: Column, high: Column, low: Column): Indicators {
    lib(close, high, low)
  }

  /** The columns the preparation assigns, in the order it assigns them:
      every input column but Volume. */
  function AssignedNames(): seq<Label> {
    FeatureNames()[..6] + FeatureNames()[7..]
  }

  /** The series assigned to column `c` of a frame of `n` rows. Momentum is
      the four-row difference of the close; the bandwidth is the difference of
      the two band columns as they stand once assigned. Other labels are not
      assigned. */
  function Assigned(n: nat, close: Column, ind: Indicators, c: Label): (s: Column)
    ensures c == Momentum ==> |s| == |close|
    ensures c == BbBandwidth ==> |s| == n
    ensures c in {Close, High, Low, Volume} || c.Other? ==> s == []
  {
    match c
    case Rsi => ind.rsi
    case Macd => ind.macd
    case MacdSignal => ind.macdSignal
    case Sma10 => ind.sma10
    case Ema10 => ind.ema10
    case Momentum => Diff(close, 4)
    case BbBbm => ind.bbm
    case BbBbh => ind.bbh
    case BbBbl => ind.bbl
    case BbBandwidth => Minus(Align(ind.bbh, n), Align(ind.bbl, n))
    case Atr => ind.atr
    case Cci => ind.cci
    case Adx => ind.adx
    case Roc => ind.roc
    case _ => []
  }

  /** The frame after assigning each of `names` in turn: an assigned column
      replaces any column of the same label, every other column is kept. */
  function AssignAll(f: Frame, close: Column, ind: Indicators, names: seq<Label>): (g: Frame)
    ensures g.rows == f.rows
    ensures forall c :: c in g.cols <==> c in f.cols || c in names
    ensures forall c :: c in names ==> g.cols[c] == Align(Assigned(f.rows, close, ind, c), f.rows)
    ensures forall c :: c in f.cols && c !in names ==> g.cols[c] == f.cols[c]
    decreases |names|
  {
    if names == [] then f
    else AssignAll(SetColumn(f, names[0], Assigned(f.rows, close, ind, names[0])), close, ind, names[1..])
  }

  /** The downloaded columns are never assigned. */
  lemma PricesNotAssigned(c: Label)
    requires c in {Close, High, Low, Volume} || c.Other?
    ensures c !in AssignedNames()
  {
    forall k | 0 <= k < |AssignedNames()|
      ensures AssignedNames()[k] != c
    {
      assert AssignedNames()[k] == FeatureAt(if k < 6 then k else k + 1);
    }
  }

  /** The frame after the assignments: each assigned column holds its series
      aligned on the frame, and the downloaded columns are kept as they are. */
  function WithIndicators(f: Frame, close: Column, ind: Indicators): (g: Frame)
    ensures g.rows == f.rows
    ensures forall c :: c in g.cols <==> c in f.cols || c in AssignedNames()
    ensures forall c :: c in AssignedNames() ==> g.cols[c] == Align(Assigned(f.rows, close, ind, c), f.rows)
    ensures forall c :: c in f.cols && (c in {Close, High, Low, Volume} || c.Other?) ==> g.cols[c] == f.cols[c]
  {
    forall c | c in f.cols && (c in {Close, High, Low, Volume} || c.Other?)
      ensures c !in AssignedNames()
    {
      PricesNotAssigned(c);
    }
    AssignAll(f, close, ind, AssignedNames())
  }

  /** The frame the completion loop receives, for a download with price
      columns. */
  function Enriched(f: Frame, lib: Library): (g: Frame)
    requires Close in f.cols && High in f.cols && Low in f.cols
    ensures g.rows == f.rows
    ensures forall c :: c in g.cols <==> c in f.cols || c in AssignedNames()
    ensures g.cols[Close] == f.cols[Close] && g.cols[High] == f.cols[High] && g.cols[Low] == f.cols[Low]
    ensures Volume in f.cols ==> g.cols[Volume] == f.cols[Volume]
  {
    var close := f.cols[Close];
    WithIndicators(f, close, Indicate(lib, close, f.cols[High], f.cols[Low]))
  }

  /** The series a feature comes from: Volume is the downloaded one, every
      other feature an assigned column. */
  function SourceOf(f: Frame, lib: Library, c: Label): (s: Column)
    requires Close in f.cols && High in f.cols && Low in f.cols && Volume in f.cols
    ensures |s| == f.rows
  {
    var close := f.cols[Close];
    if c == Volume then f.cols[Volume]
    else Align(Assigned(f.rows, close, Indicate(lib, close, f.cols[High], f.cols[Low]), c), f.rows)
  }

  /** Every feature but Volume is assigned, and Volume is not. */
  lemma FeatureIsAssigned(i: nat)
    requires i < |FeatureNames()|
    ensures FeatureNames()[i] == Volume <==> FeatureNames()[i] !in AssignedNames()
  {
    if FeatureNames()[i] == Volume {
      forall k | 0 <= k < |AssignedNames()|
        ensures AssignedNames()[k] != Volume
      {
        FeatureNamesDistinct(if k < 6 then k else 6, if k < 6 then 6 else k + 1);
      }
    } else {
      assert FeatureNames()[i] == AssignedNames()[if i < 6 then i else i - 1];
    }
  }

  /** Once Volume is present, the enriched frame holds each feature's source
      series. */
  lemma EnrichedFeature(f: Frame, lib: Library, i: nat)
    requires Close in f.cols && High in f.cols && Low in f.cols && Volume in f.cols
    requires i < |FeatureNames()|
    ensures FeatureNames()[i] in Enriched(f, lib).cols
    ensures Enriched(f, lib).cols[FeatureNames()[i]] == SourceOf(f, lib, FeatureNames()[i])
  {
    FeatureIsAssigned(i);
  }

  /** The frame after adding each of `names` that is missing as a column of
      zeros, in order. The completion loop runs this over the schema. */
  function AddMissing(df: Frame, names: seq<Label>): (g: Frame)
    ensures g.rows == df.rows
    ensures forall c :: c in g.cols <==> c in df.cols || c in names
    ensures forall c :: c in df.cols ==> g.cols[c] == df.cols[c]
    ensures forall c :: c in names && c !in df.cols ==> g.cols[c] == Zeros(df.rows)
    ensures forall i :: 0 <= i < |names| ==> names[i] in g.cols
    decreases |names|
  {
    if names == [] then df
    else AddMissing(AddIfMissing(df, names[0]), names[1..])
  }

  /** One step of the completion loop. */
  function AddIfMissing(df: Frame, name: Label): (g: Frame)
  {
    if name in df.cols then df else SetColumn(df, name, Zeros(df.rows))
  }

  /** The completion loop: every feature the frame lacks is added as a
      column of zeros, one at a time, in schema order. */
  method CompleteColumns(df: Frame) returns (out: Frame)
    ensures out == AddMissing(df, FeatureNames())
  {
    out := df;
    for i := 0 to |FeatureNames()|
      invariant AddMissing(out, FeatureNames()[i..]) == AddMissing(df, FeatureNames())
    {
      if FeatureNames()[i] !in out.cols {
        out := SetColumn(out, FeatureNames()[i], Zeros(out.rows));
      }
      assert FeatureNames()[i..][1..] == FeatureNames()[i + 1..];
    }
  }

  /** The projected, null-free feature table: one named column per feature. */
  datatype FeatureTable = FeatureTable(rows: nat, columns: seq<(Label, seq<real>)>)

  /** The columns are exactly `names`, in that order, each with `rows` cells. */
  predicate HasColumns(t: FeatureTable, names: seq<Label>) {
    && |t.columns| == |names|
    && forall i :: 0 <= i < |t.columns| ==> t.columns[i].0 == names[i] && |t.columns[i].1| == t.rows
  }

  /** The classifier's schema. */
  predicate Schema(t: FeatureTable) {
    HasColumns(t, FeatureNames())
  }

  /** `df[names].fillna(0)`: selecting a column the frame lacks would raise,
      so every name must be present. */
  function Select(df: Frame, names: seq<Label>): (t: FeatureTable)
    requires forall i :: 0 <= i < |names| ==> names[i] in df.cols
    ensures HasColumns(t, names) && t.rows == df.rows
    ensures forall i :: 0 <= i < |names| ==> t.columns[i].1 == FillNa(df.cols[names[i]])
  {
    FeatureTable(df.rows, seq(|names|, i requires 0 <= i < |names| => (names[i], FillNa(df.cols[names[i]]))))
  }

  /** `df.tail(1)`: the latest feature vector, with its column names. */
  function LastRow(t: FeatureTable): (row: seq<(Label, real)>)
    requires Schema(t) && t.rows >= 1
    ensures |row| == |FeatureNames()|
    ensures forall i :: 0 <= i < |row| ==> row[i].0 == FeatureNames()[i] && row[i].1 == t.columns[i].1[t.rows - 1]
  {
    seq(|FeatureNames()|, i requires 0 <= i < |FeatureNames()| => (t.columns[i].0, t.columns[i].1[t.rows - 1]))
  }

  /** The percent change from `prev` to `last`. NaN operands give NaN, and so
      does a zero `prev` (the float division yields inf or NaN). */
  function PctChange(prev: Cell, last: Cell): (r: Cell)
    ensures r.Some? <==> prev.Some? && last.Some? && prev.value != 0.0
  {
    if prev.Some? && last.Some? && prev.value != 0.0
    then Some((last.value - prev.value) / prev.value * 100.0)
    else None
  }

  /** The change is the percentage that turns the previous close into the
      latest one. */
  lemma PctChangeRecovers(prev: Cell, last: Cell)
    requires PctChange(prev, last).Some?
    ensures last.value == prev.value + prev.value * PctChange(prev, last).value / 100.0
  {
    var p, l := prev.value, last.value;
    var q := (l - p) / p;
    assert PctChange(prev, last).value == q * 100.0;
    assert p * q == l - p;
  }

  /** The day-over-day variation; absent (Python `None`) with a single close. */
  function Variation(close: Column): (v: Option<Cell>)
    ensures v.None? <==> |close| <= 1
    ensures |close| > 1 ==> v.value == PctChange(close[|close| - 2], close[|close| - 1])
  {
    if |close| > 1 then Some(PctChange(close[|close| - 2], close[|close| - 1])) else None
  }

  /** A close of 100 followed by 105 is a 5% rise; a single close has no
      variation. */
  lemma VariationExample()
    ensures Variation([Some(100.0), Some(105.0)]) == Some(Some(5.0))
    ensures Variation([Some(100.0)]) == None
    ensures Variation([Some(0.0), Some(5.0)]) == Some(None)
  {
  }

  /** What the preparation returns: no data, a KeyError on a price column
      (not caught anywhere), or the table with the latest price and variation. */
  datatype Prepared =
    | NoData
    | Raised(missing: Label)
    | Ready(table: FeatureTable, price: Cell, variation: Option<Cell>)

  /** The feature table the preparation yields, stated column by column:
      each feature is the series it comes from, with its nulls filled. */
  function ReferenceTable(f: Frame, lib: Library): (t: FeatureTable)
    requires Close in f.cols && High in f.cols && Low in f.cols && Volume in f.cols
    ensures Schema(t) && t.rows == f.rows
  {
    FeatureTable(f.rows, seq(|FeatureNames()|, i requires 0 <= i < |FeatureNames()| =>
      (FeatureNames()[i], FillNa(SourceOf(f, lib, FeatureNames()[i])))))
  }

  /** `preparar_datos` on a downloaded frame: no data, a KeyError on the
      first price column missing, or the prepared table with the latest close
      and the variation. */
  function Prepare(f: Frame, lib: Library): (p: Prepared)
    requires WellLabelled(f)
    ensures p.NoData? <==> IsEmpty(f) || Close !in f.cols
    ensures p.Raised? <==> !IsEmpty(f) && Close in f.cols && !(High in f.cols && Low in f.cols && Volume in f.cols)
    ensures p.Raised? ==> p.missing in {High, Low, Volume} && p.missing !in f.cols
    ensures p.Ready? ==> Schema(p.table) && p.table.rows == f.rows && p.table.rows >= 1
    ensures p.Ready? ==> p.price == f.cols[Close][f.rows - 1] && p.variation == Variation(f.cols[Close])
  {
    if IsEmpty(f) || Close !in f.cols then NoData
    else if High !in f.cols then Raised(High)
    else if Low !in f.cols then Raised(Low)
    else if Volume !in f.cols then Raised(Volume)
    else
      var close := f.cols[Close];
      Ready(ReferenceTable(f, lib), close[|close| - 1], Variation(close))
  }

  /** Feature `i` after completion is its source series. */
  lemma CompletedFeature(f: Frame, lib: Library, i: nat)
    requires Close in f.cols && High in f.cols && Low in f.cols && Volume in f.cols
    requires i < |FeatureNames()|
    ensures FeatureNames()[i] in AddMissing(Enriched(f, lib), FeatureNames()).cols
    ensures AddMissing(Enriched(f, lib), FeatureNames()).cols[FeatureNames()[i]] == SourceOf(f, lib, FeatureNames()[i])
  {
    EnrichedFeature(f, lib, i);
  }

  /** Column `i` of the projected table is column `i` of the reference. */
  lemma ColumnAgrees(f: Frame, lib: Library, i: nat)
    requires Close in f.cols && High in f.cols && Low in f.cols && Volume in f.cols
    requires i < |FeatureNames()|
    ensures Select(AddMissing(Enriched(f, lib), FeatureNames()), FeatureNames()).columns[i] == ReferenceTable(f, lib).columns[i]
  {
    CompletedFeature(f, lib, i);
  }

  /** Two tables with the same rows and the same columns are equal. */
  lemma SameColumns(t: FeatureTable, r: FeatureTable, names: seq<Label>)
    requires HasColumns(t, names) && HasColumns(r, names) && t.rows == r.rows
    requires forall i :: 0 <= i < |names| ==> t.columns[i] == r.columns[i]
    ensures t == r
  {
    assert t.columns == r.columns;
  }

  /** The source's steps (assignments, completion loop, projection with
      filling) produce the reference table. */
  lemma StepsYieldReference(f: Frame, lib: Library)
    requires Close in f.cols && High in f.cols && Low in f.cols && Volume in f.cols
    ensures Select(AddMissing(Enriched(f, lib), FeatureNames()), FeatureNames()) == ReferenceTable(f, lib)
  {
    var t := Select(AddMissing(Enriched(f, lib), FeatureNames()), FeatureNames());
    var r := ReferenceTable(f, lib);
    forall i | 0 <= i < |FeatureNames()|
      ensures t.columns[i] == r.columns[i]
    {
      ColumnAgrees(f, lib, i);
    }
    SameColumns(t, r, FeatureNames());
  }

  /** `preparar_datos` as the source runs it: the checks, the column
      assignments, the completion loop, the projection with filling, and the
      latest price and variation. */
  method PrepareData(f: Frame, lib: Library) returns (p: Prepared)
    requires WellLabelled(f)
    ensures p == Prepare(f, lib)
  {
    if IsEmpty(f) || Close !in f.cols {
      return NoData;
    }
    var close := f.cols[Close];
    if High !in f.cols {
      return Raised(High);
    }
    var high := f.cols[High];
    if Low !in f.cols {
      return Raised(Low);
    }
    var low := f.cols[Low];
    if Volume !in f.cols {
      return Raised(Volume);
    }
    var ind := Indicate(lib, close, high, low);
    var df := WithIndicators(f, close, ind);
    df := CompleteColumns(df);
    StepsYieldReference(f, lib);
    assert df == AddMissing(Enriched(f, lib), FeatureNames());
    var precio := close[|close| - 1];
    var variacion := if |close| > 1 then Some(PctChange(close[|close| - 2], close[|close| - 1])) else None;
    var table := Select(df, FeatureNames());
    assert table == ReferenceTable(f, lib);
    assert variacion == Variation(close);
    p := Ready(table, precio, variacion);
  }

  /** Completing a frame that already has every name changes nothing. */
  lemma AddMissingPresent(df: Frame, names: seq<Label>)
    requires forall i :: 0 <= i < |names| ==> names[i] in df.cols
    ensures AddMissing(df, names) == df
  {
    var g := AddMissing(df, names);
    assert g.cols == df.cols;
  }

  /** On the path that reaches the completion loop, the assignments have
      already supplied every feature, so the loop adds no column. */
  lemma CompletionAddsNothing(f: Frame, lib: Library)
    requires Close in f.cols && High in f.cols && Low in f.cols && Volume in f.cols
    ensures AddMissing(Enriched(f, lib), FeatureNames()) == Enriched(f, lib)
  {
    forall i | 0 <= i < |FeatureNames()|
      ensures FeatureNames()[i] in Enriched(f, lib).cols
    {
      EnrichedFeature(f, lib, i);
    }
    AddMissingPresent(Enriched(f, lib), FeatureNames());
  }

  /** After completion and filling, each feature column holds the frame's
      non-null values, 0 for the nulls, and 0 throughout when the frame lacked
      the column; the row count is unchanged. */
  lemma CompletionFills(df: Frame, names: seq<Label>, i: nat, k: nat)
    requires i < |names| && k < df.rows
    ensures var t := Select(AddMissing(df, names), names);
      && t.rows == df.rows
      && t.columns[i].0 == names[i]
      && t.columns[i].1[k] == if names[i] in df.cols && df.cols[names[i]][k].Some? then df.cols[names[i]][k].value else 0.0
  {
  }

  /** The filled four-row difference of a series. */
  lemma FilledDiffAt(s: Column, k: nat)
    requires k < |s|
    ensures FillNa(Diff(s, 4))[k] == if k >= 4 && s[k].Some? && s[k - 4].Some? then s[k].value - s[k - 4].value else 0.0
  {
  }

  /** The filled difference of two aligned series. */
  lemma FilledMinusAt(a: Column, b: Column, k: nat)
    requires |a| == |b| && k < |a|
    ensures FillNa(Minus(a, b))[k] == if a[k].Some? && b[k].Some? then a[k].value - b[k].value else 0.0
  {
  }

  /** The Momentum feature is the four-row difference of the close, and 0 in
      the first four rows and wherever a close is missing. */
  lemma ReadyMomentum(f: Frame, lib: Library, k: nat)
    requires WellLabelled(f) && Prepare(f, lib).Ready? && k < f.rows
    ensures var t := Prepare(f, lib).table; var close := f.cols[Close];
      && t.columns[5].0 == Momentum
      && t.columns[5].1[k] == if k >= 4 && close[k].Some? && close[k - 4].Some? then close[k].value - close[k - 4].value else 0.0
  {
    var close := f.cols[Close];
    assert SourceOf(f, lib, Momentum) == Diff(close, 4);
    FilledDiffAt(close, k);
  }

  /** The bandwidth feature is the upper minus the lower Bollinger band where
      both are defined, and 0 elsewhere. */
  lemma ReadyBandwidth(f: Frame, lib: Library, k: nat)
    requires WellLabelled(f) && Prepare(f, lib).Ready? && k < f.rows
    ensures var t := Prepare(f, lib).table;
      var ind := Indicate(lib, f.cols[Close], f.cols[High], f.cols[Low]);
      var hi := Align(ind.bbh, f.rows); var lo := Align(ind.bbl, f.rows);
      && t.columns[10].0 == BbBandwidth
      && t.columns[10].1[k] == if hi[k].Some? && lo[k].Some? then hi[k].value - lo[k].value else 0.0
  {
    var ind := Indicate(lib, f.cols[Close], f.cols[High], f.cols[Low]);
    var hi := Align(ind.bbh, f.rows);
    var lo := Align(ind.bbl, f.rows);
    assert SourceOf(f, lib, BbBandwidth) == Minus(hi, lo);
    FilledMinusAt(hi, lo, k);
  }
}
