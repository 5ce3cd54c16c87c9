/** The dashboard's per-ticker loop: prepare each ticker's data, classify
    the latest feature vector, and collect one result record per ticker. */
module Pipeline {
  import opened Wrappers
  import opened Frames
  import opened Features
  import opened Signals

  /** The fewest rows a prepared table needs before it is classified. */
  const MinRows: nat := 30

  /** The ticker registry: (ticker, sector) pairs in iteration order. */
  type Registry = seq<(string, string)>

  /** The source's registry is a dictionary, so no ticker is listed twice. */
  predicate DistinctTickers(reg: Registry) {
    forall i, j :: 0 <= i < j < |reg| ==> reg[i].0 != reg[j].0
  }

  /** The market-data download, as a function of the ticker. */
  type Fetch = fetch: string -> Frame | forall t :: WellLabelled(fetch(t))
    witness (t: string) => Table(0, map[])

  /** The loaded classifier: the latest feature vector gives a class, or the
      message of the exception it raised. */
  type Classifier = seq<(Label, real)> -> Result<int, string>

  /** One result row. `None` in a price or variation is "N/A"; a present
      price or variation whose cell is `None` is NaN. */
  datatype Record = Record(
    ticker: string,
    sector: string,
    price: Option<Cell>,
    variation: Option<Cell>,
    signal: Signal)

  /** The row of a ticker that has too little data. */
  function InsufficientRecord(ticker: string, sector: string): (r: Record)
    ensures r.ticker == ticker && r.sector == sector
    ensures r.price.None? && r.variation.None? && r.signal == Insufficient
  {
    Record(ticker, sector, None, None, Insufficient)
  }

  /** Whether a preparation result is turned away before classification: no
      data, or fewer than the minimum rows. */
  predicate Gated(p: Prepared)
    requires !p.Raised?
  {
    p.NoData? || p.table.rows < MinRows
  }

  /** One iteration of the loop for the entry (ticker, sector) and its
      downloaded frame. A KeyError on a price column is not caught, so it
      ends the run (`Failure`); every other outcome is a row. */
  function Evaluate(ticker: string, sector: string, f: Frame, lib: Library, predict: Classifier): (r: Result<Record, Label>)
    requires WellLabelled(f)
    ensures r.Failure? <==> Prepare(f, lib).Raised?
    ensures r.Failure? ==> r.error == Prepare(f, lib).missing
    ensures r.Success? ==> r.value.ticker == ticker && r.value.sector == sector
    ensures r.Success? && Gated(Prepare(f, lib)) ==> r.value == InsufficientRecord(ticker, sector)
  {
    match Prepare(f, lib)
    case Raised(c) => Failure(c)
    case NoData => Success(InsufficientRecord(ticker, sector))
    case Ready(table, price, variation) =>
      if table.rows < MinRows then Success(InsufficientRecord(ticker, sector))
      else
        match predict(LastRow(table))
        case Failure(e) => Success(Record(ticker, sector, None, None, Failed(e)))
        case Success(k) => Success(Record(ticker, sector, Some(price), variation, SignalOf(k)))
  }

  /** A classified row carries the latest close and the variation of the
      last two closes, and its signal is the class's; a classifier error
      gives an error row with the classifier's message and no figures. */
  lemma EvaluateClassified(ticker: string, sector: string, f: Frame, lib: Library, predict: Classifier)
    requires WellLabelled(f) && Prepare(f, lib).Ready? && !Gated(Prepare(f, lib))
    ensures var p := Prepare(f, lib);
      var r := Evaluate(ticker, sector, f, lib, predict).value;
      var close := f.cols[Close];
      match predict(LastRow(p.table))
      case Failure(e) => r == Record(ticker, sector, None, None, Failed(e))
      case Success(k) =>
        && r.signal == SignalOf(k)
        && r.price == Some(close[|close| - 1])
        && r.variation == Some(PctChange(close[|close| - 2], close[|close| - 1]))
  {
  }

  /** Every row that is not turned away shows a variation: the table has at
      least the minimum rows, so there are two closes to compare. */
  lemma VerdictHasFigures(ticker: string, sector: string, f: Frame, lib: Library, predict: Classifier)
    requires WellLabelled(f) && Evaluate(ticker, sector, f, lib, predict).Success?
    requires IsVerdict(Evaluate(ticker, sector, f, lib, predict).value.signal)
    ensures Evaluate(ticker, sector, f, lib, predict).value.price.Some?
    ensures Evaluate(ticker, sector, f, lib, predict).value.variation.Some?
  {
  }

  /** A ticker that is turned away never reaches the classifier: its row is
      the same whatever the classifier does. */
  lemma GateSkipsClassifier(ticker: string, sector: string, f: Frame, lib: Library, p1: Classifier, p2: Classifier)
    requires WellLabelled(f) && !Prepare(f, lib).Raised? && Gated(Prepare(f, lib))
    ensures Evaluate(ticker, sector, f, lib, p1) == Evaluate(ticker, sector, f, lib, p2)
  {
  }

  /** The rows of a sequence of loop outcomes, in order, or the error of
      the first outcome that is one: the loop stops there. */
  function Collect<T, E>(outs: seq<Result<T, E>>): (r: Result<seq<T>, E>)
    ensures r.Success? ==> |r.value| == |outs|
    decreases |outs|
  {
    if outs == [] then Success([])
    else
      match Collect(outs[..|outs| - 1])
      case Failure(e) => Failure(e)
      case Success(rs) =>
        match outs[|outs| - 1]
        case Failure(e) => Failure(e)
        case Success(row) => Success(rs + [row])
  }

  /** Collecting succeeds exactly when no outcome is an error, and then
      gives every outcome's row in order. */
  lemma {:induction false} CollectSucceeds<T, E>(outs: seq<Result<T, E>>)
    ensures Collect(outs).Success? <==> forall i :: 0 <= i < |outs| ==> outs[i].Success?
    ensures Collect(outs).Success? ==> forall i :: 0 <= i < |outs| ==> Success(Collect(outs).value[i]) == outs[i]
    decreases |outs|
  {
    if outs != [] {
      var front := outs[..|outs| - 1];
      CollectSucceeds(front);
      assert forall i :: 0 <= i < |front| ==> front[i] == outs[i];
    }
  }

  /** A failed collection reports the error of the first outcome that is
      one. */
  lemma {:induction false} CollectFailure<T, E>(outs: seq<Result<T, E>>)
    requires Collect(outs).Failure?
    ensures exists i ::
      && 0 <= i < |outs|
      && outs[i] == Failure(Collect(outs).error)
      && forall j :: 0 <= j < i ==> outs[j].Success?
    decreases |outs|
  {
    var n := |outs| - 1;
    var front := outs[..n];
    assert forall i :: 0 <= i < n ==> front[i] == outs[i];
    if Collect(front).Failure? {
      CollectFailure(front);
      var i :|
        && 0 <= i < n
        && front[i] == Failure(Collect(front).error)
        && forall j :: 0 <= j < i ==> front[j].Success?;
      assert outs[i] == Failure(Collect(outs).error);
    } else {
      CollectSucceeds(front);
      assert outs[n] == Failure(Collect(outs).error);
    }
  }

  /** Once a prefix has failed, the whole collection fails with the same
      error: nothing after it is looked at. */
  lemma {:induction false} CollectFailureSticks<T, E>(outs: seq<Result<T, E>>, i: nat)
    requires i <= |outs| && Collect(outs[..i]).Failure?
    ensures Collect(outs) == Collect(outs[..i])
    decreases |outs| - i
  {
    if i < |outs| {
      assert outs[..i + 1][..i] == outs[..i];
      CollectFailureSticks(outs, i + 1);
    } else {
      assert outs[..i] == outs;
    }
  }

  /** The outcome of entry `i` of the registry. */
  function EntryOutcome(reg: Registry, fetch: Fetch, lib: Library, predict: Classifier, i: nat): Result<Record, Label>
    requires i < |reg|
  {
    Evaluate(reg[i].0, reg[i].1, fetch(reg[i].0), lib, predict)
  }

  /** The outcomes of the registry's entries, in order. */
  function Outcomes(reg: Registry, fetch: Fetch, lib: Library, predict: Classifier): (outs: seq<Result<Record, Label>>)
    ensures |outs| == |reg|
    ensures forall i :: 0 <= i < |reg| ==> outs[i] == EntryOutcome(reg, fetch, lib, predict, i)
  {
    seq(|reg|, i requires 0 <= i < |reg| => EntryOutcome(reg, fetch, lib, predict, i))
  }

  /** The whole loop over the registry: the rows in registry order, or the
      first uncaught KeyError. */
  function Batch(reg: Registry, fetch: Fetch, lib: Library, predict: Classifier): (r: Result<seq<Record>, Label>)
    ensures r.Success? ==> |r.value| == |reg|
  {
    Collect(Outcomes(reg, fetch, lib, predict))
  }

  /** The loop succeeds exactly when no entry raises; then row `i` is entry
      `i`'s outcome, so each row depends only on its own entry, its own
      download and the classifier, and has the entry's ticker and sector. */
  lemma BatchRows(reg: Registry, fetch: Fetch, lib: Library, predict: Classifier)
    ensures Batch(reg, fetch, lib, predict).Success? <==>
      forall i :: 0 <= i < |reg| ==> EntryOutcome(reg, fetch, lib, predict, i).Success?
    ensures Batch(reg, fetch, lib, predict).Success? ==>
      var rs := Batch(reg, fetch, lib, predict).value;
      forall i :: 0 <= i < |reg| ==>
        && Success(rs[i]) == EntryOutcome(reg, fetch, lib, predict, i)
        && rs[i].ticker == reg[i].0
        && rs[i].sector == reg[i].1
  {
    CollectSucceeds(Outcomes(reg, fetch, lib, predict));
  }

  /** When the loop fails, the error is the missing price column of the
      first entry that raises, and every entry before it was processed. */
  lemma BatchFailure(reg: Registry, fetch: Fetch, lib: Library, predict: Classifier)
    requires Batch(reg, fetch, lib, predict).Failure?
    ensures exists i ::
      && 0 <= i < |reg|
      && EntryOutcome(reg, fetch, lib, predict, i) == Failure(Batch(reg, fetch, lib, predict).error)
      && forall j :: 0 <= j < i ==> EntryOutcome(reg, fetch, lib, predict, j).Success?
  {
    CollectFailure(Outcomes(reg, fetch, lib, predict));
  }

  /** A run over a registry without repeated tickers has one row per ticker. */
  lemma BatchTickersDistinct(reg: Registry, fetch: Fetch, lib: Library, predict: Classifier)
    requires DistinctTickers(reg) && Batch(reg, fetch, lib, predict).Success?
    ensures var rs := Batch(reg, fetch, lib, predict).value;
      forall i, j :: 0 <= i < j < |rs| ==> rs[i].ticker != rs[j].ticker
  {
    BatchRows(reg, fetch, lib, predict);
  }

  /** The outcomes of a prefix one entry longer. */
  lemma OutcomesStep(reg: Registry, fetch: Fetch, lib: Library, predict: Classifier, i: nat)
    requires i < |reg|
    ensures Outcomes(reg[..i + 1], fetch, lib, predict) == Outcomes(reg[..i], fetch, lib, predict) + [EntryOutcome(reg, fetch, lib, predict, i)]
  {
    var longer := Outcomes(reg[..i + 1], fetch, lib, predict);
    var shorter := Outcomes(reg[..i], fetch, lib, predict);
    assert forall k :: 0 <= k <= i ==> reg[..i + 1][k] == reg[k];
    assert forall k :: 0 <= k < i ==> reg[..i][k] == reg[k];
    assert longer[..i] == shorter;
  }

  /** The body of the loop for one entry and its download: prepare, gate,
      classify and build the row; a KeyError is passed on as `Failure`. */
  method ProcessEntry(ticker: string, sector: string, download: Frame, lib: Library, predict: Classifier)
    returns (o: Result<Record, Label>)
    requires WellLabelled(download)
    ensures o == Evaluate(ticker, sector, download, lib, predict)
  {
    var prepared := PrepareData(download, lib);
    match prepared {
      case Raised(c) =>
        return Failure(c);
      case NoData =>
        o := Success(InsufficientRecord(ticker, sector));
      case Ready(df, precio, variacion) =>
        if df.rows < MinRows {
          o := Success(InsufficientRecord(ticker, sector));
        } else {
          var pred := predict(LastRow(df));
          match pred {
            case Failure(e) =>
              o := Success(Record(ticker, sector, None, None, Failed(e)));
            case Success(k) =>
              o := Success(Record(ticker, sector, Some(precio), variacion, SignalOf(k)));
          }
        }
    }
  }

  /** The loop as the source runs it: for each entry, download and process
      it and append its row; a KeyError leaves the loop. */
  method Run(reg: Registry, fetch: Fetch, lib: Library, predict: Classifier) returns (r: Result<seq<Record>, Label>)
    ensures r == Batch(reg, fetch, lib, predict)
  {
    var resultados: seq<Record> := [];
    for i := 0 to |reg|
      invariant Batch(reg[..i], fetch, lib, predict) == Success(resultados)
    {
      var (ticker, sector) := reg[i];
      OutcomesStep(reg, fetch, lib, predict, i);
      ghost var outs := Outcomes(reg, fetch, lib, predict);
      assert outs[..i + 1] == Outcomes(reg[..i + 1], fetch, lib, predict);
      var download := fetch(ticker);
      var outcome := ProcessEntry(ticker, sector, download, lib, predict);
      match outcome {
        case Failure(c) =>
          CollectFailureSticks(outs, i + 1);
          return Failure(c);
        case Success(row) =>
          resultados := resultados + [row];
      }
    }
    assert reg[..|reg|] == reg;
    r := Success(resultados);
  }
}
