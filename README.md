# Trading-signal dashboard: feature preparation, classification loop and sector display

This project models the core of `app.py`, a dashboard that downloads daily prices for a fixed registry of tickers. For each ticker it:
- computes fifteen technical features;
- asks a pre-trained classifier for the latest row's class;
- turns the class into a Buy / Hold / Sell recommendation;
- shows the results grouped by sector.

The model has five modules.

- `Wrappers` (`wrappers.dfy`): `Option` and `Result`.
- `Frames` (`frames.dfy`): a downloaded data frame.
  - It is a number of rows plus a map from column label to column.
  - Every column has that many cells.
  - A cell is `Option<real>`; `None` stands for NaN and any non-finite float.
  - Also here: pandas assignment alignment (`Align`, `SetColumn`), null filling with 0 (`FillNa`, which in the model also zeroes infinities), `diff(k)` and element-wise subtraction.
- `Features` (`features.dfy`): `preparar_datos`. All of the following are proved about its steps:
  - the fifteen-column schema, in order;
  - the fourteen assignments;
  - the completion loop that adds each missing feature as zeros;
  - the projection with null filling;
  - the latest price and the day-over-day variation.

  `Prepare` states the outcome of the whole preparation. `PrepareData` performs the source's steps one by one and is proved equal to `Prepare`.
- `Signals` (`signals.dfy`): the class-to-signal mapping and the exact recommendation texts.
- `Pipeline` (`pipeline.dfy`): the per-ticker loop.
  - It covers the gate (no data or fewer than 30 rows), the classifier call, the error row, and the uncaught `KeyError`.
  - `Run` is the loop. It is proved equal to `Batch`, which collects the per-entry outcomes in registry order.
- `Display` (`display.dfy`): the sections.
  - `sorted(df["Sector"].unique())` gives strictly ascending, distinct sectors.
  - Each section holds the rows of one sector, in row order.
  - The sections partition the rows.

The download (`yf.download`), the technical-analysis library and the classifier are parameters:
- `Fetch`: ticker to a well-labelled frame (`Frames.WellLabelled`);
- `Library`: close, high and low to the twelve indicator series;
- `Classifier`: labelled feature row to a class or an exception message.

Two points of the code's behaviour shape the model:
- **A missing price column aborts the run.** Lines 84-86 read `df["High"]`, `df["Low"]` and `df["Volume"]`, and the `try` at line 146 covers only the classification. So a download that has `Close` but lacks one of them raises a `KeyError` from lines 84-86 that stops the run. The model returns `Raised(label)` from `Prepare` and `Failure(label)` from `Batch`.
  - `Pipeline.BatchFailure` proves that the failure comes from the first such entry.
  - `Pipeline.BatchRows` proves that without one every entry yields its own row.
- **Order within a sector.** Only the sectors are sorted (line 176). Inside a section, rows keep registry order (`Display.GroupAppend`, `Display.GroupCount`).

## Model

| member | source | states |
|---|---|---|
| Features.FeatureNamesListed | app.py:69-73 | the input schema is exactly the fifteen features RSI, MACD, MACD_Signal, SMA_10, EMA_10, Momentum, Volume, bb_bbm, bb_bbh, bb_bbl, bb_bandwidth, atr, cci, adx, roc, in that order |
| Features.FeatureNamesText | app.py:69-73 | the schema's labels are written as the fifteen column names the classifier was trained with |
| Features.FeatureNamesDistinct | app.py:69-73 | no feature name appears twice in the schema |
| Frames.WellLabelled | app.py:78-79 | a downloaded frame has one label per column name: no `Other` label spells a label the script names |
| Frames.IsEmpty | app.py:80 | `df.empty` holds exactly when the frame has no rows or no columns |
| Frames.Align | app.py:88-107 | an assigned series is aligned to the frame's index: the right length, original cells where the series has them, NaN elsewhere, unchanged when it already fits |
| Frames.SetColumn | app.py:88-107 | assigning a column keeps the row count, adds exactly that label, stores the aligned series and leaves every other column unchanged |
| Features.Assigned | app.py:88-107 | Momentum's series is as long as the close, the bandwidth's as long as the frame, and Close, High, Low, Volume and other labels get nothing assigned |
| Features.PricesNotAssigned | app.py:88-107 | Close, High, Low, Volume and any other downloaded label are not among the assigned columns |
| Features.WithIndicators | app.py:88-107 | after the fourteen assignments the frame has exactly its old labels plus the assigned ones; each assigned column holds its aligned series and the downloaded columns are unchanged |
| Features.Enriched | app.py:83-107 | the frame the completion loop receives keeps the row count, has the downloaded labels plus the assigned ones, and keeps Close, High, Low and Volume as downloaded |
| Features.AssignAll | app.py:88-107 | after assigning a list of columns the frame has exactly the old labels plus the assigned ones; each assigned label holds its aligned series and every other column is unchanged |
| Features.FeatureIsAssigned | app.py:69-73 | every feature except Volume is one of the assigned columns, and Volume is not assigned |
| Features.EnrichedFeature | app.py:83-107 | once Close, High, Low and Volume are present, every feature is a column of the enriched frame holding its source series (the downloaded Volume, or the assigned indicator) |
| Frames.Diff | app.py:94 | `diff(k)` has the series' length; cell t is defined exactly when t ≥ k and cells t and t−k are, and then cell t minus the result is cell t−k |
| Frames.Minus | app.py:99 | subtraction has the operands' length; a cell is defined exactly when both operand cells are, and then adding it to b gives a |
| Frames.Zeros | app.py:113 | `df[col] = 0` gives a column of the frame's length whose every cell is 0 |
| Features.AddMissing | app.py:111-113 | completion keeps the row count; afterwards a label is present exactly when it was present before or is one of the names; present columns are unchanged and added ones are all zeros |
| Features.CompleteColumns | app.py:111-113 | the completion loop gives the same frame as adding each missing feature in schema order |
| Features.AddMissingPresent | app.py:111-113 | completing a frame that already has every name changes nothing |
| Features.CompletionAddsNothing | app.py:83-113 | on the path that reaches the completion loop, the assignments have already supplied all fifteen features, so the loop adds no column |
| Frames.FillNa | app.py:115 | filling keeps the length, keeps every present value and puts 0 for every missing one |
| Features.Select | app.py:115 | the projection has exactly the given columns in order, the same rows, and each column is the frame's column with nulls filled |
| Features.CompletionFills | app.py:111-115 | after completion and projection, each feature cell is the frame's value, 0 for a null, and 0 throughout when the frame lacked the column; the row count is unchanged |
| Features.FilledDiffAt | app.py:94 | the filled four-row difference is c[k]-c[k-4] where both closes exist and k ≥ 4, otherwise 0 |
| Features.FilledMinusAt | app.py:99 | the filled difference of two aligned series is a[k]-b[k] where both exist, otherwise 0 |
| Features.ReadyMomentum | app.py:94-115 | in a prepared table, the Momentum column is the filled four-row difference of the close |
| Features.ReadyBandwidth | app.py:99-115 | in a prepared table, bb_bandwidth is the upper minus the lower Bollinger band, aligned, and 0 where either is missing |
| Features.LastRow | app.py:147 | the latest row holds the fifteen feature names in schema order, each with the column's last cell |
| Features.PctChange | app.py:119 | the change is defined exactly when both closes are numbers and the previous one is non-zero (its value is pinned by `PctChangeRecovers`) |
| Features.PctChangeRecovers | app.py:119 | the previous close plus that percentage of itself is the latest close |
| Features.Variation | app.py:118-121 | the variation is absent exactly when there is at most one close; otherwise it is the percent change of the last two closes |
| Features.VariationExample | app.py:118-121 | closes 100, 105 give 5%; a single close gives no variation; a zero previous close gives NaN |
| Features.ReferenceTable | app.py:88-115 | the reference table, whose feature i is feature i's source series with nulls filled, has the classifier's schema and the download's row count |
| Features.Prepare | app.py:76-123 | no data exactly when the frame is empty or lacks Close; a KeyError exactly when Close is present but High, Low or Volume is missing, naming a missing one; otherwise a table with the schema, the download's rows (at least one), the latest close as price and the variation of the last two closes |
| Features.StepsYieldReference | app.py:88-115 | assignments, completion and projection together give the reference table |
| Features.PrepareData | app.py:76-123 | the step-by-step preparation returns exactly `Prepare`'s outcome |
| Signals.SignalOf | app.py:149-154 | class 2 is Buy, class 1 is Hold, and any other class is Sell, each in both directions |
| Signals.SignalOfIsVerdict | app.py:149-154 | every class maps to a verdict, never to "insufficient data" or an error |
| Signals.SignalOfOnto | app.py:149-154 | each of Buy, Hold and Sell is the signal of some class |
| Signals.Text | app.py:142-169 | an error's text is the warning prefix followed by the exception message |
| Signals.TextHead | app.py:142-169 | each recommendation text begins with its own symbol |
| Signals.TextInjective | app.py:142-169 | different recommendations are written differently; an error text determines its message |
| Pipeline.DistinctTickers | app.py:15-66 | registry entries have pairwise different tickers, as the keys of a dictionary do |
| Pipeline.Gated | app.py:136 | a ticker is turned away exactly when preparation gave no data or a table of fewer than 30 rows |
| Pipeline.InsufficientRecord | app.py:136-144 | a turned-away ticker's row copies ticker and sector, has no price and no variation, and says "insufficient data" |
| Pipeline.Evaluate | app.py:134-170 | one iteration fails exactly on a preparation KeyError, with that label; otherwise it yields a row with the entry's ticker and sector, which is the insufficient-data row whenever the ticker is turned away |
| Pipeline.EvaluateClassified | app.py:146-170 | for a classified ticker, a classifier exception gives the error row with its message and no figures; otherwise the signal is the class's, the price is the latest close and the variation is that of the last two closes |
| Pipeline.VerdictHasFigures | app.py:136-162 | every row with a Buy, Hold or Sell verdict shows both a price and a variation |
| Pipeline.GateSkipsClassifier | app.py:136-144 | a ticker with no data or fewer than 30 rows gets the same row whatever the classifier does |
| Pipeline.Collect | app.py:131-170 | the collected rows, when there are any, number as many as the outcomes |
| Pipeline.CollectSucceeds | app.py:131-170 | collecting succeeds exactly when no outcome is an error, and then row i is outcome i |
| Pipeline.CollectFailure | app.py:131-170 | a failed collection reports the first error outcome, every earlier one having succeeded |
| Pipeline.CollectFailureSticks | app.py:131-170 | once a prefix has failed, nothing after it changes the result |
| Pipeline.Outcomes | app.py:133-134 | entry i's outcome is the evaluation of registry entry i on its own download |
| Pipeline.Batch | app.py:131-170 | on success there is one row per registry entry |
| Pipeline.BatchRows | app.py:131-170 | the run succeeds exactly when no entry raises; then row i is entry i's outcome, with entry i's ticker and sector, so one ticker's data or classifier failure does not affect another's row |
| Pipeline.BatchFailure | app.py:83-134 | a failed run reports the missing column of the first entry that raises |
| Pipeline.BatchTickersDistinct | app.py:15-133 | with a registry that has no repeated ticker, the rows have pairwise distinct tickers |
| Pipeline.ProcessEntry | app.py:134-170 | the loop body for one entry returns exactly `Evaluate`'s outcome |
| Pipeline.Run | app.py:131-170 | the loop returns exactly `Batch`'s result |
| Display.Less | app.py:176 | Python's string order: a proper prefix comes first, otherwise the first differing character decides |
| Display.LessIrreflexive | app.py:176 | string order: no string precedes itself |
| Display.LessTransitive | app.py:176 | string order is transitive |
| Display.LessTotal | app.py:176 | any two different strings are ordered one way |
| Display.LessAsymmetric | app.py:176 | no two strings precede each other |
| Display.SectorColumn | app.py:174 | the sector column has one entry per row, the row's sector |
| Display.Unique | app.py:174 | `unique()` gives distinct values, exactly the values of the column |
| Display.Insert | app.py:176 | inserting into an ascending list keeps it strictly ascending and adds exactly that value, growing by one unless it was already there |
| Display.Sort | app.py:176 | sorting a list of distinct values gives a strictly ascending list of exactly the same values, as many as there were |
| Display.Sectors | app.py:173-176 | for at least one row, the section sectors are strictly ascending and are exactly the sectors of the rows |
| Display.SortedUnique | app.py:176 | two strictly ascending lists with the same elements are equal, so the section order is fully determined |
| Display.Group | app.py:179 | a sector's group holds only rows of that sector |
| Display.GroupAppend | app.py:179 | filtering splits over concatenation, so groups keep the rows' order |
| Display.GroupCount | app.py:179 | a group holds every row of its sector as often as the rows do, and nothing else |
| Display.Sections | app.py:176-181 | one section per sorted sector, holding that sector's group |
| Display.SectionsNonEmpty | app.py:174-181 | every section shows at least one row |
| Display.SectionOfRow | app.py:176-181 | every row appears in a section, and only in the section of its own sector |
| Display.ConcatGroups | app.py:176-181 | the groups of distinct sectors together hold exactly the rows of those sectors |
| Display.SectionsPartition | app.py:173-181 | the sections together hold every row exactly as often as the rows do |
| Display.SectorsExample | app.py:173-176 | rows of Tecnología, Consumo and Tecnología give the sectors Consumo, Tecnología in that order |
| Display.GroupsExample | app.py:179 | of those rows, the Consumo group is the middle row and the Tecnología group is the first and last rows in order |
| Display.SectionsExample | app.py:173-181 | rows of Tecnología, Consumo and Tecnología give the Consumo section, then the Tecnología section with its two rows in order |

## Left out

- The download (`yf.download`, line 77) is the `Fetch` parameter. So is the flattening of a multi-level column header (78-79). The frame is taken as already flattened, and network errors are not modelled.
- The indicator computations of the technical-analysis library (88-107) are the opaque `Library` parameter. Exceptions the library itself might raise are not modelled.
- Loading the classifier (line 12) is left out. Its internals are left out too: the classifier is only a function from the labelled latest row to a class or an exception message.
- Column labels are a datatype: one constructor per label the code names, plus `Other` for any other downloaded label. The `strip()` renaming (109) is left out: downloaded labels are taken as already stripped, so it changes nothing.
- Floats are reals: no floating-point error, and NaN and infinities are one `None` cell.
- Frames.FillNa: an infinite indicator cell becomes 0 in the model, while pandas' `fillna(0)` (line 115) keeps it. The classifier would then likely reject the row, giving the error row of 163-170. `Features.Select`, `Features.Prepare` and the rows built on them inherit this.
  - `round(..., 2)` of the price and the variation (117, 119) is left out.
  - A NaN close used as the price, or a zero previous close, shows as `None` inside a present figure.
- String formatting is left out: the values are kept, not their text. The formatting of the price and the variation (`"$…"`, `"…%"`, `"N/A"`, 140-141, 159-160 and 167-168) becomes `Option` values in the row.
- Streamlit rendering (124-128, 177-181, 184-192) is left out: the page setup, the subheaders, and the `set_index("Ticker")` column selection.
- The specific tickers and sectors of the registry (15-66) are left out. The loop is modelled for any registry, and `Pipeline.DistinctTickers` states the dictionary's unique keys.
- Display.Sectors and Display.Sections require at least one row. With no rows, `pd.DataFrame([])` has no "Sector" column and line 174 raises a `KeyError`; that crash of the empty registry is not modelled. The script's own registry (15-66) is not empty, so every run the script makes has rows.
- The pandas frame index (dates) is left out. A frame is a number of rows and aligned columns; assignment alignment is by position.
