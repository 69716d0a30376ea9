# Repertoire distance, modelled in Dafny

This project models the Repertoire Distance block. The block compares immune-repertoire samples by their clonotypes.

Its distance engine (`software/src/main.py`) does the following:
- reads a table of clonotype rows, bulk or single-cell dual-chain;
- cleans and checks the header;
- builds a clone key for each row under each requested intersection mode;
- computes the requested metrics for every pair of samples over the samples' clone-key sets;
- writes a wide table with one row per ordered sample pair and one column `{metric}_{intersection}` per configured metric;
- writes a second table that keeps each unordered pair once.

The block's model and UI files cover the rest:
- `model/src/index.ts` holds the default arguments, the validity gate, the abundance-column filter, the derived outputs and the title.
- `model/src/uiState.ts` holds the default UI state and the default metric entries.
- The metrics page (`ui/src/pages/metrics.ts`) adds entries and seeds an empty metric list once.
- The label lookup lives in `ui/src/pages/util.ts`.

The project has one module per file:

| module | file | models |
|---|---|---|
| `Wrappers` | wrappers.dfy | `Option` and `Result` |
| `StringOrder` | string_order.dfy | Python's string order and `sorted(set(...))` |
| `Decimal` | decimal.dfy | how a clock value is written in an id |
| `Clonotypes` | clonotypes.dfy | `make_clone_key` |
| `MetricCompute` | metric_compute.dfy | `compute_metric` |
| `SamplePairs` | sample_pairs.dfy | `itertools.product` and `combinations_with_replacement` |
| `DistanceTable` | distance_table.dfy | `compute_metrics_wide`, both as its loops and as the function `WideTable` they compute |
| `WideTableFacts` | wide_table_facts.dfy | what the wide table is: rows, columns, values, symmetry, diagonal |
| `MainSteps` | main_steps.dfy | header clean-up, single-cell detection, required columns, the unique-pairs filter |
| `BlockTypes` | block_types.dfy | the block's data types |
| `BlockModel` | block_model.dfy | `model/src/index.ts` |
| `UiDefaults` | ui_defaults.dfy | `model/src/uiState.ts` |
| `MetricsPage` | metrics_page.dfy | `ui/src/pages/metrics.ts` |
| `MetricLabels` | metric_labels.dfy | `ui/src/pages/util.ts` |

The parts of the engine that loop and update dictionaries are imperative methods:
- `SetDefaults`
- `FillPair`
- `FillAllPairs`
- `Populate`
- `BuildRows`
- `ComputeMetricsWide`

Each is proved equal to a specification function, and the lemmas about those functions state what the program promises.

The metrics page is a class, `MetricsSession`. Its fields are the block arguments and the flag of the `once` wrapper.

## Model

| member | source | states |
|---|---|---|
| `StringOrder.SortedUnique` | software/src/main.py:115 | The sample ids come out strictly increasing under Python's string order, and they are exactly the ids present in the input. |
| `StringOrder.LessTotal` | software/src/main.py:115 | Python's string order is total on distinct strings, so sorting the distinct ids is well defined. |
| `StringOrder.LessTransitive` | software/src/main.py:115 | Python's string order is transitive. |
| `StringOrder.SortedIndexOrder` | software/src/main.py:115-119 | In a sorted id list, string order and position order agree, and equal ids sit at the same position. |
| `Decimal.ParseNatToString` | ui/src/pages/metrics.ts:14 | Reading back the decimal digits a clock value is written with gives the value again. |
| `Decimal.NatToStringInjective` | ui/src/pages/metrics.ts:14 | Distinct clock values are written as distinct digit strings. |
| `Clonotypes.KeyColumns` | software/src/main.py:48-72 | A mode has key columns exactly when it is one of the four supported modes. |
| `Clonotypes.Fetch` | software/src/main.py:52-70 | Reading a row's key cells succeeds exactly when every key column is present and returns their values in order; otherwise it reports a missing column, as pandas raises a KeyError. |
| `Clonotypes.MakeCloneKey` | software/src/main.py:48-72 | An unsupported mode raises the error for that mode and data kind. For a supported mode the key exists exactly when all its columns are present, and otherwise a missing key column is reported. |
| `Clonotypes.BulkGeneKeys` | software/src/main.py:63-66 | Bulk CDR3ntVJ and CDR3aaVJ keys are the CDR3 sequence, V gene and J gene joined by a vertical bar, with the nucleotide or amino-acid sequence respectively. |
| `Clonotypes.BulkSequenceKeys` | software/src/main.py:67-70 | Bulk CDR3nt and CDR3aa keys are the bare sequence. |
| `Clonotypes.SingleCellNtGeneKey` | software/src/main.py:51-52 | The single-cell CDR3ntVJ key joins both chains' nucleotide sequences, V genes and J genes with a vertical bar, A before B. |
| `Clonotypes.SingleCellAaGeneKey` | software/src/main.py:53-54 | The same for CDR3aaVJ, with amino-acid sequences. |
| `Clonotypes.SingleCellSequenceKeys` | software/src/main.py:55-58 | Single-cell CDR3nt and CDR3aa keys join the A and B sequences with a vertical bar. |
| `Clonotypes.SplitJoin` | software/src/main.py:52 | Splitting a key at the vertical bar gives back its fields when no field contains one. |
| `Clonotypes.JoinInjective` | software/src/main.py:52-64 | Two field lists without a vertical bar in them give the same key exactly when they are equal. |
| `Clonotypes.CloneKeyInjective` | software/src/main.py:48-72 | When no key cell contains a vertical bar, two rows get the same clone key exactly when they agree on every key column of the mode. |
| `MetricCompute.ComputeMetric` | software/src/main.py:75-111 | The metric raises exactly when its name is unknown and the pair is a self-pair or shares clones. A self-pair gives 1.0, or the clone count for sharedClonotypes. Distinct samples without shared clones give 0.0 for every name, even an unknown one. A fraction-based value records its metric, the intersection mode and the pair in the order computed. |
| `MetricCompute.SetMetricFormulas` | software/src/main.py:96-109 | For distinct samples sharing clones: sharedClonotypes is the size of A∩B, between 1 and the smaller set's size; jaccard is size(A∩B)/size(A∪B), in (0,1]; D is size(A∩B)/(size(A)·size(B)), in (0,1]. |
| `MetricCompute.CorrelationNeedsTwoShared` | software/src/main.py:101-107 | Correlation is 0.0 when distinct samples share at most one clone. |
| `MetricCompute.ComputeMetricSymmetric` | software/src/main.py:75-111 | For a self-pair, a pair without shared clones, or a set-based metric, swapping the two samples gives the same result. |
| `SamplePairs.ProductMembers` | software/src/main.py:118 | The ordered pairs are exactly the pairs of sample ids. |
| `SamplePairs.ProductLength` | software/src/main.py:118 | There are n·m ordered pairs. |
| `SamplePairs.ProductSorted` | software/src/main.py:118 | The ordered pairs of sorted lists come in strictly increasing tuple order. |
| `SamplePairs.CombinationsMembers` | software/src/main.py:119 | The unordered pairs of a sorted id list are exactly the pairs (a, b) of ids with a ≤ b. |
| `SamplePairs.CombinationsSorted` | software/src/main.py:119 | The unordered pairs come in strictly increasing tuple order, so none repeats. |
| `SamplePairs.CombinationsLength` | software/src/main.py:119 | There are n(n+1)/2 unordered pairs. |
| `SamplePairs.KeepOrdered` | software/src/main.py:233-236 | Keeping the pairs with first ≤ second keeps exactly those pairs. |
| `SamplePairs.KeepOrderedProduct` | software/src/main.py:118-119 | Filtering the ordered pairs of a sorted id list to first ≤ second gives exactly the unordered pairs, in the same order. |
| `SamplePairs.SortedSame` | software/src/main.py:119 | Two strictly sorted pair lists with the same members are equal. |
| `DistanceTable.AddToGroupSpec` | software/src/main.py:124 | Appending a config adds its metric at the end of its mode's list, creates a group for a new mode, leaves other modes alone and keeps one group per mode. |
| `DistanceTable.ReadConfig` | software/src/main.py:124 | Reading one entry succeeds exactly when both keys are present. A missing `intersection` raises the KeyError for that key first; otherwise a missing `type` raises its KeyError. |
| `DistanceTable.ReadConfigs` | software/src/main.py:123-124 | When every entry is complete, the configs are the entries read one by one, in order. |
| `DistanceTable.ReadConfigsError` | software/src/main.py:123-124 | Reading the list fails exactly when some entry is incomplete, and then with the KeyError of the first incomplete entry. |
| `DistanceTable.GroupByIntersection` | software/src/main.py:121-124 | There is one group per distinct configured mode. Each mode lists exactly its configured metrics in config order, and there are no groups when there are no configs. |
| `DistanceTable.FirstIndex` | software/src/main.py:121-124 | The position found is that of the first config with the mode, or the length of the list when none has it. |
| `DistanceTable.FirstIndexAppend` | software/src/main.py:123-124 | Appending a config does not move the first occurrence of a mode that is already present. A new mode first occurs at the appended position. |
| `DistanceTable.AddToGroupModes` | software/src/main.py:124 | A config whose mode has a group keeps the modes and their order. A config with a new mode gets a group of its own at the end. |
| `DistanceTable.GroupByIntersectionOrder` | software/src/main.py:121-128 | The groups, and so the modes the loop visits, come in the order in which their modes first occur among the configs. |
| `DistanceTable.GroupConfigs` | software/src/main.py:121-124 | The grouping loop reads each entry's `intersection` and `type`. It computes the groups of the configs, or the KeyError of the first incomplete entry. |
| `DistanceTable.SampleIds` | software/src/main.py:115 | The ids are strictly sorted and are exactly the sample ids of the rows. |
| `DistanceTable.CloneKeysOf` | software/src/main.py:131 | Every row's key is built, in row order. The step raises exactly when some row's key cannot be built. |
| `DistanceTable.CloneKeysUnsupported` | software/src/main.py:59-60 | On a non-empty table an unsupported mode raises the unsupported-mode error. |
| `DistanceTable.GroupBySample` | software/src/main.py:134-138 | Each sample present gets the set of its rows' clone keys, and only present samples get one. |
| `DistanceTable.WithDefaults` | software/src/main.py:140-143 | Every sample id gets a set: its own if present, otherwise the empty set. Existing sets are unchanged. |
| `DistanceTable.SetDefaults` | software/src/main.py:140-143 | The `setdefault` loop computes `WithDefaults`. |
| `DistanceTable.FirstUnsupported` | software/src/main.py:152-153 | The first unknown metric name is found exactly when one exists, and it is an unknown name of the list. |
| `DistanceTable.PairTable` | software/src/main.py:145-156 | The finished table has one column per metric, each holding every ordered pair of ids. |
| `DistanceTable.PairValues` | software/src/main.py:145-156 | The metric step raises exactly when there are samples and some metric name is unknown. Otherwise each metric's column holds exactly the ordered pairs of ids. |
| `DistanceTable.FillPair` | software/src/main.py:152-156 | The metric loop for one pair raises at the first unknown name when that name fails for the pair. Otherwise each listed metric's column gains the pair and its mirror with the computed value, and other columns stay unchanged. |
| `DistanceTable.ValueAtMirror` | software/src/main.py:153-156 | The value computed for (a, b) with a ≤ b is also the value stored for (b, a). |
| `DistanceTable.CoveredCombinations` | software/src/main.py:148-156 | The unordered pairs and their mirrors cover every ordered pair of ids. |
| `DistanceTable.FilledComplete` | software/src/main.py:148-156 | A table that agrees with the finished table on the unordered pairs and their mirrors is the finished table. |
| `DistanceTable.PairTableIs` | software/src/main.py:145-156 | Every entry of the finished table, and its mirror, holds `compute_metric` of the sorted pair. |
| `DistanceTable.FillNextPair` | software/src/main.py:148-156 | One pass of the unordered-pair loop either raises at the first unknown metric or keeps the loop invariant one pair further. |
| `DistanceTable.FillAllPairs` | software/src/main.py:146-156 | The pair loop raises exactly when there are samples and an unknown metric, naming the first one. With no samples it leaves empty columns; otherwise it produces the finished table. |
| `DistanceTable.ComputePairValues` | software/src/main.py:145-156 | Step 2 as written computes `PairValues`. |
| `DistanceTable.GroupTable` | software/src/main.py:129-156 | One mode's table, when it exists, has a column for each of the mode's metrics. |
| `DistanceTable.GroupTables` | software/src/main.py:128-156 | When it succeeds there is one table per mode, in order, and each is that mode's table. |
| `DistanceTable.GroupTablesError` | software/src/main.py:128-156 | Building the tables fails exactly when some mode fails, and then with the exception of the first mode that fails. |
| `DistanceTable.BuildGroupTable` | software/src/main.py:129-156 | Steps 1 and 2 for one mode compute `GroupTable`. |
| `DistanceTable.FillRow` | software/src/main.py:163-165 | The column loop for one row adds `{metric}_{mode}` for the mode's metrics, with the stored value or 0.0 when none is stored. The columns already in the row are kept. |
| `DistanceTable.Populate` | software/src/main.py:158-165 | Step 3 for one mode gives every ordered pair an entry, created on the first mode. Each entry is the earlier one plus this mode's columns, in the pair order of the first mode. |
| `DistanceTable.AddGroupColumns` | software/src/main.py:158-165 | Adding one more mode's columns keeps the invariant that every pair holds the columns of all modes so far. |
| `DistanceTable.RowsInOrder` | software/src/main.py:167 | The output has one row per recorded pair, in insertion order, with that pair's columns. |
| `DistanceTable.RowsSoFarComplete` | software/src/main.py:158-167 | After the last mode, the rows in insertion order are the rows of the specification. |
| `DistanceTable.BuildRows` | software/src/main.py:126-167 | The loop over the modes computes the grouped rows of the specification, or the same exception. |
| `DistanceTable.WideTableIncomplete` | software/src/main.py:121-131 | A config entry without `intersection` or `type` makes the whole computation raise a KeyError for one of those keys, before any clone key is built and whatever the rows. |
| `DistanceTable.ComputeMetricsWide` | software/src/main.py:114-167 | `compute_metrics_wide` as written computes `WideTable`: the KeyError of the first incomplete config, or `WideRows` of the configs read. |
| `WideTableFacts.AfterLastColumn` | software/src/main.py:164 | A column name can be split back into its mode after the last underscore. |
| `WideTableFacts.ColumnNameInjective` | software/src/main.py:164 | When modes contain no underscore, distinct (metric, mode) configs get distinct column names. |
| `WideTableFacts.SupportedHasNoUnderscore` | software/src/main.py:48-72 | No supported mode contains an underscore. |
| `WideTableFacts.ColumnsOfConfigs` | software/src/main.py:122-124 | The grouped modes give exactly one column name per configured (metric, mode). |
| `WideTableFacts.RowValuesKeys` | software/src/main.py:158-165 | Every row has exactly the columns of all the modes' metrics. |
| `WideTableFacts.RowsOfPairs` | software/src/main.py:159-167 | With at least one mode, the rows are the ordered pairs of ids, in order. |
| `WideTableFacts.WideRowsShape` | software/src/main.py:114-167 | Without configs there are no rows. With configs there are n² rows, one per ordered pair of sample ids, in increasing lexicographic order. |
| `WideTableFacts.WideRowsColumns` | software/src/main.py:122-165 | Every row has exactly one column `{metric}_{intersection}` per config. |
| `WideTableFacts.WideRowsValue` | software/src/main.py:128-165 | Each config's cell in a row is `compute_metric` of the row's two samples over the clone-key sets of that config's mode. Configs sharing a mode use the same sets. |
| `WideTableFacts.ValueAtSymmetric` | software/src/main.py:148-156 | The value stored for (a, b) equals the value stored for (b, a). |
| `WideTableFacts.WideRowsSymmetric` | software/src/main.py:148-165 | The rows of (a, b) and (b, a) hold the same values in every column. |
| `WideTableFacts.ValueAtDiagonal` | software/src/main.py:76-87 | A self-pair's value is 1.0, or its clone count for sharedClonotypes; distinct samples without shared clones give 0.0. |
| `WideTableFacts.WideRowsDiagonal` | software/src/main.py:76-87 | The self-pair and no-shared-clones values show in every column of the wide table. |
| `MainSteps.SkipSpaces` | software/src/main.py:185 | Scanning forward stops at the first non-whitespace character, or at the end. |
| `MainSteps.SkipSpacesBack` | software/src/main.py:185 | Scanning backward stops just after the last non-whitespace character, or at the lower bound. |
| `MainSteps.Strip` | software/src/main.py:185 | The stripped name neither starts nor ends with whitespace. |
| `MainSteps.StripSpec` | software/src/main.py:185 | The stripped name is a slice of the name, and everything cut off on either side is whitespace. |
| `MainSteps.RemoveChar` | software/src/main.py:185 | Removing a character never lengthens a string and changes nothing when the character is absent. |
| `MainSteps.RemoveCharConcat` | software/src/main.py:185 | Removal works piece by piece: removing from a concatenation is concatenating the removals, so order and multiplicity of the other characters are kept. |
| `MainSteps.RemoveCharSingle` | software/src/main.py:185 | A single `c` disappears and any other single character stays. |
| `MainSteps.RemoveCharMembers` | software/src/main.py:185 | After `replace(c, '')`, a character occurs exactly when it occurred before and is not `c`. |
| `MainSteps.NormalizeHeader` | software/src/main.py:185 | A cleaned header name contains no double quote and no space. |
| `MainSteps.NormalizeHeaderChars` | software/src/main.py:185 | Cleaning only removes characters. |
| `MainSteps.NormalizeClean` | software/src/main.py:185 | A name without quotes, spaces or surrounding whitespace is left unchanged. |
| `MainSteps.NormalizeQuoted` | software/src/main.py:185 | A quoted name with whitespace around it is cleaned to the bare name. |
| `MainSteps.CleanHeader` | software/src/main.py:185 | Every header name is cleaned, in place and in order. |
| `MainSteps.RenamedColumns` | software/src/main.py:194-216 | Each cleaned name is renamed by the map of the detected layout, in order. |
| `MainSteps.DetectLayout` | software/src/main.py:185-221 | The header is accepted exactly when the layout's required columns are all present after renaming. Acceptance records the layout and the renamed columns; rejection lists exactly the missing required columns. |
| `MainSteps.KeyColumnsRequired` | software/src/main.py:48-72 | Every column a supported mode's key reads is a required column of that layout. |
| `MainSteps.LayoutGivesKeys` | software/src/main.py:203-221 | For a row of an accepted header, every supported mode builds a key without error. |
| `MainSteps.ChainBColumnsAre` | software/src/main.py:197-201 | The single-cell B-chain markers are renamed to `CDR3aa_B`, `CDR3nt_B`, `VGene_B` and `JGene_B`. |
| `MainSteps.SingleCellNeverMissesChainB` | software/src/main.py:189-221 | A rejected single-cell header never lacks a B-chain column: only A-chain, `sampleId` or read-count columns can be missing. |
| `MainSteps.UniqueRows` | software/src/main.py:233-236 | The unique output keeps exactly the rows with sample1 ≤ sample2. |
| `MainSteps.UniqueRowsPairs` | software/src/main.py:233-236 | The filter keeps the rows in order: its pairs are the ordered filter of the input's pairs. |
| `MainSteps.UniqueTable` | software/src/main.py:233-236 | Deduplication raises a KeyError for `sample1` exactly when the full table has no rows, because such a table has no columns. Otherwise it keeps exactly the rows with sample1 ≤ sample2. |
| `MainSteps.UniqueTableOfWide` | software/src/main.py:228-236 | On a wide table that was built, deduplication fails exactly when there is no config or no input row. |
| `MainSteps.UniqueRowsOfWide` | software/src/main.py:233-236 | The unique output has one row per unordered pair of sample ids, in combinations order: n(n+1)/2 rows. |
| `BlockTypes.ParseDistance` | model/src/index.ts:5-6 | A stored distance name reads back only to the type stored under it. |
| `BlockTypes.ParseIntersection` | model/src/index.ts:8 | A stored intersection name reads back only to the mode stored under it. |
| `BlockTypes.DistanceNamesMatchEngine` | model/src/index.ts:5-6 | The UI's distance types are exactly the metric names the engine accepts, and each name reads back to its type. |
| `BlockTypes.IntersectionNamesMatchEngine` | model/src/index.ts:8 | The UI's intersection types are exactly the modes the engine builds keys for. |
| `BlockTypes.DistanceNameInjective` | model/src/index.ts:5-6 | Distinct distance types have distinct names. |
| `BlockModel.DefaultArgs` | model/src/index.ts:32-59 | A new block has no abundance column and six metrics F1, F2, D, sharedClonotypes, correlation, jaccard, in that order, all on CDR3ntVJ. |
| `BlockModel.DefaultArgsCoverEveryType` | model/src/index.ts:32-59 | Every distance type occurs exactly once in the defaults, and the engine accepts every default config. |
| `BlockModel.ArgsValidIgnoresMetrics` | model/src/index.ts:78 | Validity holds exactly when an abundance column is chosen, whatever the metric list, the empty one included. A new block is not valid. |
| `BlockModel.AbundanceOptions` | model/src/index.ts:80-85 | The options are exactly the pool's specs that pass the filter, never more than the pool. Each is a PColumn whose value type is Int, Long, Float or Double. |
| `BlockModel.AbundanceOptionsConcat` | model/src/index.ts:80-85 | The filter keeps pool order: filtering a concatenation is concatenating the filtered parts. |
| `BlockModel.AbundanceOptionAnnotations` | model/src/index.ts:80-85 | A column without annotations, or a normalized one, is never offered. Other annotations do not change whether a column is offered. |
| `BlockModel.ResolveColumns` | model/src/index.ts:88 | An output's columns exist exactly when the outputs exist, the name resolves and its columns are available. |
| `BlockModel.PT` | model/src/index.ts:87-94 | The table output is undefined exactly when the unique-pairs output has no columns. Otherwise it is built from those columns and the UI's table state. |
| `BlockModel.PF` | model/src/index.ts:96-103 | The frame output is undefined exactly when the full output has no columns. Otherwise it is built from those columns. |
| `BlockModel.IdsAndSpecs` | model/src/index.ts:111-117 | The projection keeps length and order and maps each column to its id and spec. |
| `BlockModel.HeatmapPCols` | model/src/index.ts:105-118 | The heatmap columns are undefined exactly when the full output has no columns. Otherwise they are each column's id and spec, in order. |
| `BlockModel.HeatmapMatchesFrame` | model/src/index.ts:96-118 | The heatmap columns exist exactly when the frame does, with the frame's column ids in order. |
| `BlockModel.IsRunning` | model/src/index.ts:120 | The block is running exactly when outputs exist and are neither ready nor failed. With no outputs the optional flag is undefined, and undefined is not `false`. |
| `BlockModel.InitialUiState` | model/src/index.ts:61-76 | The registered UI state is titled "Repertoire Distance", has a heatmap with no tab selected and an empty sorting and filter state. |
| `BlockModel.Title` | model/src/index.ts:122 | The title is the UI state's title when there is a UI state, and "Repertoire Distance" otherwise. |
| `BlockModel.TitleKeepsEmpty` | model/src/index.ts:122 | An empty title stays empty, because `??` replaces only a missing value. The initial state shows the default title. |
| `UiDefaults.DefaultUiState` | model/src/uiState.ts:3-16 | The default UI state is titled "Repertoire Distance" and has a heatmap on the settings tab with no normalisation direction. |
| `UiDefaults.DefaultId` | model/src/uiState.ts:22-72 | Every default id ends in the mode suffix `-cdr3ntvj`. |
| `UiDefaults.DefaultIdInjective` | model/src/uiState.ts:22-72 | Distinct distance types have distinct default ids. |
| `UiDefaults.DefaultMetricUis` | model/src/uiState.ts:19-81 | There are six default entries, in the order F1, F2, jaccard, D, sharedClonotypes, correlation. Each has its type's id, CDR3ntVJ, hypergeometric downsampling chosen automatically, and is collapsed. |
| `UiDefaults.DefaultMetricUisDistinct` | model/src/uiState.ts:19-81 | The six default ids are pairwise distinct. |
| `UiDefaults.DefaultTypeOnce` | model/src/uiState.ts:19-81 | Each distance type is set up by exactly one default entry. |
| `UiDefaults.DefaultsAgree` | model/src/uiState.ts:19-81 | The default entries ask for the same distance types as the default arguments of `model/src/index.ts`, each once, in another order. |
| `MetricsPage.NewMetricId` | ui/src/pages/metrics.ts:14 | A new id is `metric-` followed by the decimal digits of the clock value. |
| `MetricsPage.NewMetricIdInjective` | ui/src/pages/metrics.ts:14 | Two added entries get the same id exactly when they are added at the same clock value. |
| `MetricsPage.NewMetric` | ui/src/pages/metrics.ts:15-24 | An added entry has the new id, no type and no mode, no downsampling chosen automatically, and is expanded. |
| `MetricsPage.SeedMetric` | ui/src/pages/metrics.ts:38-49 | The seeded entry is the first default entry: id `f1-cdr3ntvj`, type F1. |
| `MetricsPage.Migrated` | ui/src/pages/metrics.ts:36-51 | A missing or empty list becomes exactly the one seeded entry. A non-empty list is left unchanged, and the abundance column is always kept. |
| `MetricsPage.MigratedIdempotent` | ui/src/pages/metrics.ts:30-53 | After the migration the list is neither missing nor empty, and migrating again changes nothing. |
| `MetricsPage.NewMetrics` | ui/src/pages/metrics.ts:13-25 | Entries added at successive clock values are those entries, in order. |
| `MetricsPage.NewIdIsNotDefault` | ui/src/pages/metrics.ts:14 | An added entry's id never equals a default id. |
| `MetricsPage.SeedIdIsNotNew` | ui/src/pages/metrics.ts:14-40 | The seeded id is never an added entry's id. |
| `MetricsPage.NewMetricsDistinct` | ui/src/pages/metrics.ts:14 | Entries added at distinct clock values have pairwise distinct ids. |
| `MetricsPage.SeededThenAddedDistinct` | ui/src/pages/metrics.ts:13-53 | A seeded list extended by entries added at distinct clock values keeps all ids distinct. |
| `MetricsPage.MetricsSession.MigrateOnce` | ui/src/pages/metrics.ts:30-53 | The first call sets the flag and applies `Migrated` to the arguments; later calls change nothing. |
| `MetricsPage.MetricsSession.UseMetrics` | ui/src/pages/metrics.ts:7-8 | Every use of the page runs the once-guarded migration, so the arguments end up as after one migration. |
| `MetricsPage.MetricsSession.AddMetric` | ui/src/pages/metrics.ts:13-25 | With a list present, exactly one new entry is appended at the end, and earlier entries and the other arguments are unchanged. With no list the push throws and nothing changes. |
| `MetricsPage.OpenTwiceThenAdd` | ui/src/pages/metrics.ts:7-53 | Opening the page twice and adding an entry gives the migrated list followed by the new entry. |
| `MetricLabels.MetricTypeOptions` | ui/src/pages/util.ts:1-8 | There are six options. |
| `MetricLabels.OptionsCoverTypes` | ui/src/pages/util.ts:1-8 | Every distance type has an option whose value is the type's name. |
| `MetricLabels.OptionsDistinct` | ui/src/pages/util.ts:1-8 | No two options share a value. |
| `MetricLabels.LabelsOf` | ui/src/pages/util.ts:10-16 | The map's keys are exactly the option values. |
| `MetricLabels.LabelsOfLastWins` | ui/src/pages/util.ts:12-14 | Each value maps to the label of the last option with that value. |
| `MetricLabels.BuildLabelsMap` | ui/src/pages/util.ts:10-16 | The `map.set` loop builds `LabelsOf` of the options. |
| `MetricLabels.GetMetricLabel` | ui/src/pages/util.ts:17 | The lookup gives a label exactly when the value is a key, and then the stored label. |
| `MetricLabels.GetMetricLabelSpec` | ui/src/pages/util.ts:1-17 | A value has a label exactly when it is an option's value, and then the label is that option's. Any other value gives undefined. |
| `MetricLabels.EveryTypeHasLabel` | ui/src/pages/util.ts:1-17 | Every distance type has a label, and `sharedClonotypes` reads "Shared Clonotypes". |

## Left out

- `downsample_df` (software/src/main.py:11-45) is left out. It is a seeded random multivariate-hypergeometric draw over read counts, a numpy quantile threshold, and a floating-point recomputation of fractions. It keeps every row and changes only counts and fractions, so the clone-key sets the set-based metrics read are the same before and after it.
- `MetricCompute.ComputeMetric`: F1, F2 and correlation for distinct samples that share clones read clone fractions with `sqrt`, float sums and `linregress`. They are kept as the opaque value `FromFractions(metric, mode, sample1, sample2)`, one token per metric, mode and ordered pair. How a value depends on the fractions is not modelled, so nothing follows from two tokens being different: two modes can give equal values in the program. The same holds for the `np.std` check that turns some correlations with two or more shared clones into 0.0.
- `MetricCompute.SetMetricFormulas`: jaccard and D are exact rationals, not IEEE doubles, so rounding is not modelled.
- Reading the CSV or TSV file, the `--sep` choice, `argparse`, loading the JSON config and `to_csv` are I/O. The model starts from the header names, the rows as maps from column to cell, and the configs as a list of entries whose two keys may each be absent. A config value that is not a string is not modelled.
- Rows: pandas dtypes, missing cells (`NaN`) and duplicate column names are not modelled. A row is a map from column name to string.
- `DistanceTable.OutRow`: a row's columns are a map from column name to value, so the column order of the written table is not modelled. That order is `sample1`, `sample2`, then `{metric}_{intersection}` by mode in first-seen order and by metric in config order. The mode order is proved separately by `DistanceTable.GroupByIntersectionOrder`.
- `DistanceTable.ComputeMetricsWide`: on an empty table the model gives no rows and no error. The program fails earlier, in `downsample_df`, which is not part of this model.
- The SDK calls in `model/src/index.ts` are modelled by the inputs they are given: `resultPool.getOptions`, `createPlDataTable`, `createPFrameForGraphs`, `resolve(...).getPColumns()` and `getIsReadyOrError()`. `sections` is static navigation and `BlockModel` chaining is registration; both are left out.
- `ui/src/app.ts` and the Vue reactivity of the metrics page (`computed`, `watch`) are left out. `lodash.once` is the flag `migrated`, and `updateArgs` assigns the arguments directly.
- `MetricsPage.MetricsSession.AddMetric` takes the clock value `Date.now()` as a parameter. A push onto a missing list, which throws a TypeError in the page, is modelled as `ok == false` with no change.
- Metric ids are strings, as every id the code creates is. `model/src/types.ts` declares them as numbers.
- `model/src/index.ts` declares an older `Metric` shape without `downsampling`, `id` and `isExpanded`. The default arguments leave those fields absent.
- The registered UI state (`BlockModel.InitialUiState`, `currentTab: null`, a table state) and `createDefaultUiState` (`UiDefaults.DefaultUiState`, tab `'settings'`, no table state) differ. Both are modelled as written.
- `MainSteps.NormalizeHeader` is not idempotent. Stripping happens before quotes are removed, so whitespace inside quotes survives, as in `"\"\tX"`. The model follows the code.
