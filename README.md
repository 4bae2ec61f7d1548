# Silver-layer transforms of the Spotify Azure data-engineering project

The silver notebook `databricks/src/silver/silver_Dimension.py` reads five
bronze datasets (DimUser, DimArtist, DimTrack, DimDate, FactStream), cleans each
batch with a short fixed chain of DataFrame operations, and appends the result
to a silver Delta table. This project models those chains and proves what they
do to a batch.

- `tables.dfy` (module `Tables`): a DataFrame is a `Table`, made of a set of
  column names (`schema`) and a sequence of rows. Each row maps column names to
  cells (`VStr`, `VInt`, `VNull`); the columns the modelled steps do not read
  are not typed. `WellFormed` says every row has exactly the schema's columns.
  Errors are `Err` values of `Result`: a missing column, as Spark reports it,
  and a string duration, which the model rejects. The module also holds the
  key-set helpers that deduplication is specified with.
- `text.dfy` (module `Text`): the string functions behind the cells. `Upper` is
  Spark's `upper` over ASCII. `ReplaceEach` is `regexp_replace` with a pattern
  of one literal character. `DecimalString` is the implicit cast of an integer
  to a string that both functions apply to integer cells.
- `transforms.dfy` (module `Transforms`): the table operations.
  - `DropColumns` is the shared `dropColumns` helper. Names that are not
    columns are ignored.
  - `UpperCol`, `ReplaceChar` and `BucketDuration` are the three `withColumn`
    calls.
  - `DedupByKey` is `dropDuplicates` on one key column.
  - A reference predicate, `IsDeduplication`, states what any choice of
    surviving duplicates satisfies.
- `silver.dfy` (module `Silver`): one pipeline per dataset, composed from those
  operations in the notebook's order.

Spark's behaviour at the edges is modelled explicitly:
- Referring to a column that is not in the schema gives
  `Err(UnresolvedColumn(..))`. This includes `withColumn` on `user_name`,
  `track_name` or `duration_sec`, and `dropDuplicates` on `user_id` or
  `artist_id`. Spark resolves names against the schema, so it fails on an empty batch
  too.
- `upper` and `regexp_replace` leave null cells null. They cast integer cells
  to their decimal string first.
- In the `when` chain of duration buckets, a comparison with null is not true.
  A null `duration_sec` therefore falls through to `otherwise` and is labelled
  "Long".
- `withColumn("duration_flag", ..)` replaces a `duration_flag` column that
  already exists, and adds one otherwise.

## Model

| member | source | states |
|---|---|---|
| `Tables.KeySetSize` | Azure_Data_Engineering_Project_Samrat/databricks/src/silver/silver_Dimension.py:62 | a batch never has more distinct values in a column than rows, and has exactly as many when the values are unique |
| `Tables.KeySetPointwise` | Azure_Data_Engineering_Project_Samrat/databricks/src/silver/silver_Dimension.py:59-62 | two batches that agree row by row on a column have the same set of values in that column, so steps that leave the key alone keep the key set |
| `Text.Upper` | Azure_Data_Engineering_Project_Samrat/databricks/src/silver/silver_Dimension.py:59 | upper-casing keeps the length, leaves no lower-case ASCII letter, leaves every other character alone and moves each lower-case letter to its capital |
| `Text.UpperIdempotent` | Azure_Data_Engineering_Project_Samrat/databricks/src/silver/silver_Dimension.py:59 | upper-casing twice equals upper-casing once |
| `Text.ReplaceEach` | Azure_Data_Engineering_Project_Samrat/databricks/src/silver/silver_Dimension.py:185 | replacing one character keeps the length, puts the replacement at every position that held the pattern, and leaves every other character unchanged |
| `Text.ReplaceEachRemoves` | Azure_Data_Engineering_Project_Samrat/databricks/src/silver/silver_Dimension.py:185 | no pattern character is left after the replacement when pattern and replacement differ |
| `Text.ReplaceEachIdempotent` | Azure_Data_Engineering_Project_Samrat/databricks/src/silver/silver_Dimension.py:185 | replacing twice equals replacing once |
| `Text.Digits` | Azure_Data_Engineering_Project_Samrat/databricks/src/silver/silver_Dimension.py:59 | the digits of a natural number form a non-empty string of decimal digits, one digit exactly below 10 and no leading zero, whose last digit is the number modulo 10 |
| `Text.DecimalString` | Azure_Data_Engineering_Project_Samrat/databricks/src/silver/silver_Dimension.py:59 | the cast of an integer to a string is non-empty, starts with a minus sign exactly for a negative number, and is decimal digits after the first character |
| `Text.DigitsRoundTrip` | Azure_Data_Engineering_Project_Samrat/databricks/src/silver/silver_Dimension.py:59 | reading back the digits of a natural number gives that number |
| `Text.DecimalRoundTrip` | Azure_Data_Engineering_Project_Samrat/databricks/src/silver/silver_Dimension.py:59 | reading back the decimal string of an integer gives that integer, so the cast loses nothing |
| `Text.UpperDecimalString` | Azure_Data_Engineering_Project_Samrat/databricks/src/silver/silver_Dimension.py:59 | upper-casing a decimal string leaves it unchanged |
| `Transforms.DropColumns` | Azure_Data_Engineering_Project_Samrat/databricks/src/silver/silver_Dimension.py:61 | the named columns leave the schema and every row; every other column keeps its value; row count and order are preserved |
| `Transforms.DropAbsentIsNoOp` | Azure_Data_Engineering_Project_Samrat/databricks/src/silver/silver_Dimension.py:61 | dropping columns the table lacks returns the table unchanged |
| `Transforms.DropColumnsIdempotent` | Azure_Data_Engineering_Project_Samrat/databricks/src/silver/silver_Dimension.py:61 | dropping the same columns twice equals dropping them once |
| `Transforms.UpperValue` | Azure_Data_Engineering_Project_Samrat/databricks/src/silver/silver_Dimension.py:59 | `upper` on a cell is null exactly for a null cell; any string it yields has no lower-case letter; a string keeps its length; an already upper-case string is unchanged; an integer cell becomes its decimal string, which reads back as the same integer |
| `Transforms.UpperValueIdempotent` | Azure_Data_Engineering_Project_Samrat/databricks/src/silver/silver_Dimension.py:59 | `upper` applied twice to a cell equals applying it once |
| `Transforms.UpperCol` | Azure_Data_Engineering_Project_Samrat/databricks/src/silver/silver_Dimension.py:59 | fails exactly when the column is missing; otherwise keeps the schema, row count and order, upper-cases that column and leaves every other cell of every row unchanged |
| `Transforms.UpperColIdempotent` | Azure_Data_Engineering_Project_Samrat/databricks/src/silver/silver_Dimension.py:59 | upper-casing a column twice gives the same table as once |
| `Transforms.ReplaceValue` | Azure_Data_Engineering_Project_Samrat/databricks/src/silver/silver_Dimension.py:185 | `regexp_replace` on a cell is null exactly for a null cell; when pattern and replacement differ, any string it yields has no pattern character; a string keeps its length and every non-pattern character, and each pattern position becomes the replacement |
| `Transforms.ReplaceValueOfInt` | Azure_Data_Engineering_Project_Samrat/databricks/src/silver/silver_Dimension.py:185 | `regexp_replace` with a non-digit pattern on an integer cell yields its decimal string, with only the minus sign replaced when the pattern is `-` and the number is negative |
| `Transforms.ReplaceValueIdempotent` | Azure_Data_Engineering_Project_Samrat/databricks/src/silver/silver_Dimension.py:185 | replacing in a cell twice equals replacing once |
| `Transforms.ReplaceChar` | Azure_Data_Engineering_Project_Samrat/databricks/src/silver/silver_Dimension.py:185 | fails exactly when the column is missing; otherwise keeps the schema, row count and order, replaces in that column and leaves every other cell unchanged |
| `Transforms.ReplaceCharIdempotent` | Azure_Data_Engineering_Project_Samrat/databricks/src/silver/silver_Dimension.py:185 | replacing in a column twice gives the same table as once |
| `Transforms.DurationLabel` | Azure_Data_Engineering_Project_Samrat/databricks/src/silver/silver_Dimension.py:181-183 | the label is one of the three; "Short" exactly below 150, "Medium" exactly from 150 up to 299, "Long" exactly from 300 up |
| `Transforms.DurationLabelBoundaries` | Azure_Data_Engineering_Project_Samrat/databricks/src/silver/silver_Dimension.py:181-183 | 149 gives Short, 150 and 299 give Medium, 300 gives Long |
| `Transforms.DurationLabelMonotone` | Azure_Data_Engineering_Project_Samrat/databricks/src/silver/silver_Dimension.py:181-183 | a larger duration never gets an earlier label in the order Short, Medium, Long |
| `Transforms.FlagValue` | Azure_Data_Engineering_Project_Samrat/databricks/src/silver/silver_Dimension.py:181-183 | the `when` chain on a cell always yields one of the three labels: the integer's label, or "Long" for null |
| `Transforms.BucketDuration` | Azure_Data_Engineering_Project_Samrat/databricks/src/silver/silver_Dimension.py:181-183 | fails exactly when the duration column is missing or holds a string; otherwise adds the flag column to the schema, keeps row count and order, gives every row a valid label computed from its duration, and changes nothing else |
| `Transforms.BucketDurationMonotone` | Azure_Data_Engineering_Project_Samrat/databricks/src/silver/silver_Dimension.py:181-183 | within a bucketed batch, the row with the larger integer duration never has the earlier label |
| `Transforms.KeepFirst` | Azure_Data_Engineering_Project_Samrat/databricks/src/silver/silver_Dimension.py:62 | the rows kept are input rows, their keys are unique and avoid the already-seen keys, and every key not yet seen is kept |
| `Transforms.DedupByKey` | Azure_Data_Engineering_Project_Samrat/databricks/src/silver/silver_Dimension.py:62 | fails exactly when the key column is missing; otherwise keeps the schema and returns a deduplication: only input rows, no two sharing a key, every input key present |
| `Transforms.DeduplicationSize` | Azure_Data_Engineering_Project_Samrat/databricks/src/silver/silver_Dimension.py:62 | any deduplication has one row per distinct key, so it is never longer than its input |
| `Transforms.DedupByKeySpec` | Azure_Data_Engineering_Project_Samrat/databricks/src/silver/silver_Dimension.py:121 | a `dropDuplicates` run has unique keys, the input's key set, as many rows as distinct keys, and only input rows |
| `Transforms.DeduplicationOfUniqueKeepsAll` | Azure_Data_Engineering_Project_Samrat/databricks/src/silver/silver_Dimension.py:62 | on a batch whose keys are already unique, any deduplication keeps every input row |
| `Transforms.SurvivorsComeFrom` | Azure_Data_Engineering_Project_Samrat/databricks/src/silver/silver_Dimension.py:59-62 | a relation between each row and its image under the earlier row-wise steps also holds between each deduplicated survivor and some input row |
| `Silver.EvictRescued` | Azure_Data_Engineering_Project_Samrat/databricks/src/silver/silver_Dimension.py:61 | dropping `_rescued_data` removes it from the schema and from every row, and keeps the row count, order and every other cell |
| `Silver.EvictRescuedAbsent` | Azure_Data_Engineering_Project_Samrat/databricks/src/silver/silver_Dimension.py:61 | a batch without `_rescued_data` passes through unchanged |
| `Silver.UserPipeline` | Azure_Data_Engineering_Project_Samrat/databricks/src/silver/silver_Dimension.py:59-62 | DimUser fails exactly when `user_name` or `user_id` is missing, naming the first one checked; otherwise the schema loses only `_rescued_data` |
| `Silver.CleanedUsers` | Azure_Data_Engineering_Project_Samrat/databricks/src/silver/silver_Dimension.py:59-61 | before deduplication, each DimUser row is its input row with `user_name` upper-cased and `_rescued_data` gone, and its `user_id` is untouched |
| `Silver.UserPipelineSpec` | Azure_Data_Engineering_Project_Samrat/databricks/src/silver/silver_Dimension.py:59-62 | DimUser output has unique `user_id`s, exactly the input's set of `user_id`s, one row per distinct id, and each row is some input row cleaned |
| `Silver.ArtistPipeline` | Azure_Data_Engineering_Project_Samrat/databricks/src/silver/silver_Dimension.py:119-121 | DimArtist fails exactly when `artist_id` is missing; otherwise the schema loses only `_rescued_data` |
| `Silver.ArtistPipelineSpec` | Azure_Data_Engineering_Project_Samrat/databricks/src/silver/silver_Dimension.py:119-121 | DimArtist output has unique `artist_id`s, exactly the input's set of `artist_id`s, one row per distinct id, and each row is some input row without `_rescued_data` |
| `Silver.TrackPipeline` | Azure_Data_Engineering_Project_Samrat/databricks/src/silver/silver_Dimension.py:181-186 | DimTrack fails exactly when `duration_sec` or `track_name` is missing or a duration is a string; otherwise it keeps row count and order, and changes row i only by adding the duration label, replacing hyphens in `track_name` and dropping `_rescued_data` |
| `Silver.TrackPipelineIdempotent` | Azure_Data_Engineering_Project_Samrat/databricks/src/silver/silver_Dimension.py:181-186 | running DimTrack over its own output changes nothing |
| `Silver.DatePipeline` | Azure_Data_Engineering_Project_Samrat/databricks/src/silver/silver_Dimension.py:242 | DimDate is exactly the eviction of `_rescued_data`: every row kept in order, only that column removed |
| `Silver.FactPipeline` | Azure_Data_Engineering_Project_Samrat/databricks/src/silver/silver_Dimension.py:299 | FactStream is exactly the eviction of `_rescued_data`: every row kept in order, only that column removed |

## Left out

- Autoloader reads (`cloudFiles` streams), schema inference and the `schemaEvaluationMode` option: I/O and engine behaviour. A batch arrives as a `Table` parameter.
- Delta writes, checkpoint locations, `trigger(once=True)` and the exactly-once commit: these live inside Spark and Delta, not in the notebook's own code.
- The debug memory-sink queries, their random run ids, `awaitTermination`, `display` and the `%sql` preview cells: side-channel I/O with no effect on the data.
- Deduplication state kept across streaming runs: only deduplication within one batch is modelled.
- `reusable.dropColumns`: `utils/transformations` is not part of this model. It is modelled from its call sites as drop-by-name, ignoring names that are not columns.
- Column order in the schema: a schema is a set.
- Column-name resolution: names are compared exactly. Spark's default case-insensitive matching (`spark.sql.caseSensitive=false`) is not modelled, so a column spelled `User_Name` would resolve in Spark and is a missing column here.
- Non-integer durations (floating point, decimals): not modelled.
- `Transforms.DedupByKey`: which duplicate survives, and in what order the survivors come out, is left unstated (Spark does not specify either). The function keeps the first row per key in input order, and every contract holds for any choice (`IsDeduplication`).
- `Transforms.UpperCol`: upper-cases ASCII letters only; Unicode case mapping is not modelled. The same applies to `Text.Upper` and `Transforms.UpperValue`.
- `Transforms.BucketDuration`: a string-typed `duration_sec` cell is reported as `NotComparable`. Spark would instead cast it implicitly before comparing.
- `Silver.TrackPipeline`: a batch with a string-typed `duration_sec` cell fails as a whole with `NotComparable`, where Spark would cast the cell and label it.
- `Transforms.ReplaceChar`: only a pattern that is one literal character without regular-expression meaning is modelled, which is the only pattern the notebook uses (`-`). Metacharacters such as `.` (which matches any character) and `*`, `+`, `?`, `\\` (which Spark rejects on their own) and general regular expressions are not modelled. The same applies to `Transforms.ReplaceValue` and `Text.ReplaceEach`.

Notes on the code as written:
- `dropDuplicates` does not say which duplicate survives, so no tie-break is
  stated.
- The bucket bounds 150 and 300 and the three labels are hard-coded.
- `_rescued_data` is dropped with the shared `dropColumns` helper: last in
  DimTrack, before `dropDuplicates` in DimUser and DimArtist, and as the only
  step in DimDate and FactStream.
