# Music-streaming ETL: transform and load, modelled in Dafny

The pipeline reads listener records from a relational table. Its transform
stage cleans them with pandas in ten fixed steps:

1. lower-case and strip every text cell;
2. normalise the column labels;
3. drop `user_id`;
4. rename the two engagement columns;
5. lower-case `listening_time` again;
6. bucket `age` into `age_group`;
7. map `country` to `region`;
8. drop duplicate rows;
9. fill missing values;
10. cast five columns.

Its load stage then ensures an Elasticsearch index with a fixed mapping exists. It sends one bulk action per row, keyed by the row's 1-based position.

The project models that core as pure functions over immutable data:

- `results.dfy` (`Results`): `Option` and `Result` with the `:-` operator.
- `text.dfy` (`Text`): the string operations the steps rely on.
  - `.str.lower()`, `.str.strip()` and the column-label clean-up.
  - The integer and decimal literals that `astype(int)` and `astype(float)` accept.
  - Truncation toward zero.
- `tables.dfy` (`Tables`): the data frame.
  - A table is a sequence of labelled, typed columns of equal height. `Rows` gives the row-by-row view.
  - A cell is text, a number or missing.
  - Label lookup fails on a missing label and on a duplicated one.
  - Also: column assignment, which appends a new label and writes every column carrying an existing one, and row selection.
- `dedup.dfy` (`Duplicates`): `drop_duplicates(keep='first')`. It has a reference definition, the positions it keeps, and the one-pass hashing loop.
- `derived.dfy` (`Derived`): the `pd.cut` age bins and the country-to-region table.
- `transform.dfy` (`Cleaning`): the ten steps, their composition `Transform`, and end-to-end lemmas about a successful run and about failing runs.
- `load.dfy` (`Load`): row documents, bulk actions, the ensure-index step and the bulk write.
  - The search cluster is modelled as a map from index name to mapping and documents.
  - The bulk write is an upsert by key.
  - `Run` models one run of the pipeline: transform, then load, reporting the stage reached.

Several behaviours of the code carry over into the model:

- **Column labels:** every `(%)` marker is removed, wherever it occurs in the label, not just at the end. `replace` removes them in a single left-to-right pass, so the clean-up is not idempotent.
- **Duplicates:** de-duplication runs before nulls are filled. Rows it keeps apart can therefore become identical afterwards, so the artifact may still contain duplicate rows (`Cleaning.FillAfterDedupMerges`).
- **Repeated labels:** two columns can end up with one label after the label clean-up, for example `Top Genre` and `top_genre`. No step before the fill reads that label. In the fill loop `df[col]` is then a sub-table, and the truth test on its null count raises, so the transform fails (`Cleaning.FillNulls`). When the shared label is one an earlier step reads, as with `Age` and `age`, the run fails at the first step that reads it (step 6 for `age`). When the shared label is `age_group` or `region`, the label a step assigns, the assignment writes the new values into every column carrying it (`Tables.SetColumn`), and the fill then fails on the shared label.
- **Ages outside the bins:** `pd.cut` leaves an age outside (0, 100] without a group. The fill loop then tries `fillna(0)` on that categorical column, which pandas rejects, so the whole transform fails (`Cleaning.TransformAgeGapFails`).
- **Missing countries:** region mapping runs before null handling, so a missing country gets region `other`.

## Model

| member | source | states |
|---|---|---|
| Text.Lower | DAG.py:84-85 | `.str.lower()` changes only upper-case letters, keeps length and produces no upper case; lower-case text is unchanged |
| Text.Strip | DAG.py:84-85 | the result is the input with a whitespace-only prefix and suffix removed and no whitespace at either end |
| Text.StripCharacterised | DAG.py:84-85 | a string is the strip of `s` exactly when it is `Strip(s)`: the strip is unique |
| Text.CleanText | DAG.py:84-85 | lower-case then strip yields lower-case text without surrounding whitespace, a strip of the lower-cased input |
| Text.CleanTextIdempotent | DAG.py:84-85 | cleaning a string twice equals cleaning it once |
| Text.RemoveMarkers | DAG.py:88 | the single pass never lengthens a label; `Text.RemoveMarkersDeletes` and `Text.RemoveMarkersFirst` fix what it does: it only deletes, leaves a marker-free label alone, and at the first `(%)` drops exactly those three characters and carries on after them |
| Text.RemoveMarkersDeletes | DAG.py:88 | removing `(%)` only deletes characters, never adding one, and leaves a label without a marker unchanged |
| Text.RemoveMarkersPrefix | DAG.py:88 | the pass copies unchanged any prefix in which no `(%)` starts |
| Text.RemoveMarkersFirst | DAG.py:88 | the single left-to-right pass deletes the first `(%)`, keeps everything before it, and resumes right after it |
| Text.UnderscoreMarkers | DAG.py:88 | lower-casing and replacing spaces neither create nor destroy a `(%)` at any position |
| Text.UnderscoreConcat | DAG.py:88 | lower-casing and replacing spaces work character by character, so they distribute over concatenation |
| Text.NormalizeName | DAG.py:88-89 | a cleaned label has no spaces or upper case and is never longer than the original; a label without `(%)` keeps its length, each character lower-cased and each space turned into `_`; a label already free of spaces, upper case and `(%)` is unchanged |
| Text.NormalizeNameFirstMarker | DAG.py:88-89 | the clean-up of `a + "(%)" + b`, with no marker starting earlier, is the clean-up of `a` followed by the clean-up of `b`; with the marker-free case above this fixes the clean-up of every label |
| Text.NormalizeNameOfClean | DAG.py:88 | on a label without spaces or upper case the clean-up only removes markers |
| Text.NormalizeNameNotIdempotent | DAG.py:88 | the single-pass removal turns `((%)%)` into `(%)`, and a second pass into the empty label |
| Text.ParseInt | DAG.py:130-132 | a string converts to an integer exactly when it is an optional sign followed by at least one digit; the sign fixes the sign of the value |
| Text.ParseIntRoundTrip | DAG.py:130-132 | the decimal rendering of every integer parses back to that integer |
| Text.DigitsValueFromLeft | DAG.py:130-132 | the value of a digit string read right to left equals its positional value, each digit weighted by ten to the number of digits after it |
| Text.ParseIntValue | DAG.py:130-132 | an accepted literal converts to its sign times the positional value of its digits |
| Text.LeadingZerosValue | DAG.py:130-132 | zeros in front of a digit string leave its positional value unchanged |
| Text.ParseIntLeadingZeros | DAG.py:130-132 | after an optional sign, leading zeros do not change the converted value |
| Text.ParseIntPlus | DAG.py:130-132 | a leading `+` does not change the converted value |
| Text.ParseIntMinus | DAG.py:130-132 | a leading `-` negates the value of the digits, so `-0` converts to 0 |
| Text.ParseIntExamples | DAG.py:130-132 | `007` converts to 7, `+5` to 5 and `-0` to 0 |
| Text.ParseDecimal | DAG.py:133-134 | a decimal literal's sign fixes the sign of its value |
| Text.ParseDecimalExtendsParseInt | DAG.py:133-134 | every integer literal is also a decimal literal with the same value |
| Text.ParseDecimalExample | DAG.py:133-134 | `55.5` parses to 55.5 |
| Text.ParseDecimalRejects | DAG.py:133-134 | `unknown` does not parse as a number |
| Text.Truncate | DAG.py:130-132 | the integer cast drops the fraction toward zero: the result is within 1 of the value, on the zero side |
| Text.TruncateWhole | DAG.py:130-132 | a whole number casts to itself |
| Tables.Positions | DAG.py:101 | the positions returned are exactly the in-range columns carrying the label, in increasing order |
| Tables.Lookup | DAG.py:101 | a by-label access succeeds exactly when one column carries the label; it fails as missing exactly when no column does, and otherwise as duplicated |
| Tables.LookupOwnLabel | DAG.py:122-123 | looking up a column's own label succeeds exactly when no other column carries the label, and otherwise reports the label as duplicated |
| Tables.DistinctLabels | DAG.py:122-123 | the labels are distinct exactly when every column's own label looks up without error |
| Tables.LookupDistinctLabel | DAG.py:101 | with distinct labels, looking up a column's own label finds that column |
| Tables.LookupAgree | DAG.py:101 | tables whose columns carry the label at the same places answer a lookup the same way |
| Tables.SetColumn | DAG.py:101-116 | assigning `df[name]` never fails: it appends a new label as the last column, and otherwise writes the value into every column carrying the label; every other column, the labels and the height are kept, and the label looks up afterwards exactly when it was not already on two columns |
| Tables.SetColumnLookup | DAG.py:101 | assigning one column leaves every lookup of another label unchanged |
| Tables.SelectRowsNames | DAG.py:119 | selecting rows keeps the labels |
| Tables.SelectRowsRows | DAG.py:119 | the rows of a row selection are the selected rows, in the given order |
| Tables.SelectRowsWithin | DAG.py:119 | selecting rows keeps every column inside a value set it was inside before, and keeps its kind |
| Duplicates.Dedup | DAG.py:119 | the reference de-duplication keeps every distinct row, invents none, never grows, and repeats no row |
| Duplicates.FirstIndices | DAG.py:119 | the kept positions are increasing and are exactly the rows with no equal row before them |
| Duplicates.PickFirstIndices | DAG.py:119 | taking the rows at the first-occurrence positions gives the reference de-duplication |
| Duplicates.DedupOfDistinct | DAG.py:119 | rows without repeats are left as they are |
| Duplicates.DedupIdempotent | DAG.py:119 | de-duplicating twice equals de-duplicating once |
| Duplicates.DedupCollapsesPair | DAG.py:119 | two identical rows collapse to one |
| Duplicates.KeepFirst | DAG.py:119 | one pass with a set of rows seen so far keeps exactly the first-occurrence positions |
| Derived.AgeBucket | DAG.py:104-106 | an age lands in a right-closed bin `(e_k, e_k+1]`, and in none exactly when it lies outside (0, 100] |
| Derived.AgeBucketUnique | DAG.py:104-106 | an age inside bin `k` is bucketed to `k`, so the bins do not overlap |
| Derived.AgeBucketMonotone | DAG.py:104-106 | a larger age never falls in an earlier bin |
| Derived.AgeGroup | DAG.py:104-106 | an age gets a label exactly when it lies in (0, 100]; an age in bin `k` gets the `k`-th label |
| Derived.AgeGroupIsCut | DAG.py:104-106 | the bucketed label equals a reference `pd.cut` written as five explicit right-closed intervals: `<18` on (0, 18], `18-25` on (18, 25], `26-35` on (25, 35], `36-50` on (35, 50], `50+` on (50, 100], none elsewhere |
| Derived.AgeGroupExamples | DAG.py:104-106 | 40 gives `36-50`, 18 gives `<18`, 25 gives `18-25`, 100 gives `50+`; 0, 100.5 and -3 give none |
| Derived.AgeGroupCell | DAG.py:104-106 | the cell is a label, and is missing exactly when the age is missing or outside (0, 100]; a numeric age in bin `k` gets the `k`-th label |
| Derived.RegionOf | DAG.py:109-116 | the region is one of the six; it is `other` exactly when the country is missing or unlisted, and the table value otherwise |
| Derived.RegionExamples | DAG.py:109-116 | `usa` gives `north_america`, `japan` and `south korea` give `asia`, `mexico` and a missing country give `other` |
| Cleaning.CleanTextColumns | DAG.py:84-85 | every text cell becomes lower-case and trimmed, a strip of its lower-cased self; missing cells stay missing; other columns, labels and kinds are unchanged |
| Cleaning.CleanTextColumnsIdempotent | DAG.py:84-85 | cleaning the text of a table twice equals cleaning it once |
| Cleaning.NormalizeColumnNames | DAG.py:88-89 | each column's label becomes the clean-up of its old label, so it loses spaces and upper case and never grows; clean labels are kept; cells and kinds are unchanged |
| Cleaning.RemoveNamed | DAG.py:92 | dropping keeps exactly the columns with another label and nothing else, and changes nothing when the label is absent |
| Cleaning.RemoveNamedNames | DAG.py:92 | after the drop the label is absent; if it was absent, the columns are unchanged |
| Cleaning.DropColumn | DAG.py:92 | the drop keeps height and validity, removes the label, and leaves a table without the label as it was |
| Cleaning.RemoveNamedConcat | DAG.py:92 | the drop works column by column, so it keeps the order of the retained columns |
| Cleaning.RenameColumns | DAG.py:95-98 | exactly the two engagement labels are renamed; every other label, every cell and kind is unchanged, and the old labels are gone |
| Cleaning.LowerListeningTime | DAG.py:101 | succeeds exactly when `listening_time` is a single text or categorical column; it becomes a text column in which each text cell is lower-cased character by character and every other cell is missing; no other column changes |
| Cleaning.LowerListeningTimeRedundant | DAG.py:84-101 | after steps 1 to 4 a text `listening_time` column is already lower-case, so step 5 changes nothing |
| Cleaning.AgeGroupColumn | DAG.py:106 | the `age_group` column is categorical, one cell per row, each the age-group cell of that row's age |
| Cleaning.AddAgeGroup | DAG.py:104-106 | succeeds exactly when `age` is a single numeric column, and otherwise reports the lookup error or the non-numeric `age`; every column labelled `age_group` then holds the binned ages and the others are kept; when `age_group` ends up on one column it holds, row by row, the label of the bin the age lies in, and a gap exactly when the age is missing or outside (0, 100] |
| Cleaning.RegionColumn | DAG.py:116 | the `region` column holds, row by row, the region of that row's country, always one of the six |
| Cleaning.AddRegion | DAG.py:109-116 | succeeds exactly when `country` is a single column, and otherwise reports its lookup error; every column labelled `region` then holds the regions and the others are kept; when `region` ends up on one column, each of its cells is the region of the same row's country and lies in the six regions |
| Cleaning.AddRegionKeepsAligned | DAG.py:104-116 | adding the region leaves the age group aligned with the age |
| Cleaning.DropDuplicates | DAG.py:119 | the rows of the result are the reference de-duplication of the input rows; labels and kinds are kept |
| Cleaning.DropDuplicatesOfDistinct | DAG.py:119 | a table without repeated rows passes de-duplication unchanged |
| Cleaning.DropDuplicatesKeepsRows | DAG.py:119 | every input row still appears in the result |
| Cleaning.FillColumn | DAG.py:122-127 | a column with no gaps is kept; text gaps become `unknown`, numeric gaps become 0, and a categorical column with a gap is rejected |
| Cleaning.FillAt | DAG.py:122-127 | one turn of the loop fails with a duplicate-label error when another column shares the label, and otherwise is the fill of that column |
| Cleaning.FillFrom | DAG.py:122-127 | the loop succeeds exactly when every turn does and returns the filled columns in order; a failure is the error of the first turn that fails, every earlier turn having succeeded |
| Cleaning.FillTurnsSucceed | DAG.py:122-127 | every turn succeeds exactly when the labels are distinct and no categorical column has a gap |
| Cleaning.FillNulls | DAG.py:122-127 | fails exactly when two columns share a label or some categorical column has a gap; the error is the turn of the first column that fails, which shares its label or is categorical, every earlier column having passed its turn; otherwise no cell is missing, non-missing cells are unchanged, and text and numeric gaps get `unknown` and 0 |
| Cleaning.NullCategoryBlocksFinish | DAG.py:119-127 | a gap in any categorical column survives de-duplication, so the fill and with it steps 8 to 10 fail |
| Cleaning.CastCell | DAG.py:130-134 | a number is truncated or kept; text converts exactly when it is an integer or decimal literal, to the literal's value; a missing value cannot become an integer and stays missing as a float |
| Cleaning.CastCellRoundTrip | DAG.py:130-134 | the printed form of any integer casts back to that integer, as an int and as a float |
| Cleaning.CastCellTargetsAgree | DAG.py:130-134 | text that casts to an integer casts to the same number as a float |
| Cleaning.CastCellIdempotent | DAG.py:130-134 | casting a cast value again changes nothing |
| Cleaning.CastColumn | DAG.py:130-134 | a missing or duplicated label is reported as such; otherwise the cast fails exactly when some cell does not convert, and on success each cell is the cast of the cell it replaces; the column becomes numeric and, for integers, whole; other columns, labels and the absence of gaps are kept |
| Cleaning.CastPlanLabels | DAG.py:130-134 | the five casts name the three integer columns, then the two float columns, each once |
| Cleaning.CastColumnExact | DAG.py:130-134 | one cast succeeds exactly when its label is carried by one column and every cell of it converts, and then holds each cell's cast in place |
| Cleaning.CastChain | DAG.py:130-134 | casting in turn keeps validity, height, labels and the absence of gaps, and leaves every column not named by a cast as it was |
| Cleaning.CastStepKeeps | DAG.py:130-134 | with distinct cast labels, the first cast leaves every later cast's lookup, column, convertibility and error as they were |
| Cleaning.CastStepShift | DAG.py:130-134 | with distinct cast labels, after a successful first cast the rest are all convertible exactly when all were, and the first later failure is the first failure overall |
| Cleaning.CastChainExact | DAG.py:130-134 | with distinct cast labels, the casts in turn succeed exactly when each label is carried by one column whose cells all convert; on success every column holds its cell-by-cell cast, and a failure is the error of the first cast that fails |
| Cleaning.CastColumns | DAG.py:130-134 | the five casts succeed exactly when each of the five labels is carried by one column and every cell of it converts; each such column then holds, cell by cell, the cast of its old cell; height, labels, the absence of gaps and every other column are kept; a failure is the error of the first of the five casts that fails |
| Cleaning.IntegralFromCast | DAG.py:130-132 | a column cast to integers holds whole numbers |
| Cleaning.CastColumnOthers | DAG.py:130-134 | a cast leaves the lookup and contents of every other column as they were |
| Cleaning.CastColumnsOthers | DAG.py:130-134 | the five casts touch no column outside the five |
| Cleaning.CastColumnsIntegral | DAG.py:130-132 | after the casts `age`, `minutes_streamed_per_day` and `number_of_songs_liked` hold whole numbers |
| Cleaning.Tidy | DAG.py:84-98 | on a staged table with distinct labels, steps 1 to 4 never fail, drop `user_id`, and leave every text cell clean |
| Cleaning.DeriveKeepsLabel | DAG.py:101-116 | steps 5 to 7 neither add nor remove any label other than the two derived ones |
| Cleaning.PrepareShape | DAG.py:84-116 | on a staged table whose labels are distinct after step 7, the age group is aligned with the age, the region lies in the six regions and `user_id` is absent |
| Cleaning.FinishDistinct | DAG.py:119-127 | steps 8 to 10 succeed only on a table whose labels are distinct, because the fill fails on a shared label |
| Cleaning.FillKeepsWithin | DAG.py:122-127 | filling keeps a column within its value set without the missing value, provided it is categorical or had no gaps allowed |
| Cleaning.FinishNames | DAG.py:119-134 | steps 8 to 10 keep the labels |
| Cleaning.FinishIntegral | DAG.py:119-134 | steps 8 to 10 leave the three integer columns whole |
| Cleaning.FinishWithin | DAG.py:104-134 | after steps 8 to 10 the age group holds only the five labels and the region only the six regions |
| Cleaning.CastReadyRows | DAG.py:119-134 | a cast ready before de-duplication is still ready after it |
| Cleaning.CategoryGapRows | DAG.py:119-127 | de-duplication creates no categorical gap |
| Cleaning.CastReadyFill | DAG.py:122-134 | a successful fill keeps a cast ready |
| Cleaning.FinishSucceeds | DAG.py:119-134 | steps 8 to 10 succeed on a valid table with distinct labels, no categorical gap, and the five cast columns found once, complete and convertible |
| Cleaning.TidyOfSettled | DAG.py:84-98 | steps 1 to 4 leave a table unchanged when its text is clean, its labels are clean, and neither `user_id` nor the old engagement labels are present |
| Cleaning.AddAgeGroupAppends | DAG.py:104-106 | with a numeric `age` and no `age_group`, step 6 appends the age-group column as the last column |
| Cleaning.AddRegionAppends | DAG.py:109-116 | with a `country` and no `region`, step 7 appends the region column as the last column |
| Cleaning.RegionAfterAgeGroup | DAG.py:104-116 | step 7 after step 6 appends the region of the original rows after the age group |
| Cleaning.DeriveAppends | DAG.py:101-116 | when `listening_time` is text, `age` numeric, `country` present and the two derived labels new, steps 5 to 7 succeed and append exactly the age-group and region columns |
| Cleaning.AppendedNoGap | DAG.py:104-116 | appending a gap-free age group and a non-categorical region creates no categorical gap |
| Cleaning.AppendedCastReady | DAG.py:104-134 | appending the two derived columns keeps every cast ready |
| Cleaning.AgeGroupColumnComplete | DAG.py:104-106 | when every age lies in (0, 100] the age-group column has no gap |
| Cleaning.DerivedReady | DAG.py:101-134 | steps 5 to 7 keep distinct labels, the absence of categorical gaps and cast readiness when every age lies in (0, 100] |
| Cleaning.TransformSucceeds | DAG.py:81-139 | the whole transform succeeds on a settled table whose read columns are present with the right kinds, every age in (0, 100], the derived labels new, no categorical gap and every cast ready |
| Cleaning.ListenerRow | DAG.py:81 | a one-row listener record is valid and carries the seven labels the steps read |
| Cleaning.ListenerLookups | DAG.py:101-134 | over the seven labels every lookup the steps make finds the column carrying the label |
| Cleaning.ListenerCastReady | DAG.py:130-134 | over the seven labels with numeric cast columns, each of the five casts is ready |
| Cleaning.ListenerRowSettled | DAG.py:84-98 | a listener record with lower-case trimmed text is staged and left unchanged by steps 1 to 4 |
| Cleaning.ListenerRowReadable | DAG.py:101-109 | steps 5 to 7 find `listening_time` as text, `age` as numbers in range and `country` in a listener record |
| Cleaning.ListenerRowCastReady | DAG.py:130-134 | every cast is ready on a listener record |
| Cleaning.ListenerRowTransformable | DAG.py:81-139 | a listener record with clean text and its age in (0, 100] meets every condition for the transform to succeed |
| Cleaning.ListenerRowTransforms | DAG.py:81-139 | the transform succeeds on every one-row listener record with clean text and an age in (0, 100], whatever its five numbers |
| Cleaning.MorningListenerTransforms | DAG.py:81-139 | the transform succeeds on a thirty-year-old listener in the USA who listens in the morning |
| Cleaning.Transform | DAG.py:81-139 | a successful transform yields a valid table with no missing cell and no more rows than its input |
| Cleaning.TransformCanonical | DAG.py:81-139 | a successful transform has no gaps, the age group within the five labels, the region within the six, no `user_id`, whole integer columns, and no more rows than its input |
| Cleaning.TransformAgeGapFails | DAG.py:104-127 | if any row has an age missing or outside (0, 100] after step 7, the transform fails, whether or not a label is shared |
| Cleaning.FillAfterDedupMerges | DAG.py:119-127 | a table whose two rows de-duplication keeps apart has two identical rows after the fill |
| Cleaning.FillMergesRows | DAG.py:122-127 | in a one-column text table a gap and the text `unknown` fill to the same row |
| Load.MappingMatchesCasts | DAG.py:176-194 | the index maps the three integer casts to integer fields, the two float casts to float fields and both derived fields to keywords |
| Load.RowDoc | DAG.py:208 | the document of a row has one entry per label, holding the cell of the last column with that label |
| Load.Documents | DAG.py:208-210 | one document per row, the document of that row |
| Load.RowDocRoundTrip | DAG.py:208 | with distinct labels, reading the document back label by label gives the row |
| Load.IndexActions | DAG.py:204-211 | one action per document, all into `music_streaming_data`, document `i` under key `i + 1` |
| Load.IndexActionsKeys | DAG.py:204-211 | the keys used are exactly 1..n, each once |
| Load.BuildActionsKeysStable | DAG.py:204-211 | two tables of the same height get the same keys, whatever their rows hold |
| Load.EnsureIndex | DAG.py:197-201 | the index exists afterwards; an existing index is left untouched and a new one gets the mapping and no documents |
| Load.EnsureIndexIdempotent | DAG.py:197-201 | ensuring the index twice equals ensuring it once |
| Load.Put | DAG.py:215 | one action creates or replaces the document under its key and changes no other index |
| Load.WrittenKeys | DAG.py:215 | the documents a bulk request writes are keyed by exactly the keys of its actions |
| Load.NumberedWritten | DAG.py:204-215 | actions numbered 1..n in order leave the document of action `k - 1` under key `k` |
| Load.WrittenDistinct | DAG.py:215 | with distinct keys every action's document is the one stored under its key |
| Load.ApplyBulk | DAG.py:215 | a bulk request keeps every index that existed |
| Load.ApplyBulkTouches | DAG.py:215 | a bulk request adds exactly the indices its actions name and leaves every index it does not name as it was |
| Load.ApplyBulkOverlay | DAG.py:215 | a bulk write into one existing index lays the written documents over the stored ones and changes nothing else |
| Load.ApplyBulkIdempotent | DAG.py:215 | sending the same bulk request twice leaves the cluster as one request left it |
| Load.LoadDocs | DAG.py:197-215 | after a load the index exists, no other index is added, and every other index is as it was |
| Load.LoadDocsKeys | DAG.py:197-215 | after a load the index holds the earlier keys plus 1..n and keeps its mapping; a fresh index gets the fixed mapping |
| Load.LoadDocsContents | DAG.py:197-215 | after a load key `k` holds document `k - 1`, whatever was stored there before |
| Load.LoadDocsIdempotent | DAG.py:197-215 | loading the same documents twice leaves the cluster as loading them once |
| Load.LoadTable | DAG.py:197-215 | loading a table ensures the index, keeps its mapping or gives a fresh one the fixed mapping, and leaves every other index as it was |
| Load.LoadTableContents | DAG.py:204-215 | after loading a table key `k` holds the document of row `k - 1` |
| Load.LoadTableCount | DAG.py:197-215 | loading into a fresh index stores one document per row, and a second load of the same table adds none |
| Load.Run | DAG.py:226-231 | a run reaches the load exactly when the transform succeeds; a failed transform writes nothing and reports its error; a successful run leaves the cluster the load of the transformed table leaves, holding that table's row documents under keys 1 to n |
| Load.RunIdempotent | DAG.py:226-231 | running the pipeline twice on the same input leaves the cluster and result as one run |

## Left out

- Extraction from PostgreSQL (DAG.py:37-58) is left out. It is external I/O; the extracted table is the input of `Cleaning.Transform` and `Load.Run`.
- The CSV writes and reads between stages (DAG.py:81, 136-139, 157) are left out. This is filesystem plumbing, so the artifact is handed over in memory.
  - The re-parse of the CSV, and pandas re-inferring column types at the load, are not modelled.
- The Elasticsearch client is left out: timeout and retry, `ping`, `helpers.bulk` error reporting and printing (DAG.py:160-171, 214-223). These are network behaviours.
  - The cluster is a map, and a bulk request either writes every action or is not sent.
  - Per-document rejections and transport failures are not modelled.
- The Airflow DAG definition, schedule and operator wiring (DAG.py:24-34, 226-231) are left out. They are orchestration; only the linear order survives, as `Load.Run`.
- Column types are given with the table, not inferred by pandas. Numbers are exact reals, so floating-point rounding is not modelled.
- Text.Lower: lower-cases ASCII letters only, because Unicode case mapping tables are outside the model.
- Text.ParseInt: accepts only an optional sign and ASCII digits. Python's `int` also allows surrounding whitespace, `_` separators and non-ASCII decimal digits. After step 1 the text has no surrounding whitespace; the separators and other digit scripts are left out.
- Text.ParseDecimal: accepts only signed decimal literals with an optional fraction. Exponents, `inf` and `nan` are left out.
- Cleaning.CastColumn: the 64-bit range of numpy integers is not modelled, so an out-of-range value converts instead of overflowing.
- Cleaning.CastCell: a non-whole value in a float column is truncated, as `astype(int)` does. How pandas stores a column that mixes types is not modelled.
- Tables.Lookup: a label carried by several columns is reported as an error at every by-label read. pandas would instead hand the step a sub-table, whose behaviour varies from step to step. In the fill loop the sub-table does make the step fail, and `Cleaning.FillNulls` models exactly that. An assignment to such a label is not a read: `Tables.SetColumn` writes every column carrying it, as pandas does.
- Cleaning.Tidy: requires the staged table to have distinct labels (`Cleaning.Staged`), and so do `Cleaning.Prepare`, `Cleaning.Transform` and `Load.Run`. The CSV reader renames a repeated header (`a`, `a.1`), so step 1's failure on a repeated text label cannot occur and is not modelled.
- Text.ParseDecimal: its contract states only the sign of the value. The value is pinned down for integer literals by `Text.ParseDecimalExtendsParseInt`, and for one fractional literal by `Text.ParseDecimalExample`.
- Load.MappingMatchesCasts: does not relate the mapping to the column labels a particular input produces. Those labels depend on the input table.
