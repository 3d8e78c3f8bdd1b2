# Workflow metadata scraper and combiner: a Dafny model

This project models the logic of two scripts of a workflow market-research pipeline.

**The metadata scraper** (`market_understanding/scrape_workflow_metadata.py`):
- For each workflow page URL, it derives the workflow id as the last `/`-separated segment of the URL.
- It splits the page's body text into lines. It looks for lines that strip to one of twelve fixed labels ("Workflow Name", "Category", ...). It stores the stripped line after each such label under the label's field, when that line is not empty.
- It adds the page text, title and HTML when they can be read. A failed visit gives an error record.
- `main` counts successes and failures, keeps every record in input order, and writes one file per workflow id. At the end it writes the list of all records.

**The combiner** (`market_understanding/combine_workflows.py`):
- For each listed `workflow_*_enriched.json` metadata file, it derives the id with two `replace` calls and looks up `workflow_<id>.json` among the downloaded definitions.
- It counts the file as missing when there is no definition. Otherwise it loads both files and writes the metadata plus the definition under `n8n_workflow` as `workflow_<id>_combined.json`, or counts an error when loading or merging fails.
- It then writes `summary.json` with the three counts and returns them.

Modules:
- `Options` holds the `Option` type.
- `Text` models the Python string operations the scripts use:
  - `str.strip()` over the exact set of characters for which `str.isspace()` holds
  - `str.split` on one character
  - `str.replace(pat, "")`
  - the `rfind` inside `pathlib`'s `stem`, and the helper that gives `split`'s last piece
  - `pathlib`'s `stem`
- `ScrapeMetadata` models the scraper.
  - The label scan `ScanLabels` keeps the source's nested loops. It is proved equal to the recursive specification `ScanPrefix`, and the scan lemmas are about that function.
  - One page visit is a `PageVisit` value. It says whether navigation failed, and which of the body text, title and HTML could be read.
  - `ScrapeAll` is `main`'s loop.
- `CombineWorkflows` models the combiner.
  - Directories are maps from file name to parsed JSON or `Unreadable`. The glob listing is a sequence of names in whatever order the file system gives.
  - `ProcessFile` is one loop iteration, proved equal to `FileOutcome`.
  - `Combine` is the whole function. It is proved against the folds `Tally` (the counters) and `Written` (the output directory).

On a key collision in the merge, the code assigns `combined["n8n_workflow"]` after copying the metadata, so the definition replaces a metadata field of that name (see `CombineWorkflows.Merge`).

## Model

| member | source | states |
|---|---|---|
| Text.Strip | market_understanding/scrape_workflow_metadata.py:66-69 | computes `str.strip()`: `TrimEnd` of `TrimStart`; specified by `StripSpec` and `StripIdempotent` |
| Text.Split | market_understanding/scrape_workflow_metadata.py:47 | computes `str.split(sep)` for one character, at least one piece; specified by `SplitLastPiece`, `JoinSplit` and `SplitJoin` |
| Text.ReplaceAll | market_understanding/combine_workflows.py:34 | computes `str.replace(pat, repl)`, left to right without overlaps; specified by `ReplaceAllAtStart`, `ReplaceAllSkipsPrefix` and `ReplaceAllAbsent` |
| Text.PathStem | market_understanding/combine_workflows.py:34 | computes `Path.stem`: the name cut at its last dot when that dot is neither first nor last; specified by `PathStemOfSuffix` |
| Text.StripSpec | market_understanding/scrape_workflow_metadata.py:66-69 | `strip()` returns a slice of the line with only whitespace before and after it, and the result neither starts nor ends with whitespace |
| Text.StripIdempotent | market_understanding/scrape_workflow_metadata.py:66-69 | stripping an already stripped line changes nothing |
| Text.LastIndexOfIsLast | market_understanding/combine_workflows.py:34 | no occurrence of the character follows the index `LastIndexOf` reports: the `rfind` inside `stem`, and the helper that gives `split`'s last piece |
| Text.SplitLastPiece | market_understanding/scrape_workflow_metadata.py:36 | the last piece of `split(sep)` is the text after the last separator; there is one piece exactly when there is no separator |
| Text.JoinSplit | market_understanding/scrape_workflow_metadata.py:47 | joining the lines of the page text with newlines gives the text back, so splitting loses nothing |
| Text.SplitJoin | market_understanding/scrape_workflow_metadata.py:47 | splitting a newline-join of newline-free lines gives exactly those lines |
| Text.ReplaceAllSkipsPrefix | market_understanding/combine_workflows.py:34 | `replace` leaves a prefix in which no occurrence starts untouched, whatever follows it |
| Text.ReplaceAllAbsent | market_understanding/combine_workflows.py:34 | `replace` leaves a text without occurrences unchanged |
| Text.ReplaceAllAtStart | market_understanding/combine_workflows.py:34 | a text starting with the pattern has that occurrence replaced and the rest processed after it |
| Text.PathStemOfSuffix | market_understanding/combine_workflows.py:34 | the `stem` of `base + ".json"` is `base` |
| ScrapeMetadata.FieldMappingLabelsDistinct | market_understanding/scrape_workflow_metadata.py:50-63 | the twelve labels of the field table are pairwise different |
| ScrapeMetadata.FieldMappingAvoidsOwnKeys | market_understanding/scrape_workflow_metadata.py:50-63 | no field of the table is one of the page's own keys `url`, `workflow_id`, `full_page_text`, `page_title`, `page_html`, nor `error` |
| ScrapeMetadata.WorkflowId | market_understanding/scrape_workflow_metadata.py:36 | computes `url.split("/")[-1]`, also used at :98 and :150; specified by `WorkflowIdIsLastSegment` |
| ScrapeMetadata.NextValue | market_understanding/scrape_workflow_metadata.py:68-70 | the value the line after line `i` offers: its stripped text when that line exists and strips to something non-empty, otherwise none; specified by `HitKeySpec` and `NoValueNoChange` |
| ScrapeMetadata.ApplyLabels | market_understanding/scrape_workflow_metadata.py:67-71 | computes one pass of the inner loop over the table for one stripped line; specified by `ApplyLabelsOneField` |
| ScrapeMetadata.ScanPrefix | market_understanding/scrape_workflow_metadata.py:65-71 | computes the record after the outer loop has seen the first `n` lines; specified by `ScanStep`, `ScanLastOccurrenceWins`, `ScanKeepsUnsetField`, `NoValueNoChange` and `ScanWritesOnlyMappedFields`, and computed by `ScanLabels` |
| ScrapeMetadata.PageFields | market_understanding/scrape_workflow_metadata.py:47-74 | computes the scan of the text's lines followed by storing `full_page_text`; specified by `PageFieldsSpec` |
| ScrapeMetadata.ErrorRecord | market_understanding/scrape_workflow_metadata.py:96-100 | computes the failure record with the URL, its id and the message; specified by `PageRecordSpec` |
| ScrapeMetadata.LoadedRecord | market_understanding/scrape_workflow_metadata.py:36-92 | computes a loaded page's record: URL and id, scanned fields and text, title, HTML; specified by `LoadedRecordSpec` and `LoadedRecordTableFields` |
| ScrapeMetadata.LoadedRecordTableFields | market_understanding/scrape_workflow_metadata.py:37-74 | every table field of a loaded page's record whose text was read is present and holds the same value exactly as after the scan from the URL and its id, so the scan lemmas apply to the returned record |
| ScrapeMetadata.PageRecord | market_understanding/scrape_workflow_metadata.py:29-100 | computes the record of one visit, the error record or the loaded record; specified by `PageRecordSpec` and computed by `ScrapeWorkflowPage` |
| ScrapeMetadata.IsSuccess | market_understanding/scrape_workflow_metadata.py:142 | computes `main`'s test: no `error` key, or a non-empty `workflow_name`; specified by `SuccessIffLoaded` |
| ScrapeMetadata.MetadataFileName | market_understanding/scrape_workflow_metadata.py:150-151 | the per-workflow file of a URL, `workflow_<id>.json`; specified by `SavedFilesLastWins` and `SavedFilesOnlyForUrls` |
| ScrapeMetadata.SavedFiles | market_understanding/scrape_workflow_metadata.py:149-153 | computes the per-workflow files after writing the records in order; specified by `SavedFilesLastWins` and `SavedFilesOnlyForUrls` |
| ScrapeMetadata.WorkflowIdIsLastSegment | market_understanding/scrape_workflow_metadata.py:36 | the id contains no `/`, is a suffix of the URL preceded by `/` or is the whole URL, is the whole URL when there is no `/`, and is empty when the URL ends in `/` |
| ScrapeMetadata.LabelKeySpec | market_understanding/scrape_workflow_metadata.py:67-68 | a stripped line has no field exactly when no table entry has it as label; otherwise the field is one the table pairs with that label |
| ScrapeMetadata.ApplyLabelsOneField | market_understanding/scrape_workflow_metadata.py:67-71 | the inner loop over the table writes the value under the matched label's field only, and only when there is a value |
| ScrapeMetadata.HitKeySpec | market_understanding/scrape_workflow_metadata.py:65-71 | line `i` sets a field exactly when it strips to a label, a next line exists and that next line strips to a non-empty value; the field set is one of the table's |
| ScrapeMetadata.ScanStep | market_understanding/scrape_workflow_metadata.py:65-71 | one more line of the outer loop sets at most its hit field to the stripped next line |
| ScrapeMetadata.ScanLabels | market_understanding/scrape_workflow_metadata.py:65-71 | the nested loops compute the record that `ScanPrefix` specifies, with no out-of-range access for a label on the last line |
| ScrapeMetadata.ScanLastOccurrenceWins | market_understanding/scrape_workflow_metadata.py:65-71 | a field holds the stripped line after the last label occurrence that yields a value |
| ScrapeMetadata.ScanKeepsUnsetField | market_understanding/scrape_workflow_metadata.py:69-71 | a field that no occurrence yields a value for is present and unchanged exactly as before the scan |
| ScrapeMetadata.NoValueNoChange | market_understanding/scrape_workflow_metadata.py:68-71 | a label on the last line, or followed by a line that strips to empty, changes nothing |
| ScrapeMetadata.ScanWritesOnlyMappedFields | market_understanding/scrape_workflow_metadata.py:50-71 | the scan adds only fields of the table and keeps every other field, including `url` and `workflow_id` |
| ScrapeMetadata.PageFieldsSpec | market_understanding/scrape_workflow_metadata.py:47-74 | the text step adds only table fields and `full_page_text`, which holds the whole text, and keeps every other field |
| ScrapeMetadata.LoadedRecordSpec | market_understanding/scrape_workflow_metadata.py:36-92 | a loaded page's record has the URL and its id, no error, text, title and HTML exactly when they could be read, and otherwise only table fields |
| ScrapeMetadata.PageRecordSpec | market_understanding/scrape_workflow_metadata.py:29-100 | a record always has the URL and its id; it has `error` exactly when navigation failed, and then exactly the keys `url`, `workflow_id` and `error` with the message |
| ScrapeMetadata.ScrapeWorkflowPage | market_understanding/scrape_workflow_metadata.py:29-100 | the imperative page step returns the record `PageRecord` specifies |
| ScrapeMetadata.SuccessIffLoaded | market_understanding/scrape_workflow_metadata.py:142-145 | `main`'s success test holds for a record exactly when its page loaded |
| ScrapeMetadata.SavedFilesLastWins | market_understanding/scrape_workflow_metadata.py:149-153 | every URL's `workflow_<id>.json` exists and holds the record of the last URL with the same id |
| ScrapeMetadata.SavedFilesOnlyForUrls | market_understanding/scrape_workflow_metadata.py:149-153 | every per-workflow file written belongs to one of the URLs |
| ScrapeMetadata.ScrapeAll | market_understanding/scrape_workflow_metadata.py:134-166 | one record per URL in input order; successes are the loaded pages; successes plus failures equal the number of URLs; the per-workflow files are those `SavedFiles` specifies |
| CombineWorkflows.DeriveId | market_understanding/combine_workflows.py:34 | computes `stem.replace("workflow_", "").replace("_enriched", "")`; specified by `DeriveIdRoundTrip` and `DeriveIdCounterexample` |
| CombineWorkflows.MetadataId | market_understanding/combine_workflows.py:33-34 | computes the id of a metadata file from its `stem`; specified by `MetadataIdRoundTrip` |
| CombineWorkflows.FileOutcome | market_understanding/combine_workflows.py:31-68 | computes what one iteration comes to: combined with its output name and record, missing, or failed; specified by `MissingIffNoDefinition` and `CombinedIff`, and computed by `ProcessFile` |
| CombineWorkflows.Tally | market_understanding/combine_workflows.py:26-68 | computes the three counters after the given outcomes; specified by `TallyPartition`, and computed by `Combine` |
| CombineWorkflows.Written | market_understanding/combine_workflows.py:56-59 | computes the output files after the given outcomes; specified by `WrittenNames` and `WrittenLastWins`, and computed by `Combine` |
| CombineWorkflows.Summary | market_understanding/combine_workflows.py:77-83 | computes the summary record of the three counts; specified by `SummaryRoundTrip` |
| CombineWorkflows.RemovePrefix | market_understanding/combine_workflows.py:34 | the first `replace` removes exactly the leading `workflow_` of `workflow_<id>_enriched` when the id neither contains `workflow_` nor ends in `workflow` |
| CombineWorkflows.RemoveSuffix | market_understanding/combine_workflows.py:34 | the second `replace` removes exactly the trailing `_enriched` when the id does not contain `_enriched` |
| CombineWorkflows.DeriveIdRoundTrip | market_understanding/combine_workflows.py:33-34 | the stem `workflow_<id>_enriched` gives back `<id>` when the id contains neither pattern and does not end in `workflow` |
| CombineWorkflows.DeriveIdCounterexample | market_understanding/combine_workflows.py:34 | the id `workflow` contains neither pattern, yet its stem derives `enriched` |
| CombineWorkflows.MetadataIdRoundTrip | market_understanding/combine_workflows.py:22-34 | `workflow_<id>_enriched.json` matches the glob and derives `<id>` under the round-trip conditions |
| CombineWorkflows.SummaryIsNotAnOutput | market_understanding/combine_workflows.py:57-85 | no combined output name is `summary.json`, so the summary never replaces a record |
| CombineWorkflows.Merge | market_understanding/combine_workflows.py:53-54 | the merged keys are the metadata keys plus `n8n_workflow`, which holds the definition; every other metadata key keeps its value |
| CombineWorkflows.MergeExample | market_understanding/combine_workflows.py:53-54 | a two-field metadata record merged with a definition |
| CombineWorkflows.MatchesMetadataGlob | market_understanding/combine_workflows.py:22 | the glob `workflow_*_enriched.json`: the fixed prefix, any text, the fixed suffix; specified by `MetadataIdRoundTrip` |
| CombineWorkflows.DefinitionFileName | market_understanding/combine_workflows.py:37 | the definition looked up for an id, `workflow_<id>.json`; specified by `MissingIffNoDefinition` and `CombinedIff` |
| CombineWorkflows.CombinedFileName | market_understanding/combine_workflows.py:57 | the output written for an id, `workflow_<id>_combined.json`; specified by `CombinedIff` and `SummaryIsNotAnOutput` |
| CombineWorkflows.MissingIffNoDefinition | market_understanding/combine_workflows.py:37-42 | a file is missing exactly when `workflow_<id>.json` does not exist, whatever the metadata directory holds, so the metadata is not read |
| CombineWorkflows.CombinedIff | market_understanding/combine_workflows.py:37-57 | a file is combined exactly when its definition exists, both files parse and the metadata is an object; the output is `workflow_<id>_combined.json` whose record is exactly the `Merge` of the metadata and the definition |
| CombineWorkflows.ProcessFile | market_understanding/combine_workflows.py:31-68 | one imperative loop iteration gives the outcome `FileOutcome` specifies |
| CombineWorkflows.TallyPartition | market_understanding/combine_workflows.py:26-68 | each file increments exactly one counter, so the three counts add up to the number of files |
| CombineWorkflows.WrittenNames | market_understanding/combine_workflows.py:56-59 | an output file exists exactly for the output names of combined files |
| CombineWorkflows.WrittenLastWins | market_understanding/combine_workflows.py:56-59 | an output file holds the record of the last combined file with its name |
| CombineWorkflows.SummaryRoundTrip | market_understanding/combine_workflows.py:77-83 | the summary reports exactly the counts it was made from |
| CombineWorkflows.Combine | market_understanding/combine_workflows.py:26-88 | the returned counts are the tally of the files' outcomes and add up to the number of files; the output directory is the combined records plus the summary, which reports the returned counts |

## Left out

- The browser: `login`, `page.goto`, the body locator, `title()` and `content()`. Their results are the `PageVisit` parameter.
- Any other exception inside the page step (for example from printing) is not modelled; only a failed navigation produces the error record.
- File-system and JSON I/O: `mkdir`, `glob`, `open`, `json.load` and `json.dump`. Directories are maps, the listing is a sequence parameter, and a failed write is not modelled.
- The combiner's listing is not tied to the glob by a precondition. Any names may be listed; `MatchesMetadataGlob` states what the glob accepts.
- JSON numbers are integers; floating point is not modelled.
- The progress save of `all_workflows.json` every ten URLs: the final save overwrites it, and `ScrapeAll` returns the final list.
- The combiner's `print` calls are not modelled; `TallyPartition` and `Combine` describe a run in which no `print` raises. If the print at line 40 or 64 of `combine_workflows.py` raises and the handler's own print at line 67 then succeeds (for example after a one-off write error), a missing file is counted as an error instead, and every hundredth combined file (the 100th, 200th, ...) is counted both as combined and as an error. If the handler's print fails too (as it does when stdout cannot encode the symbols, since it prints one itself), or a print at lines 70-74 fails, the run ends with no `summary.json` and no return value.
- `time.sleep`, printing, the credential environment variables and `sys.exit`.
- Files present in the output directories before a run: the model's output starts empty.
- Both scripts are modelled as functions of their inputs. Running the combiner twice over the same inputs therefore gives the same result by construction, and no separate lemma states it.
- The metadata dict is a value in the model. `metadata.copy()` leaving the loaded metadata unchanged holds by construction.
- The chaining of the scripts: the combiner globs `workflow_*_enriched.json` in `workflow_metadata`, the directory the scraper writes to; a scraper file `workflow_<id>.json` matches only when the id ends in `_enriched`, so no end-to-end property is stated.
- Unicode beyond the whitespace set: `strip()` uses the exact list of characters for which `isspace()` holds, and there is no normalisation or encoding.
- DeriveIdRoundTrip: it requires, besides the id containing neither `workflow_` nor `_enriched`, that the id does not end in `workflow`. Without that, the round trip fails: `DeriveIdCounterexample` shows that the id `workflow` derives `enriched`. The example id in the comment at `combine_workflows.py:33` is hexadecimal, so this is not listed as a defect.
