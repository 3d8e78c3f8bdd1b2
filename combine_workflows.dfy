/**
 * The combiner: every metadata file `workflow_<id>_enriched.json` is joined
 * with the workflow definition `workflow_<id>.json` of the same id, the merged
 * record is written as `workflow_<id>_combined.json`, each file is counted as
 * combined, missing its definition, or failed, and a summary of the three
 * counts is written last.
 *
 * Directories are maps from file name to what `json.load` makes of the file;
 * the glob listing is a sequence of names handed in by the caller, in the
 * order the file system returns them.
 */
module CombineWorkflows {
  import opened Options
  import opened Text

  /** A JSON value as `json.load` returns it; numbers are kept as integers. */
  datatype Json =
    | JNull
    | JBool(b: bool)
    | JNumber(n: int)
    | JString(s: string)
    | JArray(items: seq<Json>)
    | JObject(fields: map<string, Json>)

  /** A file: `json.load` either parses it or raises. */
  datatype FileContent = Parsed(value: Json) | Unreadable

  /** A directory: each existing file name with its content. */
  type Directory = map<string, FileContent>

  /** The prefix and the suffix the id derivation removes. */
  const WorkflowPrefix: string := "workflow_"
  const EnrichedSuffix: string := "_enriched"

  // ---------------------------------------------------------------------
  // File names and ids
  // ---------------------------------------------------------------------

  /** The glob `workflow_*_enriched.json`: the fixed prefix, any text, the
      fixed suffix. */
  predicate MatchesMetadataGlob(name: string) {
    && |name| >= |WorkflowPrefix| + |EnrichedSuffix + ".json"|
    && name[..|WorkflowPrefix|] == WorkflowPrefix
    && EndsWith(name, EnrichedSuffix + ".json")
  }

  /** `stem.replace("workflow_", "").replace("_enriched", "")`. */
  function DeriveId(stem: string): string {
    ReplaceAll(ReplaceAll(stem, WorkflowPrefix, ""), EnrichedSuffix, "")
  }

  /** The id of a metadata file: its stem with the two replacements. */
  function MetadataId(name: string): string {
    DeriveId(PathStem(name))
  }

  /** The definition file looked up for an id. */
  function DefinitionFileName(id: string): string {
    "workflow_" + id + ".json"
  }

  /** The output file written for an id. */
  function CombinedFileName(id: string): string {
    "workflow_" + id + "_combined.json"
  }

  /** The summary file's name. */
  const SummaryFileName: string := "summary.json"

  /** No occurrence of `workflow_` in `id + "_enriched"` starts inside `id`,
      when `id` holds no `workflow_` and does not end in `workflow`. */
  lemma NoPrefixBeforeSuffix(id: string)
    requires NoOccurrence(id, WorkflowPrefix) && !EndsWith(id, "workflow")
    ensures forall p: nat :: p < |id| ==> !OccursAt(id + EnrichedSuffix, WorkflowPrefix, p)
  {
    forall p: nat | p < |id|
      ensures !OccursAt(id + EnrichedSuffix, WorkflowPrefix, p)
    {
      if p + |WorkflowPrefix| <= |id| {
        OccursWithin(id, EnrichedSuffix, WorkflowPrefix, p);
      } else {
        OccursAcross(id, EnrichedSuffix, WorkflowPrefix, p);
        assert |id| - p == 8 ==> id[|id| - 8..] == id[p..] && WorkflowPrefix[..8] == "workflow";
      }
    }
  }

  /** No occurrence of `_enriched` in `id + "_enriched"` starts inside `id`,
      when `id` holds no `_enriched`. */
  lemma NoSuffixBeforeSuffix(id: string)
    requires NoOccurrence(id, EnrichedSuffix)
    ensures forall p: nat :: p < |id| ==> !OccursAt(id + EnrichedSuffix, EnrichedSuffix, p)
  {
    forall p: nat | p < |id|
      ensures !OccursAt(id + EnrichedSuffix, EnrichedSuffix, p)
    {
      if p + |EnrichedSuffix| <= |id| {
        OccursWithin(id, EnrichedSuffix, EnrichedSuffix, p);
      } else {
        OccursAcross(id, EnrichedSuffix, EnrichedSuffix, p);
      }
    }
  }

  /** `"_enriched".replace("workflow_", "")` is `"_enriched"`. */
  lemma SuffixHasNoPrefix()
    ensures ReplaceAll(EnrichedSuffix, WorkflowPrefix, "") == EnrichedSuffix
  {
    assert EnrichedSuffix[..|WorkflowPrefix|][0] != WorkflowPrefix[0];
    assert [EnrichedSuffix[0]] + EnrichedSuffix[1..] == EnrichedSuffix;
  }

  /** The first replacement removes the leading `workflow_` and nothing
      else. */
  lemma RemovePrefix(id: string)
    requires NoOccurrence(id, WorkflowPrefix) && !EndsWith(id, "workflow")
    ensures ReplaceAll(WorkflowPrefix + id + EnrichedSuffix, WorkflowPrefix, "") == id + EnrichedSuffix
  {
    assert WorkflowPrefix + id + EnrichedSuffix == WorkflowPrefix + (id + EnrichedSuffix);
    ReplaceAllAtStart(WorkflowPrefix, id + EnrichedSuffix, "");
    NoPrefixBeforeSuffix(id);
    ReplaceAllSkipsPrefix(id, EnrichedSuffix, WorkflowPrefix, "");
    SuffixHasNoPrefix();
  }

  /** The second replacement removes the trailing `_enriched` and nothing
      else. */
  lemma RemoveSuffix(id: string)
    requires NoOccurrence(id, EnrichedSuffix)
    ensures ReplaceAll(id + EnrichedSuffix, EnrichedSuffix, "") == id
  {
    NoSuffixBeforeSuffix(id);
    ReplaceAllSkipsPrefix(id, EnrichedSuffix, EnrichedSuffix, "");
    assert EnrichedSuffix + [] == EnrichedSuffix;
    ReplaceAllAtStart(EnrichedSuffix, [], "");
    assert id + [] == id;
  }

  /** The derivation gives back the id of a stem `workflow_<id>_enriched` when
      the id holds neither `workflow_` nor `_enriched` and does not end in
      `workflow`. */
  lemma DeriveIdRoundTrip(id: string)
    requires NoOccurrence(id, WorkflowPrefix) && NoOccurrence(id, EnrichedSuffix)
    requires !EndsWith(id, "workflow")
    ensures DeriveId(WorkflowPrefix + id + EnrichedSuffix) == id
  {
    RemovePrefix(id);
    RemoveSuffix(id);
  }

  /** Without the last condition the round trip fails: for the id `workflow`
      the first replacement also removes the `workflow_` that the id and the
      suffix form together, and the derived id is `enriched`. */
  lemma DeriveIdCounterexample()
    ensures DeriveId("workflow_workflow_enriched") == "enriched"
    ensures NoOccurrence("workflow", WorkflowPrefix) && NoOccurrence("workflow", EnrichedSuffix)
  {
    CounterexampleSpelling();
    ReplaceAllAtStart(WorkflowPrefix, "workflow_enriched", "");
    ReplaceAllAtStart(WorkflowPrefix, "enriched", "");
  }

  /** The stem of the counterexample, and what is left of it after each
      removal of `workflow_`. */
  lemma CounterexampleSpelling()
    ensures WorkflowPrefix + "workflow_enriched" == "workflow_workflow_enriched"
    ensures WorkflowPrefix + "enriched" == "workflow_enriched"
  {
  }

  /** A metadata file named `workflow_<id>_enriched.json` matches the glob,
      and its id is `<id>` under the conditions of `DeriveIdRoundTrip`. */
  lemma MetadataIdRoundTrip(id: string)
    requires NoOccurrence(id, WorkflowPrefix) && NoOccurrence(id, EnrichedSuffix)
    requires !EndsWith(id, "workflow")
    ensures MatchesMetadataGlob(WorkflowPrefix + id + EnrichedSuffix + ".json")
    ensures MetadataId(WorkflowPrefix + id + EnrichedSuffix + ".json") == id
  {
    var stem := WorkflowPrefix + id + EnrichedSuffix;
    assert Lacks(".json"[1..], '.');
    PathStemOfSuffix(stem, ".json");
    DeriveIdRoundTrip(id);
    assert (stem + ".json")[..|WorkflowPrefix|] == WorkflowPrefix;
    assert (stem + ".json")[|stem + ".json"| - |EnrichedSuffix + ".json"|..] == EnrichedSuffix + ".json";
  }

  /** No output file of a workflow is the summary file, so writing the
      summary last never replaces a combined record. */
  lemma SummaryIsNotAnOutput(id: string)
    ensures CombinedFileName(id) != SummaryFileName
  {
    assert CombinedFileName(id)[0] == 'w';
  }

  // ---------------------------------------------------------------------
  // One file
  // ---------------------------------------------------------------------

  /** `combined = metadata.copy(); combined["n8n_workflow"] = workflow_data`:
      every metadata key keeps its value except `n8n_workflow`, which holds
      the definition. */
  function Merge(metadata: map<string, Json>, definition: Json): (combined: map<string, Json>)
    ensures combined.Keys == metadata.Keys + {"n8n_workflow"}
    ensures combined["n8n_workflow"] == definition
    ensures forall k :: k in metadata && k != "n8n_workflow" ==> combined[k] == metadata[k]
  {
    metadata["n8n_workflow" := definition]
  }

  /** What processing one listed metadata file comes to. */
  datatype Outcome =
    | Combined(outputName: string, record: map<string, Json>)
    | MissingDefinition
    | Failed

  /** One iteration of the loop: no definition file means missing, without
      reading the metadata; a metadata or definition file that cannot be read
      or parsed, or metadata that is not a JSON object, means failed;
      otherwise the merged record under the output name of the id. */
  function FileOutcome(name: string, metadataDir: Directory, workflowsDir: Directory): Outcome {
    var id := MetadataId(name);
    var definitionName := DefinitionFileName(id);
    if definitionName !in workflowsDir then MissingDefinition
    else if name !in metadataDir || metadataDir[name].Unreadable? then Failed
    else if workflowsDir[definitionName].Unreadable? then Failed
    else if !metadataDir[name].value.JObject? then Failed
    else Combined(CombinedFileName(id), Merge(metadataDir[name].value.fields, workflowsDir[definitionName].value))
  }

  /** A file counts as missing exactly when its definition file does not
      exist, whatever its metadata directory holds. */
  lemma MissingIffNoDefinition(name: string, metadataDir: Directory, other: Directory, workflowsDir: Directory)
    ensures FileOutcome(name, metadataDir, workflowsDir).MissingDefinition? <==>
            DefinitionFileName(MetadataId(name)) !in workflowsDir
    ensures FileOutcome(name, metadataDir, workflowsDir).MissingDefinition? ==>
            FileOutcome(name, other, workflowsDir).MissingDefinition?
  {
  }

  /** A file is combined exactly when its definition exists, both files parse
      and the metadata is a JSON object; the output is then named by the id
      and holds the merge of the two. */
  lemma CombinedIff(name: string, metadataDir: Directory, workflowsDir: Directory)
    ensures var id := MetadataId(name);
      FileOutcome(name, metadataDir, workflowsDir).Combined? <==>
        && DefinitionFileName(id) in workflowsDir && workflowsDir[DefinitionFileName(id)].Parsed?
        && name in metadataDir && metadataDir[name].Parsed? && metadataDir[name].value.JObject?
    ensures var id := MetadataId(name);
      FileOutcome(name, metadataDir, workflowsDir).Combined? ==>
        && FileOutcome(name, metadataDir, workflowsDir).outputName == CombinedFileName(id)
        && FileOutcome(name, metadataDir, workflowsDir).record.Keys == metadataDir[name].value.fields.Keys + {"n8n_workflow"}
        && FileOutcome(name, metadataDir, workflowsDir).record["n8n_workflow"] == workflowsDir[DefinitionFileName(id)].value
        && FileOutcome(name, metadataDir, workflowsDir).record == Merge(metadataDir[name].value.fields, workflowsDir[DefinitionFileName(id)].value)
  {
  }

  /** A worked merge: the metadata's two fields are kept and the definition is
      added under `n8n_workflow`. */
  lemma MergeExample()
    ensures Merge(map["workflow_id" := JString("abc"), "workflow_name" := JString("X")],
                  JObject(map["nodes" := JArray([])]))
         == map["workflow_id" := JString("abc"), "workflow_name" := JString("X"),
                "n8n_workflow" := JObject(map["nodes" := JArray([])])]
  {
  }

  // ---------------------------------------------------------------------
  // The loop over the listing
  // ---------------------------------------------------------------------

  /** The outcome of each listed file, in listing order. */
  function Outcomes(files: seq<string>, metadataDir: Directory, workflowsDir: Directory): (outcomes: seq<Outcome>)
    ensures |outcomes| == |files|
    ensures forall i :: 0 <= i < |files| ==> outcomes[i] == FileOutcome(files[i], metadataDir, workflowsDir)
  {
    seq(|files|, i requires 0 <= i < |files| => FileOutcome(files[i], metadataDir, workflowsDir))
  }

  /** The three counters of the loop. */
  datatype Counts = Counts(success: nat, missing: nat, errors: nat)

  /** The counters after the given outcomes, in order. */
  function Tally(outcomes: seq<Outcome>): Counts {
    if outcomes == [] then Counts(0, 0, 0)
    else
      var c := Tally(outcomes[..|outcomes| - 1]);
      match outcomes[|outcomes| - 1]
      case Combined(_, _) => c.(success := c.success + 1)
      case MissingDefinition => c.(missing := c.missing + 1)
      case Failed => c.(errors := c.errors + 1)
  }

  /** Every outcome is counted exactly once: the three counters add up to the
      number of files. */
  lemma {:induction false} TallyPartition(outcomes: seq<Outcome>)
    ensures var c := Tally(outcomes); c.success + c.missing + c.errors == |outcomes|
  {
    if outcomes != [] {
      TallyPartition(outcomes[..|outcomes| - 1]);
    }
  }

  /** The files written for the given outcomes, in order: each combined record
      under its output name, a later one with the same name replacing an
      earlier one. */
  function Written(outcomes: seq<Outcome>): map<string, Json> {
    if outcomes == [] then map[]
    else
      var prev := Written(outcomes[..|outcomes| - 1]);
      match outcomes[|outcomes| - 1]
      case Combined(outputName, record) => prev[outputName := JObject(record)]
      case _ => prev
  }

  /** A file is written exactly for the output names of the combined
      outcomes. */
  lemma {:induction false} WrittenNames(outcomes: seq<Outcome>, out: string)
    ensures out in Written(outcomes) <==>
            exists i :: 0 <= i < |outcomes| && outcomes[i].Combined? && outcomes[i].outputName == out
  {
    if outcomes != [] {
      var n := |outcomes| - 1;
      var init := outcomes[..n];
      WrittenNames(init, out);
      assert forall i :: 0 <= i < n ==> init[i] == outcomes[i];
    }
  }

  /** A written file holds the record of the last combined outcome with its
      output name. */
  lemma {:induction false} WrittenLastWins(outcomes: seq<Outcome>, i: nat)
    requires i < |outcomes| && outcomes[i].Combined?
    requires forall j :: i < j < |outcomes| && outcomes[j].Combined? ==> outcomes[j].outputName != outcomes[i].outputName
    ensures outcomes[i].outputName in Written(outcomes)
    ensures Written(outcomes)[outcomes[i].outputName] == JObject(outcomes[i].record)
  {
    var n := |outcomes| - 1;
    if i < n {
      var init := outcomes[..n];
      assert init[i] == outcomes[i];
      assert forall j :: i < j < n ==> init[j] == outcomes[j];
      WrittenLastWins(init, i);
    }
  }

  /** The counters and the written files after one more outcome. */
  lemma LoopStep(outcomes: seq<Outcome>, i: nat)
    requires i < |outcomes|
    ensures var c := Tally(outcomes[..i]);
      Tally(outcomes[..i + 1]) ==
        match outcomes[i]
        case Combined(_, _) => c.(success := c.success + 1)
        case MissingDefinition => c.(missing := c.missing + 1)
        case Failed => c.(errors := c.errors + 1)
    ensures var w := Written(outcomes[..i]);
      Written(outcomes[..i + 1]) ==
        match outcomes[i]
        case Combined(outputName, record) => w[outputName := JObject(record)]
        case _ => w
  {
    assert outcomes[..i + 1][..i] == outcomes[..i];
  }

  // ---------------------------------------------------------------------
  // Summary
  // ---------------------------------------------------------------------

  /** The summary record written to `summary.json`. */
  function Summary(c: Counts): map<string, Json> {
    map[
      "total_processed" := JNumber(c.success),
      "missing_workflows" := JNumber(c.missing),
      "errors" := JNumber(c.errors),
      "output_directory" := JString("combined_workflows"),
      "description" := JString("Combined workflow files containing both metadata and n8n workflow definitions")
    ]
  }

  /** The counts a summary record reports, if it holds three non-negative
      numbers under the three count fields. */
  function SummaryCounts(summary: map<string, Json>): Option<Counts> {
    if && "total_processed" in summary && summary["total_processed"].JNumber? && summary["total_processed"].n >= 0
       && "missing_workflows" in summary && summary["missing_workflows"].JNumber? && summary["missing_workflows"].n >= 0
       && "errors" in summary && summary["errors"].JNumber? && summary["errors"].n >= 0
    then Some(Counts(summary["total_processed"].n, summary["missing_workflows"].n, summary["errors"].n))
    else None
  }

  /** The summary reports exactly the counts it was made from. */
  lemma SummaryRoundTrip(c: Counts)
    ensures SummaryCounts(Summary(c)) == Some(c)
  {
    var s := Summary(c);
    assert s["total_processed"] == JNumber(c.success);
    assert s["missing_workflows"] == JNumber(c.missing);
    assert s["errors"] == JNumber(c.errors);
  }

  /** The body of the loop's `try` for one metadata file: derive the id;
      report the file as missing when the definition does not exist; load the
      metadata and the definition, copy the metadata and add the definition
      under `n8n_workflow`, reporting any failure; otherwise the record and
      the name of the file it is written to. */
  method ProcessFile(metadataFile: string, metadataDir: Directory, workflowsDir: Directory) returns (outcome: Outcome)
    ensures outcome == FileOutcome(metadataFile, metadataDir, workflowsDir)
  {
    var workflowId := DeriveId(PathStem(metadataFile));
    var workflowFile := "workflow_" + workflowId + ".json";
    if workflowFile !in workflowsDir {
      return MissingDefinition;
    }
    if metadataFile !in metadataDir || metadataDir[metadataFile].Unreadable? {
      return Failed;
    }
    var metadata := metadataDir[metadataFile].value;
    if workflowsDir[workflowFile].Unreadable? {
      return Failed;
    }
    var workflowData := workflowsDir[workflowFile].value;
    if !metadata.JObject? {
      return Failed;
    }
    var combined := metadata.fields;
    combined := combined["n8n_workflow" := workflowData];
    var outputFile := "workflow_" + workflowId + "_combined.json";
    return Combined(outputFile, combined);
  }

  /** `combine_workflows`: every listed metadata file is processed and
      counted as combined (its record written), missing or failed; then the
      summary is written and the three counts returned. The counts are the
      tally of the files' outcomes and add up to the number of listed files;
      the output directory holds the combined records and the summary, which
      reports the returned counts. */
  method Combine(files: seq<string>, metadataDir: Directory, workflowsDir: Directory)
    returns (successCount: nat, missingCount: nat, errorCount: nat, output: map<string, Json>)
    ensures Counts(successCount, missingCount, errorCount) == Tally(Outcomes(files, metadataDir, workflowsDir))
    ensures successCount + missingCount + errorCount == |files|
    ensures output == Written(Outcomes(files, metadataDir, workflowsDir))[SummaryFileName := JObject(Summary(Counts(successCount, missingCount, errorCount)))]
    ensures SummaryFileName in output && output[SummaryFileName].JObject?
    ensures SummaryCounts(output[SummaryFileName].fields) == Some(Counts(successCount, missingCount, errorCount))
  {
    ghost var outcomes := Outcomes(files, metadataDir, workflowsDir);
    successCount, missingCount, errorCount := 0, 0, 0;
    output := map[];
    for i := 0 to |files|
      invariant Counts(successCount, missingCount, errorCount) == Tally(outcomes[..i])
      invariant output == Written(outcomes[..i])
    {
      LoopStep(outcomes, i);
      var outcome := ProcessFile(files[i], metadataDir, workflowsDir);
      match outcome {
        case Combined(outputFile, combined) =>
          output := output[outputFile := JObject(combined)];
          successCount := successCount + 1;
        case MissingDefinition =>
          missingCount := missingCount + 1;
        case Failed =>
          errorCount := errorCount + 1;
      }
    }
    TakeAll(outcomes);
    TallyPartition(outcomes);
    var summary := Summary(Counts(successCount, missingCount, errorCount));
    SummaryRoundTrip(Counts(successCount, missingCount, errorCount));
    output := output[SummaryFileName := JObject(summary)];
  }
}
