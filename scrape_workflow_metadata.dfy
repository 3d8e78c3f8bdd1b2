/**
 * The parsing side of the metadata scraper: the workflow id taken from a URL,
 * the scan that pairs each known label line of a page with the line after it,
 * the record built for one page (or the error record when the visit fails),
 * and the main loop that scrapes every URL and counts successes and failures.
 *
 * The browser is not modelled: what a visit to one URL yields is a
 * `PageVisit` value handed in by the caller.
 */
module ScrapeMetadata {
  import opened Options
  import opened Text

  /** A scraped record, a Python dict from field name to text. */
  type Record = map<string, string>

  /** The labels looked for on a page and the field each fills, in the order
      of the source's table. */
  const FieldMapping: seq<(string, string)> := [
    ("Workflow ID", "workflow_id_display"),
    ("Workflow Name", "workflow_name"),
    ("Category", "category"),
    ("Difficulty", "difficulty"),
    ("Total Nodes", "total_nodes"),
    ("Tools & Integrations", "tools_integrations"),
    ("Tags", "tags"),
    ("Author", "author"),
    ("Primary Use Case", "primary_use_case"),
    ("Setup Time", "setup_time"),
    ("Use Cases", "use_cases"),
    ("Key Benefits", "key_benefits")
  ]

  /** The field names a label table can write. */
  function MappedFields(table: seq<(string, string)>): set<string> {
    set i | 0 <= i < |table| :: table[i].1
  }

  /** No label appears twice in a table. */
  predicate DistinctLabels(table: seq<(string, string)>) {
    forall i, j :: 0 <= i < j < |table| ==> table[i].0 != table[j].0
  }

  /** The fields the scraper sets itself on a loaded page, outside the label
      table. */
  const PageKeys: set<string> := {"url", "workflow_id", "full_page_text", "page_title", "page_html"}

  /** The source's table has no repeated label. */
  lemma FieldMappingLabelsDistinct()
    ensures DistinctLabels(FieldMapping)
  {
    forall i, j | 0 <= i < j < |FieldMapping|
      ensures FieldMapping[i].0 != FieldMapping[j].0
    {
      var a, b := FieldMapping[i].0, FieldMapping[j].0;
      assert |a| > 0 && |b| > 0;
      assert |a| != |b| || a[0] != b[0];
    }
  }

  /** None of the source table's fields is a key the scraper sets itself, so
      the scan never overwrites the URL, the id, or the text, title and HTML
      fields, and never produces an `error` field. */
  lemma FieldMappingAvoidsOwnKeys()
    ensures forall k :: k in MappedFields(FieldMapping) ==> k !in PageKeys && k != "error"
  {
    forall i | 0 <= i < |FieldMapping|
      ensures FieldMapping[i].1 !in PageKeys && FieldMapping[i].1 != "error"
    {
      assert |FieldMapping[i].1| >= 4;
    }
  }

  // ---------------------------------------------------------------------
  // Workflow id
  // ---------------------------------------------------------------------

  /** `url.split("/")[-1]`: the last piece of the URL split at `/`. */
  function WorkflowId(url: string): string {
    var parts := Split(url, '/');
    parts[|parts| - 1]
  }

  /** The id is the text after the last `/` of the URL: it holds no `/`, is a
      suffix of the URL preceded by `/` or the whole URL, is the whole URL when
      there is no `/`, and is empty when the URL ends in `/`. */
  lemma WorkflowIdIsLastSegment(url: string)
    ensures Lacks(WorkflowId(url), '/')
    ensures |WorkflowId(url)| <= |url| && WorkflowId(url) == url[|url| - |WorkflowId(url)|..]
    ensures |WorkflowId(url)| == |url| || url[|url| - |WorkflowId(url)| - 1] == '/'
    ensures Lacks(url, '/') ==> WorkflowId(url) == url
    ensures |url| > 0 && url[|url| - 1] == '/' ==> WorkflowId(url) == []
  {
    var i := LastIndexOf(url, '/');
    SplitLastPiece(url, '/');
    LastIndexOfIsLast(url, '/');
    assert WorkflowId(url) == url[i + 1..];
  }

  // ---------------------------------------------------------------------
  // Label scan
  // ---------------------------------------------------------------------

  /** The value the line after line `i` offers: its stripped text, when that
      line exists and its stripped text is not empty. */
  function NextValue(lines: seq<string>, i: nat): Option<string>
    requires i < |lines|
  {
    if i + 1 < |lines| && Strip(lines[i + 1]) != [] then Some(Strip(lines[i + 1])) else None
  }

  /** One pass of the inner loop over a label table for one stripped line:
      every entry whose label is the line writes the value (if any) under its
      field. */
  function ApplyLabels(table: seq<(string, string)>, line: string, value: Option<string>, m: Record): Record
  {
    if table == [] then m
    else
      var m' := ApplyLabels(table[..|table| - 1], line, value, m);
      var entry := table[|table| - 1];
      if line == entry.0 && value.Some? then m'[entry.1 := value.value] else m'
  }

  /** The field a stripped line is the label of, if any. */
  function LabelKey(table: seq<(string, string)>, line: string): Option<string> {
    if table == [] then None
    else if table[|table| - 1].0 == line then Some(table[|table| - 1].1)
    else LabelKey(table[..|table| - 1], line)
  }

  /** A line has a field exactly when it is one of the table's labels, and the
      field is the one the table pairs with that label. */
  lemma {:induction false} LabelKeySpec(table: seq<(string, string)>, line: string)
    ensures LabelKey(table, line).None? <==> forall i :: 0 <= i < |table| ==> table[i].0 != line
    ensures LabelKey(table, line).Some? ==>
              exists i :: 0 <= i < |table| && table[i] == (line, LabelKey(table, line).value)
  {
    if table != [] && table[|table| - 1].0 != line {
      var init := table[..|table| - 1];
      LabelKeySpec(init, line);
      assert forall i :: 0 <= i < |init| ==> init[i] == table[i];
    }
  }

  /** With distinct labels, the inner loop writes at most one field: the one
      whose label the line is. */
  lemma {:induction false} ApplyLabelsOneField(table: seq<(string, string)>, line: string, value: Option<string>, m: Record)
    requires DistinctLabels(table)
    ensures ApplyLabels(table, line, value, m) ==
            if LabelKey(table, line).Some? && value.Some? then m[LabelKey(table, line).value := value.value] else m
  {
    if table != [] {
      var init := table[..|table| - 1];
      assert DistinctLabels(init) by {
        assert forall i :: 0 <= i < |init| ==> init[i] == table[i];
      }
      ApplyLabelsOneField(init, line, value, m);
      if table[|table| - 1].0 == line {
        LabelKeySpec(init, line);
        assert LabelKey(init, line).None? by {
          assert forall i :: 0 <= i < |init| ==> init[i] == table[i];
        }
      }
    }
  }

  /** The field that line `i` of the page sets, if any: the line must strip
      to a label of the table and the next line must exist and strip to
      something non-empty. */
  function HitKey(table: seq<(string, string)>, lines: seq<string>, i: nat): Option<string>
    requires i < |lines|
  {
    if NextValue(lines, i).Some? then LabelKey(table, Strip(lines[i])) else None
  }

  /** Line `i` sets a field exactly when it strips to a label of the table and
      the next line exists and strips to something non-empty; the field set is
      one of the table's. */
  lemma HitKeySpec(table: seq<(string, string)>, lines: seq<string>, i: nat)
    requires i < |lines|
    ensures HitKey(table, lines, i).Some? <==>
              && i + 1 < |lines| && Strip(lines[i + 1]) != []
              && exists j :: 0 <= j < |table| && table[j].0 == Strip(lines[i])
    ensures HitKey(table, lines, i).Some? ==> HitKey(table, lines, i).value in MappedFields(table)
  {
    LabelKeySpec(table, Strip(lines[i]));
  }

  /** The record after the scan has looked at the first `n` lines, starting
      from `base`. */
  function ScanPrefix(table: seq<(string, string)>, lines: seq<string>, n: nat, base: Record): Record
    requires n <= |lines|
  {
    if n == 0 then base
    else ApplyLabels(table, Strip(lines[n - 1]), NextValue(lines, n - 1), ScanPrefix(table, lines, n - 1, base))
  }

  /** What looking at line `n - 1` does to the record: write the next line's
      stripped text under the field line `n - 1` is the label of, or nothing. */
  lemma ScanStep(table: seq<(string, string)>, lines: seq<string>, n: nat, base: Record)
    requires DistinctLabels(table)
    requires 0 < n <= |lines|
    ensures ScanPrefix(table, lines, n, base) ==
            if HitKey(table, lines, n - 1).Some?
            then ScanPrefix(table, lines, n - 1, base)[HitKey(table, lines, n - 1).value := Strip(lines[n])]
            else ScanPrefix(table, lines, n - 1, base)
  {
    ApplyLabelsOneField(table, Strip(lines[n - 1]), NextValue(lines, n - 1), ScanPrefix(table, lines, n - 1, base));
  }

  /** The nested loops of the scan: for every line, in page order, and every
      entry of the table, a line that strips to the label, followed by a line
      that strips to something non-empty, stores that text under the field. */
  method ScanLabels(table: seq<(string, string)>, lines: seq<string>, metadata: Record) returns (m: Record)
    ensures m == ScanPrefix(table, lines, |lines|, metadata)
  {
    m := metadata;
    for i := 0 to |lines|
      invariant m == ScanPrefix(table, lines, i, metadata)
    {
      var line := Strip(lines[i]);
      ghost var before := m;
      for j := 0 to |table|
        invariant m == ApplyLabels(table[..j], line, NextValue(lines, i), before)
      {
        var labelText, field := table[j].0, table[j].1;
        assert table[..j + 1][..j] == table[..j];
        if line == labelText && i + 1 < |lines| {
          var value := Strip(lines[i + 1]);
          if value != [] {
            m := m[field := value];
          }
        }
      }
      assert table[..|table|] == table;
    }
  }

  /** A field that no line of the first `n` sets keeps the value (or the
      absence) it had before the scan. */
  lemma {:induction false} ScanKeepsUnsetField(table: seq<(string, string)>, lines: seq<string>, n: nat, base: Record, k: string)
    requires DistinctLabels(table)
    requires n <= |lines|
    requires forall i :: 0 <= i < n ==> HitKey(table, lines, i) != Some(k)
    ensures k in ScanPrefix(table, lines, n, base) <==> k in base
    ensures k in base ==> ScanPrefix(table, lines, n, base)[k] == base[k]
  {
    if n > 0 {
      ScanStep(table, lines, n, base);
      ScanKeepsUnsetField(table, lines, n - 1, base, k);
    }
  }

  /** When line `i` is the last of the first `n` lines to set field `k`, the
      field holds the stripped text of line `i + 1`: a later occurrence of a
      label overwrites an earlier one. */
  lemma {:induction false} ScanLastOccurrenceWins(table: seq<(string, string)>, lines: seq<string>, n: nat, base: Record, k: string, i: nat)
    requires DistinctLabels(table)
    requires i < n <= |lines|
    requires HitKey(table, lines, i) == Some(k)
    requires forall j :: i < j < n ==> HitKey(table, lines, j) != Some(k)
    ensures k in ScanPrefix(table, lines, n, base) && ScanPrefix(table, lines, n, base)[k] == Strip(lines[i + 1])
  {
    ScanStep(table, lines, n, base);
    if i < n - 1 {
      ScanLastOccurrenceWins(table, lines, n - 1, base, k, i);
    }
  }

  /** Every field the scan holds was either in the starting record or is a
      field of the table, and every field outside the table keeps its
      starting value. */
  lemma {:induction false} ScanWritesOnlyMappedFields(table: seq<(string, string)>, lines: seq<string>, n: nat, base: Record)
    requires DistinctLabels(table)
    requires n <= |lines|
    ensures ScanPrefix(table, lines, n, base).Keys <= base.Keys + MappedFields(table)
    ensures forall k :: k in base && k !in MappedFields(table) ==>
              k in ScanPrefix(table, lines, n, base) && ScanPrefix(table, lines, n, base)[k] == base[k]
  {
    if n > 0 {
      ScanStep(table, lines, n, base);
      HitKeySpec(table, lines, n - 1);
      ScanWritesOnlyMappedFields(table, lines, n - 1, base);
    }
  }

  /** A label on the last line sets nothing, and a label followed by a line
      that strips to nothing sets nothing: in both cases looking at that line
      leaves the record as it was. */
  lemma NoValueNoChange(table: seq<(string, string)>, lines: seq<string>, i: nat, base: Record)
    requires DistinctLabels(table)
    requires i < |lines|
    requires i + 1 == |lines| || Strip(lines[i + 1]) == []
    ensures ScanPrefix(table, lines, i + 1, base) == ScanPrefix(table, lines, i, base)
  {
    ScanStep(table, lines, i + 1, base);
  }

  // ---------------------------------------------------------------------
  // One page
  // ---------------------------------------------------------------------

  /** What visiting one URL yields: either the navigation fails with an error
      message, or the page loads and each of its body text, title and HTML is
      either read or its read fails (`None`). */
  datatype PageVisit =
    | NavigationFailed(message: string)
    | Loaded(bodyText: Option<string>, title: Option<string>, html: Option<string>)

  /** The record scraped from one visit. */
  function PageRecord(url: string, visit: PageVisit): Record {
    match visit
    case NavigationFailed(message) => ErrorRecord(url, message)
    case Loaded(bodyText, title, html) => LoadedRecord(url, bodyText, title, html)
  }

  /** The record returned when the visit fails. */
  function ErrorRecord(url: string, message: string): Record {
    map["url" := url, "workflow_id" := WorkflowId(url), "error" := message]
  }

  /** The record of a loaded page: the URL and its id, then the labelled
      fields and the text when the text could be read, then the title and the
      HTML when they could be read. */
  function LoadedRecord(url: string, bodyText: Option<string>, title: Option<string>, html: Option<string>): Record {
    var base := map["url" := url, "workflow_id" := WorkflowId(url)];
    var m1 := if bodyText.Some? then PageFields(bodyText.value, base) else base;
    var m2 := if title.Some? then m1["page_title" := title.value] else m1;
    if html.Some? then m2["page_html" := html.value] else m2
  }

  /** The scan of a page's text, followed by storing the text itself. */
  function PageFields(text: string, base: Record): Record {
    var lines := Split(text, '\n');
    ScanPrefix(FieldMapping, lines, |lines|, base)["full_page_text" := text]
  }

  /** The scan of a page adds only fields of the source's table and the full
      text, and keeps every other field of the record it starts from. */
  lemma PageFieldsSpec(text: string, base: Record)
    ensures PageFields(text, base).Keys <= base.Keys + MappedFields(FieldMapping) + {"full_page_text"}
    ensures "full_page_text" in PageFields(text, base) && PageFields(text, base)["full_page_text"] == text
    ensures forall k :: k in base && k !in MappedFields(FieldMapping) && k != "full_page_text" ==>
              k in PageFields(text, base) && PageFields(text, base)[k] == base[k]
  {
    var lines := Split(text, '\n');
    FieldMappingLabelsDistinct();
    ScanWritesOnlyMappedFields(FieldMapping, lines, |lines|, base);
  }

  /** A loaded page's record holds the URL and its id, never an error, the
      text, title and HTML exactly when they could be read, and otherwise only
      fields of the source's table. */
  lemma LoadedRecordSpec(url: string, bodyText: Option<string>, title: Option<string>, html: Option<string>)
    ensures var r := LoadedRecord(url, bodyText, title, html);
      && "url" in r && r["url"] == url
      && "workflow_id" in r && r["workflow_id"] == WorkflowId(url)
      && "error" !in r
      && r.Keys <= PageKeys + MappedFields(FieldMapping)
      && ("full_page_text" in r <==> bodyText.Some?)
      && (bodyText.Some? ==> r["full_page_text"] == bodyText.value)
      && ("page_title" in r <==> title.Some?)
      && (title.Some? ==> r["page_title"] == title.value)
      && ("page_html" in r <==> html.Some?)
      && (html.Some? ==> r["page_html"] == html.value)
  {
    FieldMappingAvoidsOwnKeys();
    if bodyText.Some? {
      PageFieldsSpec(bodyText.value, map["url" := url, "workflow_id" := WorkflowId(url)]);
    }
  }

  /** On a loaded page whose text could be read, every field of the table is
      present, and holds the same value, as after the scan of the text's lines
      starting from the URL and its id: what the scan lemmas prove about
      `ScanPrefix` holds of the record the page step returns. */
  lemma LoadedRecordTableFields(url: string, text: string, title: Option<string>, html: Option<string>, k: string)
    requires k in MappedFields(FieldMapping)
    ensures var lines := Split(text, '\n');
      var scan := ScanPrefix(FieldMapping, lines, |lines|, map["url" := url, "workflow_id" := WorkflowId(url)]);
      var r := LoadedRecord(url, Some(text), title, html);
      && (k in r <==> k in scan)
      && (k in scan ==> r[k] == scan[k])
  {
    FieldMappingAvoidsOwnKeys();
  }

  /** The record of one visit. A failed visit gives exactly the URL, its id
      and the error message; a loaded page gives no error field, the URL, its
      id, the labelled fields of its text, and the text, title and HTML that
      could be read. */
  lemma PageRecordSpec(url: string, visit: PageVisit)
    ensures var r := PageRecord(url, visit);
      && "url" in r && r["url"] == url
      && "workflow_id" in r && r["workflow_id"] == WorkflowId(url)
      && ("error" in r <==> visit.NavigationFailed?)
      && (visit.NavigationFailed? ==> r.Keys == {"url", "workflow_id", "error"} && r["error"] == visit.message)
      && (visit.Loaded? ==> r.Keys <= PageKeys + MappedFields(FieldMapping))
      && (visit.Loaded? ==> ("full_page_text" in r <==> visit.bodyText.Some?))
      && (visit.Loaded? ==> ("page_title" in r <==> visit.title.Some?))
      && (visit.Loaded? ==> ("page_html" in r <==> visit.html.Some?))
  {
    if visit.Loaded? {
      LoadedRecordSpec(url, visit.bodyText, visit.title, visit.html);
    }
  }

  /** `scrape_workflow_page` once the page is reached: the record starts with
      the URL and its id, gains the labelled fields and the full text when the
      text can be read, then the title and the HTML when they can be read. */
  method ScrapeWorkflowPage(url: string, visit: PageVisit) returns (metadata: Record)
    ensures metadata == PageRecord(url, visit)
  {
    match visit {
      case NavigationFailed(message) =>
        metadata := map["url" := url, "workflow_id" := WorkflowId(url), "error" := message];
      case Loaded(bodyText, title, html) =>
        metadata := map["url" := url, "workflow_id" := WorkflowId(url)];
        if bodyText.Some? {
          var lines := Split(bodyText.value, '\n');
          metadata := ScanLabels(FieldMapping, lines, metadata);
          metadata := metadata["full_page_text" := bodyText.value];
        }
        if title.Some? {
          metadata := metadata["page_title" := title.value];
        }
        if html.Some? {
          metadata := metadata["page_html" := html.value];
        }
    }
  }

  // ---------------------------------------------------------------------
  // The main loop
  // ---------------------------------------------------------------------

  /** The test `main` applies to a record: no error, or a non-empty workflow
      name. */
  predicate IsSuccess(metadata: Record) {
    "error" !in metadata || ("workflow_name" in metadata && metadata["workflow_name"] != [])
  }

  /** A page's record counts as a success exactly when the page loaded. */
  lemma SuccessIffLoaded(url: string, visit: PageVisit)
    ensures IsSuccess(PageRecord(url, visit)) <==> visit.Loaded?
  {
    PageRecordSpec(url, visit);
    if visit.NavigationFailed? {
      assert "workflow_name" !in PageRecord(url, visit).Keys;
    }
  }

  /** The number of visits whose page loaded. */
  function CountLoaded(visits: seq<PageVisit>): (n: nat)
    ensures n <= |visits|
  {
    if visits == [] then 0
    else CountLoaded(visits[..|visits| - 1]) + (if visits[|visits| - 1].Loaded? then 1 else 0)
  }

  /** Counting the loaded visits of one more visit. */
  lemma CountLoadedSnoc(visits: seq<PageVisit>, i: nat)
    requires i < |visits|
    ensures CountLoaded(visits[..i + 1]) == CountLoaded(visits[..i]) + (if visits[i].Loaded? then 1 else 0)
  {
    assert visits[..i + 1][..i] == visits[..i];
  }

  /** The per-workflow file `main` writes a URL's record to. */
  function MetadataFileName(url: string): string {
    "workflow_" + WorkflowId(url) + ".json"
  }

  /** The per-workflow files after writing the records of `urls` in order; a
      later URL with the same id overwrites the file. */
  function SavedFiles(urls: seq<string>, records: seq<Record>): map<string, Record>
    requires |records| == |urls|
  {
    if urls == [] then map[]
    else
      var n := |urls| - 1;
      SavedFiles(urls[..n], records[..n])[MetadataFileName(urls[n]) := records[n]]
  }

  /** Writing one more URL's record. */
  lemma SavedFilesSnoc(urls: seq<string>, records: seq<Record>, r: Record, i: nat)
    requires i < |urls| && |records| == i
    ensures SavedFiles(urls[..i + 1], records + [r]) == SavedFiles(urls[..i], records)[MetadataFileName(urls[i]) := r]
  {
    assert urls[..i + 1][..i] == urls[..i];
    assert (records + [r])[..i] == records;
  }

  /** A file exists for the id of every URL, and holds the record of the last
      URL with that id. */
  lemma {:induction false} SavedFilesLastWins(urls: seq<string>, records: seq<Record>, i: nat)
    requires |records| == |urls| && i < |urls|
    requires forall j :: i < j < |urls| ==> MetadataFileName(urls[j]) != MetadataFileName(urls[i])
    ensures MetadataFileName(urls[i]) in SavedFiles(urls, records)
    ensures SavedFiles(urls, records)[MetadataFileName(urls[i])] == records[i]
  {
    var n := |urls| - 1;
    if i < n {
      var urls', records' := urls[..n], records[..n];
      assert urls'[i] == urls[i] && records'[i] == records[i];
      assert forall j :: i < j < n ==> urls'[j] == urls[j];
      SavedFilesLastWins(urls', records', i);
    }
  }

  /** Every file written belongs to one of the URLs. */
  lemma {:induction false} SavedFilesOnlyForUrls(urls: seq<string>, records: seq<Record>, name: string)
    requires |records| == |urls|
    requires name in SavedFiles(urls, records)
    ensures exists i :: 0 <= i < |urls| && MetadataFileName(urls[i]) == name
  {
    var n := |urls| - 1;
    if name != MetadataFileName(urls[n]) {
      SavedFilesOnlyForUrls(urls[..n], records[..n], name);
      var i :| 0 <= i < n && MetadataFileName(urls[..n][i]) == name;
      assert urls[..n][i] == urls[i];
    }
  }

  /** `main`'s loop over the URLs: each URL is scraped, counted as a success
      or a failure, appended to the list of all records and written to its
      own file. Every URL is counted once, the successes are the pages that
      loaded, and the list holds one record per URL in input order; the list
      is also what the combined file `all_workflows.json` holds at the end. */
  method ScrapeAll(urls: seq<string>, visits: seq<PageVisit>)
    returns (successCount: nat, failCount: nat, allMetadata: seq<Record>, files: map<string, Record>)
    requires |visits| == |urls|
    ensures |allMetadata| == |urls|
    ensures forall i :: 0 <= i < |urls| ==> allMetadata[i] == PageRecord(urls[i], visits[i])
    ensures successCount == CountLoaded(visits)
    ensures successCount + failCount == |urls|
    ensures files == SavedFiles(urls, allMetadata)
  {
    successCount, failCount := 0, 0;
    allMetadata, files := [], map[];
    for i := 0 to |urls|
      invariant |allMetadata| == i
      invariant forall j :: 0 <= j < i ==> allMetadata[j] == PageRecord(urls[j], visits[j])
      invariant successCount == CountLoaded(visits[..i])
      invariant successCount + failCount == i
      invariant files == SavedFiles(urls[..i], allMetadata)
    {
      var metadata := ScrapeWorkflowPage(urls[i], visits[i]);
      SuccessIffLoaded(urls[i], visits[i]);
      CountLoadedSnoc(visits, i);
      if IsSuccess(metadata) {
        successCount := successCount + 1;
      } else {
        failCount := failCount + 1;
      }
      SavedFilesSnoc(urls, allMetadata, metadata, i);
      allMetadata := allMetadata + [metadata];
      var outputFile := "workflow_" + WorkflowId(urls[i]) + ".json";
      files := files[outputFile := metadata];
    }
    TakeAll(visits);
    TakeAll(urls);
  }
}
