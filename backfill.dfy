/** scripts/backfill-missing-csv.ts: list the CSV files already in the `data` bucket, select
    the datasets whose `<id>.csv` is not among them, print them and their number, then
    download and upload each one in turn. The storage listings, the datasets file and every
    download and upload outcome are inputs; the bucket and the console are the state. */
module Backfill {
  import opened Results
  import opened Seqs

  datatype DatasetDetails = DatasetDetails(id: string, title: string, downloadUrl: string)

  /** The answer to `storage.from('data').list('csv', { limit: 700 })`. */
  datatype Listing = Listed(names: seq<string>) | ListError(message: string)

  /** How the download and upload of one dataset went. `FetchRejected` is `fetch` or
      `response.text()` rejecting; `NotOk` a response whose `ok` is false; `Downloaded` a body
      read in full, with the error the upload call returned, if any. */
  datatype Attempt =
    | FetchRejected(message: string)
    | NotOk(statusText: string)
    | Downloaded(body: string, uploadError: Option<string>)

  /** One console line, stdout and stderr interleaved in the order they are written. */
  datatype LogLine =
    | MissingLine(id: string, title: string, downloadUrl: string)
    | CountLine(count: nat)
    | Downloading(id: string, downloadUrl: string)
    | Uploaded(id: string)
    | ProcessingError(id: string, message: string)
    | ScriptError(message: string)

  /** How the script ends: the top-level listing throws (an unhandled rejection), `main`
      rejects and the catch handler logs it, or the loop runs to the end. */
  datatype RunOutcome = Crashed(message: string) | MainFailed(message: string) | Completed(count: nat)

  function CsvName(id: string): string {
    id + ".csv"
  }

  /** The object path a dataset is uploaded to. */
  function UploadTarget(id: string): string {
    "csv/" + id + ".csv"
  }

  /** Different datasets are uploaded to different objects. */
  lemma UploadTargetInjective(a: string, b: string)
    ensures UploadTarget(a) == UploadTarget(b) ==> a == b
  {
    if UploadTarget(a) == UploadTarget(b) {
      assert |a| == |b|;
      assert forall k :: 0 <= k < |a| ==> a[k] == UploadTarget(a)[4 + k] && b[k] == UploadTarget(b)[4 + k];
    }
  }

  /** `new Set(names)`. */
  function NameSet(names: seq<string>): set<string> {
    set name | name in names
  }

  /** `getExistingCsvFiles`: the set of listed names, or the listing error thrown. */
  function ExistingCsvFiles(listing: Listing): (r: Result<set<string>, string>)
    ensures r.Failure? <==> listing.ListError?
    ensures r.Failure? ==> r.error == listing.message
    ensures r.Success? ==> forall name :: name in r.value <==> name in listing.names
  {
    match listing
    case ListError(message) => Failure(message)
    case Listed(names) => Success(NameSet(names))
  }

  predicate IsMissing(existing: set<string>, d: DatasetDetails) {
    CsvName(d.id) !in existing
  }

  /** The datasets whose CSV file is not in the bucket. */
  function MissingDatasets(existing: set<string>, datasets: seq<DatasetDetails>): (r: seq<DatasetDetails>)
    ensures forall d :: d in r <==> d in datasets && CsvName(d.id) !in existing
  {
    Filter(d => IsMissing(existing, d), datasets)
  }

  /** The missing datasets keep the order of the datasets file. */
  lemma MissingDatasetsKeepOrder(existing: set<string>, datasets: seq<DatasetDetails>)
    ensures IsSubsequence(MissingDatasets(existing, datasets), datasets)
  {
    FilterIsSubsequence(d => IsMissing(existing, d), datasets);
  }

  /** A dataset listed several times whose file is missing is selected as many times. */
  lemma MissingDatasetsKeepDuplicates(existing: set<string>, datasets: seq<DatasetDetails>, d: DatasetDetails)
    ensures multiset(MissingDatasets(existing, datasets))[d]
         == if CsvName(d.id) in existing then 0 else multiset(datasets)[d]
  {
    FilterMultiplicity(d => IsMissing(existing, d), datasets, d);
  }

  /** The console lines of the `forEach` over the missing datasets. */
  function MissingLines(missing: seq<DatasetDetails>): (r: seq<LogLine>)
    ensures |r| == |missing|
    ensures forall i :: 0 <= i < |missing| ==>
      r[i] == MissingLine(missing[i].id, missing[i].title, missing[i].downloadUrl)
  {
    seq(|missing|, i requires 0 <= i < |missing| =>
      MissingLine(missing[i].id, missing[i].title, missing[i].downloadUrl))
  }

  /** The upload of one dataset succeeds. */
  predicate Stores(a: Attempt) {
    a.Downloaded? && a.uploadError.None?
  }

  /** The bucket after `downloadAndUploadCsv` for one dataset: an upsert of the body when
      both the download and the upload succeed, and unchanged otherwise. */
  function StepObjects(objects: map<string, string>, id: string, a: Attempt): (r: map<string, string>)
    ensures Stores(a) ==> r == objects[UploadTarget(id) := a.body]
    ensures !Stores(a) ==> r == objects
  {
    if Stores(a) then objects[UploadTarget(id) := a.body] else objects
  }

  /** The console lines of `downloadAndUploadCsv` for one dataset: the announcement, then
      either the success line or the caught error. */
  function StepLog(id: string, downloadUrl: string, a: Attempt): (r: seq<LogLine>)
    ensures |r| == 2 && r[0] == Downloading(id, downloadUrl)
    ensures r[1] == (if Stores(a) then Uploaded(id) else ProcessingError(id, ErrorMessage(a)))
  {
    [Downloading(id, downloadUrl), if Stores(a) then Uploaded(id) else ProcessingError(id, ErrorMessage(a))]
  }

  /** What the catch handler logs when the attempt did not store the file. */
  function ErrorMessage(a: Attempt): string {
    match a
    case FetchRejected(message) => message
    case NotOk(statusText) => "Failed to download: " + statusText
    case Downloaded(_, uploadError) => if uploadError.Some? then uploadError.value else ""
  }

  /** The bucket after the loop has processed `missing`, the i-th attempt being `attempt(i)`. */
  function ObjectsAfter(objects: map<string, string>, missing: seq<DatasetDetails>, attempt: nat -> Attempt)
    : (r: map<string, string>)
    ensures objects.Keys <= r.Keys
  {
    if |missing| == 0 then objects
    else
      var n := |missing| - 1;
      StepObjects(ObjectsAfter(objects, missing[..n], attempt), missing[n].id, attempt(n))
  }

  /** The console lines the loop writes for `missing`. */
  function LogAfter(missing: seq<DatasetDetails>, attempt: nat -> Attempt): (r: seq<LogLine>)
    ensures |r| == 2 * |missing|
  {
    if |missing| == 0 then []
    else
      var n := |missing| - 1;
      LogAfter(missing[..n], attempt) + StepLog(missing[n].id, missing[n].downloadUrl, attempt(n))
  }

  predicate IsStart(line: LogLine) {
    line.Downloading?
  }

  /** The announcement line of every dataset, in order. */
  function Announcements(missing: seq<DatasetDetails>): (r: seq<LogLine>)
    ensures |r| == |missing|
    ensures forall i :: 0 <= i < |missing| ==> r[i] == Downloading(missing[i].id, missing[i].downloadUrl)
  {
    seq(|missing|, i requires 0 <= i < |missing| => Downloading(missing[i].id, missing[i].downloadUrl))
  }

  lemma AnnouncementsSnoc(missing: seq<DatasetDetails>)
    requires |missing| > 0
    ensures Announcements(missing)
         == Announcements(missing[..|missing| - 1])
            + [Downloading(missing[|missing| - 1].id, missing[|missing| - 1].downloadUrl)]
  {
  }

  /** One dataset's lines hold exactly one announcement. */
  lemma StepLogStarts(id: string, downloadUrl: string, a: Attempt)
    ensures Filter(IsStart, StepLog(id, downloadUrl, a)) == [Downloading(id, downloadUrl)]
  {
    var step := StepLog(id, downloadUrl, a);
    assert step[1..][1..] == [];
  }

  /** Every missing dataset is processed exactly once and in order, whatever happened to the
      datasets before it: a failure is caught inside `downloadAndUploadCsv`. */
  lemma {:induction false} EachMissingDatasetProcessedOnce(missing: seq<DatasetDetails>, attempt: nat -> Attempt)
    ensures Filter(IsStart, LogAfter(missing, attempt)) == Announcements(missing)
  {
    if |missing| > 0 {
      var n := |missing| - 1;
      var d := missing[n];
      EachMissingDatasetProcessedOnce(missing[..n], attempt);
      FilterAppend(IsStart, LogAfter(missing[..n], attempt), StepLog(d.id, d.downloadUrl, attempt(n)));
      StepLogStarts(d.id, d.downloadUrl, attempt(n));
      AnnouncementsSnoc(missing);
    }
  }

  /** An object is left as it was unless some attempt that stores targets it: in
      particular, downloads that fail or are not ok never change the bucket, and no object
      outside `csv/<id>.csv` of a missing dataset is touched. */
  lemma {:induction false} ObjectUntouched(objects: map<string, string>, missing: seq<DatasetDetails>, attempt: nat -> Attempt, key: string)
    requires forall i :: 0 <= i < |missing| && UploadTarget(missing[i].id) == key ==> !Stores(attempt(i))
    ensures key in ObjectsAfter(objects, missing, attempt) <==> key in objects
    ensures key in objects ==> ObjectsAfter(objects, missing, attempt)[key] == objects[key]
  {
    if |missing| > 0 {
      var n := |missing| - 1;
      ObjectUntouched(objects, missing[..n], attempt, key);
    }
  }

  /** The object of a dataset holds the body of its last attempt that stored, when no later
      dataset has the same id. */
  lemma {:induction false} UploadedBodyKept(objects: map<string, string>, missing: seq<DatasetDetails>, attempt: nat -> Attempt, i: nat)
    requires i < |missing| && Stores(attempt(i))
    requires forall j :: i < j < |missing| ==> missing[j].id != missing[i].id
    ensures UploadTarget(missing[i].id) in ObjectsAfter(objects, missing, attempt)
    ensures ObjectsAfter(objects, missing, attempt)[UploadTarget(missing[i].id)] == attempt(i).body
  {
    var n := |missing| - 1;
    var key := UploadTarget(missing[i].id);
    if i < n {
      UploadedBodyKept(objects, missing[..n], attempt, i);
      UploadTargetInjective(missing[n].id, missing[i].id);
    }
  }

  /** The script's effects: the `data` bucket and the console. */
  class Backfiller {
    var objects: map<string, string>
    var console: seq<LogLine>

    constructor(objects: map<string, string>)
      ensures this.objects == objects && console == []
    {
      this.objects := objects;
      console := [];
    }

    /** `downloadAndUploadCsv(id, downloadUrl)`, which never rejects. */
    method DownloadAndUploadCsv(id: string, downloadUrl: string, attempt: Attempt)
      modifies this
      ensures objects == StepObjects(old(objects), id, attempt)
      ensures console == old(console) + StepLog(id, downloadUrl, attempt)
    {
      console := console + [Downloading(id, downloadUrl)];
      match attempt
      case FetchRejected(message) =>
        console := console + [ProcessingError(id, message)];
      case NotOk(statusText) =>
        console := console + [ProcessingError(id, "Failed to download: " + statusText)];
      case Downloaded(body, uploadError) =>
        if uploadError.Some? {
          console := console + [ProcessingError(id, uploadError.value)];
        } else {
          objects := objects[UploadTarget(id) := body];
          console := console + [Uploaded(id)];
        }
    }

    /** The `forEach` that prints each missing dataset and counts it, then the count. */
    method PrintMissing(missing: seq<DatasetDetails>) returns (count: nat)
      modifies this
      ensures count == |missing|
      ensures objects == old(objects)
      ensures console == old(console) + MissingLines(missing) + [CountLine(count)]
    {
      count := 0;
      ghost var before := console;
      for i := 0 to |missing|
        invariant count == i
        invariant objects == old(objects)
        invariant console == before + MissingLines(missing[..i])
      {
        console := console + [MissingLine(missing[i].id, missing[i].title, missing[i].downloadUrl)];
        count := count + 1;
        assert MissingLines(missing[..i + 1]) == MissingLines(missing[..i]) + [MissingLine(missing[i].id, missing[i].title, missing[i].downloadUrl)];
      }
      assert missing[..|missing|] == missing;
      console := console + [CountLine(count)];
    }

    /** The sequential `for … await` loop over the missing datasets. */
    method ProcessMissing(missing: seq<DatasetDetails>, attempt: nat -> Attempt)
      modifies this
      ensures objects == ObjectsAfter(old(objects), missing, attempt)
      ensures console == old(console) + LogAfter(missing, attempt)
    {
      ghost var objects0 := objects;
      ghost var console0 := console;
      for i := 0 to |missing|
        invariant objects == ObjectsAfter(objects0, missing[..i], attempt)
        invariant console == console0 + LogAfter(missing[..i], attempt)
      {
        DownloadAndUploadCsv(missing[i].id, missing[i].downloadUrl, attempt(i));
        assert missing[..i + 1][..i] == missing[..i];
      }
      assert missing[..|missing|] == missing;
    }

    /** The whole script: the top-level listing, then `main()` with its catch handler.
        `preflight` and `listing` are the answers to the two listing calls. */
    method Run(preflight: Listing, listing: Listing, datasets: seq<DatasetDetails>, attempt: nat -> Attempt)
      returns (outcome: RunOutcome)
      modifies this
      ensures preflight.ListError? ==>
        outcome == Crashed(preflight.message) && objects == old(objects) && console == old(console)
      ensures preflight.Listed? && listing.ListError? ==>
        outcome == MainFailed(listing.message) && objects == old(objects)
        && console == old(console) + [ScriptError(listing.message)]
      ensures preflight.Listed? && listing.Listed? ==>
        var missing := MissingDatasets(NameSet(listing.names), datasets);
        && outcome == Completed(|missing|)
        && objects == ObjectsAfter(old(objects), missing, attempt)
        && console == old(console) + MissingLines(missing) + [CountLine(|missing|)] + LogAfter(missing, attempt)
    {
      var first := ExistingCsvFiles(preflight);
      if first.Failure? {
        return Crashed(first.error);
      }
      var existing := ExistingCsvFiles(listing);
      if existing.Failure? {
        console := console + [ScriptError(existing.error)];
        return MainFailed(existing.error);
      }
      var missing := MissingDatasets(existing.value, datasets);
      var count := PrintMissing(missing);
      ProcessMissing(missing, attempt);
      outcome := Completed(count);
    }
  }
}
