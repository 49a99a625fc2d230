/** The per-dataset mapping of scripts/download-urls.ts: the dataset id is the last path
    segment of its page URL and the CSV export URL is built from it; the URL list file is the
    export URLs, one per line. Reading and writing the JSON files are left to the caller. */
module DownloadUrls {
  import opened Results
  import opened Text

  /** A parsed JSON value. */
  datatype Json =
    | JNull
    | JBool(b: bool)
    | JNumber(n: int)
    | JString(s: string)
    | JArray(items: seq<Json>)
    | JObject(fields: map<string, Json>)

  /** One entry of the datasets file: a JSON object. */
  type Dataset = map<string, Json>

  const ExportPrefix := "https://data.sfgov.org/api/views/"
  const ExportSuffix := "/rows.csv"

  /** `dataset.url.split('/').pop() || ''`. On a split `pop()` always yields a string, and
      when that string is "" (a URL ending in '/') the fallback gives "" again, so the fallback
      never changes the result. */
  function DatasetId(url: string): (id: string)
    ensures id == LastSegment(url, '/')
  {
    LastOfSplit(url, '/');
    Last(Split(url, '/'))
  }

  function ExportUrl(id: string): string {
    ExportPrefix + id + ExportSuffix
  }

  /** The dataset has a string `url` field. */
  predicate HasUrl(d: Dataset) {
    "url" in d && d["url"].JString?
  }

  /** The mapping callback: spread the dataset, then set `id` and `downloadUrl`. Reading
      `.split` of a `url` that is missing or not a string throws a TypeError. */
  function AddDownloadUrl(d: Dataset): (r: Result<Dataset, string>)
    ensures r.Failure? <==> !HasUrl(d)
    ensures r.Success? ==> r.value.Keys == d.Keys + {"id", "downloadUrl"}
    ensures r.Success? ==> forall k :: k in d && k != "id" && k != "downloadUrl" ==> r.value[k] == d[k]
    ensures r.Success? ==> r.value["id"] == JString(LastSegment(d["url"].s, '/'))
    ensures r.Success? ==> r.value["downloadUrl"] == JString(ExportUrl(LastSegment(d["url"].s, '/')))
  {
    if !HasUrl(d) then Failure("TypeError")
    else
      var id := DatasetId(d["url"].s);
      Success(d["id" := JString(id)]["downloadUrl" := JString(ExportUrl(id))])
  }

  function Callbacks(ds: seq<Dataset>): (rs: seq<Result<Dataset, string>>)
    ensures |rs| == |ds|
    ensures forall i :: 0 <= i < |ds| ==> rs[i] == AddDownloadUrl(ds[i])
  {
    seq(|ds|, i requires 0 <= i < |ds| => AddDownloadUrl(ds[i]))
  }

  /** `JSON.parse(rawData).map(...)`: the callbacks run in order and the first one that
      throws aborts the whole map. */
  function AddDownloadUrls(ds: seq<Dataset>): Result<seq<Dataset>, string> {
    Collect(Callbacks(ds))
  }

  /** The map succeeds exactly when every dataset has a string `url`. */
  lemma AddDownloadUrlsSucceeds(ds: seq<Dataset>)
    ensures AddDownloadUrls(ds).Success? <==> forall i :: 0 <= i < |ds| ==> HasUrl(ds[i])
  {
    var rs := Callbacks(ds);
    assert forall i :: 0 <= i < |ds| ==> (rs[i].Success? <==> HasUrl(ds[i]));
  }

  /** On success the output has one dataset per input dataset, in the same order, each the
      callback's result on its input (so `id` and `downloadUrl` are set and every other
      field is unchanged). */
  lemma AddDownloadUrlsAt(ds: seq<Dataset>, i: int)
    requires AddDownloadUrls(ds).Success?
    requires 0 <= i < |ds|
    ensures |AddDownloadUrls(ds).value| == |ds|
    ensures AddDownloadUrl(ds[i]).Success?
    ensures AddDownloadUrls(ds).value[i] == AddDownloadUrl(ds[i]).value
  {
    var rs := Callbacks(ds);
    assert rs[i] == AddDownloadUrl(ds[i]);
  }

  /** `d.downloadUrl`, where Array.prototype.join renders a missing value as "". A value that
      is not a string never reaches it: `AddDownloadUrl` always stores a string there. */
  function DownloadUrlOf(d: Dataset): string {
    if "downloadUrl" in d && d["downloadUrl"].JString? then d["downloadUrl"].s else ""
  }

  /** `datasets.map(d => d.downloadUrl)` */
  function DownloadUrlsOf(datasets: seq<Dataset>): (urls: seq<string>)
    ensures |urls| == |datasets|
    ensures forall i :: 0 <= i < |datasets| ==> urls[i] == DownloadUrlOf(datasets[i])
  {
    seq(|datasets|, i requires 0 <= i < |datasets| => DownloadUrlOf(datasets[i]))
  }

  /** `datasets.map(d => d.downloadUrl).join('\n')` */
  function UrlList(datasets: seq<Dataset>): string {
    Join(DownloadUrlsOf(datasets), "\n")
  }

  /** The id is the text after the URL's last '/': it holds no '/', it ends the URL, and it
      is the whole URL when there is no '/'. */
  lemma DatasetIdShape(url: string)
    ensures '/' !in DatasetId(url)
    ensures url == url[..|url| - |DatasetId(url)|] + DatasetId(url)
    ensures '/' !in url ==> DatasetId(url) == url
    ensures |url| > 0 && url[|url| - 1] == '/' ==> DatasetId(url) == ""
  {
    var id := DatasetId(url);
    assert url == url[..|url| - |id|] + url[|url| - |id|..];
    if '/' !in url {
      LastSegmentAt(url, '/', 0);
    }
  }

  /** A Socrata page URL `…/<slug>/<four-by-four>` yields that four-by-four as id. */
  lemma PageUrlGivesId(prefix: string, id: string)
    requires '/' !in id
    ensures DatasetId(prefix + "/" + id) == id
  {
    var url := prefix + "/" + id;
    assert url[|prefix| + 1..] == id;
    LastSegmentAt(url, '/', |prefix| + 1);
  }

  /** The export URL gives back the id it was built from: it is the text between the fixed
      prefix and the fixed suffix. */
  lemma ExportUrlRoundTrip(id: string)
    ensures var u := ExportUrl(id);
      |u| == |ExportPrefix| + |id| + |ExportSuffix| && u[|ExportPrefix|..|u| - |ExportSuffix|] == id
  {
  }

  /** Reading the URL list back line by line gives every dataset's export URL, in order, one
      line per dataset, provided there is a dataset and no URL contains a newline. */
  lemma UrlListLines(ds: seq<Dataset>)
    requires |ds| >= 1
    requires forall i :: 0 <= i < |ds| ==> HasUrl(ds[i]) && '\n' !in ds[i]["url"].s
    ensures AddDownloadUrls(ds).Success?
    ensures Split(UrlList(AddDownloadUrls(ds).value), '\n') == ExportUrls(ds)
  {
    AddDownloadUrlsSucceeds(ds);
    var urls := DownloadUrlsOf(AddDownloadUrls(ds).value);
    var want := ExportUrls(ds);
    forall i | 0 <= i < |ds| ensures urls[i] == want[i] && '\n' !in urls[i] {
      UrlListLine(ds, i);
    }
    assert urls == want;
    SplitJoin(urls, '\n');
  }

  /** The i-th line of the list file is the export URL of the i-th dataset. */
  lemma UrlListLine(ds: seq<Dataset>, i: int)
    requires 0 <= i < |ds|
    requires forall j :: 0 <= j < |ds| ==> HasUrl(ds[j])
    requires HasUrl(ds[i]) && '\n' !in ds[i]["url"].s
    ensures AddDownloadUrls(ds).Success?
    ensures DownloadUrlOf(AddDownloadUrls(ds).value[i]) == ExportUrl(DatasetId(ds[i]["url"].s))
    ensures '\n' !in ExportUrl(DatasetId(ds[i]["url"].s))
  {
    AddDownloadUrlsSucceeds(ds);
    AddDownloadUrlsAt(ds, i);
    LastSegmentSuffixChars(ds[i]["url"].s, '/', '\n');
    ExportUrlHasNoNewline(DatasetId(ds[i]["url"].s));
  }

  /** The export URL of every dataset, in order. */
  function ExportUrls(ds: seq<Dataset>): (r: seq<string>)
    requires forall i :: 0 <= i < |ds| ==> HasUrl(ds[i])
    ensures |r| == |ds|
    ensures forall i :: 0 <= i < |ds| && HasUrl(ds[i]) ==> r[i] == ExportUrl(DatasetId(ds[i]["url"].s))
  {
    seq(|ds|, i requires 0 <= i < |ds| && HasUrl(ds[i]) => ExportUrl(DatasetId(ds[i]["url"].s)))
  }

  lemma ExportUrlHasNoNewline(id: string)
    requires '\n' !in id
    ensures '\n' !in ExportUrl(id)
  {
  }

  lemma LastSegmentSuffixChars(s: string, c: char, d: char)
    requires d !in s
    ensures d !in LastSegment(s, c)
  {
    var r := LastSegment(s, c);
    assert r == s[|s| - |r|..];
  }
}
