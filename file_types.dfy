/** The file-type checks of python_scraper/scraper/utils/utils.py: the image content object
    for the vision model, and the extension check of the two download helpers. The HTTP
    request (`requests.get` plus `raise_for_status`) and the later read of the streamed body are
    parameters. */
module FileTypes {
  import opened Results
  import opened Text

  type Bytes = seq<bv8>

  datatype ImageUrl = ImageUrl(url: string, detail: string)

  /** `{"type": "image_url", "image_url": {...}}` */
  datatype ContentObject = ContentObject(kind: string, imageUrl: ImageUrl)

  const ImageExtensions: seq<string> := ["jpg", "jpeg", "png"]
  const DataExtensions: seq<string> := ["csv", "xlsx"]

  function DataUrl(extension: string, content: string): string {
    "data:image/" + extension + ";base64," + content
  }

  /** `get_content_objects`: exactly the three lower-case image extensions are accepted. */
  function GetContentObjects(fileContent: string, fileExtension: string): (r: Result<seq<ContentObject>, Error>)
    ensures r.Success? <==> fileExtension == "jpg" || fileExtension == "jpeg" || fileExtension == "png"
    ensures r.Success? ==> |r.value| == 1 && r.value[0].kind == "image_url" && r.value[0].imageUrl.detail == "high"
    ensures r.Success? ==> ParseDataUrl(r.value[0].imageUrl.url) == Some((fileExtension, fileContent))
    ensures r.Failure? ==> r.error == ValueError("Unsupported file type: " + fileExtension)
  {
    if fileExtension in ImageExtensions then
      DataUrlRoundTrip(fileExtension, fileContent);
      Success([ContentObject("image_url", ImageUrl(DataUrl(fileExtension, fileContent), "high"))])
    else
      Failure(ValueError("Unsupported file type: " + fileExtension))
  }

  /** Reads a `data:image/<ext>;base64,<content>` URL back into its extension and content,
      taking the extension to end at the first ';'. */
  function ParseDataUrl(url: string): Option<(string, string)> {
    var prefix := "data:image/";
    if |url| < |prefix| || url[..|prefix|] != prefix then None
    else
      var rest := url[|prefix|..];
      var k := FirstIndex(rest, ';');
      if k + 8 <= |rest| && rest[k..k + 8] == ";base64," then Some((rest[..k], rest[k + 8..]))
      else None
  }

  /** The index of the first `c` in `s`, or `|s|`. */
  function FirstIndex(s: string, c: char): (k: nat)
    ensures k <= |s|
    ensures c !in s[..k]
    ensures k < |s| ==> s[k] == c
  {
    if |s| == 0 || s[0] == c then 0
    else
      var k := FirstIndex(s[1..], c);
      assert s[..k + 1] == [s[0]] + s[1..][..k];
      1 + k
  }

  lemma {:induction false} FirstIndexAfter(a: string, b: string, c: char)
    requires c !in a && |b| > 0 && b[0] == c
    ensures FirstIndex(a + b, c) == |a|
  {
    if a == [] {
      assert a + b == b;
    } else {
      FirstIndexAfter(a[1..], b, c);
      assert (a + b)[1..] == a[1..] + b;
    }
  }

  /** The data URL gives back its extension and content, for an extension without ';'. */
  lemma DataUrlRoundTrip(extension: string, content: string)
    requires ';' !in extension
    ensures ParseDataUrl(DataUrl(extension, content)) == Some((extension, content))
  {
    var url := DataUrl(extension, content);
    var prefix := "data:image/";
    assert url[..|prefix|] == prefix;
    var rest := url[|prefix|..];
    assert rest == extension + (";base64," + content);
    FirstIndexAfter(extension, ";base64," + content, ';');
    assert rest[|extension|..|extension| + 8] == ";base64,";
    assert rest[..|extension|] == extension;
    assert rest[|extension| + 8..] == content;
  }

  // ---------------------------------------------------------------------------------------
  // download_file and download_file_to_local

  /** `url.split(".")[-1]`: the text after the URL's last dot. */
  function UrlExtension(url: string): (r: string)
    ensures r == LastSegment(url, '.')
  {
    LastOfSplit(url, '.');
    Last(Split(url, '.'))
  }

  predicate IsDataExtension(extension: string) {
    Lower(extension) in DataExtensions
  }

  /** `download_file`. `requestError` is what `requests.get(url, stream=True)` and
      `raise_for_status()` raise, if anything. With `stream=True` the body is only read when
      `response.content` is evaluated, after the extension check; `body` is the outcome of that
      read. On an accepted URL: the content and the extension as it is written in the URL;
      otherwise ValueError naming the lowercased extension, and the body is never read. */
  function DownloadFile(url: string, requestError: Option<Error>, body: Result<Bytes, Error>)
    : (r: Result<(Bytes, string), Error>)
    ensures requestError.Some? ==> r == Failure(requestError.value)
    ensures r.Success? <==> requestError.None? && IsDataExtension(LastSegment(url, '.')) && body.Success?
    ensures r.Success? ==> r.value == (body.value, LastSegment(url, '.'))
    ensures requestError.None? && !IsDataExtension(LastSegment(url, '.')) ==>
      r == Failure(ValueError("Unsupported file type: " + Lower(LastSegment(url, '.'))))
    ensures requestError.None? && IsDataExtension(LastSegment(url, '.')) && body.Failure? ==>
      r == Failure(body.error)
  {
    if requestError.Some? then Failure(requestError.value)
    else
      var segment := UrlExtension(url);
      var extension := Lower(segment);
      if !IsDataExtension(segment) then Failure(ValueError("Unsupported file type: " + extension))
      else
        match body
        case Failure(e) => Failure(e)
        case Success(content) => Success((content, segment))
  }

  /** A local file system: path to contents. */
  type Files = map<string, Bytes>

  /** `download_file_to_local`: the same check, then `open(save_path, "wb")` creates or empties
      the file before `response.content` is read and written into it; the lowercased extension
      is returned. A rejected URL writes nothing; a body read that fails leaves the file empty. */
  function DownloadFileToLocal(files: Files, url: string, savePath: string,
                               requestError: Option<Error>, body: Result<Bytes, Error>)
    : (r: (Result<(Bytes, string), Error>, Files))
    ensures requestError.Some? ==> r == (Failure(requestError.value), files)
    ensures r.0.Success? <==> requestError.None? && IsDataExtension(LastSegment(url, '.')) && body.Success?
    ensures r.0.Success? ==> r.0.value == (body.value, Lower(LastSegment(url, '.')))
    ensures r.0.Success? ==> r.1 == files[savePath := body.value]
    ensures requestError.None? && !IsDataExtension(LastSegment(url, '.')) ==>
      r == (Failure(ValueError("Unsupported file type: " + Lower(LastSegment(url, '.')))), files)
    ensures requestError.None? && IsDataExtension(LastSegment(url, '.')) && body.Failure? ==>
      r == (Failure(body.error), files[savePath := []])
  {
    if requestError.Some? then (Failure(requestError.value), files)
    else
      var segment := UrlExtension(url);
      var extension := Lower(segment);
      if !IsDataExtension(segment) then (Failure(ValueError("Unsupported file type: " + extension)), files)
      else
        match body
        case Failure(e) => (Failure(e), files[savePath := []])
        case Success(content) => (Success((content, extension)), files[savePath := content])
  }

  /** `download_file_to_local` writes to `savePath` and nowhere else: every other file keeps
      its contents, and no file appears besides `savePath`. */
  lemma DownloadFileToLocalTouchesOnlySavePath(files: Files, url: string, savePath: string,
                                               requestError: Option<Error>, body: Result<Bytes, Error>)
    ensures var after := DownloadFileToLocal(files, url, savePath, requestError, body).1;
      (forall path :: path in files && path != savePath ==> path in after && after[path] == files[path]) &&
      after.Keys <= files.Keys + {savePath}
  {
  }

  /** The two helpers accept the same URLs; `download_file` keeps the URL's letter case, while
      `download_file_to_local` returns the lowercased extension. */
  lemma DownloadHelpersAgree(files: Files, url: string, savePath: string,
                             requestError: Option<Error>, body: Result<Bytes, Error>)
    ensures DownloadFile(url, requestError, body).Success?
        <==> DownloadFileToLocal(files, url, savePath, requestError, body).0.Success?
    ensures DownloadFile(url, requestError, body).Success? ==>
      Lower(DownloadFile(url, requestError, body).value.1)
        == DownloadFileToLocal(files, url, savePath, requestError, body).0.value.1
    ensures DownloadFile(url, requestError, body).Failure? ==>
      DownloadFile(url, requestError, body) == DownloadFileToLocal(files, url, savePath, requestError, body).0
  {
  }

  /** An accepted URL ends in "csv" or "xlsx" in some letter case, right after its last dot
      (or is nothing but that word): anything after the extension, a query string for one,
      makes it rejected. */
  lemma AcceptedUrlEnding(url: string, content: Bytes)
    requires DownloadFile(url, None, Success(content)).Success?
    ensures (|url| >= 3 && Lower(url[|url| - 3..]) == "csv") || (|url| >= 4 && Lower(url[|url| - 4..]) == "xlsx")
    ensures url == LastSegment(url, '.') || url[|url| - |LastSegment(url, '.')| - 1] == '.'
  {
    var seg := LastSegment(url, '.');
    DataExtensionShape(seg);
    var n := |url| - |seg|;
    assert url[n..] == seg;
    if |seg| == |url| {
      assert url == url[n..];
    }
  }

  lemma DataExtensionShape(extension: string)
    requires IsDataExtension(extension)
    ensures (|extension| == 3 && Lower(extension) == "csv") || (|extension| == 4 && Lower(extension) == "xlsx")
  {
    assert |Lower(extension)| == |extension|;
  }

  /** A query string after the extension makes the URL rejected (`rows.csv?x=1` for one): the
      text after the last dot then holds a '?', which neither accepted extension does. */
  lemma QueryStringRejected(url: string, body: Result<Bytes, Error>)
    requires '?' in LastSegment(url, '.')
    ensures DownloadFile(url, None, body)
         == Failure(ValueError("Unsupported file type: " + Lower(LastSegment(url, '.'))))
  {
    DataExtensionLetters(LastSegment(url, '.'));
  }

  /** An accepted extension is made of letters only. */
  lemma DataExtensionLetters(extension: string)
    ensures IsDataExtension(extension) ==> forall i :: 0 <= i < |extension| ==> 'a' <= Lower(extension)[i] <= 'z'
    ensures IsDataExtension(extension) ==> '?' !in extension
  {
    if IsDataExtension(extension) {
      DataExtensionShape(extension);
      forall i | 0 <= i < |extension| ensures 'a' <= Lower(extension)[i] <= 'z' && extension[i] != '?' {
        assert Lower(extension)[i] == LowerChar(extension[i]);
      }
    }
  }
}
