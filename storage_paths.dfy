/** Title normalisation and file-path building in `SupabaseClient`
    (python_scraper/scraper/utils/supabase_client.py). The uuid4 value, the HTTP request
    and the storage upload are parameters. */
module StoragePaths {
  import opened Results
  import opened Text
  import FileTypes

  /** `title.lower().replace(" ", "_").replace("/", "_").replace(".", "_")` */
  function NormalizeTitle(title: string): string {
    ReplaceChar(ReplaceChar(ReplaceChar(Lower(title), ' ', '_'), '/', '_'), '.', '_')
  }

  predicate IsSeparator(c: char) { c == ' ' || c == '/' || c == '.' }

  /** The normalised title, character by character: the lowercased character, or '_' where
      that is a space, a slash or a dot. It has no space, slash or dot left. */
  lemma NormalizeTitleChars(title: string)
    ensures |NormalizeTitle(title)| == |title|
    ensures forall i :: 0 <= i < |title| ==>
      NormalizeTitle(title)[i] == if IsSeparator(LowerChar(title[i])) then '_' else LowerChar(title[i])
    ensures ' ' !in NormalizeTitle(title) && '/' !in NormalizeTitle(title) && '.' !in NormalizeTitle(title)
  {
  }

  /** Normalising twice gives the same result as normalising once. */
  lemma NormalizeTitleIdempotent(title: string)
    ensures NormalizeTitle(NormalizeTitle(title)) == NormalizeTitle(title)
  {
    var n := NormalizeTitle(title);
    NormalizeTitleChars(title);
    NormalizeTitleChars(n);
    forall i | 0 <= i < |n| ensures NormalizeTitle(n)[i] == n[i] {
      assert LowerChar(LowerChar(title[i])) == LowerChar(title[i]);
    }
  }

  /** `f"{folder_path}/{normalized_title}_{uuid}.{file_extension}"` */
  function StoragePath(folder: string, title: string, uuid: string, extension: string): string {
    folder + "/" + NormalizeTitle(title) + "_" + uuid + "." + extension
  }

  /** The path's last component is the normalised title, the uuid and the extension, so the
      folder never leaks into the file name; the text after the last dot is the extension. */
  lemma StoragePathParts(folder: string, title: string, uuid: string, extension: string)
    requires '/' !in uuid && '/' !in extension && '.' !in extension
    ensures LastSegment(StoragePath(folder, title, uuid, extension), '/')
         == NormalizeTitle(title) + "_" + uuid + "." + extension
    ensures LastSegment(StoragePath(folder, title, uuid, extension), '.') == extension
  {
    var path := StoragePath(folder, title, uuid, extension);
    var name := NormalizeTitle(title) + "_" + uuid + "." + extension;
    NormalizeTitleChars(title);
    assert path == folder + "/" + name;
    assert path[|folder| + 1..] == name;
    assert '/' !in name by {
      assert name == NormalizeTitle(title) + ("_" + uuid) + ("." + extension);
    }
    LastSegmentAt(path, '/', |folder| + 1);
    assert path[|path| - |extension|..] == extension;
    assert path[|path| - |extension| - 1] == '.';
    LastSegmentAt(path, '.', |path| - |extension|);
  }

  /** Two uploads of the same title in the same folder land on different paths exactly when
      their uuids differ. */
  lemma StoragePathSeparatesUuids(folder: string, title: string, u1: string, u2: string, extension: string)
    ensures StoragePath(folder, title, u1, extension) == StoragePath(folder, title, u2, extension) <==> u1 == u2
  {
    var p := folder + "/" + NormalizeTitle(title) + "_";
    assert StoragePath(folder, title, u1, extension) == p + u1 + ("." + extension);
    assert StoragePath(folder, title, u2, extension) == p + u2 + ("." + extension);
    if StoragePath(folder, title, u1, extension) == StoragePath(folder, title, u2, extension) {
      assert (p + u1 + ("." + extension))[|p|..|p| + |u1|] == u1;
      assert (p + u2 + ("." + extension))[|p|..|p| + |u2|] == u2;
    }
  }

  // ---------------------------------------------------------------------------------------
  // upload_csv_to_bucket and download_csv_to_local

  /** `upload_csv_to_bucket`: the built path, or the storage error wrapped with the bucket
      name. The extension is used as given. */
  function UploadCsvToBucket(bucket: string, fileContent: FileTypes.Bytes, folder: string,
                             extension: string, title: string, uuid: string,
                             uploadError: Option<string>): (r: Result<string, Error>)
    ensures uploadError.None? <==> r.Success?
    ensures r.Success? ==> r.value == StoragePath(folder, title, uuid, extension)
    ensures r.Failure? ==> r.error == Exception("Failed to upload CSV to bucket " + bucket + ": " + uploadError.value)
  {
    var fullPath := StoragePath(folder, title, uuid, extension);
    match uploadError
    case Some(e) => Failure(Exception("Failed to upload CSV to bucket " + bucket + ": " + e))
    case None => Success(fullPath)
  }

  const DownloadFailurePrefix := "Failed to download CSV to local: "

  /** The body of the `try` in `download_csv_to_local`, before its `except` wraps the error.
      `requestError` is what `requests.get` and `raise_for_status()` raise, if anything; the
      streamed body is read chunk by chunk while it is written, so `writeError` covers both. */
  function DownloadCsvSteps(url: string, folder: string, title: string, uuid: string,
                            requestError: Option<Error>, writeError: Option<string>): Result<string, Error>
  {
    if requestError.Some? then Failure(requestError.value)
    else
      var extension := Lower(Last(Split(url, '.')));
      if extension !in FileTypes.DataExtensions then Failure(ValueError("File must be a .csv or .xlsx file"))
      else if writeError.Some? then Failure(External(writeError.value))
      else Success(StoragePath(folder, title, uuid, extension))
  }

  /** `download_csv_to_local`: every failure comes back as an Exception whose text is the
      fixed prefix followed by the original error's text. */
  function DownloadCsvToLocal(url: string, folder: string, title: string, uuid: string,
                              requestError: Option<Error>, writeError: Option<string>): (r: Result<string, Error>)
    ensures r.Success? <==> requestError.None? && FileTypes.IsDataExtension(LastSegment(url, '.')) && writeError.None?
    ensures r.Success? ==> r.value == StoragePath(folder, title, uuid, Lower(LastSegment(url, '.')))
    ensures r.Failure? ==> r.error.Exception? && |r.error.message| >= |DownloadFailurePrefix|
                           && r.error.message[..|DownloadFailurePrefix|] == DownloadFailurePrefix
    ensures requestError.Some? ==> r == Failure(Exception(DownloadFailurePrefix + requestError.value.message))
    ensures requestError.None? && !FileTypes.IsDataExtension(LastSegment(url, '.')) ==>
      r == Failure(Exception(DownloadFailurePrefix + "File must be a .csv or .xlsx file"))
    ensures requestError.None? && FileTypes.IsDataExtension(LastSegment(url, '.')) && writeError.Some? ==>
      r == Failure(Exception(DownloadFailurePrefix + writeError.value))
  {
    LastOfSplit(url, '.');
    match DownloadCsvSteps(url, folder, title, uuid, requestError, writeError)
    case Failure(e) => Failure(Exception(DownloadFailurePrefix + e.message))
    case Success(path) => Success(path)
  }

  /** For one folder, title and uuid, a file uploaded with the extension that the download
      derives from its URL gets the same path the download would write to. */
  lemma UploadAndDownloadPathsAgree(bucket: string, content: FileTypes.Bytes, url: string,
                                    folder: string, title: string, uuid: string)
    requires FileTypes.IsDataExtension(LastSegment(url, '.'))
    ensures UploadCsvToBucket(bucket, content, folder, Lower(LastSegment(url, '.')), title, uuid, None)
         == DownloadCsvToLocal(url, folder, title, uuid, None, None)
  {
  }
}
