/** The text-assembly side of `TextractClient` (python_scraper/scraper/utils/textract.py):
    turning a DetectDocumentText answer into plain text, joining the pages of a PDF, choosing
    between the PDF and the single-image route, and the constructor's credential check.
    The OCR service and base64 decoding are the parameter `detect`; `pdf_to_base64_pngs` is
    the parameter `pdfToPngs`. */
module Textract {
  import opened Results
  import opened Text
  import opened Seqs

  /** One entry of the response's `Blocks` list. */
  datatype Block = Block(blockType: string, text: string)

  /** The OCR call on one base64 image: the blocks it returns, or the exception it raises. */
  type Detector = string -> Result<seq<Block>, Error>

  /** The credentials the constructor hands to the AWS client. */
  datatype Credentials = Credentials(accessKeyId: string, secretAccessKey: string, regionName: string)

  const MissingCredentials := "Missing required AWS credentials for TextractClient"

  /** `TextractClient.__init__`: a missing (None) key id, secret key or region raises
      ValueError before any client is built; otherwise `boto3.client` is built from the three
      values, and `clientError` is what that construction raises, if anything (a malformed
      region, for one). The encryption key is accepted whatever it is. */
  function NewTextractClient(accessKeyId: Option<string>, secretAccessKey: Option<string>,
                             regionName: Option<string>, encryptKey: Option<string>,
                             clientError: Option<Error>): (r: Result<Credentials, Error>)
    ensures r.Failure? <==> accessKeyId.None? || secretAccessKey.None? || regionName.None? || clientError.Some?
    ensures accessKeyId.None? || secretAccessKey.None? || regionName.None? ==>
      r == Failure(ValueError(MissingCredentials))
    ensures accessKeyId.Some? && secretAccessKey.Some? && regionName.Some? && clientError.Some? ==>
      r == Failure(clientError.value)
    ensures r.Success? ==> r.value == Credentials(accessKeyId.value, secretAccessKey.value, regionName.value)
  {
    if accessKeyId.None? || secretAccessKey.None? || regionName.None? then
      Failure(ValueError(MissingCredentials))
    else if clientError.Some? then
      Failure(clientError.value)
    else
      Success(Credentials(accessKeyId.value, secretAccessKey.value, regionName.value))
  }

  // ---------------------------------------------------------------------------------------
  // _process_detected_text_response

  predicate IsWord(b: Block) { b.blockType == "WORD" }
  predicate IsLine(b: Block) { b.blockType == "LINE" }

  /** What one block appends to the running text. */
  function Contribution(b: Block): string {
    if IsWord(b) then b.text + " "
    else if IsLine(b) then "\n"
    else ""
  }

  /** The running text once every block has been visited, before the final strip. */
  function Assemble(blocks: seq<Block>): string {
    if blocks == [] then "" else Contribution(blocks[0]) + Assemble(blocks[1..])
  }

  lemma {:induction false} AssembleAppend(a: seq<Block>, b: seq<Block>)
    ensures Assemble(a + b) == Assemble(a) + Assemble(b)
  {
    if a == [] {
      assert a + b == b;
    } else {
      AssembleAppend(a[1..], b);
      assert (a + b)[0] == a[0];
      assert (a + b)[1..] == a[1..] + b;
      AppendAssoc(Contribution(a[0]), Assemble(a[1..]), Assemble(b));
    }
  }

  lemma AssemblePrefixStep(blocks: seq<Block>, i: nat)
    requires i < |blocks|
    ensures Assemble(blocks[..i + 1]) == Assemble(blocks[..i]) + Contribution(blocks[i])
  {
    AssembleAppend(blocks[..i], [blocks[i]]);
    assert blocks[..i + 1] == blocks[..i] + [blocks[i]];
  }

  lemma AssembleCons(b: Block, rest: seq<Block>)
    ensures Assemble([b] + rest) == Contribution(b) + Assemble(rest)
  {
    assert ([b] + rest)[1..] == rest;
  }

  /** The loop over the blocks, then `strip()`. */
  method ProcessDetectedTextResponse(blocks: seq<Block>) returns (text: string)
    ensures text == Strip(Assemble(blocks))
  {
    var acc := "";
    for i := 0 to |blocks|
      invariant acc == Assemble(blocks[..i])
    {
      var block := blocks[i];
      if block.blockType == "WORD" {
        acc := acc + block.text + " ";
      } else if block.blockType == "LINE" {
        acc := acc + "\n";
      }
      AssemblePrefixStep(blocks, i);
    }
    assert blocks[..|blocks|] == blocks;
    text := Strip(acc);
  }

  /** A WORD block puts its text and exactly one space at its own place in the output. */
  lemma WordInPlace(before: seq<Block>, b: Block, after: seq<Block>)
    requires IsWord(b)
    ensures Assemble(before + [b] + after) == Assemble(before) + b.text + " " + Assemble(after)
  {
    AssembleAppend(before + [b], after);
    AssembleAppend(before, [b]);
    AssembleCons(b, []);
    assert [b] + [] == [b];
    AppendAssoc(Assemble(before), b.text, " ");
  }

  /** A LINE block puts a single newline at its own place, whatever its text. */
  lemma LineInPlace(before: seq<Block>, b: Block, after: seq<Block>)
    requires IsLine(b)
    ensures Assemble(before + [b] + after) == Assemble(before) + "\n" + Assemble(after)
  {
    AssembleAppend(before + [b], after);
    AssembleAppend(before, [b]);
    assert !IsWord(b) by {
      assert b.blockType[0] == 'L';
    }
    AssembleCons(b, []);
    assert [b] + [] == [b];
  }

  /** Blocks of any other type add nothing: dropping them leaves the text unchanged. */
  lemma {:induction false} OtherBlocksIgnored(blocks: seq<Block>)
    ensures Assemble(Filter(b => IsWord(b) || IsLine(b), blocks)) == Assemble(blocks)
  {
    if blocks != [] {
      OtherBlocksIgnored(blocks[1..]);
      var p := b => IsWord(b) || IsLine(b);
      if p(blocks[0]) {
        AssembleCons(blocks[0], Filter(p, blocks[1..]));
      }
    }
  }

  /** Only the type of a LINE block matters, never its text: two block lists that agree on
      every type and on the text of every WORD give the same output. */
  lemma {:induction false} LineTextIgnored(a: seq<Block>, b: seq<Block>)
    requires |a| == |b|
    requires forall i :: 0 <= i < |a| ==> a[i].blockType == b[i].blockType
    requires forall i :: 0 <= i < |a| ==> IsWord(a[i]) ==> a[i].text == b[i].text
    ensures Assemble(a) == Assemble(b)
  {
    if a != [] {
      LineTextIgnored(a[1..], b[1..]);
    }
  }

  /** Characters contributed by WORD blocks: each text plus its space. */
  function WordBudget(blocks: seq<Block>): nat {
    if blocks == [] then 0
    else (if IsWord(blocks[0]) then |blocks[0].text| + 1 else 0) + WordBudget(blocks[1..])
  }

  function LineCount(blocks: seq<Block>): nat {
    if blocks == [] then 0 else (if IsLine(blocks[0]) then 1 else 0) + LineCount(blocks[1..])
  }

  lemma {:induction false} AssembleLength(blocks: seq<Block>)
    ensures |Assemble(blocks)| == WordBudget(blocks) + LineCount(blocks)
  {
    if blocks != [] {
      AssembleLength(blocks[1..]);
    }
  }

  /** The extracted text is never longer than the WORD texts with one space each plus one
      newline per LINE block. */
  lemma TextLengthBound(blocks: seq<Block>)
    ensures |Strip(Assemble(blocks))| <= WordBudget(blocks) + LineCount(blocks)
  {
    AssembleLength(blocks);
  }

  /** Without WORD blocks the running text is only newlines. */
  lemma {:induction false} NoWordsOnlyNewlines(blocks: seq<Block>)
    requires forall i :: 0 <= i < |blocks| ==> !IsWord(blocks[i])
    ensures AllSpace(Assemble(blocks))
  {
    if blocks != [] {
      NoWordsOnlyNewlines(blocks[1..]);
    }
  }

  /** A response with no WORD block yields the empty string. */
  lemma NoWordsGivesEmpty(blocks: seq<Block>)
    requires forall i :: 0 <= i < |blocks| ==> !IsWord(blocks[i])
    ensures Strip(Assemble(blocks)) == ""
  {
    NoWordsOnlyNewlines(blocks);
    StripOfSpaceIsEmpty(Assemble(blocks));
  }

  // ---------------------------------------------------------------------------------------
  // _extract_text_from_base64 and _extract_text_from_pdf_base64

  /** Text of one image: the OCR call, then the block assembly; an OCR failure is re-raised. */
  function ImageText(detect: Detector, image: string): Result<string, Error> {
    match detect(image)
    case Failure(e) => Failure(e)
    case Success(blocks) => Success(Strip(Assemble(blocks)))
  }

  method ExtractTextFromBase64(detect: Detector, image: string) returns (r: Result<string, Error>)
    ensures r == ImageText(detect, image)
  {
    var response := detect(image);
    if response.Failure? {
      return Failure(response.error);
    }
    var text := ProcessDetectedTextResponse(response.value);
    r := Success(text);
  }

  /** The OCR outcome of every page, in page order. */
  function PageResults(detect: Detector, pages: seq<string>): (rs: seq<Result<string, Error>>)
    ensures |rs| == |pages|
    ensures forall i :: 0 <= i < |pages| ==> rs[i] == ImageText(detect, pages[i])
  {
    seq(|pages|, i requires 0 <= i < |pages| => ImageText(detect, pages[i]))
  }

  /** What `_extract_text_from_pdf_base64` returns for a given page rendering: the page texts
      joined by newlines and stripped again. */
  function PdfText(detect: Detector, pages: Result<seq<string>, Error>): Result<string, Error> {
    match pages
    case Failure(e) => Failure(e)
    case Success(ps) =>
      match Collect(PageResults(detect, ps))
      case Failure(e) => Failure(e)
      case Success(ts) => Success(Strip(Join(ts, "\n")))
  }

  method ExtractTextFromPdfBase64(detect: Detector, pages: Result<seq<string>, Error>)
    returns (r: Result<string, Error>)
    ensures r == PdfText(detect, pages)
  {
    if pages.Failure? {
      return Failure(pages.error);
    }
    var pngs := pages.value;
    ghost var rs := PageResults(detect, pngs);
    var extracted: seq<string> := [];
    for i := 0 to |pngs|
      invariant Collect(rs[..i]) == Success(extracted)
    {
      var page := ExtractTextFromBase64(detect, pngs[i]);
      CollectPrefixStep(rs, i);
      if page.Failure? {
        return Failure(page.error);
      }
      extracted := extracted + [page.value];
    }
    assert rs[..|pngs|] == rs;
    r := Success(Strip(Join(extracted, "\n")));
  }

  lemma {:induction false} JoinTrimmed(parts: seq<string>)
    requires forall i :: 0 <= i < |parts| ==> parts[i] != [] && Strip(parts[i]) == parts[i]
    ensures var j := Join(parts, "\n"); j == [] || (!IsSpace(j[0]) && !IsSpace(j[|j| - 1]))
    ensures parts != [] ==> Join(parts, "\n") != []
  {
    if |parts| > 1 {
      JoinTrimmed(parts[1..]);
    }
  }

  /** When every page yields some text, the final strip changes nothing: the PDF text is
      exactly the page texts, in page order, separated by single newlines. */
  lemma PdfTextOfNonEmptyPages(detect: Detector, pages: seq<string>, texts: seq<string>)
    requires |texts| == |pages|
    requires forall i :: 0 <= i < |pages| ==> ImageText(detect, pages[i]) == Success(texts[i])
    requires forall i :: 0 <= i < |pages| ==> texts[i] != ""
    ensures PdfText(detect, Success(pages)) == Success(Join(texts, "\n"))
  {
    var rs := PageResults(detect, pages);
    assert Collect(rs).Success?;
    assert Collect(rs).value == texts;
    forall i | 0 <= i < |texts| ensures texts[i] != [] && Strip(texts[i]) == texts[i] {
      var blocks := detect(pages[i]).value;
      assert texts[i] == Strip(Assemble(blocks));
      StripIdempotent(Assemble(blocks));
    }
    JoinTrimmed(texts);
  }

  /** A failing page stops the PDF: the result is the error of the first failing page. */
  lemma FirstFailingPage(detect: Detector, pages: seq<string>, k: nat)
    requires k < |pages|
    requires forall i :: 0 <= i < k ==> detect(pages[i]).Success?
    requires detect(pages[k]).Failure?
    ensures PdfText(detect, Success(pages)) == Failure(detect(pages[k]).error)
  {
    CollectFirstFailure(PageResults(detect, pages), k);
  }

  // ---------------------------------------------------------------------------------------
  // transcribe

  /** The index of the last `c` in `s`, or -1 (Python's `str.rfind`). */
  function RFind(s: string, c: char): (k: int)
    ensures -1 <= k < |s|
    ensures k >= 0 ==> s[k] == c
    ensures forall i :: k < i < |s| ==> s[i] != c
    ensures c !in s ==> k == -1
  {
    if |s| == 0 then -1
    else if s[|s| - 1] == c then |s| - 1
    else RFind(s[..|s| - 1], c)
  }

  /** `os.path.splitext(p)[1]` on POSIX: from the last dot of the last path component to the
      end, unless the component has nothing but dots before that dot. */
  function SplitExt(p: string): (ext: string)
    ensures ext != "" ==> ext[0] == '.' && '.' !in ext[1..] && '/' !in ext && |ext| <= |p| && ext == p[|p| - |ext|..]
  {
    var sep := RFind(p, '/');
    var dot := RFind(p, '.');
    if dot > sep && exists k :: sep + 1 <= k < dot && p[k] != '.' then p[dot..] else ""
  }

  /** `transcribe` goes the PDF way exactly when the lowercased extension is ".pdf". */
  predicate TakesPdfRoute(filename: string) {
    Lower(SplitExt(filename)) == ".pdf"
  }

  method Transcribe(detect: Detector, pdfToPngs: string -> Result<seq<string>, Error>,
                    base64: string, filename: string) returns (r: Result<string, Error>)
    ensures TakesPdfRoute(filename) ==> r == PdfText(detect, pdfToPngs(base64))
    ensures !TakesPdfRoute(filename) ==> r == ImageText(detect, base64)
  {
    var extension := Lower(SplitExt(filename));
    if extension == ".pdf" {
      r := ExtractTextFromPdfBase64(detect, pdfToPngs(base64));
    } else {
      r := ExtractTextFromBase64(detect, base64);
    }
  }

  lemma {:induction false} RFindIsBeforeLastSegment(s: string, c: char)
    ensures RFind(s, c) == |s| - |LastSegment(s, c)| - 1
  {
    if |s| > 0 && s[|s| - 1] != c {
      RFindIsBeforeLastSegment(s[..|s| - 1], c);
    }
  }

  /** Searching a suffix finds the same last occurrence, shifted, if it holds one. */
  lemma {:induction false} RFindInSuffix(s: string, c: char, k: nat)
    requires k <= |s|
    ensures RFind(s[k..], c) >= 0 ==> RFind(s, c) == k + RFind(s[k..], c)
    ensures RFind(s[k..], c) < 0 ==> RFind(s, c) < k
  {
    if k < |s| && s[|s| - 1] != c {
      RFindInSuffix(s[..|s| - 1], c, k);
      assert s[k..][..|s| - k - 1] == s[..|s| - 1][k..];
    }
  }

  /** Only the last path component decides the extension: directory names never matter. */
  lemma ExtOfBaseName(filename: string)
    ensures SplitExt(filename) == SplitExt(LastSegment(filename, '/'))
  {
    var base := LastSegment(filename, '/');
    var off := |filename| - |base|;
    RFindIsBeforeLastSegment(filename, '/');
    RFindInSuffix(filename, '.', off);
    assert base == filename[off..];
    assert RFind(base, '/') == -1;
    if RFind(base, '.') >= 0 {
      ExtOfBaseNameWithDot(filename, base, off);
    }
  }

  lemma ExtOfBaseNameWithDot(filename: string, base: string, off: nat)
    requires off <= |filename| && base == filename[off..]
    requires RFind(filename, '/') == off - 1 && RFind(base, '/') == -1
    requires RFind(base, '.') >= 0
    requires RFind(filename, '.') == off + RFind(base, '.')
    ensures SplitExt(filename) == SplitExt(base)
  {
    var dotB := RFind(base, '.');
    var dotF := RFind(filename, '.');
    assert filename[dotF..] == base[dotB..];
    StemShift(filename, off, dotB);
  }

  lemma StemShift(f: string, off: nat, d: nat)
    requires off + d <= |f|
    ensures (exists k :: off <= k < off + d && f[k] != '.')
        <==> (exists k :: 0 <= k < d && f[off..][k] != '.')
  {
    if exists k :: off <= k < off + d && f[k] != '.' {
      var k :| off <= k < off + d && f[k] != '.';
      assert f[off..][k - off] == f[k];
    }
    if exists k :: 0 <= k < d && f[off..][k] != '.' {
      var k :| 0 <= k < d && f[off..][k] != '.';
      assert f[off + k] == f[off..][k];
    }
  }

  /** A base name takes the PDF route exactly when it ends in ".pdf" in any letter case and
      has a character other than a dot before that ending. */
  predicate PdfBaseName(base: string) {
    && |base| >= 5
    && Lower(base[|base| - 4..]) == ".pdf"
    && exists k :: 0 <= k < |base| - 4 && base[k] != '.'
  }

  lemma PdfRouteHasPdfName(base: string)
    requires '/' !in base
    requires TakesPdfRoute(base)
    ensures PdfBaseName(base)
  {
    var dot := RFind(base, '.');
    var ext := SplitExt(base);
    assert |ext| == 4 && ext == base[dot..];
    assert base[|base| - 4..] == ext;
  }

  lemma PdfNameTakesPdfRoute(base: string)
    requires '/' !in base
    requires PdfBaseName(base)
    ensures TakesPdfRoute(base)
  {
    var n := |base|;
    var tail := Lower(base[n - 4..]);
    assert base[n - 4] == '.' by {
      assert tail[0] == LowerChar(base[n - 4]);
    }
    assert base[n - 3] != '.' by { assert tail[1] == LowerChar(base[n - 3]); }
    assert base[n - 2] != '.' by { assert tail[2] == LowerChar(base[n - 2]); }
    assert base[n - 1] != '.' by { assert tail[3] == LowerChar(base[n - 1]); }
    var dot := RFind(base, '.');
    assert dot == n - 4;
    assert SplitExt(base) == base[n - 4..];
  }

  /** `transcribe` takes the PDF route exactly when the file's base name ends in ".pdf" in any
      letter case after at least one character that is not a dot. */
  lemma PdfRouteByName(filename: string)
    ensures TakesPdfRoute(filename) <==> PdfBaseName(LastSegment(filename, '/'))
  {
    var base := LastSegment(filename, '/');
    ExtOfBaseName(filename);
    if TakesPdfRoute(filename) {
      PdfRouteHasPdfName(base);
    }
    if PdfBaseName(base) {
      PdfNameTakesPdfRoute(base);
    }
  }
}
