/**
 * The response composer: picks the status code from what the file system
 * says about the requested file, substitutes an error page, and appends the
 * status line, the header block and either the Content-length line of the
 * mapped file or a small HTML error body to the write buffer.
 *
 * stat, open and mmap are not modelled; a FileSystem map says, for each full
 * path, what stat reports, whether open and mmap succeed, and the int that
 * the first four bytes of a mapping hold.
 */
module RespondHttp {
  import opened Common
  import opened ByteBuffer

  /** The part of `struct stat` the responder reads. */
  datatype FileStat = FileStat(isDir: bool, othersReadable: bool, size: nat)

  /** What the file system answers for one full path: its status, whether
      open succeeds, whether mmap of a non-zero length succeeds, and the
      int read through the start of a mapping (the first four bytes, with
      the page's zero fill past the end of a shorter file). */
  datatype FileEntry = FileEntry(stat: FileStat, canOpen: bool, canMap: bool, head: int)

  /** Full path -> entry; a path that is absent makes stat and open fail. */
  type FileSystem = map<string, FileEntry>

  /** `m_fileStat = {0}`. */
  const ZeroStat: FileStat := FileStat(false, false, 0)

  /** SUFFIX_TYPE: the ".css" and ".js" types carry a trailing space. */
  const SuffixType: map<string, string> := map[
    ".html" := "text/html", ".xml" := "text/xml", ".xhtml" := "application/xhtml+xml",
    ".txt" := "text/plain", ".rtf" := "application/rtf", ".pdf" := "application/pdf",
    ".word" := "application/nsword", ".png" := "image/png", ".gif" := "image/gif",
    ".jpg" := "image/jpeg", ".jpeg" := "image/jpeg", ".au" := "audio/basic",
    ".mpeg" := "video/mpeg", ".mpg" := "video/mpeg", ".avi" := "video/x-msvideo",
    ".gz" := "application/x-gzip", ".tar" := "application/x-tar", ".css" := "text/css ",
    ".js" := "text/javascript "]

  /** CODE_STATUS. */
  const CodeStatus: map<int, string> := map[200 := "OK", 400 := "Bad Request", 403 := "Forbidden", 404 := "Not Found"]

  /** CODE_HTML_PATH. */
  const CodeHtmlPath: map<int, string> := map[400 := "/400.html", 403 := "/403.html", 404 := "/404.html"]

  const NotFoundMessage: string := "File NotFound!"

  // The fixed pieces of the reply text.
  const HttpVersion: string := "HTTP/1.1 "
  const Crlf: string := "\r\n"
  const ConnectionName: string := "Connection: "
  const KeepAliveValue: string := "keep-alive\r\n"
  const KeepAliveParams: string := "keep-alive: max=6, timeout=120\r\n"
  const CloseValue: string := "close\r\n"
  const ContentTypeName: string := "Content-type: "
  const PlainText: string := "text/plain"
  const ContentLengthName: string := "Content-length: "
  const HeaderEnd: string := "\r\n\r\n"
  const ErrorHead: string := "<html><title>Error</title>"
  const ErrorBodyTag: string := "<body bgcolor=\"ffffff\">"
  const ErrorTail: string := "<hr><em>MyWebServer</em></body></html>"

  // ---------------------------------------------------------------------
  // Status code and error page.

  /** The code Respond settles on before the error page is chosen. */
  function SelectCode(fs: FileSystem, full: string, code: int): (c: int)
  {
    if full !in fs || fs[full].stat.isDir then 404
    else if !fs[full].stat.othersReadable then 403
    else if code == -1 then 200
    else code
  }

  /** Respond's choice, case by case: a missing file or a directory is 404,
      an unreadable file 403, and otherwise -1 becomes 200 while any other
      code is kept. */
  lemma SelectCodeCases(fs: FileSystem, full: string, code: int)
    ensures SelectCode(fs, full, code) == 404 <==> full !in fs || fs[full].stat.isDir || (fs[full].stat.othersReadable && code == 404)
    ensures SelectCode(fs, full, code) == 403 <==> full in fs && !fs[full].stat.isDir && (!fs[full].stat.othersReadable || code == 403)
    ensures full in fs && !fs[full].stat.isDir && fs[full].stat.othersReadable ==>
      SelectCode(fs, full, code) == if code == -1 then 200 else code
  {
  }

  /** What stat leaves in m_fileStat: the entry's stat, or the old value when stat fails. */
  function StatInto(fs: FileSystem, full: string, stat: FileStat): (s: FileStat)
    ensures full in fs ==> s == fs[full].stat
    ensures full !in fs ==> s == stat
  {
    if full in fs then fs[full].stat else stat
  }

  /** GetErrorHtml's path: the error page exactly for 400, 403 and 404. */
  function ErrorPagePath(code: int, path: string): (p: string)
    ensures code in CodeHtmlPath ==> p == CodeHtmlPath[code]
    ensures code !in CodeHtmlPath ==> p == path
  {
    if code in CodeHtmlPath then CodeHtmlPath[code] else path
  }

  /** Only 400, 403 and 404 have an error page. */
  lemma ErrorPageOnlyForErrors(code: int, path: string)
    ensures ErrorPagePath(code, path) != path ==> code == 400 || code == 403 || code == 404
  {
  }

  /** Each error page is named after its code. */
  lemma ErrorPageNamedAfterCode(code: int, path: string)
    requires code == 400 || code == 403 || code == 404
    ensures ErrorPagePath(code, path) == "/" + NatToString(code) + ".html"
  {
    ThreeDigits(code);
  }

  // ---------------------------------------------------------------------
  // Status line.

  /** WriteReponseLine's coercion: a code without a reason phrase becomes 400. */
  function StatusCode(code: int): (c: int)
    ensures c in CodeStatus
    ensures code in CodeStatus ==> c == code
    ensures code !in CodeStatus ==> c == 400
  {
    if code in CodeStatus then code else 400
  }

  /** "HTTP/1.1 <code> <reason>\r\n" for a code with a reason phrase. */
  function StatusLine(code: int): (s: string)
    requires code in CodeStatus
  {
    HttpVersion + IntToString(code) + " " + CodeStatus[code] + Crlf
  }

  /** The status line is "HTTP/1.1 ", three digits that read back as the
      code, a space, the reason phrase and CRLF. */
  lemma StatusLineReadsBack(code: int)
    requires code in CodeStatus
    ensures var s := StatusLine(code);
      && |s| == 15 + |CodeStatus[code]|
      && s[..9] == "HTTP/1.1 "
      && (forall k :: 9 <= k < 12 ==> IsDigit(s[k]))
      && DecimalValue(s[9..12]) == code
      && s[12] == ' ' && s[13..|s| - 2] == CodeStatus[code] && s[|s| - 2..] == "\r\n"
  {
    var d := NatToString(code);
    ThreeDigits(code);
    var s := StatusLine(code);
    assert s == "HTTP/1.1 " + d + " " + CodeStatus[code] + "\r\n";
    assert s[9..12] == d;
    DecimalRoundTrip(code);
  }

  // ---------------------------------------------------------------------
  // Header block.

  /** Position of the last c in s (std::string::find_last_of with one char). */
  function LastIndexOf(s: string, c: char): (r: Option<nat>)
    ensures r.Some? ==> r.value < |s| && s[r.value] == c && forall k :: r.value < k < |s| ==> s[k] != c
    ensures r.None? ==> forall k :: 0 <= k < |s| ==> s[k] != c
  {
    if |s| == 0 then None
    else if s[|s| - 1] == c then Some(|s| - 1)
    else LastIndexOf(s[..|s| - 1], c)
  }

  /** GetFileType: the type of the suffix from the last '.', or "text/plain". */
  function FileType(path: string): (t: string)
  {
    match LastIndexOf(path, '.')
    case None => PlainText
    case Some(i) => if path[i..] in SuffixType then SuffixType[path[i..]] else PlainText
  }

  /** A path ending in a known suffix (whatever comes before it) gets that
      suffix's type, and every type is a SUFFIX_TYPE value or "text/plain". */
  lemma FileTypeOfSuffix(name: string, suffix: string)
    requires suffix in SuffixType
    ensures FileType(name + suffix) == SuffixType[suffix]
    ensures FileType(name) in SuffixType.Values + {"text/plain"}
  {
    var p := name + suffix;
    assert suffix[0] == '.' && forall k :: 0 < k < |suffix| ==> suffix[k] != '.';
    var i := LastIndexOf(p, '.');
    assert p[|name|] == '.';
    assert i.Some? && i.value == |name|;
    assert p[|name|..] == suffix;
  }

  /** A path without '.' is plain text. */
  lemma FileTypeWithoutDot(path: string)
    requires forall k :: 0 <= k < |path| ==> path[k] != '.'
    ensures FileType(path) == "text/plain"
  {
  }

  /** WriteResponseHeader's Connection line, and for keep-alive its parameters. */
  function ConnectionLines(keepAlive: bool): (s: string)
  {
    if keepAlive then ConnectionName + KeepAliveValue + KeepAliveParams
    else ConnectionName + CloseValue
  }

  function ContentTypeLine(path: string): (s: string)
  {
    ContentTypeName + FileType(path) + Crlf
  }

  /** WriteResponseHeader: the Connection line(s) and the Content-type line. */
  function HeaderBlock(keepAlive: bool, path: string): (s: string)
  {
    ConnectionLines(keepAlive) + ContentTypeLine(path)
  }

  // ---------------------------------------------------------------------
  // Bodies.

  /** The reason phrase WriteErrorContent prints; "Bad Request" for a code without one. */
  function ErrorStatus(code: int): (s: string)
    ensures code in CodeStatus ==> s == CodeStatus[code]
    ensures code !in CodeStatus ==> s == "Bad Request"
  {
    if code in CodeStatus then CodeStatus[code] else "Bad Request"
  }

  /** WriteErrorContent's HTML body, piece by piece as it is built. */
  function ErrorBody(code: int, message: string): (b: string)
  {
    ErrorHead + ErrorBodyTag
    + (IntToString(code) + " : " + ErrorStatus(code) + "\n")
    + ("<p>" + message + "</p>")
    + ErrorTail
  }

  /** "Content-length: N\r\n\r\n" for N bytes of content. */
  function ContentLength(n: nat): (s: string)
  {
    ContentLengthName + NatToString(n) + HeaderEnd
  }

  /** What WriteErrorContent appends. */
  function ErrorContent(code: int, message: string): (s: string)
  {
    ContentLength(|ErrorBody(code, message)|) + ErrorBody(code, message)
  }

  /** A Content-length line reads back as the number it was written for, and
      its digits end at the first CR. */
  lemma ContentLengthReadsBack(n: nat)
    ensures var s := ContentLength(n); var d := NatToString(n);
      && s[..16] == "Content-length: " && s[16..16 + |d|] == d
      && DecimalValue(s[16..16 + |d|]) == n
      && s[16 + |d|..] == "\r\n\r\n"
  {
    var s := ContentLength(n);
    var d := NatToString(n);
    assert s == "Content-length: " + d + "\r\n\r\n";
    assert s[16..16 + |d|] == d;
    DecimalRoundTrip(n);
  }

  /** The error content announces exactly the length of the body that follows it. */
  lemma ErrorContentAnnouncesBody(code: int, message: string)
    ensures var b := ErrorBody(code, message); var d := NatToString(|b|);
      && ErrorContent(code, message) == "Content-length: " + d + "\r\n\r\n" + b
      && DecimalValue(d) == |b|
  {
    DecimalRoundTrip(|ErrorBody(code, message)|);
  }

  /** What WriteReponseContent produces: the text appended, whether a file
      is mapped afterwards. */
  datatype Content = Content(text: string, mapped: bool)

  /** mmap of `size` bytes of the file: a length of 0 is refused (EINVAL),
      and otherwise the entry says whether the mapping is made. */
  predicate MapSucceeds(fs: FileSystem, full: string, size: nat)
    requires full in fs
  {
    size > 0 && fs[full].canMap
  }

  /** WriteReponseContent with mmap's result tested against MAP_FAILED:
      open, then mmap of m_fileStat.st_size bytes; on either failure the
      error content, otherwise the Content-length line. */
  function ContentFor(fs: FileSystem, full: string, stat: FileStat, code: int): (c: Content)
    ensures c.mapped ==> c.text == ContentLength(stat.size)
    ensures !c.mapped ==> c.text == ErrorContent(code, NotFoundMessage)
    ensures c.mapped <==> full in fs && fs[full].canOpen && MapSucceeds(fs, full, stat.size)
  {
    if full !in fs || !fs[full].canOpen then Content(ErrorContent(code, NotFoundMessage), false)
    else if !MapSucceeds(fs, full, stat.size) then Content(ErrorContent(code, NotFoundMessage), false)
    else Content(ContentLength(stat.size), true)
  }

  /** What WriteReponseContent does as written: it dereferences mmap's result
      (`*mmRet == -1`) instead of comparing it with MAP_FAILED. A failed mmap
      makes that read fault; a mapping whose first int is -1 gets the error
      content, and the mapping is leaked (m_file stays null). */
  datatype ContentAsWritten = Faults | Wrote(text: string, mapped: bool, leaked: bool)

  function ContentForAsWritten(fs: FileSystem, full: string, stat: FileStat, code: int): (c: ContentAsWritten)
  {
    if full !in fs || !fs[full].canOpen then Wrote(ErrorContent(code, NotFoundMessage), false, false)
    else if !MapSucceeds(fs, full, stat.size) then Faults
    else if fs[full].head == -1 then Wrote(ErrorContent(code, NotFoundMessage), false, true)
    else Wrote(ContentLength(stat.size), true, false)
  }

  /** The program as written against the corrected test: it faults exactly
      when an opened file fails to map, it leaks exactly a mapping that
      starts with the int -1, and in every other case it appends what the
      corrected test appends and maps the same. */
  lemma ContentAsWrittenAgrees(fs: FileSystem, full: string, stat: FileStat, code: int)
    ensures var w := ContentForAsWritten(fs, full, stat, code);
      var c := ContentFor(fs, full, stat, code);
      && (w.Faults? <==> full in fs && fs[full].canOpen && !MapSucceeds(fs, full, stat.size))
      && (w.Wrote? ==> (w.leaked <==> c.mapped && fs[full].head == -1))
      && (w.Wrote? && !w.leaked ==> w.text == c.text && w.mapped == c.mapped)
  {
  }

  /** A readable, empty file: mmap of length 0 fails and the program reads
      through MAP_FAILED, where the corrected test answers with the error
      content. */
  lemma EmptyFileFaults(fs: FileSystem, full: string, code: int)
    requires full in fs && fs[full].canOpen && fs[full].stat.size == 0
    ensures ContentForAsWritten(fs, full, fs[full].stat, code) == Faults
    ensures ContentFor(fs, full, fs[full].stat, code) == Content(ErrorContent(code, NotFoundMessage), false)
  {
  }

  /** A file that maps and starts with the bytes FF FF FF FF: the program
      says "File NotFound!" and keeps the mapping without recording it,
      where the corrected test serves the file. */
  lemma MinusOneHeadIsNotFound(fs: FileSystem, full: string, code: int)
    requires full in fs && fs[full].canOpen && fs[full].canMap && fs[full].stat.size > 0 && fs[full].head == -1
    ensures ContentForAsWritten(fs, full, fs[full].stat, code) == Wrote(ErrorContent(code, NotFoundMessage), false, true)
    ensures ContentFor(fs, full, fs[full].stat, code) == Content(ContentLength(fs[full].stat.size), true)
  {
  }

  // ---------------------------------------------------------------------
  // The whole of Respond as a value.

  datatype Reply = Reply(code: int, path: string, stat: FileStat, mapped: bool, text: string)

  /** Respond on fresh state (after Init and with no file mapped): every field
      it leaves and every byte it appends. */
  function Response(fs: FileSystem, srcDir: string, path: string, keepAlive: bool, code: int, stat: FileStat): (r: Reply)
  {
    var stat1 := StatInto(fs, srcDir + path, stat);
    var code1 := SelectCode(fs, srcDir + path, code);
    var path2 := ErrorPagePath(code1, path);
    var stat2 := if code1 in CodeHtmlPath then StatInto(fs, srcDir + path2, stat1) else stat1;
    var code3 := StatusCode(code1);
    var body := ContentFor(fs, srcDir + path2, stat2, code3);
    Reply(code3, path2, stat2, body.mapped, StatusLine(code3) + HeaderBlock(keepAlive, path2) + body.text)
  }

  /** The final code is one with a reason phrase, and the reply starts with its status line. */
  lemma RespondStartsWithStatusLine(fs: FileSystem, srcDir: string, path: string, keepAlive: bool, code: int, stat: FileStat)
    ensures var r := Response(fs, srcDir, path, keepAlive, code, stat);
      && r.code in {200, 400, 403, 404}
      && r.text[..|StatusLine(r.code)|] == StatusLine(r.code)
  {
    var r := Response(fs, srcDir, path, keepAlive, code, stat);
    var line := StatusLine(r.code);
    var more := HeaderBlock(keepAlive, r.path) + ContentFor(fs, srcDir + r.path, r.stat, r.code).text;
    ConcatAssoc(line, HeaderBlock(keepAlive, r.path), ContentFor(fs, srcDir + r.path, r.stat, r.code).text);
    PrefixOfConcat(line, more);
  }

  /** A missing file or a directory is served as 404 with the 404 page. */
  lemma RespondMissingIsNotFound(fs: FileSystem, srcDir: string, path: string, keepAlive: bool, code: int, stat: FileStat)
    requires srcDir + path !in fs || fs[srcDir + path].stat.isDir
    ensures Response(fs, srcDir, path, keepAlive, code, stat).code == 404
    ensures Response(fs, srcDir, path, keepAlive, code, stat).path == "/404.html"
  {
  }

  /** A request whose request line failed has the empty path, so stat looks
      at the document root itself: a directory, hence 404 and never the 400
      the caller asked for. */
  lemma RespondEmptyPathIsNotFound(fs: FileSystem, srcDir: string, keepAlive: bool, stat: FileStat)
    requires srcDir in fs && fs[srcDir].stat.isDir
    ensures Response(fs, srcDir, "", keepAlive, 400, stat).code == 404
  {
    assert srcDir + "" == srcDir;
  }

  /** A readable file on a fresh response (code -1) is served as 200 with
      its own path, and the file is mapped exactly when it opens and a
      mapping of its (non-zero) size is made. */
  lemma RespondReadableFile(fs: FileSystem, srcDir: string, path: string, keepAlive: bool, stat: FileStat)
    requires srcDir + path in fs && !fs[srcDir + path].stat.isDir && fs[srcDir + path].stat.othersReadable
    ensures var r := Response(fs, srcDir, path, keepAlive, -1, stat);
      && r.code == 200 && r.path == path && r.stat == fs[srcDir + path].stat
      && (r.mapped <==> fs[srcDir + path].canOpen && MapSucceeds(fs, srcDir + path, fs[srcDir + path].stat.size))
      && (r.mapped ==> r.text == StatusLine(200) + HeaderBlock(keepAlive, path) + ContentLength(fs[srcDir + path].stat.size))
  {
  }

  /** A file others may not read is served as 403 with the 403 page. */
  lemma RespondUnreadableIsForbidden(fs: FileSystem, srcDir: string, path: string, keepAlive: bool, code: int, stat: FileStat)
    requires srcDir + path in fs && !fs[srcDir + path].stat.isDir && !fs[srcDir + path].stat.othersReadable
    ensures Response(fs, srcDir, path, keepAlive, code, stat).code == 403
    ensures Response(fs, srcDir, path, keepAlive, code, stat).path == "/403.html"
  {
  }

  // ---------------------------------------------------------------------
  // The responder object.

  class HttpResponse {
    var code: int
    var isKeepAlive: bool
    var path: string
    var srcDir: string
    /** Whether m_file holds a mapping. */
    var mapped: bool
    var fileStat: FileStat

    constructor ()
      ensures code == -1 && path == "" && srcDir == "" && !isKeepAlive && !mapped && fileStat == ZeroStat
    {
      code, path, srcDir, isKeepAlive := -1, "", "", false;
      mapped, fileStat := false, ZeroStat;
    }

    /** Unmaps a mapped file; a second call does nothing. */
    method UnmapFile()
      modifies this
      ensures !mapped
      ensures code == old(code) && path == old(path) && srcDir == old(srcDir)
      ensures isKeepAlive == old(isKeepAlive) && fileStat == old(fileStat)
    {
      if mapped {
        mapped := false;
      }
    }

    /** Unmaps any previous file and resets code, keep-alive, path, root and stat. */
    method Init(srcDir': string, path': string, isKeepAlive': bool, code': int)
      requires srcDir' != ""
      modifies this
      ensures code == code' && isKeepAlive == isKeepAlive' && path == path' && srcDir == srcDir'
      ensures !mapped && fileStat == ZeroStat
    {
      if mapped {
        UnmapFile();
      }
      code, isKeepAlive, path, srcDir := code', isKeepAlive', path', srcDir';
      fileStat := ZeroStat;
    }

    /** GetErrorHtml: for 400, 403 and 404 the path becomes the error page and is stat'ed. */
    method GetErrorHtml(fs: FileSystem)
      modifies this
      ensures path == ErrorPagePath(code, old(path))
      ensures fileStat == if code in CodeHtmlPath then StatInto(fs, srcDir + path, old(fileStat)) else old(fileStat)
      ensures code == old(code) && srcDir == old(srcDir) && isKeepAlive == old(isKeepAlive) && mapped == old(mapped)
    {
      if code in CodeHtmlPath {
        path := CodeHtmlPath[code];
        if srcDir + path in fs {
          fileStat := fs[srcDir + path].stat;
        }
      }
    }

    method WriteResponseLine(buff: Buffer)
      requires buff.Valid()
      modifies this, buff
      ensures buff.Valid()
      ensures code == StatusCode(old(code))
      ensures buff.Contents() == old(buff.Contents()) + StatusLine(code)
      ensures path == old(path) && srcDir == old(srcDir) && isKeepAlive == old(isKeepAlive)
      ensures mapped == old(mapped) && fileStat == old(fileStat)
    {
      var status: string;
      if code in CodeStatus {
        status := CodeStatus[code];
      } else {
        code := 400;
        status := CodeStatus[code];
      }
      buff.Append(HttpVersion + IntToString(code) + " " + status + Crlf);
    }

    method WriteResponseHeader(buff: Buffer)
      requires buff.Valid()
      modifies buff
      ensures buff.Valid()
      ensures buff.Contents() == old(buff.Contents()) + HeaderBlock(isKeepAlive, path)
    {
      ghost var c0 := buff.Contents();
      buff.Append(ConnectionName);
      if isKeepAlive {
        buff.Append(KeepAliveValue);
        buff.Append(KeepAliveParams);
        ConcatAssoc3(c0, ConnectionName, KeepAliveValue, KeepAliveParams);
      } else {
        buff.Append(CloseValue);
        ConcatAssoc(c0, ConnectionName, CloseValue);
      }
      buff.Append(ContentTypeName + FileType(path) + Crlf);
      ConcatAssoc(c0, ConnectionLines(isKeepAlive), ContentTypeLine(path));
    }

    method WriteErrorContent(buff: Buffer, message: string)
      requires buff.Valid()
      modifies buff
      ensures buff.Valid()
      ensures buff.Contents() == old(buff.Contents()) + ErrorContent(code, message)
    {
      var body := ErrorBody(code, message);
      ghost var c0 := buff.Contents();
      buff.Append(ContentLengthName + NatToString(|body|) + HeaderEnd);
      buff.Append(body);
      ConcatAssoc(c0, ContentLength(|body|), body);
    }

    /** WriteReponseContent with mmap's result compared with MAP_FAILED
        (ContentFor); the program's own test is ContentForAsWritten. */
    method WriteResponseContent(buff: Buffer, fs: FileSystem)
      requires buff.Valid()
      modifies this, buff
      ensures buff.Valid()
      ensures var c := ContentFor(fs, srcDir + path, fileStat, code);
        buff.Contents() == old(buff.Contents()) + c.text && mapped == (old(mapped) || c.mapped)
      ensures code == old(code) && path == old(path) && srcDir == old(srcDir)
      ensures isKeepAlive == old(isKeepAlive) && fileStat == old(fileStat)
    {
      var full := srcDir + path;
      if full !in fs || !fs[full].canOpen {
        WriteErrorContent(buff, NotFoundMessage);
        return;
      }
      if fileStat.size == 0 || !fs[full].canMap {
        WriteErrorContent(buff, NotFoundMessage);
        return;
      }
      mapped := true;
      buff.Append(ContentLengthName + NatToString(fileStat.size) + HeaderEnd);
    }

    /** The last three steps of Respond: status line, header block and content. */
    method WriteReply(buff: Buffer, fs: FileSystem)
      requires buff.Valid()
      modifies this, buff
      ensures buff.Valid()
      ensures code == StatusCode(old(code)) && path == old(path) && srcDir == old(srcDir)
      ensures isKeepAlive == old(isKeepAlive) && fileStat == old(fileStat)
      ensures var c := ContentFor(fs, srcDir + path, fileStat, code);
        && mapped == (old(mapped) || c.mapped)
        && buff.Contents() == old(buff.Contents()) + (StatusLine(code) + HeaderBlock(isKeepAlive, path) + c.text)
    {
      ghost var b0 := buff.Contents();
      WriteResponseLine(buff);
      WriteResponseHeader(buff);
      WriteResponseContent(buff, fs);
      ConcatAssoc3(b0, StatusLine(code), HeaderBlock(isKeepAlive, path), ContentFor(fs, srcDir + path, fileStat, code).text);
    }

    /** The first step of Respond: stat the requested file and pick the code. */
    method StatRequested(fs: FileSystem)
      modifies this
      ensures code == SelectCode(fs, srcDir + path, old(code))
      ensures fileStat == StatInto(fs, srcDir + path, old(fileStat))
      ensures path == old(path) && srcDir == old(srcDir) && isKeepAlive == old(isKeepAlive) && mapped == old(mapped)
    {
      var full := srcDir + path;
      if full in fs {
        fileStat := fs[full].stat;
      }
      if full !in fs || fileStat.isDir {
        code := 404;
      } else if !fileStat.othersReadable {
        code := 403;
      } else if code == -1 {
        code := 200;
      }
    }

    /** Respond: the code from stat, the error page, then status line,
        header block and content appended to buff. */
    method Respond(buff: Buffer, fs: FileSystem)
      requires buff.Valid() && !mapped
      modifies this, buff
      ensures buff.Valid()
      ensures var r := Response(fs, old(srcDir), old(path), old(isKeepAlive), old(code), old(fileStat));
        && code == r.code && path == r.path && fileStat == r.stat && mapped == r.mapped
        && buff.Contents() == old(buff.Contents()) + r.text
      ensures srcDir == old(srcDir) && isKeepAlive == old(isKeepAlive)
    {
      StatRequested(fs);
      GetErrorHtml(fs);
      WriteReply(buff, fs);
    }

    function File(): bool
      reads this
    {
      mapped
    }

    function FileLen(): nat
      reads this
    {
      fileStat.size
    }

    function Code(): int
      reads this
    {
      code
    }
  }
}
