// One client connection: its socket number, its two buffers, the request it
// parses, the response it prepares and the two-slot gather list (iovec)
// handed to writev. The kernel's answers to readv and writev are oracles.

module HttpConnection {
  import opened Common
  import opened ByteBuffer
  import opened ParseHttp
  import opened RespondHttp

  /** The class-wide (static) state shared by every connection: whether
      sockets are edge-triggered, the document root and the number of
      open connections. */
  class Shared {
    const isET: bool
    const srcDir: string
    var userCount: int

    /** The server fixes the trigger mode and the root once, at start-up. */
    constructor (isET': bool, srcDir': string)
      ensures isET == isET' && srcDir == srcDir' && userCount == 0
    {
      isET, srcDir, userCount := isET', srcDir', 0;
    }
  }

  // ---------------------------------------------------------------------
  // The gather list.

  /** m_iov[0] points into the write buffer, m_iov[1] into the mapped file;
      each base is an offset into the region it points at. */
  datatype Iov = Iov(base0: nat, len0: nat, base1: nat, len1: nat)

  /** The bytes pending in both slots, whatever the slot count. */
  function ToWrite(v: Iov): nat
  {
    v.len0 + v.len1
  }

  /** ToWriteBytes: the two lengths are added as size_t and returned as an
      `int`, so the count is exact below 2^31 bytes and wraps modulo 2^32
      beyond. */
  function WriteCount(v: Iov): (n: int)
    ensures -0x8000_0000 <= n < 0x8000_0000
    ensures ToWrite(v) < 0x8000_0000 ==> n == ToWrite(v)
  {
    Int32(SizeT(ToWrite(v)))
  }

  /** 2^31 pending bytes count as a negative number, 2^32 as none. */
  lemma WriteCountWraps(v: Iov)
    ensures ToWrite(v) == 0x8000_0000 ==> WriteCount(v) == -0x8000_0000
    ensures ToWrite(v) == 0x1_0000_0000 ==> WriteCount(v) == 0
  {
  }

  /** What writev is offered: the first `cnt` slots. */
  function Offered(v: Iov, cnt: int): (n: nat)
    ensures n <= ToWrite(v)
    ensures cnt >= 2 ==> n == ToWrite(v)
  {
    if cnt >= 2 then v.len0 + v.len1 else if cnt == 1 then v.len0 else 0
  }

  /** The kernel's answer to the k-th writev: results[k], never more than
      was offered; past the end of the oracle, -1 (EAGAIN). */
  function Accepted(results: seq<int>, k: nat, offered: nat): (len: int)
    ensures len <= offered
  {
    if k < |results| then (if results[k] > offered then offered else results[k]) else -1
  }

  /** The bookkeeping after writev accepted `len` bytes: a write that runs
      past slot 0 empties it and moves into slot 1, otherwise slot 0 moves
      forward. Either way exactly `len` bytes fewer remain. */
  function Advance(v: Iov, len: nat): (w: Iov)
    requires 0 < len <= ToWrite(v)
    ensures ToWrite(w) == ToWrite(v) - len
    ensures w.len0 <= v.len0
    ensures len <= v.len0 ==> w.len0 == v.len0 - len && w.base0 == v.base0 + len && w.base1 == v.base1 && w.len1 == v.len1
    ensures len > v.len0 ==> w.len0 == 0 && w.base1 == v.base1 + (len - v.len0)
  {
    if len > v.len0 then
      Iov(v.base0, 0, v.base1 + (len - v.len0), v.len1 - (len - v.len0))
    else
      Iov(v.base0 + len, v.len0 - len, v.base1, v.len1)
  }

  /** Threshold below which a level-triggered Write stops looping. */
  const LargeWrite: nat := 10240

  /** Why the write loop ended: a writev that sent nothing or failed, the
      "nothing left" test, or (level-triggered) little enough left. */
  datatype WriteStop = Failed | NothingLeft | Drained

  datatype WriteResult = WriteResult(len: int, stop: WriteStop, iov: Iov)

  /** The loop of Write from the k-th writev on. */
  function WriteLoop(v: Iov, cnt: int, results: seq<int>, k: nat, isET: bool): (o: WriteResult)
    decreases ToWrite(v)
    ensures o.stop == Failed <==> o.len <= 0
    ensures o.stop != NothingLeft
    ensures o.iov.len0 <= v.len0 && ToWrite(o.iov) <= ToWrite(v)
    ensures isET ==> o.stop == Failed
    ensures o.stop == Drained ==> !isET && WriteCount(o.iov) <= LargeWrite
  {
    var len := Accepted(results, k, Offered(v, cnt));
    if len <= 0 then WriteResult(len, Failed, v)
    else if ToWrite(v) == 0 then WriteResult(len, NothingLeft, v)
    else
      var w := Advance(v, len);
      if isET || WriteCount(w) > LargeWrite then WriteLoop(w, cnt, results, k + 1, isET)
      else WriteResult(len, Drained, w)
  }

  /** Level-triggered, a write that the kernel takes whole in one call ends
      the loop with nothing left and no error recorded. */
  lemma WriteAllAtOnce(v: Iov, cnt: int, results: seq<int>)
    requires cnt >= 2 && ToWrite(v) > 0 && |results| > 0 && results[0] >= ToWrite(v)
    ensures var o := WriteLoop(v, cnt, results, 0, false);
      o.stop == Drained && o.len == ToWrite(v) && ToWrite(o.iov) == 0 && o.iov.len0 == 0
  {
  }

  /** Edge-triggered, even a complete transfer goes on to one more writev,
      of nothing, which cannot send anything, so errno is always recorded. */
  lemma WriteEdgeTriggeredEndsOnEmptyWrite(v: Iov, cnt: int, results: seq<int>)
    requires cnt >= 2 && 0 < ToWrite(v) && |results| > 0 && results[0] >= ToWrite(v)
    ensures var o := WriteLoop(v, cnt, results, 0, true);
      o.stop == Failed && ToWrite(o.iov) == 0
  {
    var w := Advance(v, ToWrite(v));
    assert WriteLoop(v, cnt, results, 0, true) == WriteLoop(w, cnt, results, 1, true);
  }

  /** Level-triggered, the loop's test reads the wrapped count: with 2^31
      bytes still pending after a writev the count is negative, so the loop
      stops after that one call. */
  lemma HugeReplyStopsAfterOneWrite(n: nat)
    requires 0 < n
    ensures var o := WriteLoop(Iov(0, n, 0, 0x8000_0000), 2, [n], 0, false);
      o.stop == Drained && o.len == n && ToWrite(o.iov) == 0x8000_0000
  {
    assert Advance(Iov(0, n, 0, 0x8000_0000), n) == Iov(n, 0, 0, 0x8000_0000);
  }

  // ---------------------------------------------------------------------
  // The read loop.

  datatype ReadResult = ReadResult(len: int, delivered: string, failed: bool)

  /** What one readv takes of the bytes waiting on the socket: as many as fit
      in the buffer's writable span and the scratch area together. */
  function Taken(waiting: string, l: Layout): (t: string)
    requires l.Ok()
    ensures |t| <= ReadvRoom(l) && t <= waiting
    ensures |t| == |waiting| || |t| == ReadvRoom(l)
    ensures |waiting| <= ScratchSize ==> t == waiting
  {
    if |waiting| <= ReadvRoom(l) then waiting else waiting[..ReadvRoom(l)]
  }

  /** The loop of Read from the k-th readv on, with the read buffer laid out
      as l. arrivals[k] is what is waiting on the socket at that call, of
      which readv takes what fits; nothing waiting is the peer's end of
      stream (0) and running past the end of the oracle is EAGAIN (-1).
      Edge-triggered, the loop goes on until one of those; level-triggered
      it reads once. */
  function ReadLoop(arrivals: seq<string>, k: nat, isET: bool, l: Layout): (o: ReadResult)
    requires l.Ok()
    decreases |arrivals| - k
    ensures o.failed <==> o.len < 0
    ensures isET ==> o.len <= 0
    ensures !isET && k < |arrivals| ==> o.delivered == Taken(arrivals[k], l) && o.len == |o.delivered|
  {
    if k >= |arrivals| then ReadResult(-1, "", true)
    else if |arrivals[k]| == 0 then ReadResult(0, "", false)
    else
      var t := Taken(arrivals[k], l);
      if !isET then ReadResult(|t|, t, false)
      else
        var r := ReadLoop(arrivals, k + 1, isET, AfterReadv(l, |t|));
        ReadResult(r.len, t + r.delivered, r.failed)
  }

  /** Edge-triggered, when every readv finds something waiting and no more
      than the scratch area holds, everything waiting is delivered, in order,
      whatever the buffer's layout. */
  lemma {:induction false} ReadLoopDeliversAll(arrivals: seq<string>, k: nat, l: Layout)
    requires k <= |arrivals| && l.Ok()
    requires forall i :: k <= i < |arrivals| ==> 0 < |arrivals[i]| <= ScratchSize
    ensures ReadLoop(arrivals, k, true, l) == ReadResult(-1, Flatten(arrivals[k..]), true)
    decreases |arrivals| - k
  {
    if k < |arrivals| {
      ReadLoopDeliversAll(arrivals, k + 1, AfterReadv(l, |arrivals[k]|));
      assert arrivals[k..] == [arrivals[k]] + arrivals[k + 1..];
    }
  }

  /** A fresh 1024-byte buffer takes 66000 waiting bytes in one readv: 1024
      into its writable span and 64976 through the scratch area. */
  lemma LargeReadFitsOnce(waiting: string)
    requires |waiting| == 66000
    ensures ReadLoop([waiting], 0, false, Layout(DefaultSize, 0, 0)) == ReadResult(66000, waiting, false)
    ensures AfterReadv(Layout(DefaultSize, 0, 0), 66000) == Layout(66000, 0, 66000)
  {
  }

  function Flatten(chunks: seq<string>): string
  {
    if |chunks| == 0 then "" else chunks[0] + Flatten(chunks[1..])
  }

  // ---------------------------------------------------------------------
  // What Process prepares.

  /** The reply Process prepares for the request's path: code 200 and the
      given keep-alive flag when the request parsed, 400 and "close" when
      it did not. */
  function ProcessReply(fs: FileSystem, srcDir: string, path: string, parsed: bool, keepAlive: bool): (r: Reply)
  {
    Response(fs, srcDir, path, parsed && keepAlive, if parsed then 200 else 400, ZeroStat)
  }

  /** Every reply Process prepares starts with its status line, and its code
      is one of 200, 400, 403 and 404. */
  lemma ProcessReplyStatus(fs: FileSystem, srcDir: string, input: string, db: UserDb, keepAlive: bool)
    ensures var p := ParseResult(Initial, input, Interpret(db));
      var r := ProcessReply(fs, srcDir, p.req.path, p.ok, keepAlive);
      && r.code in {200, 400, 403, 404}
      && r.text[..|StatusLine(r.code)|] == StatusLine(r.code)
  {
    var p := ParseResult(Initial, input, Interpret(db));
    RespondStartsWithStatusLine(fs, srcDir, p.req.path, p.ok && keepAlive, if p.ok then 200 else 400, ZeroStat);
  }

  /** A malformed request line leaves the request empty, so the empty path
      makes the document root (a directory) the target: the client gets 404,
      not the 400 Process asked for. */
  lemma ProcessBadRequestIsNotFound(fs: FileSystem, srcDir: string, input: string, db: UserDb, keepAlive: bool)
    requires srcDir in fs && fs[srcDir].stat.isDir
    requires |input| > 0 && RequestLineParts(input[..FindCRLF(input)]).None?
    ensures var p := ParseResult(Initial, input, Interpret(db));
      ProcessReply(fs, srcDir, p.req.path, p.ok, keepAlive).code == 404
  {
    BadRequestLineLeavesRequestEmpty(Initial, input, db);
    RespondEmptyPathIsNotFound(fs, srcDir, false, ZeroStat);
  }

  lemma BadRequestLineLeavesRequestEmpty(r: Request, input: string, db: UserDb)
    requires r.state == RequestLine && |input| > 0 && RequestLineParts(input[..FindCRLF(input)]).None?
    ensures !ParseResult(r, input, Interpret(db)).ok && ParseResult(r, input, Interpret(db)).req == r
  {
    BadRequestLineFails(r, input, db);
    InterpretMovesPastRequestLine(db);
    ParseFailureChangesNothing(r, input, Interpret(db));
  }

  lemma BadRequestLineFails(r: Request, input: string, db: UserDb)
    requires r.state == RequestLine && |input| > 0 && RequestLineParts(input[..FindCRLF(input)]).None?
    ensures !ParseResult(r, input, Interpret(db)).ok
  {
    InterpretMovesPastRequestLine(db);
    InterpretRefusesOnlyBadRequestLines(db);
    ParseFailsOnlyOnRequestLine(r, input, Interpret(db));
  }

  // ---------------------------------------------------------------------
  // The connection object.

  class HttpConn {
    var fd: int
    var isClosed: bool
    var iovCnt: int
    var iov: Iov
    const readBuff: Buffer
    const writeBuff: Buffer
    const response: HttpResponse
    const request: HttpRequest
    const shared: Shared

    /** Two separate, well-formed buffers. */
    ghost predicate Valid()
      reads readBuff, writeBuff
    {
      readBuff != writeBuff && readBuff.Valid() && writeBuff.Valid()
    }

    /** Every object a connection's methods may change. */
    function Footprint(): set<object>
    {
      {this, readBuff, writeBuff, response, request}
    }

    /** A closed connection with no socket. The constructor does not set
        the gather list or the slot count; whatever they hold is given as
        iov' and iovCnt'. */
    constructor (shared': Shared, iov': Iov, iovCnt': int)
      ensures Valid() && fresh(Footprint())
      ensures shared == shared' && fd == -1 && isClosed
      ensures readBuff.Contents() == [] && writeBuff.Contents() == [] && request.View() == Initial
      ensures iov == iov' && iovCnt == iovCnt'
    {
      fd, isClosed := -1, true;
      iov, iovCnt := iov', iovCnt';
      readBuff := new Buffer();
      writeBuff := new Buffer();
      response := new HttpResponse();
      request := new HttpRequest();
      shared := shared';
    }

    /** Takes a new socket: counts the user, empties both buffers and opens. */
    method Init(sockFd: int)
      requires Valid() && sockFd > 0
      modifies this, readBuff, writeBuff, shared
      ensures Valid() && fd == sockFd && !isClosed
      ensures shared.userCount == old(shared.userCount) + 1
      ensures readBuff.Contents() == [] && writeBuff.Contents() == []
      ensures iov == old(iov) && iovCnt == old(iovCnt)
    {
      shared.userCount := shared.userCount + 1;
      fd := sockFd;
      writeBuff.RetrieveAll();
      readBuff.RetrieveAll();
      isClosed := false;
    }

    /** Unmaps the file; the first close of an open connection uncounts it,
        a second close changes nothing more. */
    method Close()
      modifies this, response, shared
      ensures isClosed && !response.mapped && fd == old(fd)
      ensures shared.userCount == if old(isClosed) then old(shared.userCount) else old(shared.userCount) - 1
      ensures iov == old(iov) && iovCnt == old(iovCnt)
    {
      response.UnmapFile();
      if !isClosed {
        isClosed := true;
        shared.userCount := shared.userCount - 1;
      }
    }

    function ToWriteBytes(): (n: int)
      reads this
      ensures n == WriteCount(iov)
      ensures ToWrite(iov) < 0x8000_0000 ==> n == ToWrite(iov)
    {
      Int32(SizeT(iov.len0 + iov.len1))
    }

    /** Reads until a readv delivers nothing or fails (edge-triggered), or
        once (level-triggered); everything delivered is appended. */
    method Read(arrivals: seq<string>, errno: int) returns (len: int, savedErrno: Option<int>)
      requires Valid()
      modifies readBuff
      ensures Valid()
      ensures var o := ReadLoop(arrivals, 0, shared.isET, old(readBuff.Shape()));
        && len == o.len
        && savedErrno == (if o.failed then Some(errno) else None)
        && readBuff.Contents() == old(readBuff.Contents()) + o.delivered
    {
      ghost var c0, l0 := readBuff.Contents(), readBuff.Shape();
      var isET := shared.isET;
      ghost var r0 := ReadLoop(arrivals, 0, isET, l0);
      var k: nat := 0;
      len, savedErrno := -1, None;
      while true
        invariant Valid() && k <= |arrivals| && isET == shared.isET
        invariant k == 0 || isET
        invariant c0 + r0.delivered == readBuff.Contents() + ReadLoop(arrivals, k, isET, readBuff.Shape()).delivered
        invariant ReadLoop(arrivals, k, isET, readBuff.Shape()).len == r0.len
        invariant ReadLoop(arrivals, k, isET, readBuff.Shape()).failed == r0.failed
        decreases |arrivals| - k
      {
        var chunk := if k < |arrivals| then Taken(arrivals[k], readBuff.Shape()) else "";
        var n := if k < |arrivals| then |chunk| else -1;
        ghost var before, l := readBuff.Contents(), readBuff.Shape();
        len, savedErrno := readBuff.ReadFd(n, chunk, errno);
        if len <= 0 {
          break;
        }
        ConcatAssoc(before, chunk, ReadLoop(arrivals, k + 1, isET, AfterReadv(l, n)).delivered);
        k := k + 1;
        if !isET {
          break;
        }
      }
    }

    /** The bookkeeping after writev sent `len` bytes: the gather list
        advances and the write buffer drops what slot 0 sent. */
    method Sent(len: nat)
      requires Valid() && iov.len0 == writeBuff.ReadableBytes() && 0 < len <= ToWrite(iov)
      modifies this, writeBuff
      ensures Valid()
      ensures fd == old(fd) && isClosed == old(isClosed) && iovCnt == old(iovCnt)
      ensures iov == Advance(old(iov), len) && iov.len0 == writeBuff.ReadableBytes()
      ensures writeBuff.Contents() == old(writeBuff.Contents())[old(iov.len0) - iov.len0..]
    {
      if len > iov.len0 {
        iov := iov.(base1 := iov.base1 + (len - iov.len0), len1 := iov.len1 - (len - iov.len0));
        if iov.len0 != 0 {
          writeBuff.RetrieveAll();
          iov := iov.(len0 := 0);
        }
      } else {
        iov := iov.(base0 := iov.base0 + len, len0 := iov.len0 - len);
        writeBuff.Retrieve(len);
      }
    }

    /** Writes from the gather list until writev sends nothing or fails
        (edge-triggered, or while more than LargeWrite bytes are left), and
        drops what was sent from the write buffer and the list. */
    method Write(results: seq<int>, errno: int) returns (len: int, savedErrno: Option<int>)
      requires Valid() && iov.len0 == writeBuff.ReadableBytes()
      modifies this, writeBuff
      ensures Valid()
      ensures fd == old(fd) && isClosed == old(isClosed) && iovCnt == old(iovCnt)
      ensures var o := WriteLoop(old(iov), iovCnt, results, 0, shared.isET);
        && len == o.len && iov == o.iov
        && savedErrno == (if o.stop == Failed then Some(errno) else None)
      ensures iov.len0 == writeBuff.ReadableBytes()
      ensures writeBuff.Contents() == old(writeBuff.Contents())[old(iov.len0) - iov.len0..]
    {
      var k: nat := 0;
      len, savedErrno := -1, None;
      while true
        invariant Valid()
        invariant fd == old(fd) && isClosed == old(isClosed) && iovCnt == old(iovCnt)
        invariant iov.len0 == writeBuff.ReadableBytes() && iov.len0 <= old(iov.len0)
        invariant writeBuff.Contents() == old(writeBuff.Contents())[old(iov.len0) - iov.len0..]
        invariant WriteLoop(iov, iovCnt, results, k, shared.isET) == WriteLoop(old(iov), iovCnt, results, 0, shared.isET)
        decreases ToWrite(iov)
      {
        ghost var v, c := iov, writeBuff.Contents();
        len := Accepted(results, k, Offered(iov, iovCnt));
        if len <= 0 {
          assert WriteLoop(v, iovCnt, results, k, shared.isET) == WriteResult(len, Failed, v);
          savedErrno := Some(errno);
          break;
        }
        if iov.len0 + iov.len1 == 0 {
          break;
        }
        Sent(len);
        assert WriteLoop(v, iovCnt, results, k, shared.isET)
          == if shared.isET || WriteCount(iov) > LargeWrite
             then WriteLoop(iov, iovCnt, results, k + 1, shared.isET)
             else WriteResult(len, Drained, iov);
        DropDrop(old(writeBuff.Contents()), old(iov.len0) - v.len0, v.len0 - iov.len0);
        k := k + 1;
        if !(shared.isET || ToWriteBytes() > LargeWrite) {
          break;
        }
      }
    }

    /** Reply r is in place: the response holds its code, path, stat and
        mapping and the keep-alive flag, the write buffer holds c0 followed by
        its text, and the gather list points at the buffer's readable bytes
        and, when a non-empty file is mapped, at the file (otherwise slot 1
        keeps v0's values). */
    ghost predicate Prepared(r: Reply, keepAlive: bool, c0: string, v0: Iov)
      reads this, response, writeBuff
      requires writeBuff.Valid()
    {
      && response.isKeepAlive == keepAlive
      && response.code == r.code && response.path == r.path && response.fileStat == r.stat
      && response.mapped == r.mapped
      && writeBuff.Contents() == c0 + r.text
      && iov.base0 == writeBuff.readIdx && iov.len0 == writeBuff.ReadableBytes()
      && if r.mapped && r.stat.size > 0
         then iovCnt == 2 && iov.base1 == 0 && iov.len1 == r.stat.size
         else iovCnt == 1 && iov.base1 == v0.base1 && iov.len1 == v0.len1
    }

    /** Initialises the response for `path` with the given keep-alive flag
        and code, lets it respond into the write buffer, and points the
        gather list at the reply. */
    method PrepareReply(fs: FileSystem, path: string, keepAlive: bool, code: int) returns (ghost r: Reply)
      requires Valid() && shared.srcDir != ""
      modifies this, response, writeBuff
      ensures Valid() && fd == old(fd) && isClosed == old(isClosed)
      ensures r == Response(fs, shared.srcDir, path, keepAlive, code, ZeroStat)
      ensures Prepared(r, keepAlive, old(writeBuff.Contents()), old(iov))
    {
      r := ReplyInto(fs, path, keepAlive, code);
      Gather();
    }

    /** PrepareReply's first half: the response, initialised for `path`,
        writes its reply into the write buffer. */
    method ReplyInto(fs: FileSystem, path: string, keepAlive: bool, code: int) returns (ghost r: Reply)
      requires Valid() && shared.srcDir != ""
      modifies response, writeBuff
      ensures Valid()
      ensures response.isKeepAlive == keepAlive
      ensures r == Response(fs, shared.srcDir, path, keepAlive, code, ZeroStat)
      ensures response.code == r.code && response.path == r.path && response.fileStat == r.stat
      ensures response.mapped == r.mapped
      ensures writeBuff.Contents() == old(writeBuff.Contents()) + r.text
    {
      response.Init(shared.srcDir, path, keepAlive, code);
      response.Respond(writeBuff, fs);
      r := Response(fs, shared.srcDir, path, keepAlive, code, ZeroStat);
    }

    /** Slot 0 takes the write buffer's readable bytes, slot 1 the mapped
        file if it is not empty (else slot 1 keeps its old values). */
    method Gather()
      requires Valid()
      modifies this
      ensures Valid() && fd == old(fd) && isClosed == old(isClosed)
      ensures iov.base0 == writeBuff.readIdx && iov.len0 == writeBuff.ReadableBytes()
      ensures if response.mapped && response.fileStat.size > 0
        then iovCnt == 2 && iov.base1 == 0 && iov.len1 == response.fileStat.size
        else iovCnt == 1 && iov.base1 == old(iov.base1) && iov.len1 == old(iov.len1)
    {
      iov := iov.(base0 := writeBuff.readIdx, len0 := writeBuff.ReadableBytes());
      iovCnt := 1;
      if response.FileLen() > 0 && response.File() {
        iov := iov.(base1 := 0, len1 := response.FileLen());
        iovCnt := 2;
      }
    }

    /** The first half of Process: empties the request and parses the
        readable bytes; nothing readable is no request. */
    method ReadRequest(db: UserDb) returns (ok: bool, parsed: bool)
      requires Valid()
      modifies request, readBuff
      ensures Valid()
      ensures ok <==> old(readBuff.ReadableBytes()) > 0
      ensures !ok ==> request.View() == Initial && readBuff.Contents() == old(readBuff.Contents())
      ensures ok ==> var p := ParseResult(Initial, old(readBuff.Contents()), Interpret(db));
        && parsed == p.ok && request.View() == p.req && readBuff.Contents() == p.rest
    {
      request.Init();
      if readBuff.ReadableBytes() <= 0 {
        return false, false;
      }
      parsed := request.Parse(readBuff, db);
      return true, parsed;
    }

    /** What Process leaves when the read buffer held c0, the write buffer
        w0 and the gather list (v0, n0): with nothing read the request is
        initial and nothing else changes; otherwise the request and the
        unread rest are what Parse makes of c0, and the reply to that
        request is prepared after w0.  The server's methods state it as
        `Processed(...) == true`, one fact that a caller takes over whole,
        rather than conjunct by conjunct. */
    ghost predicate Processed(c0: string, w0: string, v0: Iov, n0: int, fs: FileSystem, db: UserDb, keepAlive: bool)
      reads this, request, readBuff, writeBuff, response, shared
      requires Valid()
    {
      && (|c0| == 0 ==> (request.View() == Initial && readBuff.Contents() == c0
            && writeBuff.Contents() == w0 && iov == v0 && iovCnt == n0))
      && (|c0| > 0 ==> var p := ParseResult(Initial, c0, Interpret(db));
            && request.View() == p.req && readBuff.Contents() == p.rest
            && Prepared(ProcessReply(fs, shared.srcDir, p.req.path, p.ok, keepAlive), p.ok && keepAlive, w0, v0))
    }

    /** Parses what was read and prepares the reply; nothing readable is no
        request, and nothing is prepared. */
    method Process(fs: FileSystem, db: UserDb, keepAlive: bool) returns (ok: bool, ghost parsed: bool)
      requires Valid() && shared.srcDir != ""
      modifies this, request, response, readBuff, writeBuff
      ensures Valid() && fd == old(fd) && isClosed == old(isClosed)
      ensures ok <==> old(readBuff.ReadableBytes()) > 0
      ensures ok ==> parsed == ParseResult(Initial, old(readBuff.Contents()), Interpret(db)).ok
      ensures Processed(old(readBuff.Contents()), old(writeBuff.Contents()), old(iov), old(iovCnt), fs, db, keepAlive)
    {
      var accepted;
      ok, accepted := ReadRequest(db);
      parsed := accepted;
      if !ok {
        return;
      }
      Answer(fs, accepted, keepAlive);
    }

    /** The second half of Process: the reply to the parsed request, 200
        when it parsed and 400 otherwise, is prepared. */
    method Answer(fs: FileSystem, parsed: bool, keepAlive: bool)
      requires Valid() && shared.srcDir != ""
      modifies this, response, writeBuff
      ensures Valid() && fd == old(fd) && isClosed == old(isClosed)
      ensures Prepared(ProcessReply(fs, shared.srcDir, request.path, parsed, keepAlive), parsed && keepAlive,
                       old(writeBuff.Contents()), old(iov))
    {
      var r := PrepareReply(fs, request.path, parsed && keepAlive, if parsed then 200 else 400);
    }
  }
}
