// The reactor: the trigger-mode masks, the accept loop, the per-event
// dispatch and what the read and write tasks do with their outcomes. The
// epoll interest list is a map from socket to mask, the thread pool's queue
// a sequence of tasks, and accept, readv and writev are oracles.

module WebServer {
  import opened Common
  import opened ByteBuffer
  import opened HeapTimers
  import opened ParseHttp
  import opened RespondHttp
  import opened HttpConnection

  const EpollIn: bv32 := 0x001
  const EpollOut: bv32 := 0x004
  const EpollErr: bv32 := 0x008
  const EpollHup: bv32 := 0x010
  const EpollRdHup: bv32 := 0x2000
  const EpollOneShot: bv32 := 0x4000_0000
  const EpollEt: bv32 := 0x8000_0000

  /** Server::MAX_FD: the most connections served at once. */
  const MaxFd: int := 65536
  const EAgain: int := 11

  // ---------------------------------------------------------------------
  // Trigger modes.

  datatype Modes = Modes(listen: bv32, conn: bv32)

  /** InitEventMode: RDHUP on the listening socket, ONESHOT|RDHUP on
      connections, then ET added per mode, cases 2 and 3 falling through
      into the default. */
  function EventModes(trigMode: int): (m: Modes)
  {
    var listen := EpollRdHup;
    var conn := EpollOneShot | EpollRdHup;
    if trigMode == 0 then Modes(listen, conn)
    else if trigMode == 1 then Modes(listen, conn | EpollEt)
    else if trigMode == 2 then
      var l2 := listen | EpollEt;
      var l3, c3 := l2 | EpollEt, conn | EpollEt;
      Modes(l3 | EpollEt, c3 | EpollEt)
    else if trigMode == 3 then
      var l3, c3 := listen | EpollEt, conn | EpollEt;
      Modes(l3 | EpollEt, c3 | EpollEt)
    else Modes(listen | EpollEt, conn | EpollEt)
  }

  /** Whatever the mode, connections get one-shot and peer-hang-up
      reporting and the listening socket peer-hang-up reporting; mode 0 is
      level-triggered throughout, mode 1 edge-triggers connections only and
      every other mode edge-triggers both. Nothing else is ever set. */
  lemma EventModesShape(trigMode: int)
    ensures var m := EventModes(trigMode);
      && m.conn & (EpollOneShot | EpollRdHup) == EpollOneShot | EpollRdHup
      && m.listen & EpollRdHup == EpollRdHup
      && (m.conn & EpollEt != 0 <==> trigMode != 0)
      && (m.listen & EpollEt != 0 <==> trigMode != 0 && trigMode != 1)
      && m.conn & !(EpollOneShot | EpollRdHup | EpollEt) == 0
      && m.listen & !(EpollRdHup | EpollEt) == 0
  {
  }

  /** InitSocket's port check: only ports 1024 to 65535 are tried. */
  predicate PortAccepted(port: int)
  {
    !(port > 65535 || port < 1024)
  }

  // ---------------------------------------------------------------------
  // Event dispatch.

  datatype EventKind = Accept | Hangup | ReadReady | WriteReady | Unexpected

  /** Start's classification of one ready event. */
  function Classify(fd: int, listenFd: int, events: bv32): (k: EventKind)
  {
    if fd == listenFd then Accept
    else if events & (EpollRdHup | EpollHup | EpollErr) != 0 then Hangup
    else if events & EpollIn != 0 then ReadReady
    else if events & EpollOut != 0 then WriteReady
    else Unexpected
  }

  /** The listening socket always accepts; on a connection a hang-up or an
      error wins over input, input wins over output, and an event with none
      of these bits is only logged. */
  lemma ClassifyPriority(fd: int, listenFd: int, events: bv32)
    ensures Classify(listenFd, listenFd, events) == Accept
    ensures fd != listenFd ==> Classify(fd, listenFd, events | EpollHup) == Hangup
    ensures fd != listenFd ==> Classify(fd, listenFd, events | EpollErr) == Hangup
    ensures fd != listenFd ==> Classify(fd, listenFd, events | EpollRdHup) == Hangup
    ensures fd != listenFd ==> Classify(fd, listenFd, events | EpollIn) in {Hangup, ReadReady}
    ensures fd != listenFd && events & (EpollErr | EpollHup | EpollRdHup) == 0 ==>
      Classify(fd, listenFd, events | EpollIn) == ReadReady
    ensures Classify(fd, listenFd, events) == WriteReady ==> events & EpollOut != 0 && events & EpollIn == 0
    ensures Classify(fd, listenFd, events) == Unexpected <==>
      fd != listenFd && events & (EpollIn | EpollOut | EpollErr | EpollHup | EpollRdHup) == 0
  {
  }

  // ---------------------------------------------------------------------
  // The accept loop, as a plan.

  datatype ListenOutcome = ListenOutcome(added: seq<int>, refused: Option<int>)

  /** The outcome o after the sockets `added` were already added. */
  function After(added: seq<int>, o: ListenOutcome): ListenOutcome
  {
    ListenOutcome(added + o.added, o.refused)
  }

  /** ProcessListen from the k-th accept on, with `count` users: accept
      gives accepts[k], or -1 once they run out; a result <= 0 ends the
      loop, a full table refuses that socket and ends it, otherwise the
      socket is added and the loop goes on only when edge-triggered. */
  function ListenPlan(accepts: seq<int>, k: nat, count: int, et: bool): (o: ListenOutcome)
    decreases |accepts| - k
  {
    var connfd := if k < |accepts| then accepts[k] else -1;
    if connfd <= 0 then ListenOutcome([], None)
    else if count >= MaxFd then ListenOutcome([], Some(connfd))
    else if !et then ListenOutcome([connfd], None)
    else
      var rest := ListenPlan(accepts, k + 1, count + 1, et);
      ListenOutcome([connfd] + rest.added, rest.refused)
  }

  /** One turn of the accept loop: a positive socket that finds room is
      added, and the loop goes on from the next accept exactly when the
      listening socket is edge-triggered. */
  lemma ListenStep(accepts: seq<int>, k: nat, count: int, et: bool)
    requires k < |accepts| && accepts[k] > 0 && count < MaxFd
    ensures ListenPlan(accepts, k, count, et) ==
      if et then After([accepts[k]], ListenPlan(accepts, k + 1, count + 1, et))
      else ListenOutcome([accepts[k]], None)
  {
  }

  /** Edge-triggered, the accept loop takes the positive sockets
      accepts[j..k] while the table has room for each, and goes on from k. */
  lemma {:induction false} ListenRun(accepts: seq<int>, j: nat, k: nat, count: int)
    requires j <= k <= |accepts|
    requires forall i :: j <= i < k ==> accepts[i] > 0
    requires k > j ==> count + (k - j) <= MaxFd
    ensures ListenPlan(accepts, j, count, true) ==
      After(accepts[j..k], ListenPlan(accepts, k, count + (k - j), true))
    decreases k - j
  {
    if j < k {
      ListenRun(accepts, j + 1, k, count + 1);
      ListenStep(accepts, j, count, true);
      var o := ListenPlan(accepts, k, count + (k - j), true);
      assert accepts[j..k] == [accepts[j]] + accepts[j + 1..k];
      assert [accepts[j]] + (accepts[j + 1..k] + o.added) == accepts[j..k] + o.added;
    } else {
      assert accepts[j..k] == [];
      var o := ListenPlan(accepts, k, count, true);
      assert [] + o.added == o.added;
    }
  }

  /** How the accept loop ends after admitting accepts[..k]: accept fails,
      or the table is full and accepts[k] is refused, or (level-triggered)
      accepts[k] is admitted and the loop stops after that one turn. */
  lemma ListenStops(accepts: seq<int>, k: nat, count: int, et: bool)
    requires k <= |accepts| && (et || k == 0)
    requires forall i :: 0 <= i < k ==> accepts[i] > 0
    requires k > 0 ==> count + k <= MaxFd
    ensures k == |accepts| || accepts[k] <= 0 ==>
      ListenPlan(accepts, 0, count, et) == ListenOutcome(accepts[..k], None)
    ensures k < |accepts| && accepts[k] > 0 && count + k >= MaxFd ==>
      ListenPlan(accepts, 0, count, et) == ListenOutcome(accepts[..k], Some(accepts[k]))
    ensures k < |accepts| && accepts[k] > 0 && count + k < MaxFd && !et ==>
      ListenPlan(accepts, 0, count, et) == ListenOutcome(accepts[..k + 1], None)
  {
    assert accepts[0..k] == accepts[..k];
    assert accepts[..k] + [] == accepts[..k];
    if et {
      ListenRun(accepts, 0, k, count);
    } else if k < |accepts| {
      assert accepts[..k + 1] == [accepts[k]];
    }
  }

  /** The accept loop adds the sockets it is given, in order, from the k-th
      on, every one positive, and never more than the table holds. */
  lemma {:induction false} ListenPlanAddsInOrder(accepts: seq<int>, k: nat, count: int, et: bool)
    requires k <= |accepts|
    ensures var o := ListenPlan(accepts, k, count, et);
      && k + |o.added| <= |accepts|
      && o.added == accepts[k..k + |o.added|]
      && (forall i :: 0 <= i < |o.added| ==> o.added[i] > 0)
      && (|o.added| > 0 ==> count + |o.added| <= MaxFd)
    decreases |accepts| - k
  {
    var connfd := if k < |accepts| then accepts[k] else -1;
    if connfd > 0 && count < MaxFd && et {
      ListenPlanAddsInOrder(accepts, k + 1, count + 1, et);
    }
  }

  /** A socket is refused only when the table is already full at that
      point, and whatever the loop refused was accepted right after the
      sockets it added. */
  lemma {:induction false} ListenPlanRefusesOnlyWhenFull(accepts: seq<int>, k: nat, count: int, et: bool)
    requires k <= |accepts|
    ensures var o := ListenPlan(accepts, k, count, et);
      o.refused.Some? ==>
        && k + |o.added| < |accepts|
        && o.refused.value == accepts[k + |o.added|] > 0
        && count + |o.added| >= MaxFd
    decreases |accepts| - k
  {
    var connfd := if k < |accepts| then accepts[k] else -1;
    if connfd > 0 && count < MaxFd && et {
      ListenPlanRefusesOnlyWhenFull(accepts, k + 1, count + 1, et);
    }
  }

  /** A level-triggered listening socket accepts at most one connection per
      event; an edge-triggered one with room for all of them takes every
      socket it is given when all of them are positive. */
  lemma {:induction false} ListenPlanTriggerModes(accepts: seq<int>, k: nat, count: int)
    requires k <= |accepts|
    ensures |ListenPlan(accepts, k, count, false).added| <= 1
    ensures count + (|accepts| - k) <= MaxFd && (forall i :: k <= i < |accepts| ==> accepts[i] > 0) ==>
      ListenPlan(accepts, k, count, true) == ListenOutcome(accepts[k..], None)
    decreases |accepts| - k
  {
    if k < |accepts| && accepts[k] > 0 && count < MaxFd {
      ListenPlanTriggerModes(accepts, k + 1, count + 1);
      assert accepts[k..] == [accepts[k]] + accepts[k + 1..];
    }
  }

  // ---------------------------------------------------------------------
  // What the read and write tasks decide.

  /** Server::Read closes when readv returned nothing or failed with
      anything but EAGAIN (errno is 0 when nothing was recorded). */
  predicate ReadCloses(len: int, errno: int)
  {
    len <= 0 && errno != EAgain
  }

  /** The end of the peer's stream always closes; edge-triggered, a read
      closes exactly when it did not end on EAGAIN, and level-triggered a
      read that delivered something never closes. */
  lemma ReadOutcomes(arrivals: seq<string>, isET: bool, errno: int, l: Layout)
    requires l.Ok()
    ensures var o := ReadLoop(arrivals, 0, isET, l);
      var err := if o.failed then errno else 0;
      && (o.len == 0 ==> ReadCloses(o.len, err))
      && (isET ==> (ReadCloses(o.len, err) <==> !o.failed || errno != EAgain))
      && (!isET && |arrivals| > 0 && |arrivals[0]| > 0 ==> !ReadCloses(o.len, err))
  {
  }

  datatype WriteNext = KeepGoing | AwaitOutput | CloseIt

  /** Server::Write as written: with nothing left a keep-alive connection
      goes back to processing; with bytes left only a failed writev with
      EAGAIN waits for output; everything else closes. */
  function WriteDecisionAsWritten(left: int, ret: int, errno: int, keepAlive: bool): WriteNext
  {
    if left == 0 then (if keepAlive then KeepGoing else CloseIt)
    else if ret < 0 && errno == EAgain then AwaitOutput
    else CloseIt
  }

  /** The decision a partial write evidently calls for: with bytes left, a
      writev that made progress also waits for output. */
  function WriteDecision(left: int, ret: int, errno: int, keepAlive: bool): WriteNext
  {
    if left == 0 then (if keepAlive then KeepGoing else CloseIt)
    else if ret > 0 || (ret < 0 && errno == EAgain) then AwaitOutput
    else CloseIt
  }

  /** As written, a level-triggered writev that sends 60 of 100 bytes ends
      HttpConn::Write with 40 bytes still to send and no error, and the
      connection is closed with its reply cut short. */
  lemma PartialWriteClosesAsWritten()
    ensures var o := WriteLoop(Iov(0, 100, 0, 0), 1, [60], 0, false);
      && o.stop == Drained && o.len == 60 && ToWrite(o.iov) == 40
      && WriteDecisionAsWritten(WriteCount(o.iov), o.len, 0, true) == CloseIt
      && WriteDecision(WriteCount(o.iov), o.len, 0, true) == AwaitOutput
  {
    assert Advance(Iov(0, 100, 0, 0), 60) == Iov(60, 40, 0, 0);
  }

  /** With the corrected decision, and a reply below 2^31 bytes so that the
      int count is exact, a connection is closed with bytes still to send
      only after a writev that failed with something other than EAGAIN (or
      sent nothing), and a reply fully sent closes exactly when the
      connection is not kept alive. */
  lemma WriteNeverTruncates(v: Iov, cnt: int, results: seq<int>, isET: bool, errno: int, keepAlive: bool)
    requires ToWrite(v) < 0x8000_0000
    ensures var o := WriteLoop(v, cnt, results, 0, isET);
      var err := if o.stop == Failed then errno else 0;
      var d := WriteDecision(WriteCount(o.iov), o.len, err, keepAlive);
      && (d == CloseIt && ToWrite(o.iov) > 0 ==> o.stop == Failed && (o.len == 0 || errno != EAgain))
      && (ToWrite(o.iov) == 0 ==> (d == CloseIt <==> !keepAlive))
      && (o.stop == Drained && ToWrite(o.iov) > 0 ==> d == AwaitOutput)
  {
  }

  /** At exactly 2^32 pending bytes the int count is 0, so a kept-alive
      connection goes back to processing with its whole reply unsent, under
      either decision. */
  lemma FourGiBReplyLooksSent(v: Iov, ret: int, errno: int)
    requires ToWrite(v) == 0x1_0000_0000
    ensures WriteDecision(WriteCount(v), ret, errno, true) == KeepGoing
    ensures WriteDecisionAsWritten(WriteCount(v), ret, errno, true) == KeepGoing
  {
    WriteCountWraps(v);
  }

  /** A fresh connection's slot 1 keeps whatever the constructor left in it
      when the first reply has no mapped file. Level-triggered, a stale
      length above 10240 keeps the loop going once slot 0 is sent; the next
      writev is offered nothing, and the stale count then never lets the
      connection go back to processing. */
  lemma StaleSlotBlocksKeepAlive(b0: nat, n: nat, b1: nat, stale: nat, errno: int, keepAlive: bool)
    requires 0 < n && LargeWrite < stale < 0x8000_0000
    ensures var o := WriteLoop(Iov(b0, n, b1, stale), 1, [n], 0, false);
      && o.stop == Failed && o.len == -1 && o.iov == Iov(b0 + n, 0, b1, stale)
      && WriteDecision(WriteCount(o.iov), o.len, errno, keepAlive) == (if errno == EAgain then AwaitOutput else CloseIt)
  {
    var w := Advance(Iov(b0, n, b1, stale), n);
    assert w == Iov(b0 + n, 0, b1, stale);
    assert WriteLoop(Iov(b0, n, b1, stale), 1, [n], 0, false) == WriteLoop(w, 1, [n], 1, false);
  }

  /** Where the two decisions differ: only after a writev that made
      progress and left bytes behind. */
  lemma WriteDecisionsDiffer(left: int, ret: int, errno: int, keepAlive: bool)
    ensures WriteDecision(left, ret, errno, keepAlive) != WriteDecisionAsWritten(left, ret, errno, keepAlive)
      <==> left != 0 && ret > 0
    ensures WriteDecisionAsWritten(left, ret, errno, keepAlive) == CloseIt <==>
      (left == 0 && !keepAlive) || (left != 0 && !(ret < 0 && errno == EAgain))
  {
  }

  // ---------------------------------------------------------------------
  // The interest list (Epoller) and the task queue.

  /** epoll_ctl ADD: refused for a negative socket or one already listed. */
  function EpollAdd(m: map<int, bv32>, fd: int, mask: bv32): map<int, bv32>
  {
    if fd < 0 || fd in m then m else m[fd := mask]
  }

  /** epoll_ctl MOD: refused for a negative socket or one not listed. */
  function EpollMod(m: map<int, bv32>, fd: int, mask: bv32): map<int, bv32>
  {
    if fd < 0 || fd !in m then m else m[fd := mask]
  }

  /** epoll_ctl DEL. */
  function EpollDel(m: map<int, bv32>, fd: int): map<int, bv32>
  {
    m - {fd}
  }

  /** Whether a mask asks for edge-triggered reporting. */
  predicate EdgeTriggered(mask: bv32)
  {
    mask & EpollEt != 0
  }

  /** The mask a connection is re-armed with: the connection mask and
      output, or input. */
  function Rearm(connEvent: bv32, output: bool): bv32
  {
    connEvent | if output then EpollOut else EpollIn
  }

  /** EpollAdd for each socket of fds in turn. */
  function AddAll(m: map<int, bv32>, fds: seq<int>, mask: bv32): map<int, bv32>
  {
    if |fds| == 0 then m else EpollAdd(AddAll(m, fds[..|fds| - 1], mask), fds[|fds| - 1], mask)
  }

  /** Adding one more socket is one more EpollAdd. */
  lemma AddAllSnoc(m: map<int, bv32>, fds: seq<int>, fd: int, mask: bv32)
    ensures AddAll(m, fds + [fd], mask) == EpollAdd(AddAll(m, fds, mask), fd, mask)
  {
    assert (fds + [fd])[..|fds|] == fds;
  }

  /** Every positive socket added ends up listed, and nothing listed before
      changes its mask. */
  lemma {:induction false} AddAllLists(m: map<int, bv32>, fds: seq<int>, mask: bv32)
    requires forall i :: 0 <= i < |fds| ==> fds[i] > 0
    ensures forall fd :: fd in AddAll(m, fds, mask) <==> fd in m || fd in fds
    ensures forall fd :: fd in m ==> AddAll(m, fds, mask)[fd] == m[fd]
  {
    if |fds| > 0 {
      AddAllLists(m, fds[..|fds| - 1], mask);
      assert forall fd :: fd in fds <==> fd in fds[..|fds| - 1] || fd == fds[|fds| - 1];
    }
  }

  /** The timers ProcessListen arms: one per added socket, expiring at
      `expires`, whose callback closes that socket. */
  function ArmAll(e: map<int, TimerNode>, fds: seq<int>, expires: int): map<int, TimerNode>
  {
    if |fds| == 0 then e
    else
      var fd := fds[|fds| - 1];
      ArmAll(e, fds[..|fds| - 1], expires)[fd := TimerNode(fd, expires, fd)]
  }

  /** Arming one more socket sets one more timer. */
  lemma ArmAllSnoc(e: map<int, TimerNode>, fds: seq<int>, fd: int, expires: int)
    ensures ArmAll(e, fds + [fd], expires) == ArmAll(e, fds, expires)[fd := TimerNode(fd, expires, fd)]
  {
    assert (fds + [fd])[..|fds|] == fds;
  }

  /** Each added socket has its timer, and the others keep theirs. */
  lemma {:induction false} ArmAllArms(e: map<int, TimerNode>, fds: seq<int>, expires: int)
    ensures forall fd :: fd in ArmAll(e, fds, expires) <==> fd in e || fd in fds
    ensures forall i :: 0 <= i < |fds| ==> fds[i] in ArmAll(e, fds, expires) && ArmAll(e, fds, expires)[fds[i]] == TimerNode(fds[i], expires, fds[i])
    ensures forall fd :: fd in e && fd !in fds ==> ArmAll(e, fds, expires)[fd] == e[fd]
  {
    if |fds| > 0 {
      var init := fds[..|fds| - 1];
      ArmAllArms(e, init, expires);
      assert forall fd :: fd in fds <==> fd in init || fd == fds[|fds| - 1];
      forall i | 0 <= i < |fds|
        ensures fds[i] in ArmAll(e, fds, expires) && ArmAll(e, fds, expires)[fds[i]] == TimerNode(fds[i], expires, fds[i])
      {
        if i < |fds| - 1 {
          assert fds[i] == init[i];
        }
      }
    }
  }

  /** A table that changed only at fd, and kept the slot there if it had
      one, still holds every slot of u0 and every connection born since. */
  lemma SlotsKept(u0: map<int, HttpConn>, before: map<int, HttpConn>, after: map<int, HttpConn>, fd: int,
                  born0: set<object>, born1: set<object>)
    requires forall a :: a in u0 ==> a in before && before[a] == u0[a]
    requires forall a :: a in before && a !in u0 ==> before[a].Footprint() <= born0
    requires fd in after && after == before[fd := after[fd]]
    requires fd in before ==> after[fd] == before[fd]
    requires born0 <= born1 && (fd !in before ==> after[fd].Footprint() <= born1)
    ensures forall a :: a in u0 ==> after[a] == u0[a]
    ensures forall a :: a in after && a !in u0 ==> after[a].Footprint() <= born1
  {
  }

  /** What the accept loop starts from: the table, the interest list, the
      timers and the user count. */
  datatype Snapshot = Snapshot(users: map<int, HttpConn>, interest: map<int, bv32>,
                               entries: map<int, TimerNode>, heap: seq<TimerNode>,
                               ref: map<int, nat>, ordered: bool, count: int)

  /** The first k + 1 sockets are the first k and then the k-th. */
  lemma TakeOneMore(accepts: seq<int>, k: nat)
    requires k < |accepts|
    ensures accepts[..k] + [accepts[k]] == accepts[..k + 1]
  {
  }

  /** Every object of the table's connections. */
  ghost function ReprOf(users: map<int, HttpConn>): set<object>
  {
    set fd, o | fd in users && o in users[fd].Footprint() :: o
  }

  /** A slot's objects are the table's. */
  lemma ReprHas(users: map<int, HttpConn>, fd: int)
    requires fd in users
    ensures users[fd].Footprint() <= ReprOf(users)
  {
  }

  /** A slot of a table grown from u0 is one of u0's, or was born since. */
  lemma SlotOrigin(u0: map<int, HttpConn>, users: map<int, HttpConn>, born: set<object>, fd: int)
    requires forall a :: a in u0 ==> a in users && users[a] == u0[a]
    requires forall a :: a in users && a !in u0 ==> users[a].Footprint() <= born
    requires fd in users
    ensures users[fd].Footprint() <= ReprOf(u0) + born
  {
    if fd in u0 {
      assert users[fd] == u0[fd];
    }
  }

  /** What the thread pool is handed. */
  datatype Task = ReadTask(fd: int) | WriteTask(fd: int)

  // ---------------------------------------------------------------------
  // The server object.

  /** Two connections that share no object the server lets them change. */
  predicate Apart(c: HttpConn, d: HttpConn)
  {
    && c != d
    && c.readBuff != d.readBuff && c.readBuff != d.writeBuff
    && c.writeBuff != d.readBuff && c.writeBuff != d.writeBuff
  }

  /** No two slots share a connection or a buffer. */
  predicate Separate(users: map<int, HttpConn>)
  {
    forall a, b :: a in users && b in users && a != b ==> Apart(users[a], users[b])
  }

  class Server {
    const timeoutMs: int
    const listenEvent: bv32
    const connEvent: bv32
    const listenFd: int
    const timer: HeapTimer
    const shared: Shared
    /** What the gather list and the slot count of a newly made connection
        hold: HttpConn's constructor leaves them uninitialised. */
    const freshIov: Iov
    const freshIovCnt: int
    var isClosed: bool
    /** m_users: a slot, once made, stays for later sockets with its number. */
    var users: map<int, HttpConn>
    /** The epoll interest list. */
    var interest: map<int, bv32>
    /** The thread pool's queue. */
    var tasks: seq<Task>

    /** The connections and their buffers. */
    ghost function Conns(): set<object>
      reads this`users
    {
      (set fd | fd in users :: users[fd])
        + (set fd | fd in users :: users[fd].readBuff)
        + (set fd | fd in users :: users[fd].writeBuff)
    }

    /** Every object the connections' methods may change. */
    ghost function Repr(): set<object>
      reads this`users
    {
      ReprOf(users)
    }

    /** A well-formed timer, a non-empty document root, and one well-formed
        connection per slot, sharing the server's class-wide state and apart
        from every other. */
    ghost predicate Valid()
      reads this`users, timer, Conns()
    {
      && timer.Valid()
      && shared.srcDir != ""
      && (forall fd :: fd in users ==> users[fd].shared == shared && users[fd].Valid())
      && Separate(users)
    }

    /** Server::Server: the masks for the trigger mode, the document root
        under the working directory, no users, and (InitSocket) the
        listening socket registered for input when the port is accepted and
        the socket calls succeed, the server closed otherwise. */
    constructor (port: int, trigMode: int, timeoutMs': int, cwd: string, listenFd': int, socketOk: bool,
                 freshIov': Iov, freshIovCnt': int)
      ensures Valid() && timer.Ordered() && timer.Entries() == map[]
      ensures freshIov == freshIov' && freshIovCnt == freshIovCnt'
      ensures listenEvent == EventModes(trigMode).listen && connEvent == EventModes(trigMode).conn
      ensures shared.isET == EdgeTriggered(connEvent)
      ensures shared.srcDir == cwd + "/resources/" && shared.userCount == 0
      ensures timeoutMs == timeoutMs' && listenFd == listenFd'
      ensures users == map[] && tasks == []
      ensures isClosed <==> !(PortAccepted(port) && socketOk)
      ensures interest == if isClosed then map[] else map[listenFd := listenEvent | EpollIn]
    {
      var modes := EventModes(trigMode);
      timeoutMs := timeoutMs';
      listenEvent, connEvent := modes.listen, modes.conn;
      listenFd := listenFd';
      freshIov, freshIovCnt := freshIov', freshIovCnt';
      timer := new HeapTimer();
      shared := new Shared(EdgeTriggered(modes.conn), cwd + "/resources/");
      users, tasks := map[], [];
      var ready := PortAccepted(port) && socketOk;
      interest := if ready then map[listenFd' := modes.listen | EpollIn] else map[];
      isClosed := !ready;
    }

    /** m_users[fd]: the socket's slot, made (closed and empty) if it is
        not there yet. */
    method UserSlot(fd: int)
      requires Valid()
      modifies this
      ensures Valid() && fd in users && users == old(users)[fd := users[fd]]
      ensures fd in old(users) ==> users[fd] == old(users[fd])
      ensures fd !in old(users) ==> fresh(users[fd].Footprint())
      ensures fd !in old(users) ==> users[fd].iov == freshIov && users[fd].iovCnt == freshIovCnt
      ensures interest == old(interest) && isClosed == old(isClosed)
      ensures tasks == old(tasks)
      ensures forall a :: a != fd && old(Opened(a)) ==> Opened(a)
    {
      if fd !in users {
        var c := new HttpConn(shared, freshIov, freshIovCnt);
        users := users[fd := c];
      }
    }

    /** HttpConn::Init on the socket's slot. */
    method OpenSlot(fd: int)
      requires Valid() && fd in users && fd > 0
      modifies shared, users[fd].Footprint()
      ensures Valid() && users[fd].fd == fd
      ensures !users[fd].isClosed && users[fd].readBuff.Contents() == [] && users[fd].writeBuff.Contents() == []
      ensures shared.userCount == old(shared.userCount) + 1
      ensures forall a :: a != fd && old(Opened(a)) ==> Opened(a)
    {
      users[fd].Init(fd);
      forall a | a != fd && old(Opened(a))
        ensures Opened(a)
      {
        assert Apart(users[a], users[fd]);
      }
    }

    /** Arms the socket's timer when there is a timeout and lists the
        socket for input. */
    method Register(fd: int, now: int)
      requires Valid() && fd > 0
      modifies this, timer
      ensures Valid() && users == old(users)
      ensures interest == EpollAdd(old(interest), fd, Rearm(connEvent, false))
      ensures timeoutMs > 0 ==> timer.Entries() == old(timer.Entries())[fd := TimerNode(fd, now + timeoutMs, fd)]
      ensures timeoutMs <= 0 ==> timer.heap == old(timer.heap) && timer.ref == old(timer.ref)
      ensures old(timer.Ordered()) ==> timer.Ordered()
      ensures isClosed == old(isClosed) && tasks == old(tasks)
      ensures forall a :: a != fd && old(Opened(a)) ==> Opened(a)
    {
      if timeoutMs > 0 {
        timer.Add(fd, timeoutMs, fd, now);
      }
      interest := EpollAdd(interest, fd, Rearm(connEvent, false));
    }

    /** The socket's slot, made if need be, initialised for fd. */
    method OpenUser(fd: int)
      requires Valid() && fd > 0
      modifies this, shared, if fd in users then users[fd].Footprint() else {}
      ensures Valid()
      ensures fd in users && users == old(users)[fd := users[fd]]
      ensures fd in old(users) ==> users[fd] == old(users[fd])
      ensures fd !in old(users) ==> fresh(users[fd].Footprint())
      ensures users[fd].fd == fd && !users[fd].isClosed
      ensures users[fd].readBuff.Contents() == [] && users[fd].writeBuff.Contents() == []
      ensures shared.userCount == old(shared.userCount) + 1
      ensures interest == old(interest) && isClosed == old(isClosed) && tasks == old(tasks)
      ensures forall a :: a != fd && old(Opened(a)) ==> Opened(a)
    {
      UserSlot(fd);
      ghost var slots := users;
      OpenSlot(fd);
      assert users == slots;
    }

    /** Initialises the socket's slot (making it if need be), arms its timer
        when there is a timeout, and lists it for input. */
    method AddClient(fd: int, now: int)
      requires Valid() && fd > 0
      modifies this, shared, timer, if fd in users then users[fd].Footprint() else {}
      ensures Valid()
      ensures fd in users && users == old(users)[fd := users[fd]]
      ensures fd in old(users) ==> users[fd] == old(users[fd])
      ensures fd !in old(users) ==> fresh(users[fd].Footprint())
      ensures users[fd].fd == fd && !users[fd].isClosed
      ensures users[fd].readBuff.Contents() == [] && users[fd].writeBuff.Contents() == []
      ensures shared.userCount == old(shared.userCount) + 1
      ensures interest == EpollAdd(old(interest), fd, Rearm(connEvent, false))
      ensures timeoutMs > 0 ==> timer.Entries() == old(timer.Entries())[fd := TimerNode(fd, now + timeoutMs, fd)]
      ensures timeoutMs <= 0 ==> timer.heap == old(timer.heap) && timer.ref == old(timer.ref)
      ensures old(timer.Ordered()) ==> timer.Ordered()
      ensures isClosed == old(isClosed) && tasks == old(tasks)
      ensures Opened(fd) && forall a :: a != fd && old(Opened(a)) ==> Opened(a)
    {
      ghost var heap0, ref0 := timer.heap, timer.ref;
      OpenUser(fd);
      assert timer.heap == heap0 && timer.ref == ref0;
      ghost var slots := users;
      Register(fd, now);
      assert users == slots;
    }

    /** Takes the connection's own socket off the interest list and closes the
        connection. Its timer stays armed. */
    method CloseConn(fd: int)
      requires Valid() && fd in users
      modifies this, shared, users[fd], users[fd].response
      ensures Valid() && users == old(users)
      ensures interest == EpollDel(old(interest), users[fd].fd)
      ensures users[fd].isClosed && !users[fd].response.mapped
      ensures shared.userCount == if old(users[fd].isClosed) then old(shared.userCount) else old(shared.userCount) - 1
      ensures isClosed == old(isClosed) && tasks == old(tasks)
    {
      interest := EpollDel(interest, users[fd].fd);
      users[fd].Close();
    }

    /** With a timeout, pushes the connection's timer to timeoutMs after
        now; without one, leaves the timer alone. */
    method ResetTime(fd: int, now: int)
      requires Valid() && fd in users && (timeoutMs > 0 ==> users[fd].fd in timer.Entries())
      modifies timer
      ensures Valid()
      ensures timeoutMs > 0 ==>
        var id := users[fd].fd;
        timer.Entries() == old(timer.Entries())[id := old(timer.Entries())[id].(expires := now + timeoutMs)]
      ensures timeoutMs > 0 && old(timer.Ordered()) && now + timeoutMs >= old(timer.Entries())[users[fd].fd].expires ==>
        timer.Ordered()
      ensures timeoutMs <= 0 ==> timer.heap == old(timer.heap) && timer.ref == old(timer.ref)
    {
      if timeoutMs > 0 {
        var id := users[fd].fd;
        assert id in timer.Entries();
        assert timer.ref[id] < |timer.heap|;
        timer.Adjust(id, timeoutMs, now);
      }
    }

    /** An input event: resets the timer, then queues a read task. */
    method ProcessRead(fd: int, now: int)
      requires Valid() && fd in users && (timeoutMs > 0 ==> users[fd].fd in timer.Entries())
      modifies this, timer
      ensures Valid() && users == old(users) && interest == old(interest)
      ensures tasks == old(tasks) + [ReadTask(fd)]
      ensures timeoutMs > 0 ==>
        var id := users[fd].fd;
        timer.Entries() == old(timer.Entries())[id := old(timer.Entries())[id].(expires := now + timeoutMs)]
      ensures timeoutMs <= 0 ==> timer.heap == old(timer.heap) && timer.ref == old(timer.ref)
      ensures isClosed == old(isClosed)
    {
      ResetTime(fd, now);
      tasks := tasks + [ReadTask(fd)];
    }

    /** An output event: resets the timer, then queues a write task. */
    method ProcessWrite(fd: int, now: int)
      requires Valid() && fd in users && (timeoutMs > 0 ==> users[fd].fd in timer.Entries())
      modifies this, timer
      ensures Valid() && users == old(users) && interest == old(interest)
      ensures tasks == old(tasks) + [WriteTask(fd)]
      ensures timeoutMs > 0 ==>
        var id := users[fd].fd;
        timer.Entries() == old(timer.Entries())[id := old(timer.Entries())[id].(expires := now + timeoutMs)]
      ensures timeoutMs <= 0 ==> timer.heap == old(timer.heap) && timer.ref == old(timer.ref)
      ensures isClosed == old(isClosed)
    {
      ResetTime(fd, now);
      tasks := tasks + [WriteTask(fd)];
    }

    /** HttpConn::Process on the socket's slot: true exactly when there was
        something to read, and the slot is left as Processed says. */
    method ProcessSlot(fd: int, fs: FileSystem, db: UserDb, keepAlive: bool) returns (ok: bool)
      requires Valid() && fd in users
      modifies users[fd].Footprint()
      ensures Valid()
      ensures ok <==> old(users[fd].readBuff.ReadableBytes()) > 0
      ensures users[fd].fd == old(users[fd].fd) && users[fd].isClosed == old(users[fd].isClosed)
      ensures users[fd].Processed(old(users[fd].readBuff.Contents()), old(users[fd].writeBuff.Contents()),
                                  old(users[fd].iov), old(users[fd].iovCnt), fs, db, keepAlive) == true
    {
      ghost var parsed;
      ok, parsed := users[fd].Process(fs, db, keepAlive);
    }

    /** Processes what the connection has read and waits for output when a
        request was there to answer, for more input otherwise.  Waiting for
        output, the gather list's first slot covers the write buffer, as the
        next Write needs. */
    method KeepProcess(fd: int, fs: FileSystem, db: UserDb, keepAlive: bool)
      requires Valid() && fd in users
      modifies this, users[fd].Footprint()
      ensures Valid() && users == old(users)
      ensures interest == EpollMod(old(interest), users[fd].fd, Rearm(connEvent, old(users[fd].readBuff.ReadableBytes()) > 0))
      ensures users[fd].isClosed == old(users[fd].isClosed)
      ensures users[fd].Processed(old(users[fd].readBuff.Contents()), old(users[fd].writeBuff.Contents()),
                                  old(users[fd].iov), old(users[fd].iovCnt), fs, db, keepAlive) == true
      ensures old(users[fd].readBuff.ReadableBytes()) > 0 ==> users[fd].iov.len0 == users[fd].writeBuff.ReadableBytes()
      ensures isClosed == old(isClosed) && tasks == old(tasks)
    {
      var ok := ProcessSlot(fd, fs, db, keepAlive);
      interest := EpollMod(interest, users[fd].fd, Rearm(connEvent, ok));
    }

    /** The server's state as the accept loop sees it. */
    ghost function Snap(): Snapshot
      requires timer.Valid()
      reads this, timer, shared
    {
      Snapshot(users, interest, timer.Entries(), timer.heap, timer.ref, timer.Ordered(), shared.userCount)
    }

    /** The slot of socket a is a connection open on a, with nothing read
        and nothing to write (HttpConn::init). */
    ghost predicate Opened(a: int)
      reads this, Conns()
    {
      && a in users && users[a].Valid()
      && users[a].fd == a && !users[a].isClosed
      && users[a].readBuff.Contents() == [] && users[a].writeBuff.Contents() == []
    }

    /** The state after the sockets `added` have been taken from s0, one
        AddClient each: their slots are there (new ones inside born) and
        open on their socket with empty buffers, the slots of s0 are
        otherwise kept, each added socket is listed for input and armed. */
    ghost predicate Admitted(s0: Snapshot, added: seq<int>, born: set<object>, now: int)
      reads this, timer, shared, Conns()
    {
      && timer.Valid()
      && shared.userCount == s0.count + |added|
      && (forall x :: x in users <==> x in s0.users || x in added)
      && (forall a :: a in added ==> Opened(a))
      && (forall a :: a in s0.users ==> users[a] == s0.users[a])
      && (forall a :: a in users && a !in s0.users ==> users[a].Footprint() <= born)
      && interest == AddAll(s0.interest, added, Rearm(connEvent, false))
      && (timeoutMs > 0 ==> timer.Entries() == ArmAll(s0.entries, added, now + timeoutMs))
      && (timeoutMs <= 0 ==> timer.heap == s0.heap && timer.ref == s0.ref)
      && (s0.ordered ==> timer.Ordered())
    }

    /** The accept loop after its first k turns, with `plan` what the
        whole loop does: the sockets accepts[..k] are admitted, and once
        the loop stops, the plan has admitted exactly those and turned away
        `busy`. */
    ghost predicate Accepting(s0: Snapshot, accepts: seq<int>, k: nat, born: set<object>, now: int,
                              et: bool, more: bool, busy: Option<int>, plan: ListenOutcome)
      reads this, timer, shared, Conns()
    {
      && k <= |accepts|
      && (forall i :: 0 <= i < k ==> accepts[i] > 0)
      && (k > 0 ==> s0.count + k <= MaxFd)
      && (more ==> (et || k == 0) && busy == None)
      && (!more ==> plan == ListenOutcome(accepts[..k], busy))
      && plan == ListenPlan(accepts, 0, s0.count, et)
      && Admitted(s0, accepts[..k], born, now)
    }

    /** ProcessListen: accepts sockets (accepts is what accept returns, one
        call after another) and adds each while the table has room; the
        socket that finds the table full is sent "Server busy!" and closed
        (busy), and the loop goes on only when the listening socket is
        edge-triggered. */
    method ProcessListen(accepts: seq<int>, now: int) returns (busy: Option<int>)
      requires Valid()
      modifies this, shared, timer, Repr()
      ensures Valid()
      ensures var o := ListenPlan(accepts, 0, old(shared.userCount), EdgeTriggered(listenEvent));
        && busy == o.refused
        && shared.userCount == old(shared.userCount) + |o.added|
        && (forall x :: x in users <==> x in old(users) || x in o.added)
        && interest == AddAll(old(interest), o.added, Rearm(connEvent, false))
        && (timeoutMs > 0 ==> timer.Entries() == ArmAll(old(timer.Entries()), o.added, now + timeoutMs))
        && (forall a :: a in o.added ==> Opened(a))
      ensures forall a :: a in old(users) ==> users[a] == old(users[a])
      ensures timeoutMs <= 0 ==> timer.heap == old(timer.heap) && timer.ref == old(timer.ref)
      ensures old(timer.Ordered()) ==> timer.Ordered()
      ensures isClosed == old(isClosed) && tasks == old(tasks)
    {
      var et := EdgeTriggered(listenEvent);
      ghost var s0 := Snap();
      ghost var plan := ListenPlan(accepts, 0, s0.count, et);
      assert accepts[..0] == [];
      var k;
      ghost var born;
      busy, k, born := AcceptLoop(accepts, now, et, s0, plan);
    }

    /** The accept loop of ProcessListen, from the state s0: it runs turns
        until one ends it, and then it has done what the plan says. */
    method AcceptLoop(accepts: seq<int>, now: int, et: bool, ghost s0: Snapshot, ghost plan: ListenOutcome)
      returns (busy: Option<int>, k: nat, ghost born: set<object>)
      requires Valid() && users == s0.users && Accepting(s0, accepts, 0, {}, now, et, true, None, plan)
      modifies this, shared, timer, Repr()
      ensures Valid() && Accepting(s0, accepts, k, born, now, et, false, busy, plan)
      ensures isClosed == old(isClosed) && tasks == old(tasks)
    {
      born := {};
      k := 0;
      var more := true;
      busy := None;
      while more
        invariant Valid() && Accepting(s0, accepts, k, born, now, et, more, busy, plan) && fresh(born)
        invariant isClosed == old(isClosed) && tasks == old(tasks)
        decreases |accepts| - k, more
      {
        if k < |accepts| && accepts[k] in users {
          SlotOrigin(s0.users, users, born, accepts[k]);
        }
        more, busy, k, born := Turn(accepts, k, now, et, s0, born, plan);
      }
    }

    /** One turn of the accept loop: accept gives accepts[k] (or fails once
        they run out); a failure ends the loop, a full table turns the
        socket away and ends it, otherwise the socket is admitted and the
        loop goes on exactly when edge-triggered. */
    method Turn(accepts: seq<int>, k: nat, now: int, et: bool, ghost s0: Snapshot, ghost born: set<object>,
                ghost plan: ListenOutcome)
      returns (more: bool, busy: Option<int>, k': nat, ghost born': set<object>)
      requires Valid() && Accepting(s0, accepts, k, born, now, et, true, None, plan)
      modifies this, shared, timer, if k < |accepts| && accepts[k] in users then users[accepts[k]].Footprint() else {}
      ensures Valid() && Accepting(s0, accepts, k', born', now, et, more, busy, plan)
      ensures k <= k' <= |accepts| && (more ==> k' == k + 1)
      ensures born <= born' && fresh(born' - born)
      ensures isClosed == old(isClosed) && tasks == old(tasks)
    {
      var connfd := if k < |accepts| then accepts[k] else -1;
      ListenStops(accepts, k, s0.count, et);
      if connfd <= 0 {
        return false, None, k, born;
      }
      if shared.userCount >= MaxFd {
        return false, Some(connfd), k, born;
      }
      assert s0.count + (k + 1) <= MaxFd;
      assert !et ==> plan == ListenOutcome(accepts[..k + 1], None);
      assert forall i :: 0 <= i < k + 1 ==> accepts[i] > 0;
      born' := Admit(connfd, now, s0, accepts[..k], born);
      assert Admitted(s0, accepts[..k + 1], born', now) by { TakeOneMore(accepts, k); }
      more, busy, k' := et, None, k + 1;
    }

    /** One turn of the accept loop that takes connfd: AddClient, after the
        sockets `added` were taken from s0; born holds every slot made since. */
    method Admit(connfd: int, now: int, ghost s0: Snapshot, ghost added: seq<int>, ghost born: set<object>)
      returns (ghost born': set<object>)
      requires Valid() && connfd > 0 && Admitted(s0, added, born, now)
      modifies this, shared, timer, if connfd in users then users[connfd].Footprint() else {}
      ensures Valid() && Admitted(s0, added + [connfd], born', now)
      ensures born <= born' && fresh(born' - born)
      ensures isClosed == old(isClosed) && tasks == old(tasks)
    {
      ghost var before := users;
      AddClient(connfd, now);
      born' := born;
      if connfd !in before {
        born' := born + users[connfd].Footprint();
      }
      SlotsKept(s0.users, before, users, connfd, born, born');
      assert forall a :: a in added + [connfd] ==> Opened(a);
      assert interest == AddAll(s0.interest, added + [connfd], Rearm(connEvent, false)) by {
        AddAllSnoc(s0.interest, added, connfd, Rearm(connEvent, false));
      }
      if timeoutMs > 0 {
        assert timer.Entries() == ArmAll(s0.entries, added + [connfd], now + timeoutMs) by {
          ArmAllSnoc(s0.entries, added, connfd, now + timeoutMs);
        }
      }
    }

    /** HttpConn::Read on the socket's slot. */
    method ReadSlot(fd: int, arrivals: seq<string>, errno: int) returns (len: int, savedErrno: Option<int>)
      requires Valid() && fd in users
      modifies users[fd].readBuff
      ensures Valid()
      ensures var o := ReadLoop(arrivals, 0, shared.isET, old(users[fd].readBuff.Shape()));
        && len == o.len && savedErrno == (if o.failed then Some(errno) else None)
        && users[fd].readBuff.Contents() == old(users[fd].readBuff.Contents()) + o.delivered
    {
      len, savedErrno := users[fd].Read(arrivals, errno);
    }

    /** Server::Read: a read that got nothing, or failed with anything but
        EAGAIN, closes the connection; otherwise what was read (after what
        the buffer already held) is processed. */
    method Read(fd: int, arrivals: seq<string>, errno: int, fs: FileSystem, db: UserDb, keepAlive: bool)
      requires Valid() && fd in users
      modifies this, shared, users[fd].Footprint()
      ensures Valid() && users == old(users)
      ensures var o := ReadLoop(arrivals, 0, shared.isET, old(users[fd].readBuff.Shape()));
        var closes := ReadCloses(o.len, if o.failed then errno else 0);
        var c := old(users[fd].readBuff.Contents()) + o.delivered;
        && (closes ==> (interest == EpollDel(old(interest), users[fd].fd) && users[fd].isClosed
              && users[fd].readBuff.Contents() == c
              && shared.userCount == if old(users[fd].isClosed) then old(shared.userCount) else old(shared.userCount) - 1))
        && (!closes ==> interest == EpollMod(old(interest), users[fd].fd, Rearm(connEvent, |c| > 0)))
        && (!closes ==> users[fd].isClosed == old(users[fd].isClosed) && shared.userCount == old(shared.userCount))
        && (!closes ==> users[fd].Processed(c, old(users[fd].writeBuff.Contents()), old(users[fd].iov),
                                            old(users[fd].iovCnt), fs, db, keepAlive))
      ensures isClosed == old(isClosed) && tasks == old(tasks)
    {
      var len, saved := ReadSlot(fd, arrivals, errno);
      var readErrno := if saved.Some? then saved.value else 0;
      if len <= 0 && readErrno != EAgain {
        CloseConn(fd);
        return;
      }
      KeepProcess(fd, fs, db, keepAlive);
    }

    /** HttpConn::Write on the socket's slot. */
    method WriteSlot(fd: int, results: seq<int>, errno: int) returns (len: int, savedErrno: Option<int>)
      requires Valid() && fd in users && users[fd].iov.len0 == users[fd].writeBuff.ReadableBytes()
      modifies users[fd], users[fd].writeBuff
      ensures Valid()
      ensures var o := WriteLoop(old(users[fd].iov), old(users[fd].iovCnt), results, 0, shared.isET);
        && len == o.len && users[fd].iov == o.iov
        && savedErrno == (if o.stop == Failed then Some(errno) else None)
      ensures users[fd].fd == old(users[fd].fd) && users[fd].isClosed == old(users[fd].isClosed)
      ensures users[fd].iovCnt == old(users[fd].iovCnt)
      ensures users[fd].iov.len0 == users[fd].writeBuff.ReadableBytes()
      ensures users[fd].writeBuff.Contents() == old(users[fd].writeBuff.Contents())[old(users[fd].iov.len0) - users[fd].iov.len0..]
      ensures users[fd].readBuff.Contents() == old(users[fd].readBuff.Contents())
      ensures users == old(users) && interest == old(interest) && shared.userCount == old(shared.userCount)
    {
      len, savedErrno := users[fd].Write(results, errno);
    }

    /** Server::Write with the corrected outcome (WriteDecision): a reply
        fully sent goes back to processing on a kept-alive connection, bytes
        still to send wait for output after EAGAIN or after a writev that
        made progress, and everything else closes. */
    method Write(fd: int, results: seq<int>, errno: int, fs: FileSystem, db: UserDb,
                 connKeepAlive: bool, keepAlive: bool)
      requires Valid() && fd in users && users[fd].iov.len0 == users[fd].writeBuff.ReadableBytes()
      modifies this, shared, users[fd].Footprint()
      ensures Valid() && users == old(users)
      ensures var o := WriteLoop(old(users[fd].iov), old(users[fd].iovCnt), results, 0, shared.isET);
        var d := WriteDecision(WriteCount(o.iov), o.len, if o.stop == Failed then errno else 0, connKeepAlive);
        var w := old(users[fd].writeBuff.Contents())[old(users[fd].iov.len0) - o.iov.len0..];
        && (d == CloseIt ==> (interest == EpollDel(old(interest), users[fd].fd) && users[fd].isClosed
              && shared.userCount == if old(users[fd].isClosed) then old(shared.userCount) else old(shared.userCount) - 1))
        && (d == AwaitOutput ==> (interest == EpollMod(old(interest), users[fd].fd, Rearm(connEvent, true))
              && users[fd].iov == o.iov && users[fd].iov.len0 == users[fd].writeBuff.ReadableBytes()
              && users[fd].writeBuff.Contents() == w))
        && (d == KeepGoing ==> (interest == EpollMod(old(interest), users[fd].fd,
                                  Rearm(connEvent, old(users[fd].readBuff.ReadableBytes()) > 0))
              && users[fd].Processed(old(users[fd].readBuff.Contents()), w, o.iov, old(users[fd].iovCnt), fs, db, keepAlive) == true))
        && (d != CloseIt ==> users[fd].isClosed == old(users[fd].isClosed) && shared.userCount == old(shared.userCount))
      ensures isClosed == old(isClosed) && tasks == old(tasks)
    {
      ghost var u := users[fd];
      ghost var o := WriteLoop(u.iov, u.iovCnt, results, 0, shared.isET);
      ghost var c0, w := u.readBuff.Contents(), u.writeBuff.Contents()[u.iov.len0 - o.iov.len0..];
      var len, saved := WriteSlot(fd, results, errno);
      assert u.readBuff.Contents() == c0 && u.writeBuff.Contents() == w && u.iov == o.iov;
      AfterWrite(fd, len, if saved.Some? then saved.value else 0, fs, db, connKeepAlive, keepAlive);
    }

    /** The second half of Server::Write, once writev has returned len with
        errno writeErrno: the decision WriteDecision gives, applied. */
    method AfterWrite(fd: int, len: int, writeErrno: int, fs: FileSystem, db: UserDb,
                      connKeepAlive: bool, keepAlive: bool)
      requires Valid() && fd in users && users[fd].iov.len0 == users[fd].writeBuff.ReadableBytes()
      modifies this, shared, users[fd].Footprint()
      ensures Valid() && users == old(users)
      ensures var d := WriteDecision(old(users[fd].ToWriteBytes()), len, writeErrno, connKeepAlive);
        && (d == CloseIt ==> (interest == EpollDel(old(interest), users[fd].fd) && users[fd].isClosed
              && shared.userCount == if old(users[fd].isClosed) then old(shared.userCount) else old(shared.userCount) - 1))
        && (d == AwaitOutput ==> (interest == EpollMod(old(interest), users[fd].fd, Rearm(connEvent, true))
              && users[fd].iov == old(users[fd].iov) && users[fd].iov.len0 == users[fd].writeBuff.ReadableBytes()
              && users[fd].writeBuff.Contents() == old(users[fd].writeBuff.Contents())))
        && (d == KeepGoing ==> (interest == EpollMod(old(interest), users[fd].fd,
                                  Rearm(connEvent, old(users[fd].readBuff.ReadableBytes()) > 0))
              && users[fd].Processed(old(users[fd].readBuff.Contents()), old(users[fd].writeBuff.Contents()),
                                     old(users[fd].iov), old(users[fd].iovCnt), fs, db, keepAlive) == true))
        && (d != CloseIt ==> users[fd].isClosed == old(users[fd].isClosed) && shared.userCount == old(shared.userCount))
      ensures isClosed == old(isClosed) && tasks == old(tasks)
    {
      if users[fd].ToWriteBytes() == 0 {
        if connKeepAlive {
          KeepProcess(fd, fs, db, keepAlive);
          return;
        }
      } else if len > 0 || (len < 0 && writeErrno == EAgain) {
        interest := EpollMod(interest, users[fd].fd, Rearm(connEvent, true));
        return;
      }
      CloseConn(fd);
    }

    /** One ready event of Start's loop: the listening socket accepts, a
        hang-up or error closes the connection, input and output reset its
        timer and queue a task, and any other event changes nothing. A
        connection's event needs its slot, and with a timeout its timer. */
    method HandleEvent(fd: int, events: bv32, accepts: seq<int>, now: int) returns (busy: Option<int>)
      requires Valid()
      requires Classify(fd, listenFd, events) in {Hangup, ReadReady, WriteReady} ==> fd in users
      requires Classify(fd, listenFd, events) in {ReadReady, WriteReady} && timeoutMs > 0 ==>
        users[fd].fd in timer.Entries()
      modifies this, shared, timer, Repr()
      ensures Valid() && isClosed == old(isClosed)
      ensures Classify(fd, listenFd, events) != Accept ==> busy == None && users == old(users)
      ensures Classify(fd, listenFd, events) == Accept ==>
        var o := ListenPlan(accepts, 0, old(shared.userCount), EdgeTriggered(listenEvent));
        && busy == o.refused && tasks == old(tasks)
        && shared.userCount == old(shared.userCount) + |o.added|
        && (forall x :: x in users <==> x in old(users) || x in o.added)
        && (forall a :: a in o.added ==> Opened(a))
        && interest == AddAll(old(interest), o.added, Rearm(connEvent, false))
        && (timeoutMs > 0 ==> timer.Entries() == ArmAll(old(timer.Entries()), o.added, now + timeoutMs))
        && (timeoutMs <= 0 ==> timer.heap == old(timer.heap) && timer.ref == old(timer.ref))
      ensures Classify(fd, listenFd, events) == Hangup ==>
        && users[fd].isClosed && interest == EpollDel(old(interest), users[fd].fd) && tasks == old(tasks)
        && shared.userCount == (if old(users[fd].isClosed) then old(shared.userCount) else old(shared.userCount) - 1)
        && timer.heap == old(timer.heap) && timer.ref == old(timer.ref)
      ensures Classify(fd, listenFd, events) in {ReadReady, WriteReady} ==>
        && tasks == old(tasks) + [if Classify(fd, listenFd, events) == ReadReady then ReadTask(fd) else WriteTask(fd)]
        && interest == old(interest) && shared.userCount == old(shared.userCount)
        && (timeoutMs > 0 ==> var id := old(users[fd].fd);
              timer.Entries() == old(timer.Entries())[id := old(timer.Entries())[id].(expires := now + timeoutMs)])
        && (timeoutMs <= 0 ==> timer.heap == old(timer.heap) && timer.ref == old(timer.ref))
      ensures Classify(fd, listenFd, events) == Unexpected ==>
        && interest == old(interest) && tasks == old(tasks) && shared.userCount == old(shared.userCount)
        && timer.heap == old(timer.heap) && timer.ref == old(timer.ref)
    {
      busy := None;
      match Classify(fd, listenFd, events)
      case Accept =>
        busy := ProcessListen(accepts, now);
      case Hangup =>
        ReprHas(users, fd);
        CloseConn(fd);
      case ReadReady =>
        ProcessRead(fd, now);
      case WriteReady =>
        ProcessWrite(fd, now);
      case Unexpected =>
    }
  }
}
