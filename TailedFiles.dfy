/** The tailed slow log (`struct tailed_file`) and its content reader
    (`tailed_file_content_reader`): a START/WAIT/DUMP state machine over an
    open file. The file system is an environment: what `fstat`, `stat`,
    `open` and `read` return in one call is an input of that call. */
module TailedFiles {
  import opened Util
  import opened Delimiter
  import opened StreamMatcher
  import opened RateLimiter

  /** The fields of `struct stat` the reader looks at. */
  datatype Stat = Stat(mode: int, mtime: int, size: int, ino: int, dev: int)

  /** TAILED_FILE_STATE_START, _WAIT and _DUMP. */
  datatype ReaderState = Start | Wait | Dump

  /** What the system calls made by one reader call return: `fstat` of the
      open descriptor and `stat` of the path (None when they fail), the
      descriptor `open` returns, and the bytes `read` delivers. */
  datatype Env = Env(fstat: Option<Stat>, pathStat: Option<Stat>, reopened: int, data: seq<byte>)

  /** The value the reader returns: a byte count, or
      MHD_CONTENT_READER_END_WITH_ERROR. */
  datatype Reply = Data(n: nat) | EndWithError

  /** The mutable state of a tailed file; `offset` is the file offset of
      `fd`. */
  datatype Snapshot = Snapshot(fd: int, st: Stat, waitCount: int, rateLimit: int, counter: int,
                               matcher: Matcher, state: ReaderState, offset: int)

  /** One reader call: the new state, the reply, the bytes left at the start
      of the buffer, and the bytes read from the file. */
  datatype Step = Step(after: Snapshot, reply: Reply, out: seq<byte>, read: seq<byte>)

  /** The test for "the file is the same": mode, mtime and size agree. */
  predicate SameFile(a: Stat, b: Stat)
  {
    a.mode == b.mode && a.mtime == b.mtime && a.size == b.size
  }

  /** The path now names another file: inode or device differ. */
  predicate Replaced(a: Stat, b: Stat)
  {
    a.ino != b.ino || a.dev != b.dev
  }

  // ---------------------------------------------------------------------
  // The three blocks of the reader, as functions of the state
  // ---------------------------------------------------------------------

  /** The WAIT block: count the wait; on a changed `fstat` take the new
      stat and go to DUMP (rewinding when the file shrank); on an unchanged
      one, every fourth wait, look whether the path names another file and
      reopen it if so. Outside WAIT nothing happens. */
  function PollSpec(s: Snapshot, e: Env): (p: Snapshot)
    ensures s.state != Wait ==> p == s
    ensures s.state == Wait ==> p.state != Start && (p.waitCount == 0 || p.waitCount == s.waitCount + 1)
    ensures s.state == Wait && p.state == Dump ==> p.waitCount == 0
  {
    if s.state != Wait then s
    else
      var w := s.waitCount + 1;
      match e.fstat
      case None => s.(waitCount := w)
      case Some(now) =>
        if !SameFile(s.st, now) then
          s.(waitCount := 0, st := now, state := Dump, offset := if now.size < s.st.size then 0 else s.offset)
        else if w < 4 then s.(waitCount := w)
        else if e.pathStat.Some? && Replaced(s.st, e.pathStat.value) then
          s.(waitCount := 0, st := e.pathStat.value, fd := e.reopened, offset := 0,
             state := if e.reopened > 0 then Dump else Wait)
        else s.(waitCount := 0)
  }

  /** The DUMP block: read; at end of file go to WAIT; otherwise reply with
      the bytes read, rate-limited when the counter is negative or the rate
      limit is above 1. */
  function DumpSpec(s: Snapshot, e: Env): (t: Step)
    requires s.rateLimit >= 1
    ensures t.read == e.data && t.reply == Data(|t.out|) && |t.out| <= |e.data|
    ensures t.after.state == (if e.data == [] then Wait else s.state)
    ensures t.after.offset == s.offset + |e.data|
    ensures t.after.fd == s.fd && t.after.st == s.st && t.after.waitCount == s.waitCount
    ensures t.after.rateLimit == s.rateLimit
  {
    if |e.data| == 0 then Step(s.(state := Wait), Data(0), [], [])
    else
      var s' := s.(offset := s.offset + |e.data|);
      if s.counter < 0 || s.rateLimit > 1 then
        var r := Compact(s.matcher, e.data, s.rateLimit, s.counter);
        Step(s'.(counter := r.counter, matcher := r.matcher), Data(|r.out|), r.out, e.data)
      else Step(s', Data(|e.data|), e.data, e.data)
  }

  /** The START block: refuse a buffer of at most QUERY_DELIM_LEN bytes;
      otherwise emit the delimiter, go to DUMP and set the counter to -1. */
  function StartSpec(s: Snapshot, max: nat): (t: Step)
    ensures t.read == [] && t.after.offset == s.offset && t.after.fd == s.fd
    ensures t.reply == EndWithError <==> max <= QueryDelimLen
  {
    if QueryDelimLen >= max then Step(s, EndWithError, [], [])
    else Step(s.(state := Dump, counter := -1), Data(QueryDelimLen), QueryDelim, [])
  }

  /** `tailed_file_content_reader`: the WAIT block, then the DUMP block if
      the state is (now) DUMP, else the START block if it is START. */
  function ReaderSpec(s: Snapshot, e: Env, max: nat): (t: Step)
    requires s.rateLimit >= 1
    ensures t.reply == EndWithError <==> s.state == Start && max <= QueryDelimLen
    ensures t.reply.Data? ==> t.reply.n == |t.out|
    ensures t.after.rateLimit == s.rateLimit
  {
    var s1 := PollSpec(s, e);
    if s1.state == Dump then DumpSpec(s1, e)
    else if s1.state == Start then StartSpec(s1, max)
    else Step(s1, Data(0), [], [])
  }

  // ---------------------------------------------------------------------
  // What one call does, case by case
  // ---------------------------------------------------------------------

  /** START with a buffer of at most 13 bytes is an error and changes
      nothing; with a larger one the reply is the delimiter alone, the state
      becomes DUMP with counter -1, and the file is not read. */
  lemma StartCase(s: Snapshot, e: Env, max: nat)
    requires s.rateLimit >= 1 && s.state == Start
    ensures var t := ReaderSpec(s, e, max);
      max <= QueryDelimLen ==> t.after == s && t.reply == EndWithError && t.out == []
    ensures var t := ReaderSpec(s, e, max);
      max > QueryDelimLen ==>
        && t.reply == Data(QueryDelimLen) && t.out == QueryDelim && t.read == []
        && t.after == s.(state := Dump, counter := -1)
  {
  }

  /** DUMP at end of file: the state becomes WAIT and 0 is returned. */
  lemma DumpAtEndOfFile(s: Snapshot, e: Env, max: nat)
    requires s.rateLimit >= 1 && s.state == Dump && e.data == []
    ensures var t := ReaderSpec(s, e, max);
      t.after == s.(state := Wait) && t.reply == Data(0) && t.out == []
  {
  }

  /** DUMP with data: the bytes are passed through untouched exactly when the
      counter is not negative and the rate limit is 1; the reply is the
      length of what is left in the buffer, and the offset advances by what
      was read. */
  lemma DumpWithData(s: Snapshot, e: Env, max: nat)
    requires s.rateLimit >= 1 && s.state == Dump && e.data != []
    ensures var t := ReaderSpec(s, e, max);
      && t.after.state == Dump && t.read == e.data && t.reply == Data(|t.out|)
      && t.after.offset == s.offset + |e.data|
      && (s.counter >= 0 && s.rateLimit == 1 ==> t.out == e.data && t.after == s.(offset := t.after.offset))
      && (s.counter < 0 || s.rateLimit > 1 ==>
            t.out == Compact(s.matcher, e.data, s.rateLimit, s.counter).out)
  {
  }

  /** WAIT, `fstat` fails: only the wait count changes. */
  lemma WaitFstatFails(s: Snapshot, e: Env, max: nat)
    requires s.rateLimit >= 1 && s.state == Wait && e.fstat == None
    ensures ReaderSpec(s, e, max) == Step(s.(waitCount := s.waitCount + 1), Data(0), [], [])
  {
  }

  /** WAIT, the file changed: the wait count is reset, the cached stat
      replaced, and the file is read in the same call, from the beginning
      only if it shrank. */
  lemma WaitFileChanged(s: Snapshot, e: Env, max: nat)
    requires s.rateLimit >= 1 && s.state == Wait && e.fstat.Some? && !SameFile(s.st, e.fstat.value)
    ensures var t := ReaderSpec(s, e, max);
      && t.after.waitCount == 0 && t.after.st == e.fstat.value && t.read == e.data
      && t.after.offset == (if e.fstat.value.size < s.st.size then 0 else s.offset) + |e.data|
      && t.after.state == (if e.data == [] then Wait else Dump)
  {
  }

  /** WAIT, the file is unchanged and this is not a fourth wait: only the
      wait count changes. */
  lemma WaitUnchanged(s: Snapshot, e: Env, max: nat)
    requires s.rateLimit >= 1 && s.state == Wait && e.fstat.Some? && SameFile(s.st, e.fstat.value)
    requires s.waitCount + 1 < 4
    ensures ReaderSpec(s, e, max) == Step(s.(waitCount := s.waitCount + 1), Data(0), [], [])
  {
  }

  /** WAIT, the file is unchanged and the incremented count reaches 4: the
      count is reset; if the path now names another file, that file is
      opened with the new stat, and read in the same call when the new
      descriptor is positive; otherwise nothing else changes. */
  lemma WaitRotationCheck(s: Snapshot, e: Env, max: nat)
    requires s.rateLimit >= 1 && s.state == Wait && e.fstat.Some? && SameFile(s.st, e.fstat.value)
    requires s.waitCount + 1 >= 4
    ensures ReaderSpec(s, e, max).after.waitCount == 0
    ensures var t := ReaderSpec(s, e, max);
      !(e.pathStat.Some? && Replaced(s.st, e.pathStat.value)) ==> t == Step(s.(waitCount := 0), Data(0), [], [])
    ensures var t := ReaderSpec(s, e, max);
      e.pathStat.Some? && Replaced(s.st, e.pathStat.value) ==>
        && t.after.st == e.pathStat.value && t.after.fd == e.reopened
        && (e.reopened > 0 ==> t.read == e.data && t.after.offset == |e.data|)
        && (e.reopened <= 0 ==> t.after.state == Wait && t.read == [])
  {
  }

  // ---------------------------------------------------------------------
  // Invariants of the state machine
  // ---------------------------------------------------------------------

  /** The rate limit is at least 1 and, once the stream has started, the
      counter is in [-1, rate limit). Before START sets it the counter is
      whatever the allocation left. */
  predicate Valid(s: Snapshot)
  {
    s.rateLimit >= 1 && (s.state != Start ==> -1 <= s.counter < s.rateLimit)
  }

  /** A WAIT block leaves the rate limit, the counter and the matcher alone
      and never goes back to START. */
  lemma PollKeepsStream(s: Snapshot, e: Env)
    ensures var p := PollSpec(s, e);
      p.rateLimit == s.rateLimit && p.counter == s.counter && p.matcher == s.matcher
      && (p.state == Start <==> s.state == Start)
  {
  }

  /** Every reader call keeps the state valid, and no call goes back to
      START. */
  lemma ReaderKeepsValid(s: Snapshot, e: Env, max: nat)
    requires Valid(s)
    ensures Valid(ReaderSpec(s, e, max).after)
    ensures s.state != Start ==> ReaderSpec(s, e, max).after.state != Start
    ensures ReaderSpec(s, e, max).after.rateLimit == s.rateLimit
  {
    var s1 := PollSpec(s, e);
    PollKeepsStream(s, e);
    if s1.state == Dump && e.data != [] && (s1.counter < 0 || s1.rateLimit > 1) {
      CompactCounterInRange(s1.matcher, e.data, s1.rateLimit, s1.counter);
    }
  }

  /** Once started, the reader never replies with an error. */
  lemma NoErrorOnceStarted(s: Snapshot, e: Env, max: nat)
    requires s.rateLimit >= 1 && s.state != Start
    ensures ReaderSpec(s, e, max).reply.Data?
  {
    PollKeepsStream(s, e);
  }

  /** The reply counts the bytes left at the start of the buffer, and they
      fit in it: never more than `max` when `read` delivered at most `max`. */
  lemma ReplyFitsBuffer(s: Snapshot, e: Env, max: nat)
    requires s.rateLimit >= 1 && |e.data| <= max
    ensures var t := ReaderSpec(s, e, max);
      t.reply.Data? ==> t.reply.n == |t.out| <= max
  {
  }

  /** `k` WAIT blocks in a row with the same environment. */
  function Polls(s: Snapshot, e: Env, k: nat): Snapshot
    decreases k
  {
    if k == 0 then s else Polls(PollSpec(s, e), e, k - 1)
  }

  /** The number of unchanged waits, from wait count `w`, up to and
      including the one that looks at the path. */
  function WaitsUntilCheck(w: int): nat
  {
    if w >= 3 then 1 else 4 - w
  }

  /** While the log stays the same and the path names another file that
      can be opened, the reader keeps waiting for exactly
      `WaitsUntilCheck(waitCount)` polls and then reopens. From a
      non-negative wait count that is at most four polls; from an
      uninitialised negative count it can be arbitrarily many. */
  lemma {:induction false} RotationNoticed(s: Snapshot, e: Env, k: nat)
    requires s.state == Wait && e.fstat.Some? && SameFile(s.st, e.fstat.value)
    requires e.pathStat.Some? && Replaced(s.st, e.pathStat.value) && e.reopened > 0
    requires k <= WaitsUntilCheck(s.waitCount)
    ensures k < WaitsUntilCheck(s.waitCount) ==>
      Polls(s, e, k) == s.(waitCount := s.waitCount + k)
    ensures k == WaitsUntilCheck(s.waitCount) ==>
      Polls(s, e, k) == s.(waitCount := 0, st := e.pathStat.value, fd := e.reopened, offset := 0, state := Dump)
    decreases k
  {
    if k > 0 {
      var s1 := PollSpec(s, e);
      if s.waitCount + 1 < 4 {
        assert s1 == s.(waitCount := s.waitCount + 1);
        RotationNoticed(s1, e, k - 1);
        assert s1.(waitCount := s1.waitCount + (k - 1)) == s.(waitCount := s.waitCount + k);
      } else {
        assert k == 1;
      }
    }
  }

  /** From a non-negative wait count, a rotation is noticed within four
      unchanged polls. */
  lemma RotationNoticedWithinFourPolls(s: Snapshot, e: Env)
    requires s.state == Wait && 0 <= s.waitCount && e.fstat.Some? && SameFile(s.st, e.fstat.value)
    requires e.pathStat.Some? && Replaced(s.st, e.pathStat.value) && e.reopened > 0
    ensures 1 <= WaitsUntilCheck(s.waitCount) <= 4
    ensures Polls(s, e, WaitsUntilCheck(s.waitCount)).state == Dump
  {
    RotationNoticed(s, e, WaitsUntilCheck(s.waitCount));
  }

  /** `open_tailed_file` clears only the first pointer-sized bytes of the
      structure, so the wait count starts as whatever the allocation held. A
      negative leftover delays the rotation check: from -10, four unchanged
      polls keep waiting on the old descriptor although the path names a new
      file that opens. */
  lemma GarbageWaitCountDelaysRotation(s: Snapshot, e: Env)
    requires s.state == Wait && s.waitCount == -10 && e.fstat.Some? && SameFile(s.st, e.fstat.value)
    requires e.pathStat.Some? && Replaced(s.st, e.pathStat.value) && e.reopened > 0
    ensures Polls(s, e, 4).state == Wait && Polls(s, e, 4).fd == s.fd
  {
    RotationNoticed(s, e, 4);
  }

  /** A reader call keeps a wait count non-negative. */
  lemma WaitCountStaysNonNegative(s: Snapshot, e: Env, max: nat)
    requires s.rateLimit >= 1 && 0 <= s.waitCount
    ensures 0 <= ReaderSpec(s, e, max).after.waitCount
  {
  }

  // ---------------------------------------------------------------------
  // What a client receives over a whole response
  // ---------------------------------------------------------------------

  /** One call of the reader: the environment and the buffer size. */
  datatype Call = Call(env: Env, max: nat)

  /** A response: the state after, all bytes sent and all bytes read. */
  datatype Session = Session(after: Snapshot, sent: seq<byte>, read: seq<byte>)

  /** The reader called once per element of `calls`. */
  function Run(s: Snapshot, calls: seq<Call>): (r: Session)
    requires Valid(s)
    ensures r.after.rateLimit == s.rateLimit
    decreases |calls|
  {
    if calls == [] then Session(s, [], [])
    else
      var t := ReaderSpec(s, calls[0].env, calls[0].max);
      ReaderKeepsValid(s, calls[0].env, calls[0].max);
      var r := Run(t.after, calls[1..]);
      Session(r.after, t.out + r.sent, t.read + r.read)
  }

  /** The matcher of a state stands for the matcher `m` of a pass of the
      rate limiter over everything read: it is `m`, or the counter is 0 at
      rate limit 1, when the matcher no longer matters. */
  predicate Tracks(s: Snapshot, m: Matcher)
  {
    s.matcher == m || (s.rateLimit == 1 && s.counter == 0)
  }

  /** One call sends what the rate limiter keeps of the bytes it read, and
      leaves the counter and matcher of that pass. Skipping the limiter at
      rate limit 1 and counter 0 loses nothing. */
  lemma ReaderSendsCompaction(s: Snapshot, e: Env, max: nat, m: Matcher)
    requires Valid(s) && s.state != Start && Tracks(s, m)
    ensures var t := ReaderSpec(s, e, max);
      var c := Compact(m, t.read, s.rateLimit, s.counter);
      t.out == c.out && t.after.counter == c.counter && Tracks(t.after, c.matcher)
  {
    var s1 := PollSpec(s, e);
    PollKeepsStream(s, e);
    ReaderKeepsValid(s, e, max);
    var t := ReaderSpec(s, e, max);
    if s1.state == Dump && e.data != [] && !(s.counter < 0 || s.rateLimit > 1) {
      NoLimitKeepsAll(m, e.data);
    } else if s1.state == Dump && e.data != [] && s.matcher != m {
      NoLimitKeepsAll(m, e.data);
    }
  }

  /** Over any sequence of calls after START, the bytes sent are exactly
      what one pass of the rate limiter keeps of all bytes read, however
      the reads were split across calls. */
  lemma {:induction false} RunSendsCompaction(s: Snapshot, calls: seq<Call>, m: Matcher)
    requires Valid(s) && s.state != Start && Tracks(s, m)
    ensures Run(s, calls).sent == Compact(m, Run(s, calls).read, s.rateLimit, s.counter).out
    decreases |calls|
  {
    if calls != [] {
      var e, max := calls[0].env, calls[0].max;
      var t := ReaderSpec(s, e, max);
      ReaderSendsCompaction(s, e, max, m);
      ReaderKeepsValid(s, e, max);
      var c := Compact(m, t.read, s.rateLimit, s.counter);
      var r := Run(t.after, calls[1..]);
      RunSendsCompaction(t.after, calls[1..], c.matcher);
      CompactSplit(m, t.read, r.read, s.rateLimit, s.counter);
    }
  }

  /** A response from a freshly opened file: the first call (given more
      than 13 bytes of buffer) sends the delimiter, and from then on the
      client receives what the rate limiter keeps of everything read, with
      the leading partial record dropped. */
  lemma ResponseIsDelimiterThenCompaction(s: Snapshot, calls: seq<Call>)
    requires Valid(s) && s.state == Start && calls != [] && calls[0].max > QueryDelimLen
    ensures Run(s, calls).sent == QueryDelim + Compact(s.matcher, Run(s, calls).read, s.rateLimit, -1).out
  {
    var t := ReaderSpec(s, calls[0].env, calls[0].max);
    StartCase(s, calls[0].env, calls[0].max);
    var r := Run(t.after, calls[1..]);
    assert Run(s, calls) == Session(r.after, QueryDelim + r.sent, [] + r.read);
    assert [] + r.read == r.read;
    RunSendsCompaction(t.after, calls[1..], s.matcher);
  }

  /** With the wait count cleared at open, it stays non-negative over any
      response, so every rotation is noticed within four unchanged polls
      (`RotationNoticedWithinFourPolls`). */
  lemma {:induction false} RunKeepsWaitCount(s: Snapshot, calls: seq<Call>)
    requires Valid(s) && 0 <= s.waitCount
    ensures 0 <= Run(s, calls).after.waitCount
    decreases |calls|
  {
    if calls != [] {
      var t := ReaderSpec(s, calls[0].env, calls[0].max);
      ReaderKeepsValid(s, calls[0].env, calls[0].max);
      WaitCountStaysNonNegative(s, calls[0].env, calls[0].max);
      RunKeepsWaitCount(t.after, calls[1..]);
    }
  }

  // ---------------------------------------------------------------------
  // The object
  // ---------------------------------------------------------------------

  /** `read` or `memmove` into the start of the buffer. */
  method WriteBytes(buf: array<byte>, bytes: seq<byte>)
    requires |bytes| <= buf.Length
    modifies buf
    ensures buf[..|bytes|] == bytes
    ensures buf[|bytes|..] == old(buf[|bytes|..])
  {
    var i := 0;
    while i < |bytes|
      invariant 0 <= i <= |bytes|
      invariant buf[..i] == bytes[..i]
      invariant forall k :: i <= k < buf.Length ==> buf[k] == old(buf[k])
    {
      buf[i] := bytes[i];
      assert buf[..i + 1] == buf[..i] + [bytes[i]];
      i := i + 1;
    }
  }

  /** `struct tailed_file`. */
  class TailedFile {
    var fd: int
    var st: Stat
    var waitCount: int
    var rateLimit: int
    var counter: int
    var matcher: Matcher
    var state: ReaderState
    var offset: int

    function Snap(): Snapshot
      reads this
    {
      Snapshot(fd, st, waitCount, rateLimit, counter, matcher, state, offset)
    }

    /** The object `open_tailed_file` returns: START, the opened descriptor
        at offset 0, the stat of the path and a reset matcher. The wait
        count, rate limit and counter are not initialised, so they are
        inputs. */
    constructor (st: Stat, fd: int, waitCount: int, rateLimit: int, counter: int)
      ensures Snap() == Snapshot(fd, st, waitCount, rateLimit, counter, Reset(), Start, 0)
    {
      this.fd := fd;
      this.st := st;
      this.waitCount := waitCount;
      this.rateLimit := rateLimit;
      this.counter := counter;
      this.matcher := Reset();
      this.state := Start;
      this.offset := 0;
    }

    /** What `send_slow_log` does to a newly opened file: store the
        rate limit and seek to the end of the file. */
    method StartResponse(rateLimit: int)
      modifies this
      ensures Snap() == old(Snap()).(rateLimit := rateLimit, offset := old(st.size))
    {
      this.rateLimit := rateLimit;
      offset := st.size;
    }

    /** The WAIT block. */
    method Poll(e: Env)
      requires state == Wait
      modifies this
      ensures Snap() == PollSpec(old(Snap()), e)
    {
      waitCount := waitCount + 1;
      if e.fstat.Some? {
        var now := e.fstat.value;
        if SameFile(st, now) {
          if waitCount >= 4 {
            if e.pathStat.Some? && Replaced(st, e.pathStat.value) {
              if fd > 0 {
                fd := 0;
              }
              st := e.pathStat.value;
              fd := e.reopened;
              offset := 0;
              if fd > 0 {
                state := Dump;
              }
            }
            waitCount := 0;
          }
        } else {
          if now.size < st.size {
            offset := 0;
          }
          waitCount := 0;
          st := now;
          state := Dump;
        }
      }
    }

    /** The DUMP block. */
    method DumpChunk(buf: array<byte>, e: Env) returns (reply: Reply)
      requires state == Dump && rateLimit >= 1 && |e.data| <= buf.Length
      modifies this, buf
      ensures var t := DumpSpec(old(Snap()), e);
        Snap() == t.after && reply == t.reply && buf[..|t.out|] == t.out
    {
      WriteBytes(buf, e.data);
      var n := |e.data|;
      if n == 0 {
        state := Wait;
        return Data(0);
      }
      offset := offset + n;
      if counter < 0 || rateLimit > 1 {
        var newLen, counter', matcher' := ApplyRateLimit(buf, n, rateLimit, counter, matcher);
        counter, matcher := counter', matcher';
        n := newLen;
      }
      reply := Data(n);
    }

    /** The START block. */
    method StartStream(buf: array<byte>, max: nat) returns (reply: Reply)
      requires state == Start && max <= buf.Length
      modifies this, buf
      ensures var t := StartSpec(old(Snap()), max);
        Snap() == t.after && reply == t.reply && buf[..|t.out|] == t.out
    {
      if QueryDelimLen >= max {
        return EndWithError;
      }
      WriteBytes(buf, QueryDelim);
      state := Dump;
      counter := -1;
      reply := Data(QueryDelimLen);
    }

    /** `tailed_file_content_reader`, for a buffer of `max` bytes. */
    method ContentReader(buf: array<byte>, max: nat, e: Env) returns (reply: Reply)
      requires rateLimit >= 1 && max <= buf.Length && |e.data| <= max
      modifies this, buf
      ensures var t := ReaderSpec(old(Snap()), e, max);
        Snap() == t.after && reply == t.reply && buf[..|t.out|] == t.out
    {
      if state == Wait {
        Poll(e);
      }
      if state == Dump {
        reply := DumpChunk(buf, e);
        return;
      }
      if state == Start {
        reply := StartStream(buf, max);
        return;
      }
      reply := Data(0);
    }
  }

  /** `open_tailed_file`: null when `stat` of the path or `open` fails. */
  method OpenTailedFile(pathStat: Option<Stat>, openFd: int, waitCount: int, rateLimit: int, counter: int)
    returns (tf: TailedFile?)
    ensures tf == null <==> pathStat.None? || openFd < 0
    ensures tf != null ==> fresh(tf) && tf.Snap() == Snapshot(openFd, pathStat.value, waitCount, rateLimit, counter, Reset(), Start, 0)
  {
    if pathStat.None? || openFd < 0 {
      return null;
    }
    tf := new TailedFile(pathStat.value, openFd, waitCount, rateLimit, counter);
  }

  /** `open_tailed_file` as evidently intended, with the whole structure
      cleared: wait count, rate limit and counter start at 0. */
  method OpenZeroedTailedFile(pathStat: Option<Stat>, openFd: int) returns (tf: TailedFile?)
    ensures tf == null <==> pathStat.None? || openFd < 0
    ensures tf != null ==> fresh(tf) && tf.Snap() == Snapshot(openFd, pathStat.value, 0, 0, 0, Reset(), Start, 0)
  {
    if pathStat.None? || openFd < 0 {
      return null;
    }
    tf := new TailedFile(pathStat.value, openFd, 0, 0, 0);
  }
}
