/**
 The read buffer of a stream connection (misc/network.c), on values: one function per C
 function, branch by branch, and what sequences of calls do to the bytes of the stream.
 Module Connections proves the C functions in place against these.
 */
module Buffering {
  import opened Options
  import opened Bytes

  /** The fields buf, bufcnt and bufptr; bufsz is the size of buf. */
  datatype Buffer = Buffer(buf: Option<seq<Byte>>, cnt: int, ptr: int)

  const UNBUFFERED := Buffer(None, 0, 0)

  function Size(b: Buffer): nat {
    if b.buf.Some? then |b.buf.value| else 0
  }

  predicate Valid(b: Buffer) {
    && 0 <= b.cnt && 0 <= b.ptr && b.ptr + b.cnt <= Size(b)
    && (b.cnt == 0 ==> b.ptr == 0)
    && (b.buf.Some? ==> Size(b) > 0)
  }

  /** The bytes taken from the transport but not yet handed out. */
  function Pending(b: Buffer): seq<Byte>
    requires Valid(b)
  {
    if b.buf.Some? then b.buf.value[b.ptr..b.ptr + b.cnt] else []
  }

  function Min(a: int, b: int): int {
    if a < b then a else b
  }

  /** Handing out n buffered bytes: the buffer and its debug byte afterwards. */
  function HandOut(b: Buffer, n: int): Buffer
    requires b.buf.Some? && |b.buf.value| > 0
  {
    if b.cnt - n == 0 then Buffer(Some(b.buf.value[0 := 0]), 0, 0) else Buffer(b.buf, b.cnt - n, b.ptr + n)
  }

  /** What read_stream_connection_min asks of the transport: a destination, a least and a most. */
  datatype Request = NoRead | IntoBuffer(least: int, most: int) | ToCaller(least: int, most: int)

  /** How many bytes come straight from the buffer. */
  function FromBuffer(b: Buffer, maxLen: int): int {
    if b.buf.None? then 0 else if maxLen > b.cnt then b.cnt else maxLen
  }

  function Asks(b: Buffer, minLen: int, maxLen: int): Request {
    if b.buf.None? then ToCaller(minLen, maxLen)
    else
      var least := if maxLen == 1 then 1 else minLen;
      var n := FromBuffer(b, maxLen);
      var taken := if n > 0 then n else 0;
      if n > 0 && (n >= least || n >= maxLen) then NoRead
      else if least - taken > Size(b) then ToCaller(least - taken, maxLen - taken)
      else IntoBuffer(least - taken, Size(b))
  }

  /** The transport answers a request with a feed of at most the bytes asked for. */
  predicate Answers(b: Buffer, minLen: int, maxLen: int, feed: seq<Byte>) {
    match Asks(b, minLen, maxLen)
    case NoRead => feed == []
    case IntoBuffer(_, most) => |feed| <= most
    case ToCaller(_, most) => feed == [] || |feed| <= most
  }

  /** The buffer after read_stream_connection_min, when the transport answered with feed. */
  function AfterRead(b: Buffer, minLen: int, maxLen: int, feed: seq<Byte>): Buffer
    requires Valid(b) && 0 <= maxLen && Answers(b, minLen, maxLen, feed)
  {
    var n := FromBuffer(b, maxLen);
    var b1 := if n > 0 then HandOut(b, n) else b;
    if !Asks(b, minLen, maxLen).IntoBuffer? || feed == [] then b1
    else
      var filled := feed + b1.buf.value[|feed|..];
      var m := Min(maxLen - n, |feed|);
      if |feed| - m == 0 then Buffer(Some(filled), 0, 0) else Buffer(Some(filled), |feed| - m, b1.ptr + m)
  }

  /** The bytes it writes to the caller, when those lie inside the buffer. */
  function Returned(b: Buffer, minLen: int, maxLen: int, feed: seq<Byte>): seq<Byte>
    requires Valid(b) && 0 <= maxLen && Answers(b, minLen, maxLen, feed)
  {
    var n := FromBuffer(b, maxLen);
    var head := if n > 0 then b.buf.value[b.ptr..b.ptr + n] else [];
    if Asks(b, minLen, maxLen).IntoBuffer? then head + feed[..Min(maxLen - n, |feed|)] else head + feed
  }

  /** No byte of the stream is lost, repeated or reordered, and at most maxLen are returned. */
  ghost predicate Conserves(b: Buffer, minLen: int, maxLen: int, feed: seq<Byte>)
    requires Valid(b) && 0 <= maxLen && Answers(b, minLen, maxLen, feed)
  {
    var b' := AfterRead(b, minLen, maxLen, feed);
    && Valid(b')
    && Returned(b, minLen, maxLen, feed) + Pending(b') == Pending(b) + feed
    && |Returned(b, minLen, maxLen, feed)| <= maxLen
  }

  lemma {:induction false} FillConserves(b: Buffer, minLen: int, maxLen: int, feed: seq<Byte>)
    requires Valid(b) && 0 <= maxLen && Answers(b, minLen, maxLen, feed)
    requires b.cnt <= maxLen && Asks(b, minLen, maxLen).IntoBuffer? && feed != []
    ensures Conserves(b, minLen, maxLen, feed)
  {
    var b' := AfterRead(b, minLen, maxLen, feed);
    var m := Min(maxLen - b.cnt, |feed|);
    assert b'.buf.value[..|feed|] == feed;
    assert Pending(b') == feed[m..];
    assert Returned(b, minLen, maxLen, feed) == Pending(b) + feed[..m];
    assert Pending(b) + feed[..m] + feed[m..] == Pending(b) + feed;
  }

  lemma {:induction false} ReadConserves(b: Buffer, minLen: int, maxLen: int, feed: seq<Byte>)
    requires Valid(b) && 0 <= maxLen && Answers(b, minLen, maxLen, feed)
    requires maxLen >= 1 || b.cnt == 0 || minLen > Size(b)
    ensures Conserves(b, minLen, maxLen, feed)
  {
    if Asks(b, minLen, maxLen).IntoBuffer? && feed != [] {
      FillConserves(b, minLen, maxLen, feed);
    } else if 0 < FromBuffer(b, maxLen) < b.cnt {
      var n := FromBuffer(b, maxLen);
      assert Pending(b)[..n] + Pending(b)[n..] == Pending(b);
    }
  }

  /**
   Reading keeps the stream whatever the transport answers, exactly when at least one byte
   is asked for, or nothing is buffered, or the request bypasses the buffer. A read of
   length 0 over buffered bytes fills the buffer on top of them.
   */
  lemma {:induction false} ReadSafeIff(b: Buffer, minLen: int, maxLen: int)
    requires Valid(b) && 0 <= maxLen
    ensures (forall feed :: Answers(b, minLen, maxLen, feed) ==> Conserves(b, minLen, maxLen, feed))
            <==> maxLen >= 1 || b.cnt == 0 || minLen > Size(b)
  {
    if maxLen >= 1 || b.cnt == 0 || minLen > Size(b) {
      forall feed | Answers(b, minLen, maxLen, feed) ensures Conserves(b, minLen, maxLen, feed) {
        ReadConserves(b, minLen, maxLen, feed);
      }
    } else {
      var feed: seq<Byte> := [0];
      var b' := AfterRead(b, minLen, maxLen, feed);
      assert Answers(b, minLen, maxLen, feed);
      assert b'.cnt == 1 && |Pending(b) + feed| >= 2;
      assert !Conserves(b, minLen, maxLen, feed);
    }
  }

  /** A read with room for a byte always returns one when the buffer or the transport has one. */
  lemma {:induction false} ReadReturnsSomething(b: Buffer, minLen: int, maxLen: int, feed: seq<Byte>)
    requires Valid(b) && 1 <= maxLen && Answers(b, minLen, maxLen, feed)
    ensures Returned(b, minLen, maxLen, feed) == [] <==> b.cnt == 0 && feed == []
  {
  }

  // ----- stream_set_buffer

  /** What malloc or realloc answers: no memory, the block where it was, or a block elsewhere. */
  datatype Memory = NoMemory | InPlace | Elsewhere

  /** Whether a call resizes a buffer that is already there. */
  predicate Resizes(b: Buffer, sz: int) {
    b.buf.Some? && sz >= b.cnt && sz != 0
  }

  function SetBufferResult(b: Buffer, sz: int, mem: Memory): int {
    if sz < b.cnt then -1 else if sz == 0 then 0 else if mem.NoMemory? then -1 else 0
  }

  /**
   The buffer after stream_set_buffer. A resize never stores the pointer realloc returns, so
   it leaves no usable buffer (None here) when the block has moved.
   */
  function AfterSetBuffer(b: Buffer, sz: int, mem: Memory): (r: Option<Buffer>)
    requires Valid(b)
  {
    if sz < b.cnt then Some(b)
    else if sz == 0 then Some(Buffer(None, 0, b.ptr))
    else if b.buf.None? then
      Some(if mem.NoMemory? then b else Buffer(Some(seq(sz, _ => 0)), 0, 0))
    else
      var moved := if b.cnt > 0 then Pending(b) + b.buf.value[b.cnt..] else b.buf.value;
      match mem
      case NoMemory => Some(Buffer(Some(moved), b.cnt, if b.cnt > 0 then 0 else b.ptr))
      case InPlace => Some(Buffer(Some(Fit(moved, sz)), b.cnt, if b.cnt > 0 then 0 else b.ptr))
      case Elsewhere => None
  }

  /** A block of n bytes with as much of s as fits. */
  function Fit(s: seq<Byte>, n: nat): (t: seq<Byte>)
    ensures |t| == n
    ensures forall i :: 0 <= i < n && i < |s| ==> t[i] == s[i]
  {
    if n <= |s| then s[..n] else s + seq(n - |s|, _ => 0)
  }

  lemma {:induction false} SetBufferConserves(b: Buffer, sz: int, mem: Memory)
    requires Valid(b)
    ensures var r := AfterSetBuffer(b, sz, mem);
      r.Some? ==> Valid(r.value) && Pending(r.value) == Pending(b)
                  && (SetBufferResult(b, sz, mem) == 0 ==> Size(r.value) == sz)
  {
    var r := AfterSetBuffer(b, sz, mem);
    if Resizes(b, sz) && r.Some? {
      var moved := if b.cnt > 0 then Pending(b) + b.buf.value[b.cnt..] else b.buf.value;
      assert moved[..b.cnt] == Pending(b);
      assert r.value.buf.value[..b.cnt] == moved[..b.cnt];
    }
  }

  /** stream_set_buffer leaves a usable buffer whatever the allocator does, exactly when it does not resize one. */
  lemma {:induction false} SetBufferSafeIff(b: Buffer, sz: int)
    requires Valid(b)
    ensures (forall mem :: AfterSetBuffer(b, sz, mem).Some?) <==> !Resizes(b, sz)
  {
    if Resizes(b, sz) {
      assert AfterSetBuffer(b, sz, Elsewhere).None?;
    }
  }

  // ----- runs

  datatype Call = Read(minLen: int, maxLen: int, feed: seq<Byte>) | SetBuffer(sz: int, mem: Memory)

  /** Calls a caller may make in state b: reads of at least one byte, and resizes in place. */
  ghost predicate Allowed(b: Buffer, c: Call)
    requires Valid(b)
  {
    match c
    case Read(minLen, maxLen, feed) => maxLen >= 1 && Answers(b, minLen, maxLen, feed)
    case SetBuffer(sz, mem) => AfterSetBuffer(b, sz, mem).Some?
  }

  /** Everything a run of calls has taken from the transport and returned, and the buffer it leaves. */
  datatype History = History(taken: seq<Byte>, returned: seq<Byte>, buffer: Buffer)

  function Perform(h: History, c: Call): History
    requires Valid(h.buffer) && Allowed(h.buffer, c)
  {
    match c
    case Read(minLen, maxLen, feed) =>
      History(h.taken + feed, h.returned + Returned(h.buffer, minLen, maxLen, feed),
              AfterRead(h.buffer, minLen, maxLen, feed))
    case SetBuffer(sz, mem) => h.(buffer := AfterSetBuffer(h.buffer, sz, mem).value)
  }

  /** hs lists the histories of a run of `calls` on a new connection. */
  ghost predicate IsRun(hs: seq<History>, calls: seq<Call>) {
    && |hs| == |calls| + 1 && hs[0] == History([], [], UNBUFFERED)
    && forall i :: 0 <= i < |calls| ==>
         Valid(hs[i].buffer) && Allowed(hs[i].buffer, calls[i]) && hs[i + 1] == Perform(hs[i], calls[i])
  }

  lemma {:induction false} CallConserves(h: History, c: Call)
    requires Valid(h.buffer) && Allowed(h.buffer, c)
    requires h.returned + Pending(h.buffer) == h.taken
    ensures var h' := Perform(h, c);
      Valid(h'.buffer) && h'.returned + Pending(h'.buffer) == h'.taken
  {
    match c
    case Read(minLen, maxLen, feed) =>
      ReadConserves(h.buffer, minLen, maxLen, feed);
      var out := Returned(h.buffer, minLen, maxLen, feed);
      var h' := Perform(h, c);
      assert h.returned + out + Pending(h'.buffer) == h.returned + (out + Pending(h'.buffer))
          == h.returned + Pending(h.buffer) + feed;
    case SetBuffer(sz, mem) =>
      SetBufferConserves(h.buffer, sz, mem);
  }

  /** Over any run, what was returned followed by what is buffered is what the transport gave. */
  lemma {:induction false} RunConserves(hs: seq<History>, calls: seq<Call>)
    requires IsRun(hs, calls)
    ensures var h := hs[|calls|];
      Valid(h.buffer) && h.returned + Pending(h.buffer) == h.taken
  {
    var n := |calls|;
    if n > 0 {
      RunConserves(hs[..n], calls[..n - 1]);
      assert hs[n - 1 + 1] == Perform(hs[n - 1], calls[n - 1]);
      CallConserves(hs[n - 1], calls[n - 1]);
    }
  }
}
