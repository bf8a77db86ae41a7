/**
 The C functions os_send, os_recv, internal_send and internal_recv (misc/network.c),
 proved to make exactly the system calls the automata of module Ipc allow.
 */
module IpcCalls {
  import opened Options
  import opened Bytes
  import opened Ipc

  /** What a process is doing on its socket; Lost once it made a call its automaton does not allow. */
  datatype Process = Sender(frame: seq<Byte>, sender: SenderPhase) | Receiver(receiver: ReceiverPhase) | Lost

  function Advance(p: Process, a: Action): Process {
    match p
    case Sender(f, q) =>
      (match SenderStep(f, q, a) case Some(q') => Sender(f, q') case None => Lost)
    case Receiver(q) =>
      (match ReceiverStep(q, a) case Some(q') => Receiver(q') case None => Lost)
    case Lost => Lost
  }

  /** Where writing b, in whatever pieces, takes a process. */
  function AfterWriting(p: Process, b: seq<Byte>): Process {
    if b == [] then p else Advance(p, Put(b))
  }

  /** Where reading b in one os_recv, in whatever pieces, takes a process. */
  function AfterReading(p: Process, b: seq<Byte>): Process {
    if b == [] then p else Advance(p, Take(b))
  }

  function AfterFailure(p: Process): Process {
    match p
    case Sender(f, _) => Sender(f, SenderDead)
    case Receiver(_) => Receiver(ReceiverDead)
    case Lost => Lost
  }

  lemma {:induction false} SliceOfSlice(f: seq<Byte>, off: nat, b: seq<Byte>, n: nat, k: nat)
    requires off + |b| <= |f| && b == f[off..off + |b|] && n + k <= |b|
    ensures b[n..n + k] == f[off + n..off + n + k]
    ensures b[..n + k] == f[off..off + n + k]
  {
    forall i | 0 <= i < n + k ensures b[i] == f[off + i] {
    }
    assert |b[n..n + k]| == |f[off + n..off + n + k]| && |b[..n + k]| == |f[off..off + n + k]|;
  }

  lemma {:induction false} SenderWritingSplits(f: seq<Byte>, off: nat, b: seq<Byte>, n: nat, k: nat)
    requires 0 < k && n + k <= |b|
    requires off + |b| <= |f| && b == f[off..off + |b|]
    ensures AfterWriting(Sender(f, Sending(off)), b[..n]) == Sender(f, Sending(off + n))
    ensures Advance(Sender(f, Sending(off + n)), Put(b[n..n + k])) == AfterWriting(Sender(f, Sending(off)), b[..n + k])
    ensures AfterWriting(Sender(f, Sending(off)), b[..n + k]).Sender?
  {
    SliceOfSlice(f, off, b, 0, n);
    SliceOfSlice(f, off, b, n, k);
  }

  lemma {:induction false} ReceiverWritingSplits(frame: seq<Byte>, off: nat, b: seq<Byte>, n: nat, k: nat)
    requires 0 < k && n + k <= |b|
    requires off + |b| <= |ACK| && b == ACK[off..off + |b|]
    ensures AfterWriting(Receiver(Acking(frame, off)), b[..n]) == Receiver(Acking(frame, off + n))
    ensures Advance(Receiver(Acking(frame, off + n)), Put(b[n..n + k])) == AfterWriting(Receiver(Acking(frame, off)), b[..n + k])
    ensures AfterWriting(Receiver(Acking(frame, off)), b[..n + k]).Receiver?
  {
    SliceOfSlice(ACK, off, b, 0, n);
    SliceOfSlice(ACK, off, b, n, k);
  }

  /** Splitting a write changes nothing, and neither do interruptions; a failure midway is a failure. */
  lemma {:induction false} WritingSplits(p: Process, b: seq<Byte>, n: nat, k: nat)
    requires 0 < k && n + k <= |b| && AfterWriting(p, b) != Lost
    ensures Advance(AfterWriting(p, b[..n]), Put(b[n..n + k])) == AfterWriting(p, b[..n + k]) != Lost
    ensures Advance(AfterWriting(p, b[..n]), Interrupted) == AfterWriting(p, b[..n])
    ensures Advance(AfterWriting(p, b[..n]), Failed) == AfterFailure(p)
  {
    match p
    case Sender(f, Sending(off)) => SenderWritingSplits(f, off, b, n, k);
    case Receiver(Acking(frame, off)) => ReceiverWritingSplits(frame, off, b, n, k);
    case _ =>
  }

  /** Within one os_recv the wanted length shrinks by what has arrived. */
  lemma {:induction false} NeedShrinks(got: seq<Byte>, b: seq<Byte>)
    requires |b| < Need(got)
    ensures Need(got + b) == Need(got) - |b|
  {
    if |got| >= 4 {
      assert (got + b)[..4] == got[..4];
      if |got| >= 8 {
        assert (got + b)[4..8] == got[4..8];
      }
    }
  }

  /** Whether `want` more bytes belong to what the process reads next. */
  predicate WantsToRead(p: Process, want: nat) {
    match p
    case Sender(_, Waiting(n)) => n + want <= |ACK|
    case Receiver(Reading(got)) => want <= Need(got)
    case _ => want == 0
  }

  lemma {:induction false} ReadingSplits(p: Process, b: seq<Byte>, x: seq<Byte>)
    requires x != [] && WantsToRead(p, |b| + |x|)
    ensures Advance(AfterReading(p, b), Take(x)) == AfterReading(p, b + x) != Lost
  {
    match p
    case Sender(f, Waiting(off)) =>
    case Receiver(Reading(got)) =>
      NeedShrinks(got, b);
      assert got + (b + x) == got + b + x;
      if b == [] {
        assert b + x == x;
      }
  }

  lemma {:induction false} ReadingInterrupted(p: Process, b: seq<Byte>, want: nat)
    requires |b| < want && WantsToRead(p, want)
    ensures Advance(AfterReading(p, b), Interrupted) == AfterReading(p, b)
    ensures Advance(AfterReading(p, b), Failed) == AfterFailure(p)
  {
    match p
    case Sender(f, Waiting(off)) =>
    case Receiver(Reading(got)) => NeedShrinks(got, b);
  }

  // ----- the C functions

  /** What the kernel answers to one send or recv: up to n bytes, a signal, or an error or end of file. */
  datatype Event = Chunk(n: nat) | Signal | Fault

  /** later is what is left of the script earlier. */
  ghost predicate Later(earlier: seq<Event>, later: seq<Event>) {
    |later| <= |earlier| && later == earlier[|earlier| - |later|..]
  }

  /** The last event between the two was a fault, or the script is used up. */
  ghost predicate Refused(earlier: seq<Event>, later: seq<Event>) {
    && Later(earlier, later)
    && (later == [] || (|later| < |earlier| && earlier[|earlier| - |later| - 1].Fault?))
  }

  lemma {:induction false} LaterStill(a: seq<Event>, b: seq<Event>, c: seq<Event>)
    requires Later(a, b) && Later(b, c)
    ensures Later(a, c) && (Refused(b, c) ==> Refused(a, c))
  {
  }

  /** How many calls the script lets move bytes before the first fault, signals not counted. */
  function Calls(script: seq<Event>): nat {
    if script == [] || script[0].Fault? then 0
    else Calls(script[1..]) + if script[0].Chunk? then 1 else 0
  }

  /** A fault or the end of the script came before that many calls could move bytes. */
  ghost predicate Stopped(earlier: seq<Event>, later: seq<Event>, calls: int) {
    Refused(earlier, later) && Calls(earlier) < calls
  }

  /** What one call of send or recv did, in terms of its return value. */
  function Outcome(e: int, eintr: bool, moved: Action): Action {
    if e > 0 then moved else if eintr then Interrupted else Failed
  }

  /** One end of a socket pair. The script stands for everything the program cannot foresee. */
  class Socket {
    var script: seq<Event>
    var incoming: seq<Byte>        // what the peer writes
    ghost var process: Process     // advanced by every system call

    method Send(b: seq<Byte>) returns (e: int, eintr: bool)
      requires b != []
      modifies this
      ensures incoming == old(incoming)
      ensures e <= |b| && (eintr ==> e < 0 && |script| < |old(script)|) && Later(old(script), script)
      ensures e > 0 || eintr ==> Calls(script) == Calls(old(script)) - if eintr then 0 else 1
      ensures e <= 0 && !eintr ==> Refused(old(script), script) && Calls(old(script)) == 0
      ensures process == Advance(old(process), Outcome(e, eintr, Put(if e > 0 then b[..e] else [])))
    {
      e, eintr := -1, false;
      if script != [] {
        match script[0] {
          case Chunk(n) => e := if n == 0 then 1 else if n > |b| then |b| else n;
          case Signal => eintr := true;
          case Fault =>
        }
        script := script[1..];
      }
      process := Advance(process, Outcome(e, eintr, Put(if e > 0 then b[..e] else [])));
    }

    static method Fill(buf: array<Byte>, at: nat, bytes: seq<Byte>)
      requires at + |bytes| <= buf.Length
      modifies buf
      ensures buf[..at + |bytes|] == old(buf[..at]) + bytes
      ensures buf[at + |bytes|..] == old(buf[..])[at + |bytes|..]
    {
      forall i | 0 <= i < |bytes| { buf[at + i] := bytes[i]; }
    }

    /** Reads at most `want` bytes into buf[at..]. */
    method Recv(buf: array<Byte>, at: nat, want: nat) returns (e: int, eintr: bool)
      requires 0 < want && at + want <= buf.Length
      modifies this, buf
      ensures e <= want && (eintr ==> e < 0 && |script| < |old(script)|) && Later(old(script), script)
      ensures e > 0 || eintr ==> Calls(script) == Calls(old(script)) - if eintr then 0 else 1
      ensures e <= 0 && !eintr ==> (Refused(old(script), script) && Calls(old(script)) == 0) || incoming == []
      ensures e > 0 ==> e <= |old(incoming)| && incoming == old(incoming)[e..]
      ensures e > 0 ==> buf[..at + e] == old(buf[..at]) + old(incoming)[..e]
      ensures e > 0 ==> buf[at + e..] == old(buf[..])[at + e..]
      ensures e <= 0 ==> incoming == old(incoming) && buf[..] == old(buf[..])
      ensures process == Advance(old(process), Outcome(e, eintr, Take(if e > 0 then old(incoming)[..e] else [])))
    {
      e, eintr := -1, false;
      if script != [] {
        match script[0] {
          case Chunk(n) =>
            e := if n == 0 then 1 else if n > want then want else n;
            e := if e > |incoming| then |incoming| else e;
          case Signal => eintr := true;
          case Fault =>
        }
        script := script[1..];
      }
      process := Advance(process, Outcome(e, eintr, Take(if e > 0 then incoming[..e] else [])));
      if e > 0 {
        Fill(buf, at, incoming[..e]);
        incoming := incoming[e..];
      }
    }

    /** One turn of os_send: n bytes of buf are out already, since the process was p. */
    method SendMore(buf: seq<Byte>, n: nat, ghost p: Process) returns (e: int, eintr: bool)
      requires n < |buf| && AfterWriting(p, buf) != Lost && process == AfterWriting(p, buf[..n])
      modifies this
      ensures incoming == old(incoming) && Later(old(script), script)
      ensures e <= |buf| - n && (eintr ==> e < 0 && |script| < |old(script)|)
      ensures e > 0 || eintr ==> Calls(script) == Calls(old(script)) - if eintr then 0 else 1
      ensures e <= 0 && !eintr ==> Refused(old(script), script) && Calls(old(script)) == 0
      ensures process == if e > 0 then AfterWriting(p, buf[..n + e])
                         else if eintr then AfterWriting(p, buf[..n]) else AfterFailure(p)
    {
      e, eintr := Send(buf[n..]);
      SentSoFar(p, buf, n, e, eintr);
    }

    static lemma {:induction false} SentSoFar(p: Process, buf: seq<Byte>, n: nat, e: int, eintr: bool)
      requires n < |buf| && AfterWriting(p, buf) != Lost && e <= |buf| - n && (eintr ==> e < 0)
      ensures Advance(AfterWriting(p, buf[..n]), Outcome(e, eintr, Put(if e > 0 then buf[n..][..e] else []))) ==
              if e > 0 then AfterWriting(p, buf[..n + e]) else if eintr then AfterWriting(p, buf[..n]) else AfterFailure(p)
    {
      if e > 0 {
        WritingSplits(p, buf, n, e);
        PartOfRest(buf, n, e);
      } else {
        WritingSplits(p, buf, n, 1);
      }
    }

    static lemma {:induction false} PartOfRest(buf: seq<Byte>, n: nat, e: nat)
      requires n + e <= |buf|
      ensures buf[n..][..e] == buf[n..n + e]
    {
    }

    /** Writes all of buf; signals do not stop it, only a fault or the end of the script. */
    method OsSend(buf: seq<Byte>) returns (n: int)
      requires AfterWriting(process, buf) != Lost
      modifies this
      ensures incoming == old(incoming) && Later(old(script), script)
      ensures n == |buf| || (n == -1 && buf != [])
      ensures process == if n == -1 then AfterFailure(old(process)) else AfterWriting(old(process), buf)
      ensures n == -1 ==> Stopped(old(script), script, |buf|)
      ensures n != -1 ==> Calls(script) >= Calls(old(script)) - |buf|
    {
      n := 0;
      ghost var p, start := process, script;
      while n < |buf|
        invariant 0 <= n <= |buf| && incoming == old(incoming)
        invariant process == AfterWriting(p, buf[..n])
        invariant Later(start, script) && Calls(script) >= Calls(start) - n
        decreases |buf| - n, |script|
      {
        ghost var before := script;
        var e, eintr := SendMore(buf, n, p);
        LaterStill(start, before, script);
        if e < 0 && eintr {
          continue;
        } else if e <= 0 {
          return -1;
        } else {
          n := n + e;
        }
      }
      assert buf[..n] == buf;
    }

    /** One turn of os_recv: n bytes of the stream are in buf already, since the process was p. */
    method RecvMore(buf: array<Byte>, n: nat, want: nat, ghost p: Process, ghost stream: seq<Byte>, ghost contents: seq<Byte>)
      returns (e: int, eintr: bool)
      requires n < want <= buf.Length == |contents| && n <= |stream| && WantsToRead(p, want)
      requires buf[..n] == stream[..n] && buf[n..] == contents[n..] && incoming == stream[n..]
      requires process == AfterReading(p, stream[..n])
      modifies this, buf
      ensures Later(old(script), script)
      ensures e <= want - n && (eintr ==> e < 0 && |script| < |old(script)|)
      ensures e > 0 || eintr ==> Calls(script) == Calls(old(script)) - if eintr then 0 else 1
      ensures e <= 0 && !eintr ==> (Refused(old(script), script) && Calls(old(script)) == 0) || n == |stream|
      ensures var m := if e > 0 then n + e else n;
        && m <= |stream| && buf[..m] == stream[..m] && buf[m..] == contents[m..] && incoming == stream[m..]
        && process == if e <= 0 && !eintr then AfterFailure(p) else AfterReading(p, stream[..m])
    {
      e, eintr := Recv(buf, n, want - n);
      ReadingInterrupted(p, stream[..n], want);
      if e > 0 {
        Pieces(stream, buf[..], contents, n, e);
        ReadingSplits(p, stream[..n], stream[n..][..e]);
      }
    }

    /** Reads exactly `want` bytes to the start of buf; only a fault or the end of script or stream stops it. */
    method OsRecv(buf: array<Byte>, want: nat) returns (n: int)
      requires want <= buf.Length
      requires WantsToRead(process, want)
      modifies this, buf
      ensures n == want || (n == -1 && want > 0)
      ensures Later(old(script), script)
      ensures n == want ==> want <= |old(incoming)| && incoming == old(incoming)[want..]
      ensures n == want ==> buf[..want] == old(incoming)[..want] && buf[want..] == old(buf[want..])
      ensures n == want ==> process == AfterReading(old(process), old(incoming)[..want])
      ensures n == want ==> Calls(script) >= Calls(old(script)) - want
      ensures n == -1 ==> process == AfterFailure(old(process))
      ensures n == -1 ==> |old(incoming)| < want || Stopped(old(script), script, want)
    {
      n := 0;
      ghost var stream, contents, p, start := incoming, buf[..], process, script;
      while n < want
        invariant 0 <= n <= want && n <= |stream|
        invariant buf[..n] == stream[..n] && buf[n..] == contents[n..]
        invariant incoming == stream[n..]
        invariant process == AfterReading(p, stream[..n])
        invariant Later(start, script) && Calls(script) >= Calls(start) - n
        decreases want - n, |script|
      {
        ghost var before := script;
        var e, eintr := RecvMore(buf, n, want, p, stream, contents);
        LaterStill(start, before, script);
        if e < 0 && eintr {
          continue;
        } else if e <= 0 {
          return -1;
        } else {
          n := n + e;
        }
      }
    }

    /** The buffer after one more piece of the stream. */
    static lemma {:induction false} Pieces(stream: seq<Byte>, buf: seq<Byte>, before: seq<Byte>, n: nat, e: nat)
      requires n + e <= |stream| && n + e <= |buf| == |before|
      requires buf[..n + e] == stream[..n] + stream[n..][..e] && buf[n + e..] == before[n..][e..]
      ensures stream[..n] + stream[n..][..e] == stream[..n + e] && stream[n..][e..] == stream[n + e..]
      ensures buf[..n + e] == stream[..n + e] && buf[n + e..] == before[n + e..]
    {
    }
  }

  /** Where the three os_send calls of internal_send find their bytes in the frame. */
  lemma {:induction false} FrameFields(m: Message)
    requires |m.text| <= MAX_TEXT
    ensures var f := Frame(m);
      && f[0..4] == EncodeInt(m.msgType)
      && (if IsCtrl(m.msgType) then |f| == 4
          else |f| == 8 + |m.text| && f[4..8] == EncodeInt(|m.text|) && f[8..8 + |m.text|] == m.text)
  {
  }

  /** The length and the text of a message, after its type. */
  method SendText(soc: Socket, text: seq<Byte>, ghost m: Message) returns (e: int)
    requires |text| <= MAX_TEXT && m.text == text && !IsCtrl(m.msgType)
    requires soc.process == Sender(Frame(m), Sending(4))
    modifies soc
    ensures soc.incoming == old(soc.incoming) && Later(old(soc.script), soc.script)
    ensures soc.process == Sender(Frame(m), if e < 0 then SenderDead else Waiting(0))
    ensures e < 0 ==> Refused(old(soc.script), soc.script)
  {
    FrameFields(m);
    ghost var first := soc.script;
    e := soc.OsSend(EncodeInt(|text|));
    if e < 0 {
      return;
    }
    ghost var second := soc.script;
    e := soc.OsSend(text);
    LaterStill(first, second, soc.script);
  }

  /** Sends one message and waits for its acknowledgement; NULL data is the empty text. */
  method InternalSend(soc: Socket, data: Option<seq<Byte>>, msgType: Int32) returns (e: int)
    requires data.Some? ==> Sendable(Message(msgType, data.value))
    modifies soc
    ensures e == 0 || e == -1
    ensures soc.process == Sender(Frame(Message(msgType, if data.Some? then data.value else [])),
                                  if e == 0 then Returned else SenderDead)
    ensures e == 0 ==> |old(soc.incoming)| >= |ACK| && soc.incoming == old(soc.incoming)[|ACK|..]
    ensures e == -1 ==> Refused(old(soc.script), soc.script) || |old(soc.incoming)| < |ACK|
  {
    var text := if data.Some? then data.value else [];
    ghost var m, first := Message(msgType, text), soc.script;
    e := SendType(soc, msgType, m);
    if e < 0 {
      return -1;
    }
    if !IsCtrl(msgType) {
      ghost var second := soc.script;
      e := SendText(soc, text, m);
      LaterStill(first, second, soc.script);
      if e < 0 {
        return -1;
      }
    }
    ghost var last := soc.script;
    e := AwaitAck(soc, Frame(m));
    LaterStill(first, last, soc.script);
  }

  /** The type of a message. */
  method SendType(soc: Socket, msgType: Int32, ghost m: Message) returns (e: int)
    requires |m.text| <= MAX_TEXT && m.msgType == msgType
    modifies soc
    ensures soc.incoming == old(soc.incoming) && Later(old(soc.script), soc.script)
    ensures soc.process == Sender(Frame(m), if e < 0 then SenderDead else if IsCtrl(msgType) then Waiting(0) else Sending(4))
    ensures e < 0 ==> Refused(old(soc.script), soc.script)
  {
    FrameFields(m);
    soc.process := Sender(Frame(m), Sending(0));
    e := soc.OsSend(EncodeInt(msgType));
  }

  /** The four bytes of the acknowledgement. */
  method AwaitAck(soc: Socket, ghost f: seq<Byte>) returns (e: int)
    requires soc.process == Sender(f, Waiting(0))
    modifies soc
    ensures Later(old(soc.script), soc.script) && (e == 0 || e == -1)
    ensures soc.process == Sender(f, if e == 0 then Returned else SenderDead)
    ensures e == 0 ==> |old(soc.incoming)| >= |ACK| && soc.incoming == old(soc.incoming)[|ACK|..]
    ensures e == -1 ==> Refused(old(soc.script), soc.script) || |old(soc.incoming)| < |ACK|
  {
    var ack := new Byte[4];
    e := soc.OsRecv(ack, 4);
    e := if e < 0 then -1 else 0;
  }

  /** got holds one frame of type kind announcing len bytes, and nothing else. */
  ghost predicate IsFrame(got: seq<Byte>, kind: Int32, len: int) {
    && |got| >= 4 && kind == DecodeInt(got[..4])
    && if IsCtrl(kind) then |got| == 4
       else |got| == 8 + (if len > 0 then len else 0) && len == DecodeInt(got[4..8])
  }

  /** IsFrame is where the receiver stops reading. */
  lemma {:induction false} FrameComplete(got: seq<Byte>, kind: Int32, len: int)
    requires IsFrame(got, kind, len)
    ensures Need(got) == 0
    ensures Decode(got) == Message(kind, if IsCtrl(kind) then [] else got[8..])
  {
  }

  lemma {:induction false} NeedAtStart(type4: seq<Byte>)
    requires |type4| == 4
    ensures Need([]) == 4
    ensures Need(type4) == if IsCtrl(DecodeInt(type4)) then 0 else 4
  {
    assert type4[..4] == type4;
  }

  lemma {:induction false} NeedAfterLength(got: seq<Byte>)
    requires |got| == 8 && !IsCtrl(DecodeInt(got[..4]))
    ensures var len: int := DecodeInt(got[4..8]); Need(got) == if len > 0 then len else 0
  {
  }

  /**
   `out` is the caller's buffer, or a new one when that is too small for len bytes and a NUL. The
   call writes the text and one NUL behind it when len is positive, and nothing otherwise.
   */
  ghost predicate HoldsText(data: array?<Byte>, before: seq<Byte>, len: int, out: array?<Byte>, text: seq<Byte>)
    reads out
  {
    && out != null && out.Length > len
    && |text| == (if len > 0 then len else 0)
    && (len > 0 ==> out[..len + 1] == text + [0])
    && (data != null ==> (out == data <==> len < data.Length))
    && (out == data ==> |before| == out.Length && out[|Written(len, text)|..] == before[|Written(len, text)|..])
  }

  /** What internal_recv writes into the buffer. */
  function Written(len: int, text: seq<Byte>): seq<Byte> {
    if len > 0 then text + [0] else []
  }

  /**
   On return there is a NUL behind the text when its length is positive; in the caller's buffer it is
   there exactly when the length is positive or the buffer began with one before the call.
   */
  lemma {:induction false} TerminatedIff(data: array?<Byte>, before: seq<Byte>, len: int, out: array?<Byte>, text: seq<Byte>)
    requires HoldsText(data, before, len, out, text)
    ensures len > 0 ==> out[|text|] == 0
    ensures out == data && out.Length > 0 ==> (out[|text|] == 0 <==> len > 0 || before[0] == 0)
  {
    if len > 0 {
      assert out[..len + 1][len] == 0;
    } else if out.Length > 0 && out == data {
      assert out[..] == before;
      assert out[..][0] == out[0];
    }
  }

  /** No prefix of the stream is a whole message. */
  ghost predicate NoWholeMessage(stream: seq<Byte>) {
    forall k :: 0 <= k <= |stream| ==> Need(stream[..k]) > 0
  }

  lemma {:induction false} ShortOfType(stream: seq<Byte>)
    requires |stream| < 4
    ensures NoWholeMessage(stream)
  {
  }

  lemma {:induction false} ShortOfText(stream: seq<Byte>, want: int)
    requires |stream| >= 4 && !IsCtrl(DecodeInt(stream[..4])) && |stream| < 8 + want
    requires |stream| >= 8 ==> want == DecodeInt(stream[4..8])
    requires |stream| < 8 ==> want == 0
    ensures NoWholeMessage(stream)
  {
    forall k | 0 <= k <= |stream| ensures Need(stream[..k]) > 0 {
      if k >= 4 {
        assert stream[..k][..4] == stream[..4];
      }
      if k >= 8 {
        assert stream[..k][4..8] == stream[4..8];
      }
    }
  }

  /** Growing realloc: the old contents move to the front of the new block. */
  method Realloc(buf: array<Byte>, size: nat) returns (out: array<Byte>)
    requires buf.Length <= size
    ensures fresh(out) && out.Length == size && out[..buf.Length] == buf[..]
  {
    out := new Byte[size];
    forall i | 0 <= i < buf.Length { out[i] := buf[i]; }
  }

  /** Where a receiver is that has read a type and a length. */
  function AfterLength(stream: seq<Byte>, len: int): Process
    requires |stream| >= 8
  {
    Receiver(if len > 0 then Reading(stream[..8]) else Acking(stream[..8], 0))
  }

  lemma {:induction false} LengthRead(stream: seq<Byte>)
    requires |stream| >= 8 && !IsCtrl(DecodeInt(stream[..4]))
    ensures AfterReading(Receiver(Reading(stream[..4])), stream[4..8]) == AfterLength(stream, DecodeInt(stream[4..8]))
    ensures WantsToRead(Receiver(Reading(stream[..4])), 4)
    ensures IsFrame(stream[..8], DecodeInt(stream[..4]), DecodeInt(stream[4..8])) <==> DecodeInt(stream[4..8]) <= 0
  {
    var got := stream[..8];
    assert stream[..4] + stream[4..8] == got && got[..4] == stream[..4] && got[4..8] == stream[4..8];
    NeedAtStart(stream[..4]);
    NeedAfterLength(got);
  }

  lemma {:induction false} TextRead(stream: seq<Byte>, len: int)
    requires |stream| >= 8 && !IsCtrl(DecodeInt(stream[..4])) && len == DecodeInt(stream[4..8]) > 0
    ensures WantsToRead(Receiver(Reading(stream[..8])), len)
    ensures |stream| >= 8 + len ==>
      && AfterReading(Receiver(Reading(stream[..8])), stream[8..8 + len]) == Receiver(Acking(stream[..8 + len], 0))
      && IsFrame(stream[..8 + len], DecodeInt(stream[..4]), len)
  {
    assert stream[..8][..4] == stream[..4] && stream[..8][4..8] == stream[4..8];
    if |stream| >= 8 + len {
      var got := stream[..8 + len];
      assert stream[..8] + stream[8..8 + len] == got && got[..4] == stream[..4] && got[4..8] == stream[4..8];
    }
  }

  /** The four bytes of the length; stream is everything from the type on. */
  method ReadLength(soc: Socket, ghost stream: seq<Byte>) returns (ok: bool, len: int)
    requires |stream| >= 4 && !IsCtrl(DecodeInt(stream[..4])) && soc.incoming == stream[4..]
    requires soc.process == Receiver(Reading(stream[..4]))
    modifies soc
    ensures Later(old(soc.script), soc.script)
    ensures !ok ==> soc.process == Receiver(ReceiverDead)
    ensures !ok ==> if |stream| < 8 then NoWholeMessage(stream) else Stopped(old(soc.script), soc.script, 4)
    ensures ok ==> |stream| >= 8 && len == DecodeInt(stream[4..8])
    ensures ok ==> soc.process == AfterLength(stream, len) && soc.incoming == stream[8..]
    ensures ok ==> Calls(soc.script) >= Calls(old(soc.script)) - 4
  {
    var field := new Byte[4];
    assert stream[..4][..4] == stream[..4];
    var e := soc.OsRecv(field, 4);
    ok, len := e >= 0, 0;
    if ok {
      assert field[..] == field[..4] == stream[4..][..4] == stream[4..8];
      LengthRead(stream);
      len := DecodeInt(field[..]);
    } else if |stream| < 8 {
      ShortOfText(stream, 0);
    }
  }

  /** A text of len bytes, and the NUL behind it. */
  method ReadBody(soc: Socket, buf: array<Byte>, len: int, ghost stream: seq<Byte>) returns (ok: bool)
    requires |stream| >= 8 && !IsCtrl(DecodeInt(stream[..4])) && 0 < len == DecodeInt(stream[4..8]) < buf.Length
    requires soc.process == Receiver(Reading(stream[..8])) && soc.incoming == stream[8..]
    modifies soc, buf
    ensures Later(old(soc.script), soc.script)
    ensures !ok ==> soc.process == Receiver(ReceiverDead)
    ensures !ok ==> if |stream| < 8 + len then NoWholeMessage(stream) else Stopped(old(soc.script), soc.script, len)
    ensures ok ==> 8 + len <= |stream| && soc.incoming == stream[8 + len..]
    ensures ok ==> soc.process == Receiver(Acking(stream[..8 + len], 0))
    ensures ok ==> buf[..len + 1] == stream[8..8 + len] + [0] && buf[len + 1..] == old(buf[..])[len + 1..]
    ensures ok ==> Calls(soc.script) >= Calls(old(soc.script)) - len
  {
    ghost var before := buf[..];
    TextRead(stream, len);
    var e := soc.OsRecv(buf, len);
    ok := e >= 0;
    if ok {
      assert stream[8..][..len] == stream[8..8 + len] == buf[..len] && stream[8..][len..] == stream[8 + len..];
      buf[len] := 0;
      assert buf[..len + 1] == buf[..len] + [0];
    } else if |stream| < 8 + len {
      ShortOfText(stream, len);
    }
  }

  /** The part of internal_recv after the type; stream is everything from the type on. */
  method ReadText(soc: Socket, data: array?<Byte>, ghost stream: seq<Byte>)
    returns (len: int, out: array?<Byte>, ghost got: seq<Byte>)
    requires |stream| >= 4 && !IsCtrl(DecodeInt(stream[..4])) && soc.incoming == stream[4..]
    requires soc.process == Receiver(Reading(stream[..4]))
    modifies soc, if data == null then {} else {data}
    ensures Later(old(soc.script), soc.script)
    ensures out == null ==> soc.process == Receiver(ReceiverDead)
    ensures out == null ==> NoWholeMessage(stream) || Stopped(old(soc.script), soc.script, |stream| - 4)
    ensures out != null ==>
      && soc.process == Receiver(Acking(got, 0))
      && got <= stream && soc.incoming == stream[|got|..] && IsFrame(got, DecodeInt(stream[..4]), len)
      && Calls(soc.script) >= Calls(old(soc.script)) - (|got| - 4)
      && HoldsText(data, if data == null then [] else old(data[..]), len, out, got[8..])
  {
    out, got := null, [];
    var buf := data;
    if buf == null {
      buf := new Byte[65535];
    }
    ghost var first, before := soc.script, if data == null then [] else data[..];
    var ok;
    ok, len := ReadLength(soc, stream);
    if !ok {
      return;
    }
    ghost var second := soc.script;
    LengthRead(stream);
    buf := Grow(buf, len);
    if len > 0 {
      TextRead(stream, len);
      ok := ReadBody(soc, buf, len, stream);
      LaterStill(first, second, soc.script);
      if !ok {
        return;
      }
    }
    got := stream[..if len > 0 then 8 + len else 8];
    out := buf;
    TextHeld(data, before, len, out, stream);
  }

  /** The buffer, grown when it is too small for len bytes and a NUL. */
  method Grow(buf: array<Byte>, len: int) returns (out: array<Byte>)
    ensures out.Length > len && (if len < buf.Length then out == buf else fresh(out))
    ensures buf[..] == old(buf[..])
  {
    out := buf;
    if len >= buf.Length {
      out := Realloc(buf, len + 1);
    }
  }

  lemma {:induction false} TextHeld(data: array?<Byte>, before: seq<Byte>, len: int, out: array<Byte>, stream: seq<Byte>)
    requires |stream| >= 8 + (if len > 0 then len else 0) && out.Length > len
    requires data != null ==> (out == data <==> len < data.Length) && |before| == data.Length
    requires len > 0 ==> out[..len + 1] == stream[8..8 + len] + [0]
    requires out == data ==> if len > 0 then out[len + 1..] == before[len + 1..] else out[..] == before
    ensures HoldsText(data, before, len, out, stream[..if len > 0 then 8 + len else 8][8..])
  {
    var text := stream[..if len > 0 then 8 + len else 8][8..];
    assert text == if len > 0 then stream[8..8 + len] else [];
  }

  /**
   Receives one message into the caller's buffer (allocated when null, grown when too small)
   and acknowledges it. The final state of the process tells a taken message from a failure:
   the C code returns len for the one and -1 for the other, and len is whatever the peer
   announced. It fails only on a stream that ends within the message or when a fault or the end
   of the script stops a call.
   */
  method InternalRecv(soc: Socket, data: array?<Byte>, msgTypeIn: Int32)
    returns (len: int, data': array?<Byte>, msgType: Int32, ghost got: seq<Byte>)
    modifies soc, if data == null then {} else {data}
    ensures Later(old(soc.script), soc.script)
    ensures soc.process == Receiver(Took(got)) || soc.process == Receiver(ReceiverDead)
    ensures soc.process == Receiver(ReceiverDead) ==> len == -1 && data' == null
    ensures soc.process == Receiver(ReceiverDead) ==>
      NoWholeMessage(old(soc.incoming)) || Stopped(old(soc.script), soc.script, |old(soc.incoming)| + |ACK|)
    ensures soc.process == Receiver(Took(got)) ==>
      && got <= old(soc.incoming) && soc.incoming == old(soc.incoming)[|got|..] && IsFrame(got, msgType, len)
      && if IsCtrl(msgType) then len == 0 && data' == data && (data != null ==> data[..] == old(data[..]))
         else HoldsText(data, if data == null then [] else old(data[..]), len, data', got[8..])
  {
    len, data', msgType, got := 0, data, msgTypeIn, [];
    soc.process := Receiver(Reading([]));
    ghost var stream, first := soc.incoming, soc.script;
    var ok, kind := ReadType(soc, stream);
    if !ok {
      return -1, null, msgType, got;
    }
    got := stream[..4];
    ghost var second := soc.script;
    if !IsCtrl(kind) {
      var out;
      len, out, got := ReadText(soc, data, stream);
      LaterStill(first, second, soc.script);
      if out == null {
        return -1, null, msgType, got;
      }
      data' := out;
    }
    msgType := kind;
    ghost var third := soc.script;
    var e := Acknowledge(soc, got);
    LaterStill(first, third, soc.script);
    if e < 0 {
      return -1, null, msgType, got;
    }
  }

  /** The four bytes of the type. */
  method ReadType(soc: Socket, ghost stream: seq<Byte>) returns (ok: bool, kind: Int32)
    requires soc.process == Receiver(Reading([])) && soc.incoming == stream
    modifies soc
    ensures Later(old(soc.script), soc.script)
    ensures !ok ==> soc.process == Receiver(ReceiverDead)
    ensures !ok ==> NoWholeMessage(stream) || Stopped(old(soc.script), soc.script, 4)
    ensures ok ==> |stream| >= 4 && soc.incoming == stream[4..] && kind == DecodeInt(stream[..4])
    ensures ok ==> soc.process == Receiver(if IsCtrl(kind) then Acking(stream[..4], 0) else Reading(stream[..4]))
    ensures ok ==> IsCtrl(kind) ==> IsFrame(stream[..4], kind, 0)
    ensures ok ==> Calls(soc.script) >= Calls(old(soc.script)) - 4
  {
    var field := new Byte[4];
    NeedAtStart(field[..]);
    var e := soc.OsRecv(field, 4);
    ok, kind := e >= 0, 0;
    if ok {
      assert [] + stream[..4] == stream[..4] == field[..4] == field[..];
      assert stream[..4][..4] == stream[..4];
      NeedAtStart(stream[..4]);
      kind := DecodeInt(field[..]);
    } else if |stream| < 4 {
      ShortOfType(stream);
    }
  }

  /** The acknowledgement of a message that was read. */
  method Acknowledge(soc: Socket, ghost got: seq<Byte>) returns (e: int)
    requires soc.process == Receiver(Acking(got, 0))
    modifies soc
    ensures soc.incoming == old(soc.incoming) && Later(old(soc.script), soc.script)
    ensures soc.process == Receiver(if e < 0 then ReceiverDead else Took(got))
    ensures e < 0 ==> Stopped(old(soc.script), soc.script, |ACK|)
  {
    AckBytes();
    e := soc.OsSend(EncodeInt(CTRL + CTRL_ACK));
  }

  // ----- several messages

  /** A frame at the front of the stream is what internal_recv takes from it. */
  lemma {:induction false} TakesTheFrame(m: Message, stream: seq<Byte>, got: seq<Byte>, len: int)
    requires |m.text| <= MAX_TEXT && Frame(m) <= stream && |stream| >= 4
    requires got <= stream && IsFrame(got, DecodeInt(stream[..4]), len)
    ensures got == Frame(m) && DecodeInt(stream[..4]) == m.msgType
    ensures !IsCtrl(m.msgType) ==> len == |m.text| && got[8..] == m.text
  {
    var f := Frame(m);
    FrameFields(m);
    IntRoundTrip(m.msgType);
    assert stream[..4] == f[..4] == f[0..4];
    if !IsCtrl(m.msgType) {
      IntRoundTrip(|m.text|);
      assert got[4..8] == stream[4..8] == f[4..8];
    }
    assert |got| == |f|;
    assert got == stream[..|f|] == f;
  }

  /** As long as a frame is at its front, the stream holds a whole message. */
  lemma {:induction false} HoldsAMessage(m: Message, stream: seq<Byte>)
    requires |m.text| <= MAX_TEXT && Frame(m) <= stream
    ensures !NoWholeMessage(stream)
  {
    FrameSelfDelimiting(m, Frame(m));
    assert stream[..|Frame(m)|] == Frame(m);
  }

  /** One call of internal_recv on a stream that starts with the frame of m. */
  method ReceiveOne(soc: Socket, ghost m: Message) returns (ok: bool, r: Message)
    requires |m.text| <= MAX_TEXT && Frame(m) <= soc.incoming
    modifies soc
    ensures Later(old(soc.script), soc.script)
    ensures ok ==> r == Delivery(m) && soc.incoming == old(soc.incoming)[|Frame(m)|..]
    ensures !ok ==> Stopped(old(soc.script), soc.script, |old(soc.incoming)| + |ACK|)
  {
    ghost var stream := soc.incoming;
    var len, data, msgType;
    ghost var got;
    len, data, msgType, got := InternalRecv(soc, null, 0);
    HoldsAMessage(m, stream);
    ok, r := !(len == -1 && data == null), Message(msgType, []);
    if ok {
      assert got[..4] == stream[..4];
      TakesTheFrame(m, stream, got, len);
      if !IsCtrl(msgType) && len > 0 {
        r := Message(msgType, data[..len]);
        assert data[..len] == data[..len + 1][..len];
      }
    }
  }

  /**
   Calls internal_recv once for each message whose frame is at the front of the stream: it gets
   these messages in order and leaves the rest of the stream, unless a call is stopped.
   */
  method ReceiveAll(soc: Socket, n: nat, ghost ms: seq<Message>, ghost rest: seq<Byte>) returns (rs: seq<Message>)
    requires n == |ms| && forall i :: 0 <= i < |ms| ==> |ms[i].text| <= MAX_TEXT
    requires soc.incoming == Frames(ms) + rest
    modifies soc
    ensures |rs| <= n && rs == Deliveries(ms)[..|rs|]
    ensures |rs| == n ==> soc.incoming == rest
    ensures |rs| < n ==> Refused(old(soc.script), soc.script)
  {
    rs := [];
    var ok := true;
    ghost var first := soc.script;
    while ok && |rs| < n
      invariant |rs| <= n && rs == Deliveries(ms)[..|rs|]
      invariant ok ==> soc.incoming == Frames(ms[|rs|..]) + rest
      invariant Later(first, soc.script) && (!ok ==> |rs| < n && Refused(first, soc.script))
      decreases ok, n - |rs|
    {
      ghost var m, left, before := ms[|rs|], ms[|rs| + 1..], soc.script;
      assert ms[|rs|..][1..] == left;
      assert soc.incoming == Frame(m) + (Frames(left) + rest);
      var r;
      ok, r := ReceiveOne(soc, m);
      LaterStill(first, before, soc.script);
      if ok {
        rs := rs + [r];
      }
    }
  }

  // ----- a text without terminator

  lemma {:induction false} CallsOfChunks(k: nat, n: nat)
    ensures Calls(seq(k, _ => Chunk(n))) == k
  {
    if k > 0 {
      assert seq(k, _ => Chunk(n))[1..] == seq(k - 1, _ => Chunk(n));
      CallsOfChunks(k - 1, n);
    }
  }

  lemma {:induction false} EmptyFrame(m: Message)
    requires m == Message(1, [])
    ensures Frame(m) == EncodeInt(1) + EncodeInt(0)
  {
    assert Frame(m) == EncodeInt(1) + EncodeInt(0) + [];
  }

  /** A message with an empty text leaves the caller's buffer as it was. */
  method EmptyTextKeepsTheBuffer() returns (len: int, text: seq<Byte>)
    ensures len == 0 && text == [7, 7]
  {
    var soc := new Socket;
    soc.incoming, soc.script := EncodeInt(1) + EncodeInt(0), seq(12, _ => Chunk(8));
    CallsOfChunks(12, 8);
    ghost var m := Message(1, []);
    EmptyFrame(m);
    HoldsAMessage(m, soc.incoming);
    var data := new Byte[2](_ => 7);
    ghost var stream := soc.incoming;
    var data', msgType;
    ghost var got;
    len, data', msgType, got := InternalRecv(soc, data, 0);
    assert soc.process != Receiver(ReceiverDead);
    assert got[..4] == stream[..4];
    TakesTheFrame(m, stream, got, len);
    text := data[..];
  }
}
