/**
 Lines of a byte stream, as recv_line (misc/network.c) cuts them: a line ends with its
 first newline or NUL, or when it fills the caller's buffer.
 */
module Lines {
  import opened Bytes

  const NEWLINE: Byte := 10

  predicate Ends(b: Byte) {
    b == 0 || b == NEWLINE
  }

  ghost predicate Unfinished(l: seq<Byte>) {
    forall i :: 0 <= i < |l| ==> !Ends(l[i])
  }

  /** Where the line that starts at the front of s and has reached i ends. */
  function LineEnd(s: seq<Byte>, size: nat, i: nat): (e: nat)
    requires i <= |s| && i <= size
    ensures i <= e <= |s| && e <= size
    ensures forall j :: i <= j < e - 1 ==> !Ends(s[j])
    ensures if e == i then i == |s| || i == size else Ends(s[e - 1]) || e == |s| || e == size
    decreases |s| - i
  {
    if i == |s| || i == size then i else if Ends(s[i]) then i + 1 else LineEnd(s, size, i + 1)
  }

  /** The line recv_line returns from the stream s when nothing goes wrong. */
  function NextLine(s: seq<Byte>, size: nat): (l: seq<Byte>)
    ensures |l| <= size && l <= s
  {
    s[..LineEnd(s, size, 0)]
  }

  /** A line that is complete: ended by its last byte and by no earlier one, or full. */
  ghost predicate Complete(l: seq<Byte>, size: nat) {
    && 0 < |l| <= size
    && Unfinished(l[..|l| - 1])
    && (Ends(l[|l| - 1]) || |l| == size)
  }

  /** A piece without an end is the start of the next line. */
  lemma {:induction false} NextLineExtends(s: seq<Byte>, l: seq<Byte>, size: nat)
    requires l <= s && |l| <= size && Unfinished(l)
    ensures l <= NextLine(s, size)
  {
    assert forall j :: 0 <= j < |l| ==> s[j] == l[j];
    assert LineEnd(s, size, 0) >= |l|;
  }

  /**
   What recv_line leaves in the caller's buffer for a complete line: the line with a NUL
   behind it unless it ends with one; the NUL replaces the last byte of a line that fills it.
   */
  ghost predicate Finished(text: seq<Byte>, l: seq<Byte>, size: nat)
    requires |text| == size
  {
    Complete(l, size) ==>
      if l[|l| - 1] == 0 then text[..|l|] == l
      else if |l| < size then text[..|l|] == l && text[|l|] == 0
      else text[..|l| - 1] == l[..|l| - 1] && text[|l| - 1] == 0
  }

  /** A complete prefix of the stream is the next line. */
  lemma {:induction false} NextLineIs(s: seq<Byte>, l: seq<Byte>, size: nat)
    requires l <= s && Complete(l, size)
    ensures NextLine(s, size) == l
  {
    assert forall j :: 0 <= j < |l| - 1 ==> l[..|l| - 1][j] == s[j];
    assert s[|l| - 1] == l[|l| - 1];
    assert LineEnd(s, size, 0) == |l|;
  }

  function Flatten(lines: seq<seq<Byte>>): seq<Byte> {
    if lines == [] then [] else Flatten(lines[..|lines| - 1]) + lines[|lines| - 1]
  }

  /** The results of n calls in a row on the stream s, and what they leave. */
  function Cut(s: seq<Byte>, n: nat, size: nat): (r: (seq<seq<Byte>>, seq<Byte>))
    ensures |r.0| == n && |r.1| <= |s|
  {
    if n == 0 then ([], s)
    else
      var (ls, rest) := Cut(s, n - 1, size);
      var l := NextLine(rest, size);
      (ls + [l], rest[|l|..])
  }

  /** The results and the rest are the stream. */
  lemma {:induction false} CutKeeps(s: seq<Byte>, n: nat, size: nat)
    ensures Flatten(Cut(s, n, size).0) + Cut(s, n, size).1 == s
  {
    if n == 0 {
      assert [] + s == s;
    } else {
      CutKeeps(s, n - 1, size);
      var (ls, rest) := Cut(s, n - 1, size);
      OneLineMore(ls, NextLine(rest, size), rest);
    }
  }

  lemma {:induction false} OneLineMore(ls: seq<seq<Byte>>, l: seq<Byte>, rest: seq<Byte>)
    requires l <= rest
    ensures Flatten(ls + [l]) + rest[|l|..] == Flatten(ls) + rest
  {
    assert (ls + [l])[..|ls + [l]| - 1] == ls;
    assert l + rest[|l|..] == rest;
    assert Flatten(ls) + l + rest[|l|..] == Flatten(ls) + (l + rest[|l|..]);
  }

  /** Whether reading s, of which supply bytes can be reached, gives a complete line. */
  ghost predicate LineReached(s: seq<Byte>, size: nat, supply: nat) {
    Complete(NextLine(s, size), size) && |NextLine(s, size)| <= supply
  }

  /** The longest piece of the next line among the first supply bytes. */
  ghost function Piece(s: seq<Byte>, size: nat, supply: nat): seq<Byte> {
    var l := NextLine(s, size);
    l[..if supply < |l| then supply else |l|]
  }

  /** How many of the next n lines are reached, one behind the other. */
  ghost function LinesReached(s: seq<Byte>, n: nat, size: nat, supply: nat): (k: nat)
    ensures k <= n
  {
    if n == 0 then 0
    else
      var k := LinesReached(s, n - 1, size, supply);
      var rest := Cut(s, n - 1, size).1;
      if k == n - 1 && |s| - |rest| <= supply && LineReached(rest, size, supply - (|s| - |rest|)) then n else k
  }

  /** Behind a line that is not reached none is. */
  lemma {:induction false} NoneBehind(s: seq<Byte>, k: nat, n: nat, size: nat, supply: nat)
    requires k < n && LinesReached(s, k + 1, size, supply) == k
    ensures LinesReached(s, n, size, supply) == k
  {
    if k + 1 < n {
      NoneBehind(s, k, n - 1, size, supply);
    }
  }

  /** Cutting joined lines that are complete gives them back, and leaves the rest. */
  lemma {:induction false} CutFlatten(lines: seq<seq<Byte>>, rest: seq<Byte>, size: nat)
    requires forall i :: 0 <= i < |lines| ==> Complete(lines[i], size)
    ensures Cut(Flatten(lines) + rest, |lines|, size) == (lines, rest)
  {
    if lines == [] {
      assert [] + rest == rest;
    } else {
      var init, l := lines[..|lines| - 1], lines[|lines| - 1];
      LastLine(init, l, rest);
      assert init + [l] == lines;
      CutFlatten(init, l + rest, size);
      NextLineIs(l + rest, l, size);
    }
  }

  /** Lines that are complete and within the supply are all reached. */
  lemma {:induction false} AllLinesReached(lines: seq<seq<Byte>>, rest: seq<Byte>, size: nat, supply: nat)
    requires forall i :: 0 <= i < |lines| ==> Complete(lines[i], size)
    requires |Flatten(lines)| <= supply
    ensures LinesReached(Flatten(lines) + rest, |lines|, size, supply) == |lines|
  {
    if lines != [] {
      var init, l := lines[..|lines| - 1], lines[|lines| - 1];
      LastLine(init, l, rest);
      assert init + [l] == lines;
      AllLinesReached(init, l + rest, size, supply);
      CutFlatten(init, l + rest, size);
      NextLineIs(l + rest, l, size);
    }
  }

  lemma {:induction false} LastLine(init: seq<seq<Byte>>, l: seq<Byte>, rest: seq<Byte>)
    ensures Flatten(init + [l]) == Flatten(init) + l && Flatten(init) + (l + rest) == Flatten(init + [l]) + rest
    ensures (l + rest)[|l|..] == rest && l <= l + rest
  {
    assert (init + [l])[..|init + [l]| - 1] == init;
    assert Flatten(init) + (l + rest) == (Flatten(init) + l) + rest;
  }

  /** What recv_line leaves in the buffer of a complete line, as far as it says it did: a NUL over a last byte that fills it. */
  function Stored(l: seq<Byte>, size: nat): seq<Byte> {
    if l != [] && |l| == size then l[..size - 1] + [0] else l
  }
}

/**
 The stream connections of misc/network.c with their buffers in place. Module Buffering
 says what the calls mean.
 */
module Connections {
  import opened Options
  import opened Bytes
  import opened Buffering
  import opened Lines

  /** What select and recv answer on a TCP socket; after the script the peer has closed. */
  datatype NetEvent = Silence | Arrives(n: nat) | Interrupted | Broken(errno: nat)

  const EPIPE: nat := 32
  const ETIMEDOUT: nat := 110

  function Silences(events: seq<NetEvent>): nat {
    if events == [] then 0
    else Silences(events[..|events| - 1]) + if events[|events| - 1].Silence? then 1 else 0
  }

  lemma {:induction false} SilencesNext(events: seq<NetEvent>, n: nat)
    requires n <= |events|
    ensures n < |events| ==>
              Silences(events[..n + 1]) == Silences(events[..n]) + if events[n].Silence? then 1 else 0
  {
    if n < |events| {
      assert events[..n + 1][..n] == events[..n];
    }
  }

  lemma {:induction false} SilencesConcat(a: seq<NetEvent>, b: seq<NetEvent>)
    ensures Silences(a + b) == Silences(a) + Silences(b)
  {
    if b == [] {
      assert a + b == a;
    } else {
      SilencesConcat(a, b[..|b| - 1]);
      assert (a + b)[..|a + b| - 1] == a + b[..|b| - 1];
    }
  }

  /** What one arrival brings to a read that offers room for cap bytes. */
  function Portion(n: nat, cap: nat): nat
    requires cap >= 1
  {
    if n == 0 then 1 else if n < cap then n else cap
  }

  /**
   How many bytes reads of at least one byte get from these events, offering room for cap bytes
   each: until the connection breaks, the events end, or it is silent for the timeout since the
   last arrival; t seconds of silence have passed.
   */
  function Supply(events: seq<NetEvent>, timeout: int, t: nat, cap: nat): nat
    requires cap >= 1
  {
    if events == [] || 0 < timeout <= t then 0
    else
      match events[0]
      case Silence => Supply(events[1..], timeout, t + 1, cap)
      case Interrupted => Supply(events[1..], timeout, t, cap)
      case Broken(_) => 0
      case Arrives(n) => Portion(n, cap) + Supply(events[1..], timeout, 0, cap)
  }

  /** What such reads get from a stream. */
  function Reach(events: seq<NetEvent>, stream: seq<Byte>, timeout: int, cap: nat): nat
    requires cap >= 1
  {
    var d := Supply(events, timeout, 0, cap);
    if d < |stream| then d else |stream|
  }

  /** A read got that many bytes: none exactly when nothing can be reached, and then that much less can. */
  ghost predicate Drawn(events: seq<NetEvent>, stream: seq<Byte>, events': seq<NetEvent>, stream': seq<Byte>,
                        got: nat, timeout: int, cap: nat)
    requires cap >= 1
  {
    && (got == 0 <==> Reach(events, stream, timeout, cap) == 0)
    && (got > 0 ==> Reach(events, stream, timeout, cap) == got + Reach(events', stream', timeout, cap))
  }

  lemma {:induction false} DrawnByArrival(events: seq<NetEvent>, gone: nat, t: nat, stream: seq<Byte>, timeout: int, cap: nat, k: nat)
    requires cap >= 1 && gone < |events| && events[gone].Arrives? && stream != [] && !(0 < timeout <= t)
    requires Supply(events, timeout, 0, cap) == Supply(events[gone..], timeout, t, cap)
    requires k == if Portion(events[gone].n, cap) < |stream| then Portion(events[gone].n, cap) else |stream|
    ensures Drawn(events, stream, events[gone + 1..], stream[k..], k, timeout, cap)
  {
    assert events[gone..][0] == events[gone] && events[gone..][1..] == events[gone + 1..];
  }

  lemma {:induction false} SupplyStep(events: seq<NetEvent>, gone: nat, timeout: int, t: nat, cap: nat)
    requires cap >= 1 && gone <= |events|
    ensures var rest := events[gone..];
      && (rest == [] || 0 < timeout <= t ==> Supply(rest, timeout, t, cap) == 0)
      && (rest != [] && !(0 < timeout <= t) ==>
            && rest[0] == events[gone]
            && (rest[0].Silence? ==> Supply(rest, timeout, t, cap) == Supply(events[gone + 1..], timeout, t + 1, cap))
            && (rest[0].Interrupted? ==> Supply(rest, timeout, t, cap) == Supply(events[gone + 1..], timeout, t, cap))
            && (rest[0].Broken? ==> Supply(rest, timeout, t, cap) == 0))
  {
    if gone < |events| {
      assert events[gone..][1..] == events[gone + 1..];
    }
  }

  /** After the first events, t seconds of silence and that many bytes: nothing that can be reached was passed over. */
  ghost predicate StillToCome(events: seq<NetEvent>, stream: seq<Byte>, gone: nat, taken: nat, t: nat, timeout: int, cap: int) {
    gone <= |events| &&
    (cap >= 1 ==>
       if taken == 0 then Supply(events, timeout, 0, cap) == Supply(events[gone..], timeout, t, cap)
       else Reach(events, stream, timeout, cap) > 0)
  }

  /** What an event other than an arrival does. */
  lemma {:induction false} OneEvent(events: seq<NetEvent>, stream: seq<Byte>, gone: nat, taken: nat, t: nat, timeout: int, cap: int)
    requires StillToCome(events, stream, gone, taken, t, timeout, cap) && !(0 < timeout <= t) && taken <= |stream|
    ensures gone < |events| && events[gone].Silence? ==> StillToCome(events, stream, gone + 1, taken, t + 1, timeout, cap)
    ensures gone < |events| && events[gone].Interrupted? ==> StillToCome(events, stream, gone + 1, taken, t, timeout, cap)
    ensures cap >= 1 && taken == 0 && (gone == |events| || events[gone].Broken? || stream == []) ==>
              Reach(events, stream, timeout, cap) == 0
  {
    if cap >= 1 {
      SupplyStep(events, gone, timeout, t, cap);
    }
  }

  /** What an arrival does, of which k bytes are taken. */
  lemma {:induction false} OneArrival(events: seq<NetEvent>, stream: seq<Byte>, gone: nat, taken: nat, t: nat, timeout: int, cap: int, k: nat)
    requires StillToCome(events, stream, gone, taken, t, timeout, cap) && !(0 < timeout <= t) && taken < |stream|
    requires gone < |events| && events[gone].Arrives? && taken < cap && k > 0
    requires taken == 0 ==>
      k == if Portion(events[gone].n, cap) < |stream| then Portion(events[gone].n, cap) else |stream|
    ensures StillToCome(events, stream, gone + 1, taken + k, t, timeout, cap)
    ensures taken == 0 ==> Drawn(events, stream, events[gone + 1..], stream[k..], k, timeout, cap)
  {
    if taken == 0 {
      DrawnByArrival(events, gone, t, stream, timeout, cap, k);
    }
  }

  lemma {:induction false} TimedOut(events: seq<NetEvent>, stream: seq<Byte>, gone: nat, t: nat, timeout: int, cap: int)
    requires StillToCome(events, stream, gone, 0, t, timeout, cap) && 0 < timeout <= t && cap >= 1
    ensures Reach(events, stream, timeout, cap) == 0
  {
    SupplyStep(events, gone, timeout, t, cap);
  }

  /** Some first events have happened, and these are left. */
  ghost predicate Consumed(before: seq<NetEvent>, left: seq<NetEvent>) {
    |left| <= |before| && left == before[|before| - |left|..]
  }

  ghost function Gone(before: seq<NetEvent>, left: seq<NetEvent>): seq<NetEvent>
    requires |left| <= |before|
  {
    before[..|before| - |left|]
  }

  /** Why a read may end early: the connection broke or ended, or it was silent for the timeout. */
  ghost predicate Excused(gone: seq<NetEvent>, script: seq<NetEvent>, incoming: seq<Byte>, timeout: int) {
    || (gone != [] && gone[|gone| - 1].Broken?)
    || script == [] || incoming == []
    || 0 < timeout <= Silences(gone)
  }

  /** A call that found these events and left those was cut short. */
  ghost predicate CutShort(before: seq<NetEvent>, left: seq<NetEvent>, incoming: seq<Byte>, timeout: int) {
    Consumed(before, left) && Excused(Gone(before, left), left, incoming, timeout)
  }

  lemma {:induction false} StillConsumed(a: seq<NetEvent>, b: seq<NetEvent>, c: seq<NetEvent>, incoming: seq<Byte>, timeout: int)
    requires Consumed(a, b) && Consumed(b, c)
    ensures Consumed(a, c)
    ensures CutShort(b, c, incoming, timeout) ==> CutShort(a, c, incoming, timeout)
  {
    assert Gone(a, c) == Gone(a, b) + Gone(b, c);
    SilencesConcat(Gone(a, b), Gone(b, c));
  }

  /** A block of memory from malloc. */
  class Block {
    var data: seq<Byte>
    var live: bool    // not freed

    constructor (bytes: seq<Byte>)
      ensures data == bytes && live
    {
      data, live := bytes, true;
    }
  }

  class Connection {
    var script: seq<NetEvent>    // what the network will do
    var incoming: seq<Byte>      // what the peer will have sent
    var timeout: int             // in seconds
    var lastErr: nat
    var buf: Block?
    var bufsz: int
    var bufcnt: int
    var bufptr: int

    function Abs(): Buffer
      reads this, buf
    {
      Buffer(if buf == null then None else Some(buf.data), bufcnt, bufptr)
    }

    ghost predicate Usable()
      reads this, buf
    {
      && Valid(Abs()) && bufsz == Size(Abs())
      && (buf != null ==> buf.live)
    }

    /** All the bytes this connection has still to return. */
    ghost function Ahead(): seq<Byte>
      requires Usable()
      reads this, buf
    {
      Pending(Abs()) + incoming
    }

    /** The room one read of the transport offers when a single byte is wanted. */
    function Cap(): nat
      requires Usable()
      reads this, buf
    {
      if buf == null then 1 else bufsz
    }

    /** How many bytes reading byte by byte gets before a read fails. */
    ghost function Reachable(): nat
      requires Usable()
      reads this, buf
    {
      |Pending(Abs())| + Reach(script, incoming, timeout, Cap())
    }

    constructor (net: seq<NetEvent>, stream: seq<Byte>, seconds: int)
      ensures Usable() && Abs() == UNBUFFERED && Ahead() == stream
      ensures script == net && incoming == stream && timeout == seconds && Cap() == 1
    {
      script, incoming, timeout, lastErr := net, stream, seconds, 0;
      buf, bufsz, bufcnt, bufptr := null, 0, 0, 0;
    }

    /** What the network does next; the end of the stream is a break without an error. */
    method NextEvent(ghost events: seq<NetEvent>, ghost gone0: nat) returns (event: NetEvent, ghost gone: nat)
      requires gone0 == |events| - |script| && script == events[gone0..]
      modifies `script
      ensures gone == |events| - |script| == (if gone0 < |events| then gone0 + 1 else gone0) && script == events[gone..]
      ensures if gone0 == |events| || (events[gone0].Arrives? && incoming == []) then event == Broken(0) else event == events[gone0]
      ensures Silences(events[..gone]) == Silences(events[..gone0]) + if event.Silence? then 1 else 0
    {
      event := if script == [] || (script[0].Arrives? && incoming == []) then Broken(0) else script[0];
      SilencesNext(events, gone0);
      script := if script == [] then [] else script[1..];
      gone := |events| - |script|;
    }

    /** The next k bytes of the stream, behind those that are there. */
    method Take(k: nat, out0: seq<Byte>, ghost stream: seq<Byte>) returns (out: seq<Byte>)
      requires out0 <= stream && incoming == stream[|out0|..] && k <= |incoming|
      modifies `incoming
      ensures out <= stream && incoming == stream[|out|..] && |out| == |out0| + k && incoming == old(incoming)[k..]
    {
      out := out0 + incoming[..k];
      incoming := incoming[k..];
    }

    /**
     read_stream_connection_unbuffered on a TCP socket. A request for at least minLen > 0
     bytes is only cut short with an error set.
     */
    method ReadUnbuffered(minLen: int, maxLen: int) returns (out: seq<Byte>)
      modifies `script, `incoming, `lastErr
      ensures out <= old(incoming) && incoming == old(incoming)[|out|..]
      ensures out == [] || |out| <= maxLen
      ensures 0 < minLen <= maxLen && |out| < minLen ==> lastErr != 0
      ensures Consumed(old(script), script)
      ensures 0 < minLen <= maxLen && |out| < minLen ==> CutShort(old(script), script, incoming, timeout)
      ensures minLen == 1 <= maxLen ==> Drawn(old(script), old(incoming), script, incoming, |out|, timeout, maxLen)
      ensures maxLen >= 1 ==> (out == [] <==> Reach(old(script), old(incoming), timeout, maxLen) == 0)
      ensures maxLen >= 1 && out == [] ==> lastErr != 0 && CutShort(old(script), script, incoming, timeout)
    {
      lastErr := 0;
      out := [];
      ghost var stream, events, gone := incoming, script, 0;
      var flag, t, done := 0, 0, false;
      while !done && |out| < maxLen && (timeout <= 0 || t < timeout)
        invariant if done then Answered(minLen, maxLen, out, stream, events)
                  else InLoop(minLen, maxLen, out, flag, t, stream, events, gone)
        decreases !done, |script|
      {
        done, out, flag, t, gone := OneTurn(minLen, maxLen, out, flag, t, stream, events, gone);
      }
      if !done {
        LeaveLoop(minLen, maxLen, out, flag, t, stream, events, gone);
      }
    }

    /** What the read answers, when the stream and the events were these. */
    ghost predicate Answered(minLen: int, maxLen: int, out: seq<Byte>, stream: seq<Byte>, events: seq<NetEvent>)
      reads this
    {
      && out <= stream && incoming == stream[|out|..] && (out == [] || |out| <= maxLen)
      && Consumed(events, script)
      && (0 < minLen <= maxLen && |out| < minLen ==> lastErr != 0 && CutShort(events, script, incoming, timeout))
      && (minLen == 1 <= maxLen ==> Drawn(events, stream, script, incoming, |out|, timeout, maxLen))
      && (maxLen >= 1 ==> (out == [] <==> Reach(events, stream, timeout, maxLen) == 0))
      && (maxLen >= 1 && out == [] ==> lastErr != 0 && CutShort(events, script, incoming, timeout))
    }

    /** Where the loop of the read stands. */
    ghost predicate InLoop(minLen: int, maxLen: int, out: seq<Byte>, flag: int, t: int,
                           stream: seq<Byte>, events: seq<NetEvent>, gone: nat)
      reads this
    {
      && out <= stream && incoming == stream[|out|..] && (out == [] || |out| <= maxLen)
      && 0 <= flag && (flag > 0 ==> |out| >= minLen) && (minLen == 1 <= maxLen ==> out == [])
      && gone == |events| - |script| && script == events[gone..] && t == Silences(events[..gone])
      && StillToCome(events, stream, gone, |out|, t, timeout, maxLen)
    }

    /** One turn of that loop; done when it returns. */
    method OneTurn(minLen: int, maxLen: int, out0: seq<Byte>, flag0: int, t0: int,
                   ghost stream: seq<Byte>, ghost events: seq<NetEvent>, ghost gone0: nat)
      returns (done: bool, out: seq<Byte>, flag: int, t: int, ghost gone: nat)
      requires InLoop(minLen, maxLen, out0, flag0, t0, stream, events, gone0)
      requires |out0| < maxLen && (timeout <= 0 || t0 < timeout)
      modifies `script, `incoming, `lastErr
      ensures if done then Answered(minLen, maxLen, out, stream, events)
              else InLoop(minLen, maxLen, out, flag, t, stream, events, gone) && |script| < |old(script)|
    {
      OneEvent(events, stream, gone0, |out0|, t0, timeout, maxLen);
      done, out, flag, t := false, out0, flag0, t0;
      var event;
      event, gone := NextEvent(events, gone0);
      match event {
        case Silence =>
          t := t + 1;
          if |out| > 0 && flag > 0 {
            done := true;
          } else if |out| >= minLen {
            flag := flag + 1;
          }
        case Broken(errno) =>
          // errno 0 stands for end of file
          lastErr := if errno == 0 then EPIPE else errno;
          done := true;
        case Interrupted =>
          if minLen > 0 && |out| >= minLen {
            done := true;
          }
          flag := 0;
        case Arrives(n) =>
          var k := if n == 0 then 1 else Min(n, maxLen - |out|);
          k := Min(k, |incoming|);
          OneArrival(events, stream, gone0, |out|, t, timeout, maxLen, k);
          out := Take(k, out, stream);
          if minLen > 0 && |out| >= minLen {
            done := true;
          }
          flag := 0;
      }
    }

    /** The end of the loop. */
    method LeaveLoop(minLen: int, maxLen: int, out: seq<Byte>, flag: int, t: int,
                     ghost stream: seq<Byte>, ghost events: seq<NetEvent>, ghost gone: nat)
      requires InLoop(minLen, maxLen, out, flag, t, stream, events, gone)
      requires |out| >= maxLen || 0 < timeout <= t
      modifies `lastErr
      ensures Answered(minLen, maxLen, out, stream, events)
    {
      if maxLen >= 1 && out == [] {
        TimedOut(events, stream, gone, t, timeout, maxLen);
      }
      if t >= timeout {
        lastErr := ETIMEDOUT;
      }
    }


    /** memcpy of out to dst[at..]. */
    static method Store(dst: array<Byte>, at: nat, out: seq<Byte>)
      requires at + |out| <= dst.Length
      modifies dst
      ensures dst[..] == old(dst[..at]) + out + old(dst[at + |out|..])
    {
      forall i | 0 <= i < |out| { dst[at + i] := out[i]; }
    }

    /** The bytes a read finds in the buffer. */
    method TakeBuffered(n: nat) returns (head: seq<Byte>)
      requires Usable() && buf != null && 0 < n <= bufcnt
      modifies `bufcnt, `bufptr, buf
      ensures Usable() && Abs() == HandOut(old(Abs()), n)
      ensures head == old(buf.data[bufptr..bufptr + n])
    {
      head := buf.data[bufptr..bufptr + n];
      bufcnt := bufcnt - n;
      if bufcnt == 0 {
        bufptr := 0;
        buf.data := buf.data[0 := 0];
      } else {
        bufptr := bufptr + n;
      }
    }

    /** Fills the empty buffer from the transport and hands out up to `rest` bytes of it. */
    method Refill(least: int, rest: nat) returns (out: seq<Byte>, ghost feed: seq<Byte>)
      requires Usable() && buf != null && (bufcnt == 0 || rest == 0)
      modifies this, buf
      ensures buf == old(buf) && bufsz == old(bufsz) && |buf.data| == bufsz && buf.live
      ensures |feed| <= bufsz && feed <= old(incoming) && incoming == old(incoming)[|feed|..]
      ensures out == feed[..Min(rest, |feed|)]
      ensures feed == [] ==> Abs() == old(Abs())
      ensures feed != [] ==>
        && buf.data == feed + old(buf.data)[|feed|..]
        && bufcnt == |feed| - |out|
        && bufptr == if bufcnt == 0 then 0 else old(bufptr) + |out|
      ensures 0 < least <= bufsz && |feed| < least ==> lastErr != 0
      ensures timeout == old(timeout) && Consumed(old(script), script)
      ensures 0 < least <= bufsz && |feed| < least ==> CutShort(old(script), script, incoming, timeout)
      ensures least == 1 ==> Drawn(old(script), old(incoming), script, incoming, |feed|, timeout, bufsz)
      ensures feed == [] ==> lastErr != 0 && CutShort(old(script), script, incoming, timeout)
      ensures feed == [] <==> Reach(old(script), old(incoming), timeout, bufsz) == 0
    {
      var filling := ReadUnbuffered(least, bufsz);
      feed := filling;
      if filling == [] {
        return [], feed;
      }
      buf.data := filling + buf.data[|filling|..];
      bufcnt := |filling|;
      var l1 := Min(rest, bufcnt);
      out := filling[..l1];
      bufcnt := bufcnt - l1;
      if bufcnt == 0 {
        bufptr := 0;
      } else {
        bufptr := bufptr + l1;
      }
    }

    /** How much a read offers the transport room for: the buffer, unless that is missing or too small. */
    ghost function Room(minLen: int, maxLen: nat): (r: nat)
      requires Usable() && maxLen > 0
      reads this, buf
      ensures r > 0
    {
      if buf == null || (maxLen > 1 && minLen > bufsz) then maxLen else bufsz
    }

    /**
     read_stream_connection_min: writes what Returned says to dst[at..], leaves the buffer
     AfterRead says, and takes from the transport only what it asks for.
     */
    method ReadMin(dst: array<Byte>, at: nat, minLen: int, maxLen: nat) returns (n: int, ghost feed: seq<Byte>)
      requires Usable() && at + maxLen <= dst.Length
      modifies this, buf, dst
      ensures buf == old(buf) && Answers(old(Abs()), minLen, maxLen, feed)
      ensures feed <= old(incoming) && incoming == old(incoming)[|feed|..]
      ensures Abs() == AfterRead(old(Abs()), minLen, maxLen, feed)
      ensures bufsz == old(bufsz) == Size(Abs()) && (buf != null ==> buf.live)
      ensures n == |Returned(old(Abs()), minLen, maxLen, feed)|
      ensures dst[..] == old(dst[..at]) + Returned(old(Abs()), minLen, maxLen, feed) + old(dst[at + n..])
      ensures 0 < minLen <= maxLen && n < minLen ==> lastErr != 0
      ensures timeout == old(timeout) && Consumed(old(script), script)
      ensures 0 < minLen <= maxLen && n < minLen ==> CutShort(old(script), script, incoming, timeout)
      ensures old(bufcnt) > 0 && minLen == maxLen == 1 ==> script == old(script)
      ensures old(bufcnt) == 0 && minLen == maxLen == 1 ==>
                Drawn(old(script), old(incoming), script, incoming, |feed|, timeout, Cap())
      ensures maxLen > 0 && n == 0 ==> lastErr != 0 && CutShort(old(script), script, incoming, timeout)
      ensures maxLen > 0 ==>
        (n == 0 <==> old(bufcnt) == 0 && Reach(old(script), old(incoming), timeout, Room(minLen, maxLen)) == 0)
    {
      var out: seq<Byte>;
      if buf == null {
        out := ReadUnbuffered(minLen, maxLen);
        feed := out;
      } else {
        out, feed := ReadBuffered(minLen, maxLen);
      }
      n := |out|;
      assert at + n <= dst.Length;
      Store(dst, at, out);
    }

    method ReadBuffered(minLen: int, maxLen: nat) returns (out: seq<Byte>, ghost feed: seq<Byte>)
      requires Usable() && buf != null
      modifies this, buf
      ensures buf == old(buf) && Answers(old(Abs()), minLen, maxLen, feed)
      ensures feed <= old(incoming) && incoming == old(incoming)[|feed|..]
      ensures Abs() == AfterRead(old(Abs()), minLen, maxLen, feed)
      ensures bufsz == old(bufsz) == Size(Abs()) && buf.live
      ensures out == Returned(old(Abs()), minLen, maxLen, feed)
      ensures 0 < minLen <= maxLen && |out| < minLen ==> lastErr != 0
      ensures timeout == old(timeout) && Consumed(old(script), script)
      ensures 0 < minLen <= maxLen && |out| < minLen ==> CutShort(old(script), script, incoming, timeout)
      ensures old(bufcnt) > 0 && minLen == maxLen == 1 ==> script == old(script)
      ensures old(bufcnt) == 0 && minLen == maxLen == 1 ==>
                Drawn(old(script), old(incoming), script, incoming, |feed|, timeout, bufsz)
      ensures maxLen > 0 && out == [] ==> lastErr != 0 && CutShort(old(script), script, incoming, timeout)
      ensures maxLen > 0 ==>
        (out == [] <==> old(bufcnt) == 0 && Reach(old(script), old(incoming), timeout, Room(minLen, maxLen)) == 0)
    {
      var least := if maxLen == 1 then 1 else minLen;
      var l2 := if maxLen > bufcnt then bufcnt else maxLen;
      var tail: seq<Byte> := [];
      out, feed := [], [];
      ghost var b := Abs();
      if l2 > 0 {
        out := TakeBuffered(l2);
      }
      ghost var b1, head := Abs(), out;
      if l2 <= 0 || (l2 < least && l2 < maxLen) {
        tail, feed := ReadRest(least - l2, maxLen - l2);
      }
      out := out + tail;
      ReadIs(b, minLen, maxLen, head, b1, feed, tail, Abs());
    }

    /** What filling the buffer b for a request of least to rest bytes does, when the transport answers with feed. */
    static ghost predicate Filled(b: Buffer, least: int, rest: nat, feed: seq<Byte>, tail: seq<Byte>, b': Buffer) {
      && b.buf.Some?
      && if least > Size(b) then b' == b && tail == feed && (feed == [] || |feed| <= rest)
         else
           && |feed| <= Size(b) && tail == feed[..Min(rest, |feed|)]
           && if feed == [] then b' == b
              else b' == Buffer(Some(feed + b.buf.value[|feed|..]), |feed| - |tail|,
                                if |feed| == |tail| then 0 else b.ptr + |tail|)
    }

    /** Then the whole read is the one of module Buffering. */
    static lemma {:induction false} ReadIs(b: Buffer, minLen: int, maxLen: nat, head: seq<Byte>, b1: Buffer, feed: seq<Byte>, tail: seq<Byte>, b': Buffer)
      requires Valid(b) && b.buf.Some?
      requires var n := FromBuffer(b, maxLen);
        && (if n > 0 then b1 == HandOut(b, n) && head == b.buf.value[b.ptr..b.ptr + n] else b1 == b && head == [])
        && var least := (if maxLen == 1 then 1 else minLen) - n;
        && if n > 0 && (least <= 0 || n >= maxLen) then feed == tail == [] && b' == b1
           else Filled(b1, least, maxLen - n, feed, tail, b')
      ensures Answers(b, minLen, maxLen, feed)
      ensures AfterRead(b, minLen, maxLen, feed) == b' && Returned(b, minLen, maxLen, feed) == head + tail
    {
    }

    /** What the buffer did not give: past the buffer when that is too small, or by filling it. */
    method ReadRest(least: int, rest: nat) returns (tail: seq<Byte>, ghost feed: seq<Byte>)
      requires Usable() && buf != null && (bufcnt == 0 || rest == 0)
      modifies this, buf
      ensures buf == old(buf) && bufsz == old(bufsz) && |buf.data| == bufsz && buf.live && timeout == old(timeout)
      ensures feed <= old(incoming) && incoming == old(incoming)[|feed|..]
      ensures Filled(old(Abs()), least, rest, feed, tail, Abs())
      ensures Consumed(old(script), script)
      ensures 0 < least <= rest && |tail| < least ==> lastErr != 0 && CutShort(old(script), script, incoming, timeout)
      ensures least == 1 ==> Drawn(old(script), old(incoming), script, incoming, |feed|, timeout, bufsz)
      ensures rest > 0 && tail == [] ==> lastErr != 0 && CutShort(old(script), script, incoming, timeout)
      ensures rest > 0 ==>
        (tail == [] <==> Reach(old(script), old(incoming), timeout, if least > bufsz then rest else bufsz) == 0)
    {
      if least > bufsz {
        tail := ReadUnbuffered(least, rest);
        feed := tail;
      } else {
        tail, feed := Refill(least, rest);
      }
    }

    /** One byte of the stream to dst[at], if there is one. */
    method ReadByte(dst: array<Byte>, at: nat) returns (n: int)
      requires Usable() && at < dst.Length
      modifies this, buf, dst
      ensures Usable() && buf == old(buf)
      ensures n == 0 || n == 1
      ensures n == 0 ==> lastErr != 0 && Ahead() == old(Ahead()) && dst[at] == old(dst[at])
      ensures n == 1 ==> old(Ahead()) == [dst[at]] + Ahead()
      ensures forall i :: 0 <= i < dst.Length && i != at ==> dst[i] == old(dst[i])
      ensures timeout == old(timeout) && Consumed(old(script), script)
      ensures n == 1 <==> old(Reachable()) > 0
      ensures n == 1 ==> Reachable() == old(Reachable()) - 1
      ensures n == 0 ==> CutShort(old(script), script, incoming, timeout)
    {
      ghost var b, before, all := Abs(), dst[..], incoming;
      ghost var feed;
      n, feed := ReadMin(dst, at, 1, 1);
      ReadConserves(b, 1, 1, feed);
      ghost var got := Returned(b, 1, 1, feed);
      Rearrange(got, Pending(Abs()), Pending(b), feed, all);
      ByteStored(before, at, got, dst[..]);
    }

    static lemma {:induction false} ByteStored(before: seq<Byte>, at: nat, got: seq<Byte>, after: seq<Byte>)
      requires at < |before| && |got| <= 1 && after == before[..at] + got + before[at + |got|..]
      ensures |after| == |before| && forall i :: 0 <= i < |after| && i != at ==> after[i] == before[i]
      ensures if got == [] then after[at] == before[at] else got == [after[at]]
    {
    }

    static lemma {:induction false} Lengthen(all: seq<Byte>, line: seq<Byte>, rest: seq<Byte>, b: Byte, rest': seq<Byte>)
      requires all == line + rest && rest == [b] + rest'
      ensures all == (line + [b]) + rest'
    {
    }

    static lemma {:induction false} Rearrange(got: seq<Byte>, after: seq<Byte>, before: seq<Byte>, feed: seq<Byte>, all: seq<Byte>)
      requires got + after == before + feed && feed <= all
      ensures got + (after + all[|feed|..]) == before + all
    {
      assert feed + all[|feed|..] == all;
      assert got + (after + all[|feed|..]) == (got + after) + all[|feed|..];
    }

    /** The loop of recv_line: one byte at a time until a line is complete or nothing more is reached. */
    method ReadLine(dst: array<Byte>) returns (complete: bool, ret: int, ghost line: seq<Byte>)
      requires Usable() && dst.Length >= 1
      modifies this, buf, dst
      ensures Usable() && buf == old(buf) && timeout == old(timeout) && line + Ahead() == old(Ahead())
      ensures ret == |line| <= dst.Length && dst[..ret] == line
      ensures line == Piece(old(Ahead()), dst.Length, old(Reachable()))
      ensures complete == Complete(line, dst.Length) && (!complete ==> Unfinished(line))
      ensures complete == LineReached(old(Ahead()), dst.Length, old(Reachable()))
      ensures if complete then Reachable() == old(Reachable()) - |line| else lastErr != 0 && ret < dst.Length
      ensures Consumed(old(script), script)
      ensures !complete ==> CutShort(old(script), script, incoming, timeout)
      ensures ret > 0 ==> forall i :: ret <= i < dst.Length ==> dst[i] == old(dst[i])
      ensures ret == 0 ==> dst[0] == 0
    {
      dst[0] := 0;
      complete, ret, line := false, 0, [];
      ghost var all, block, reach, events := Ahead(), buf, Reachable(), script;
      var n := 1;
      while n == 1 && !complete
        invariant Usable() && buf == block && timeout == old(timeout) && Consumed(events, script)
        invariant 0 <= ret == |line| <= dst.Length && (n == 0 || n == 1)
        invariant all == line + Ahead()
        invariant if complete then Complete(line, dst.Length) else Unfinished(line) && ret < dst.Length
        invariant n == 0 ==> lastErr != 0 && |line| == reach && CutShort(events, script, incoming, timeout)
        invariant n == 1 ==> Reachable() == reach - |line|
        invariant complete ==> n == 1
        invariant dst[..ret] == line && (ret == 0 ==> dst[0] == 0)
        invariant forall i :: ret <= i < dst.Length && i > 0 ==> dst[i] == old(dst[i])
        decreases dst.Length - ret, n, !complete
      {
        n, complete, ret, line := LineByte(dst, ret, line, all, events, reach);
      }
      LineFound(all, line, Ahead(), dst.Length);
      PieceFound(all, line, dst.Length, reach, complete);
    }

    static lemma {:induction false} PieceFound(all: seq<Byte>, line: seq<Byte>, size: nat, reach: nat, complete: bool)
      requires line <= NextLine(all, size) && complete == Complete(line, size)
      requires if complete then line == NextLine(all, size) && |line| <= reach else |line| == reach
      ensures line == Piece(all, size, reach) && complete == LineReached(all, size, reach)
    {
      var l := NextLine(all, size);
      assert line == l[..|line|];
      if |line| == |l| {
        assert line == l;
      }
    }

    /** One turn of that loop; events and reach are what there was at its start. */
    method LineByte(dst: array<Byte>, ret0: nat, ghost line0: seq<Byte>, ghost all: seq<Byte>, ghost events: seq<NetEvent>,
                    ghost reach: nat)
      returns (n: int, complete: bool, ret: int, ghost line: seq<Byte>)
      requires Usable() && ret0 < dst.Length && |line0| == ret0 && dst[..ret0] == line0
      requires all == line0 + Ahead() && Unfinished(line0)
      requires Consumed(events, script) && Reachable() == reach - ret0
      modifies this, buf, dst
      ensures Usable() && buf == old(buf) && timeout == old(timeout) && all == line + Ahead()
      ensures if n == 0 then line == line0 && lastErr != 0 else n == 1 && |line| == ret0 + 1
      ensures ret == |line| <= dst.Length && dst[..ret] == line
      ensures if complete then n == 1 && Complete(line, dst.Length) else Unfinished(line) && ret < dst.Length
      ensures forall i :: ret <= i < dst.Length ==> dst[i] == old(dst[i])
      ensures Consumed(events, script)
      ensures n == 1 ==> Reachable() == reach - |line|
      ensures n == 0 ==> |line| == reach && CutShort(events, script, incoming, timeout)
    {
      ghost var rest, before := Ahead(), script;
      complete, ret, line := false, ret0, line0;
      n := ReadByte(dst, ret);
      StillConsumed(events, before, script, incoming, timeout);
      assert dst[..ret0] == line0;
      if n == 1 {
        Lengthen(all, line, rest, dst[ret], Ahead());
        line := line + [dst[ret]];
        ret := ret + 1;
        complete := dst[ret - 1] == 0 || dst[ret - 1] == NEWLINE || ret == dst.Length;
        assert line[..|line| - 1] == line0;
      }
    }

    static lemma {:induction false} LineFound(all: seq<Byte>, line: seq<Byte>, rest: seq<Byte>, size: nat)
      requires all == line + rest
      requires Complete(line, size) || (Unfinished(line) && |line| < size)
      ensures line <= NextLine(all, size)
      ensures Complete(line, size) ==> line == NextLine(all, size)
      ensures Unfinished(line) && |line| < size ==> !Complete(line, size)
    {
      if Complete(line, size) {
        NextLineIs(all, line, size);
      } else {
        NextLineExtends(all, line, size);
      }
    }

    /**
     recv_line on a stream connection: takes the longest piece of the next line that is reached,
     and terminates it exactly when that is the whole line (or nothing).
     */
    method RecvLine(dst: array<Byte>) returns (ret: int, ghost line: seq<Byte>)
      requires Usable() && dst.Length >= 1
      modifies this, buf, dst
      ensures Usable() && buf == old(buf) && timeout == old(timeout) && line + Ahead() == old(Ahead())
      ensures ret == |line| && line == Piece(old(Ahead()), dst.Length, old(Reachable()))
      ensures Complete(line, dst.Length) <==> LineReached(old(Ahead()), dst.Length, old(Reachable()))
      ensures Complete(line, dst.Length) || (Unfinished(line) && ret < dst.Length)
      ensures Consumed(old(script), script)
      ensures if Complete(line, dst.Length) then Reachable() == old(Reachable()) - |line|
              else lastErr != 0 && CutShort(old(script), script, incoming, timeout)
      ensures Finished(dst[..], line, dst.Length)
      ensures !Complete(line, dst.Length) && ret > 0 ==>
        ret < dst.Length && dst[..ret] == line && forall i :: ret <= i < dst.Length ==> dst[i] == old(dst[i])
      ensures ret == 0 ==> dst[0] == 0
    {
      var complete;
      complete, ret, line := ReadLine(dst);
      if !complete {
        return;
      }
      if dst[ret - 1] != 0 {
        if ret < dst.Length {
          dst[ret] := 0;
        } else {
          dst[dst.Length - 1] := 0;
        }
      }
    }

    /**
     Calls recv_line n times, or until a line does not come whole: the lines are those of the
     stream, as many as are reached, and what is left of the stream comes behind them.
     */
    method RecvLines(dst: array<Byte>, n: nat) returns (texts: seq<seq<Byte>>, ghost lines: seq<seq<Byte>>, ghost piece: seq<Byte>)
      requires Usable() && dst.Length >= 1
      modifies this, buf, dst
      ensures Usable() && |lines| == LinesReached(old(Ahead()), n, dst.Length, old(Reachable())) <= n
      ensures Cut(old(Ahead()), |lines|, dst.Length) == (lines, piece + Ahead())
      ensures |lines| == n ==> piece == []
      ensures |texts| == |lines| && forall i :: 0 <= i < |lines| ==> texts[i] == Stored(lines[i], dst.Length)
      ensures |lines| < n ==> CutShort(old(script), script, incoming, timeout)
    {
      ghost var all, reach, events := Ahead(), Reachable(), script;
      var more;
      more, texts, lines, piece := LineLoop(dst, n, all, reach, events);
      if !more {
        NoneBehind(all, |lines|, n, dst.Length, reach);
      }
    }

    /** The loop of these calls. */
    method LineLoop(dst: array<Byte>, n: nat, ghost all: seq<Byte>, ghost reach: nat, ghost events: seq<NetEvent>)
      returns (more: bool, texts: seq<seq<Byte>>, ghost lines: seq<seq<Byte>>, ghost piece: seq<Byte>)
      requires Usable() && dst.Length >= 1 && all == Ahead() && reach == Reachable() && events == script
      modifies this, buf, dst
      ensures Usable() && |texts| == |lines| <= n && (more <==> |lines| == n) && (more ==> piece == [])
      ensures Cut(all, |lines|, dst.Length) == (lines, piece + Ahead())
      ensures LinesReached(all, |lines|, dst.Length, reach) == |lines|
      ensures !more ==> LinesReached(all, |lines| + 1, dst.Length, reach) == |lines|
      ensures !more ==> CutShort(events, script, incoming, timeout)
      ensures forall i :: 0 <= i < |lines| ==> texts[i] == Stored(lines[i], dst.Length)
    {
      texts, lines, piece, more := [], [], [], true;
      while more && |texts| < n
        invariant buf == old(buf) && |texts| <= n && (!more ==> |texts| < n)
        invariant Lined(more, all, reach, texts, lines, piece, events, dst.Length)
        decreases more, n - |texts|
      {
        more, texts, lines, piece := LineTurn(dst, all, reach, texts, lines, events);
      }
      assert [] + Ahead() == Ahead();
    }

    /** Where the loop stands: these lines came, and more says whether the last call brought one. */
    ghost predicate Lined(more: bool, all: seq<Byte>, reach: nat, texts: seq<seq<Byte>>, lines: seq<seq<Byte>>,
                          piece: seq<Byte>, events: seq<NetEvent>, size: nat)
      requires size >= 1
      reads this, buf
    {
      && Usable() && |texts| == |lines| && Consumed(events, script)
      && (forall i :: 0 <= i < |lines| ==> texts[i] == Stored(lines[i], size))
      && if more then piece == [] && Between(all, reach, lines, size)
         else Short(all, reach, lines, piece, size) && CutShort(events, script, incoming, timeout)
    }

    /** One turn of the loop. */
    method LineTurn(dst: array<Byte>, ghost all: seq<Byte>, ghost reach: nat, texts0: seq<seq<Byte>>,
                    ghost lines0: seq<seq<Byte>>, ghost events: seq<NetEvent>)
      returns (more: bool, texts: seq<seq<Byte>>, ghost lines: seq<seq<Byte>>, ghost piece: seq<Byte>)
      requires dst.Length >= 1 && Lined(true, all, reach, texts0, lines0, [], events, dst.Length)
      modifies this, buf, dst
      ensures buf == old(buf) && |texts| == if more then |texts0| + 1 else |texts0|
      ensures Lined(more, all, reach, texts, lines, piece, events, dst.Length)
    {
      var text;
      ghost var line;
      more, text, line := OneLine(dst, all, events, reach, lines0);
      if more {
        texts, lines, piece := texts0 + [text], lines0 + [line], [];
      } else {
        texts, lines, piece := texts0, lines0, line;
      }
    }

    /** The stream stands after these lines, which all came whole. */
    ghost predicate Between(all: seq<Byte>, reach: nat, lines: seq<seq<Byte>>, size: nat)
      requires size >= 1 && Usable()
      reads this, buf
    {
      && Cut(all, |lines|, size) == (lines, Ahead()) && LinesReached(all, |lines|, size, reach) == |lines|
      && Reachable() == reach - (|all| - |Ahead()|)
    }

    /** The stream stands after these lines and a piece of the next, which does not come whole. */
    ghost predicate Short(all: seq<Byte>, reach: nat, lines: seq<seq<Byte>>, piece: seq<Byte>, size: nat)
      requires size >= 1 && Usable()
      reads this, buf
    {
      && Cut(all, |lines|, size) == (lines, piece + Ahead()) && LinesReached(all, |lines|, size, reach) == |lines|
      && LinesReached(all, |lines| + 1, size, reach) == |lines|
    }

    /** One of these calls, after the lines before. */
    method OneLine(dst: array<Byte>, ghost all: seq<Byte>, ghost events: seq<NetEvent>, ghost reach: nat, ghost lines: seq<seq<Byte>>)
      returns (more: bool, text: seq<Byte>, ghost line: seq<Byte>)
      requires Usable() && dst.Length >= 1 && Consumed(events, script)
      requires Between(all, reach, lines, dst.Length)
      modifies this, buf, dst
      ensures Usable() && buf == old(buf) && timeout == old(timeout) && Consumed(events, script)
      ensures more ==> Between(all, reach, lines + [line], dst.Length) && text == Stored(line, dst.Length)
      ensures !more ==> Short(all, reach, lines, line, dst.Length) && CutShort(events, script, incoming, timeout)
    {
      ghost var before, stream := script, Ahead();
      NextTaken(all, lines, stream, dst.Length, reach);
      var ret;
      ret, line := RecvLine(dst);
      StillConsumed(events, before, script, incoming, timeout);
      more := LineCame(dst, ret, line);
      text := dst[..ret];
      if more {
        WholeLine(stream, line, Ahead(), dst.Length);
      }
    }

    /** What the next line makes of the lines taken, when it comes whole and when it does not. */
    static lemma {:induction false} NextTaken(all: seq<Byte>, lines: seq<seq<Byte>>, stream: seq<Byte>, size: nat, reach: nat)
      requires size >= 1 && Cut(all, |lines|, size) == (lines, stream) && LinesReached(all, |lines|, size, reach) == |lines|
      ensures |stream| <= |all|
      ensures var line := NextLine(stream, size);
        Cut(all, |lines| + 1, size) == (lines + [line], stream[|line|..])
      ensures LinesReached(all, |lines| + 1, size, reach) ==
              |lines| + if LineReached(stream, size, reach - (|all| - |stream|)) then 1 else 0
    {
    }

    static lemma {:induction false} WholeLine(stream: seq<Byte>, line: seq<Byte>, rest: seq<Byte>, size: nat)
      requires Complete(line, size) && line + rest == stream
      ensures line == NextLine(stream, size) && stream[|line|..] == rest
    {
      NextLineIs(stream, line, size);
    }

    /** Whether the piece that came is a whole line: a caller sees it by its length and its last byte. */
    method LineCame(dst: array<Byte>, ret: int, ghost line: seq<Byte>) returns (whole: bool)
      requires dst.Length >= 1 && ret == |line| <= dst.Length && Finished(dst[..], line, dst.Length)
      requires Complete(line, dst.Length) || (Unfinished(line) && |line| < dst.Length)
      requires !Complete(line, dst.Length) ==> ret < dst.Length && dst[..ret] == line
      ensures whole == Complete(line, dst.Length)
      ensures whole ==> dst[..ret] == Stored(line, dst.Length)
    {
      whole := ret > 0 && (ret == dst.Length || dst[ret - 1] == 0 || dst[ret - 1] == NEWLINE);
    }

    /** A stream that falls silent within a line: the bytes behind the piece are what they were. */
    static method UnterminatedPiece() returns (ret: int, text: seq<Byte>)
      ensures ret == 1 && text == [65, 7, 7, 7]
    {
      var c := new Connection([Arrives(1), Silence, Silence, Silence], [65, NEWLINE], 3);
      var dst := new Byte[4](_ => 7);
      assert c.Ahead() == [65, NEWLINE] && NextLine([NEWLINE], 3) == [NEWLINE];
      assert NextLine([65, NEWLINE], 4) == [65, NEWLINE];
      SilentAfterOne();
      ghost var line;
      ret, line := c.RecvLine(dst);
      text := dst[..];
    }

    static lemma {:induction false} SilentAfterOne()
      ensures Supply([Arrives(1), Silence, Silence, Silence], 3, 0, 1) == 1
    {
      var e := [Arrives(1), Silence, Silence, Silence];
      assert e[1..] == [Silence, Silence, Silence] && e[1..][1..] == [Silence, Silence] && e[1..][1..][1..] == [Silence];
      assert Supply([Silence], 3, 2, 1) == 0;
      assert Supply([Silence, Silence], 3, 1, 1) == 0;
      assert Supply([Silence, Silence, Silence], 3, 0, 1) == 0;
    }

    /**
     stream_set_buffer, with mem for what the allocator does. When realloc moves the block the
     connection is left with a pointer to freed memory.
     */
    method SetBuffer(sz: int, mem: Memory) returns (ret: int)
      requires Usable()
      modifies `buf, `bufsz, `bufcnt, `bufptr, buf
      ensures ret == SetBufferResult(old(Abs()), sz, mem)
      ensures AfterSetBuffer(old(Abs()), sz, mem).Some? ==>
                Usable() && Abs() == AfterSetBuffer(old(Abs()), sz, mem).value && Ahead() == old(Ahead())
      ensures AfterSetBuffer(old(Abs()), sz, mem).None? ==> buf != null && !buf.live && ret == 0
    {
      SetBufferConserves(Abs(), sz, mem);
      if sz < bufcnt {
        return -1;
      }
      if sz == 0 {
        if buf != null {
          buf.live := false;
          buf := null;
        }
        bufsz := 0;
        return 0;
      } else if buf == null {
        if mem.NoMemory? {
          return -1;
        }
        buf := new Block(seq(sz, _ => 0));
        bufsz, bufptr, bufcnt := sz, 0, 0;
        return 0;
      }
      if bufcnt > 0 {
        buf.data := buf.data[bufptr..bufptr + bufcnt] + buf.data[bufcnt..];
        bufptr := 0;
      }
      match mem {
        case NoMemory => return -1;
        case InPlace => buf.data := Fit(buf.data, sz);
        case Elsewhere => buf.live := false;
      }
      bufsz := sz;
      return 0;
    }
  }
}
