/**
 The table of stream descriptors (misc/network.c, connections[]): who holds which slot, which
 sockets are closed, and writing to a TCP connection.
 */
module Descriptors {
  import opened Bytes

  const FD_MAX: nat := 1024
  const FD_OFF: int := 1_000_000
  const ENCAPS_IP := 1
  const ENCAPS_SSL_FIRST := 2
  const ENCAPS_SSL_LAST := 8
  const EPIPE: int := 32

  /** The fields of openvas_connection that are used here; pid 0 marks a free slot. */
  datatype Slot = Slot(pid: int, fd: int, transport: int, lastErr: int, split: bool)

  const ZERO := Slot(0, 0, 0, 0, false)

  /** The table, and the sockets closed so far. */
  datatype World = World(slots: seq<Slot>, closed: seq<int>)

  /** OPENVAS_STREAM */
  predicate IsStream(fd: int) {
    0 <= fd - FD_OFF < FD_MAX
  }

  /** The place of the first free slot, or the length of the table. */
  function FirstFree(slots: seq<Slot>, from: nat): (i: nat)
    requires from <= |slots|
    ensures from <= i <= |slots| && (i < |slots| ==> slots[i].pid == 0)
    ensures forall j :: from <= j < i ==> slots[j].pid != 0
    decreases |slots| - from
  {
    if from == |slots| || slots[from].pid == 0 then from else FirstFree(slots, from + 1)
  }

  datatype Call = Register(pid: int, soc: int, encaps: int) | Release(fd: int) | Deregister(fd: int)

  function Result(slots: seq<Slot>, c: Call): int {
    match c
    case Register(_, _, _) => if FirstFree(slots, 0) < |slots| then FD_OFF + FirstFree(slots, 0) else -1
    case Release(fd) => if IsStream(fd) then 0 else -1
    case Deregister(fd) => if IsStream(fd) then 0 else -1
  }

  function Perform(w: World, c: Call): World
    requires |w.slots| == FD_MAX
  {
    match c
    case Register(pid, soc, encaps) =>
      var i := FirstFree(w.slots, 0);
      if i == |w.slots| then w else w.(slots := w.slots[i := Slot(pid, soc, encaps, 0, false)])
    case Release(fd) =>
      if !IsStream(fd) then w
      else
        var s := w.slots[fd - FD_OFF];
        World(w.slots[fd - FD_OFF := ZERO.(transport := -1)], if s.fd >= 0 then w.closed + [s.fd] else w.closed)
    case Deregister(fd) =>
      if !IsStream(fd) then w else w.(slots := w.slots[fd - FD_OFF := ZERO.(transport := -1)])
  }

  // ----- what becomes of the sockets

  predicate Held(slots: seq<Slot>, fd: int) {
    0 <= fd - FD_OFF < |slots| && slots[fd - FD_OFF].pid != 0
  }

  /** How many used slots have the socket s. */
  ghost function InUse(slots: seq<Slot>, s: int): nat {
    if slots == [] then 0
    else
      var last := slots[|slots| - 1];
      InUse(slots[..|slots| - 1], s) + if last.pid != 0 && last.fd == s then 1 else 0
  }

  ghost function Times(l: seq<int>, s: int): nat {
    if l == [] then 0 else Times(l[..|l| - 1], s) + if l[|l| - 1] == s then 1 else 0
  }

  lemma {:induction false} InUseUpdate(slots: seq<Slot>, i: nat, x: Slot, s: int)
    requires i < |slots|
    ensures InUse(slots[i := x], s) == InUse(slots, s)
              - (if slots[i].pid != 0 && slots[i].fd == s then 1 else 0)
              + (if x.pid != 0 && x.fd == s then 1 else 0)
  {
    var k := |slots| - 1;
    if i < k {
      InUseUpdate(slots[..k], i, x, s);
      assert slots[i := x][..k] == slots[..k][i := x];
    } else {
      assert slots[i := x][..k] == slots[..k];
    }
  }

  lemma {:induction false} TimesAppend(l: seq<int>, x: int, s: int)
    ensures Times(l + [x], s) == Times(l, s) + if x == s then 1 else 0
  {
    assert (l + [x])[..|l|] == l;
  }

  /** Free slots have socket number 0, not -1, in the zeroed table and after a release. */
  ghost predicate Valid(w: World) {
    |w.slots| == FD_MAX && forall i :: 0 <= i < |w.slots| && w.slots[i].pid == 0 ==> w.slots[i].fd == 0
  }

  predicate Possible(c: Call) {
    c.Register? ==> c.pid != 0
  }

  /** The sockets a call puts into the table, takes out without closing, and closes without their being there. */
  ghost function Entered(w: World, c: Call, s: int): nat {
    if c.Register? && FirstFree(w.slots, 0) < |w.slots| && c.soc == s then 1 else 0
  }

  ghost function GivenUp(w: World, c: Call, s: int): nat {
    if c.Deregister? && Held(w.slots, c.fd) && w.slots[c.fd - FD_OFF].fd == s then 1 else 0
  }

  ghost function Stray(w: World, c: Call, s: int): nat
    requires |w.slots| == FD_MAX
  {
    if c.Release? && IsStream(c.fd) && !Held(w.slots, c.fd) && s == 0 then 1 else 0
  }

  /** Each call accounts for every socket: what is closed or in use was registered, except the 0 of a stray release. */
  lemma {:induction false} CallAccounts(w: World, c: Call, s: int)
    requires Valid(w) && Possible(c) && s >= 0
    ensures Valid(Perform(w, c))
    ensures var w' := Perform(w, c);
      Times(w'.closed, s) + InUse(w'.slots, s) + GivenUp(w, c, s)
        == Times(w.closed, s) + InUse(w.slots, s) + Entered(w, c, s) + Stray(w, c, s)
  {
    match c
    case Register(pid, soc, encaps) =>
      var i := FirstFree(w.slots, 0);
      if i < |w.slots| {
        InUseUpdate(w.slots, i, Slot(pid, soc, encaps, 0, false), s);
      }
    case Release(fd) =>
      if IsStream(fd) {
        InUseUpdate(w.slots, fd - FD_OFF, ZERO.(transport := -1), s);
        TimesAppend(w.closed, w.slots[fd - FD_OFF].fd, s);
      }
    case Deregister(fd) =>
      if IsStream(fd) {
        InUseUpdate(w.slots, fd - FD_OFF, ZERO.(transport := -1), s);
      }
  }

  ghost predicate IsRun(run: seq<World>, calls: seq<Call>) {
    && |run| == |calls| + 1 && Valid(run[0])
    && run[0].closed == [] && (forall i :: 0 <= i < FD_MAX ==> run[0].slots[i] == ZERO)
    && forall i {:trigger calls[i]} :: 0 <= i < |calls| ==>
         |run[i].slots| == FD_MAX && Possible(calls[i]) && run[i + 1] == Perform(run[i], calls[i])
  }

  /** Sums over a run. */
  ghost function AllEntered(run: seq<World>, calls: seq<Call>, k: nat, s: int): nat
    requires k <= |calls| <= |run|
  {
    if k == 0 then 0 else AllEntered(run, calls, k - 1, s) + Entered(run[k - 1], calls[k - 1], s)
  }

  ghost function AllGivenUp(run: seq<World>, calls: seq<Call>, k: nat, s: int): nat
    requires k <= |calls| <= |run|
  {
    if k == 0 then 0 else AllGivenUp(run, calls, k - 1, s) + GivenUp(run[k - 1], calls[k - 1], s)
  }

  ghost function AllStray(run: seq<World>, calls: seq<Call>, k: nat, s: int): nat
    requires k <= |calls| <= |run| && forall i :: 0 <= i < k ==> |run[i].slots| == FD_MAX
  {
    if k == 0 then 0 else AllStray(run, calls, k - 1, s) + Stray(run[k - 1], calls[k - 1], s)
  }

  lemma {:induction false} NothingInUse(slots: seq<Slot>, s: int)
    requires forall i :: 0 <= i < |slots| ==> slots[i] == ZERO
    ensures InUse(slots, s) == 0
  {
    if slots != [] {
      NothingInUse(slots[..|slots| - 1], s);
    }
  }

  /**
   Over every run, each socket is closed, in use or deregistered as often as it was registered;
   only descriptor 0 is closed once more for every release of a slot that was free.
   */
  lemma {:induction false} SocketsAreAccountedFor(run: seq<World>, calls: seq<Call>, k: nat, s: int)
    requires IsRun(run, calls) && k <= |calls| && s >= 0
    ensures Valid(run[k]) && forall i :: 0 <= i < k ==> |run[i].slots| == FD_MAX
    ensures Times(run[k].closed, s) + InUse(run[k].slots, s) + AllGivenUp(run, calls, k, s)
            == AllEntered(run, calls, k, s) + AllStray(run, calls, k, s)
  {
    if k == 0 {
      NothingInUse(run[0].slots, s);
    } else {
      SocketsAreAccountedFor(run, calls, k - 1, s);
      assert run[k - 1 + 1] == Perform(run[k - 1], calls[k - 1]);
      CallAccounts(run[k - 1], calls[k - 1], s);
    }
  }

  /** A release closes descriptor 0 exactly when the slot is free or holds descriptor 0 itself. */
  lemma {:induction false} ReleaseClosesZeroIff(w: World, fd: int)
    requires Valid(w) && IsStream(fd)
    ensures Perform(w, Release(fd)).closed == w.closed + [0] <==>
            !Held(w.slots, fd) || w.slots[fd - FD_OFF].fd == 0
  {
    var s := w.slots[fd - FD_OFF];
    var closed := Perform(w, Release(fd)).closed;
    if s.fd >= 0 {
      assert closed[|w.closed|] == s.fd;
    } else {
      assert |closed| == |w.closed|;
    }
  }

  /** A new descriptor was nobody's, is a stream descriptor, and is the lowest that was free; there is none exactly when all are taken. */
  lemma {:induction false} NewDescriptorIsFree(w: World, pid: int, soc: int, encaps: int)
    requires Valid(w) && pid != 0
    ensures var c := Register(pid, soc, encaps);
      var fd := Result(w.slots, c);
      if fd == -1 then forall f :: IsStream(f) ==> Held(w.slots, f)
      else
        && IsStream(fd) && !Held(w.slots, fd) && (forall f :: FD_OFF <= f < fd ==> Held(w.slots, f))
        && Held(Perform(w, c).slots, fd)
        && forall f :: f != fd ==> (Held(Perform(w, c).slots, f) <==> Held(w.slots, f))
  {
  }

  /** Registering a socket and releasing it closes that socket and frees the slot. */
  lemma {:induction false} RegisterThenRelease(w: World, pid: int, soc: int, encaps: int)
    requires Valid(w) && pid != 0 && soc >= 0 && Result(w.slots, Register(pid, soc, encaps)) != -1
    ensures var fd := Result(w.slots, Register(pid, soc, encaps));
      var w' := Perform(Perform(w, Register(pid, soc, encaps)), Release(fd));
      w'.closed == w.closed + [soc] && w'.slots == w.slots[fd - FD_OFF := ZERO.(transport := -1)]
  {
  }

  // ----- writing

  /** How many of n bytes go out; a split connection offers one byte at a time. */
  function Sent(n: nat, sends: seq<int>, split: bool): (m: nat)
    ensures m <= n
  {
    if n == 0 || sends == [] || sends[0] <= 0 then 0
    else
      var k := if split then 1 else if sends[0] > n then n else sends[0];
      k + Sent(n - k, sends[1..], split)
  }

  /** The error a write leaves: none, that of the refusing call, or that of a peer that has gone. */
  function ErrorAfter(n: nat, sends: seq<int>, split: bool): int {
    if n == 0 then 0
    else if sends == [] || sends[0] == 0 then EPIPE
    else if sends[0] < 0 then -sends[0]
    else ErrorAfter(n - (if split then 1 else if sends[0] > n then n else sends[0]), sends[1..], split)
  }

  /** What the calls take together before the first that refuses; a split connection counts calls. */
  function Offers(sends: seq<int>, split: bool): nat {
    if sends == [] || sends[0] <= 0 then 0
    else (if split then 1 else sends[0]) + Offers(sends[1..], split)
  }

  /** Everything the calls take goes out: a rest stays, with an error, exactly when they refuse before. */
  lemma {:induction false} SentIs(n: nat, sends: seq<int>, split: bool)
    ensures Sent(n, sends, split) == if Offers(sends, split) < n then Offers(sends, split) else n
    ensures ErrorAfter(n, sends, split) == 0 <==> Offers(sends, split) >= n
  {
    if n > 0 && sends != [] && sends[0] > 0 {
      SentIs(n - (if split then 1 else if sends[0] > n then n else sends[0]), sends[1..], split);
    }
  }

  // ----- the table in place

  class Table {
    const connections: array<Slot>
    var closed: seq<int>    // what socket_close was called with

    ghost function View(): World
      reads this, connections
    {
      World(connections[..], closed)
    }

    constructor ()
      ensures Valid(View()) && closed == [] && fresh(connections)
      ensures forall i :: 0 <= i < FD_MAX ==> View().slots[i] == ZERO
    {
      connections := new Slot[FD_MAX](_ => ZERO);
      closed := [];
    }

    /** get_connection_fd */
    method GetConnectionFd(pid: int) returns (fd: int)
      requires connections.Length == FD_MAX
      modifies connections
      ensures fd == Result(old(connections[..]), Register(pid, 0, 0))
      ensures fd == -1 ==> connections[..] == old(connections[..])
      ensures fd != -1 ==> IsStream(fd) && connections[..] == old(connections[..])[fd - FD_OFF := ZERO.(pid := pid)]
    {
      var i := 0;
      while i < FD_MAX && connections[i].pid != 0
        invariant 0 <= i <= FD_MAX && connections[..] == old(connections[..])
        invariant FirstFree(connections[..], 0) >= i
      {
        i := i + 1;
      }
      if i < FD_MAX {
        connections[i] := ZERO;
        connections[i] := connections[i].(pid := pid);
        return i + FD_OFF;
      }
      return -1;
    }

    /** openvas_register_connection */
    method RegisterConnection(pid: int, soc: int, encaps: int) returns (fd: int)
      requires connections.Length == FD_MAX
      modifies connections
      ensures fd == Result(old(connections[..]), Register(pid, soc, encaps))
      ensures View() == Perform(old(View()), Register(pid, soc, encaps))
    {
      fd := GetConnectionFd(pid);
      if fd < 0 {
        return -1;
      }
      connections[fd - FD_OFF] := connections[fd - FD_OFF].(fd := soc, transport := encaps, lastErr := 0);
    }

    /** release_connection_fd */
    method ReleaseConnectionFd(fd: int) returns (ret: int)
      requires connections.Length == FD_MAX
      modifies connections, `closed
      ensures ret == Result(old(connections[..]), Release(fd)) && View() == Perform(old(View()), Release(fd))
    {
      if !IsStream(fd) {
        return -1;
      }
      var p := connections[fd - FD_OFF];
      if p.fd >= 0 {
        closed := closed + [p.fd];
      }
      connections[fd - FD_OFF] := ZERO.(transport := -1);
      return 0;
    }

    /** openvas_deregister_connection */
    method DeregisterConnection(fd: int) returns (ret: int)
      requires connections.Length == FD_MAX
      modifies connections
      ensures ret == Result(old(connections[..]), Deregister(fd)) && View() == Perform(old(View()), Deregister(fd))
    {
      if !IsStream(fd) {
        return -1;
      }
      connections[fd - FD_OFF] := ZERO.(transport := -1);
      return 0;
    }

    /**
     write_stream_connection4 on a connection without TLS; sends says what the calls of send return: a
     number of bytes (cut to those offered), 0, or minus an error number. When sends is used up
     the peer has gone. sent is what went out.
     */
    method WriteStream(fd: int, buf: seq<Byte>, sends: seq<int>) returns (ret: int, sent: seq<Byte>)
      requires connections.Length == FD_MAX
      requires IsStream(fd) ==> !(ENCAPS_SSL_FIRST <= connections[fd - FD_OFF].transport <= ENCAPS_SSL_LAST)
      modifies connections
      ensures !IsStream(fd) ==> ret == -1 && sent == [] && connections[..] == old(connections[..])
      ensures IsStream(fd) ==>
        var s := old(connections[fd - FD_OFF]);
        if s.transport != ENCAPS_IP then
          ret == -1 && sent == [] && connections[..] == old(connections[..])[fd - FD_OFF := s.(lastErr := 0)]
        else
          && sent == buf[..Sent(|buf|, sends, s.split)]
          && ret == (if sent == [] && buf != [] then -1 else |sent|)
          && connections[..] == old(connections[..])[fd - FD_OFF := s.(lastErr := ErrorAfter(|buf|, sends, s.split))]
    {
      sent := [];
      if !IsStream(fd) {
        return -1, sent;
      }
      var i := fd - FD_OFF;
      connections[i] := connections[i].(lastErr := 0);
      if connections[i].transport != ENCAPS_IP {
        return -1, sent;
      }
      ghost var s := old(connections[i]);
      var count, k, more := 0, 0, true;
      while more && count < |buf|
        invariant 0 <= count <= |buf| && 0 <= k <= |sends| && sent == buf[..count]
        invariant connections[..] == old(connections[..])[i := s.(lastErr := connections[i].lastErr)]
        invariant more ==> connections[i].lastErr == 0
        invariant more ==> Sent(|buf|, sends, s.split) == count + Sent(|buf| - count, sends[k..], s.split)
        invariant more ==> ErrorAfter(|buf|, sends, s.split) == ErrorAfter(|buf| - count, sends[k..], s.split)
        invariant !more ==> count == Sent(|buf|, sends, s.split) && connections[i].lastErr == ErrorAfter(|buf|, sends, s.split)
        decreases more, |buf| - count
      {
        var offered := if connections[i].split then 1 else |buf| - count;
        var r := if k < |sends| then (if sends[k] > offered then offered else sends[k]) else 0;
        assert k < |sends| ==> sends[k..][0] == sends[k] && sends[k..][1..] == sends[k + 1..];
        k := if k < |sends| then k + 1 else k;
        if r <= 0 {
          connections[i] := connections[i].(lastErr := if r < 0 then -r else EPIPE);
          more := false;
        } else {
          sent := sent + buf[count..count + r];
          count := count + r;
        }
      }
      ret := if count == 0 && |buf| > 0 then -1 else count;
    }
  }
}
