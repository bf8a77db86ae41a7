/**
 One process calling internal_send for each of `msgs` in turn and one process calling
 internal_recv in a loop, joined by a socket pair that splits every transfer as it likes.
 */
module IpcSystem {
  import opened Options
  import opened Bytes
  import opened Ipc

  datatype State = State(
    sent: nat,                // how many internal_send calls have returned 0
    sender: SenderPhase,      // Returned once there is nothing left to send
    receiver: ReceiverPhase,  // Reading or Acking
    frames: seq<Byte>,        // bytes in flight to the receiver
    acks: seq<Byte>,          // bytes in flight to the sender
    received: seq<Message>,   // what the internal_recv calls returned
    senderUp: bool,           // false after an internal_send call returned -1
    receiverUp: bool)         // false after an internal_recv call returned -1

  datatype Party = TheSender | TheReceiver

  ghost predicate AllSendable(msgs: seq<Message>) {
    forall i :: 0 <= i < |msgs| ==> Sendable(msgs[i])
  }

  function StartSending(msgs: seq<Message>, i: nat): SenderPhase {
    if i < |msgs| then Sending(0) else Returned
  }

  function Initial(msgs: seq<Message>): State {
    State(0, StartSending(msgs, 0), Reading([]), [], [], [], true, true)
  }

  /** The sender's side of one system call, starting the next message when one is acknowledged. */
  ghost predicate SenderMoves(msgs: seq<Message>, s: State, a: Action, s': State)
    requires AllSendable(msgs)
  {
    && s.senderUp && s.sent < |msgs|
    && var p := SenderStep(Frame(msgs[s.sent]), s.sender, a);
    && p.Some?
    && match a
       case Failed => s' == s.(senderUp := false)
       case Interrupted => s' == s
       case Put(b) => s' == s.(sender := p.value, frames := s.frames + b)
       case Take(b) =>
         && b <= s.acks
         && s' == (if p.value.Returned?
                   then s.(sent := s.sent + 1, sender := StartSending(msgs, s.sent + 1))
                   else s.(sender := p.value)).(acks := s.acks[|b|..])
  }

  /** The receiver's side of one system call, reading the next message when one is acknowledged. */
  ghost predicate ReceiverMoves(s: State, a: Action, s': State) {
    && s.receiverUp
    && var p := ReceiverStep(s.receiver, a);
    && p.Some?
    && match a
       case Failed => s' == s.(receiverUp := false)
       case Interrupted => s' == s
       case Take(b) => b <= s.frames && s' == s.(receiver := p.value, frames := s.frames[|b|..])
       case Put(b) =>
         s' == (if p.value.Took? && |p.value.frame| >= 4
                then s.(received := s.received + [Decode(p.value.frame)], receiver := Reading([]))
                else s.(receiver := p.value)).(acks := s.acks + b)
  }

  ghost predicate Moves(msgs: seq<Message>, s: State, who: Party, a: Action, s': State)
    requires AllSendable(msgs)
  {
    if who.TheSender? then SenderMoves(msgs, s, a, s') else ReceiverMoves(s, a, s')
  }

  /** `run` is the history of states when the processes make the system calls `calls` in turn. */
  ghost predicate IsRun(msgs: seq<Message>, run: seq<State>, calls: seq<(Party, Action)>)
    requires AllSendable(msgs)
  {
    && |run| == |calls| + 1 && run[0] == Initial(msgs)
    && forall i :: 0 <= i < |calls| ==> Moves(msgs, run[i], calls[i].0, calls[i].1, run[i + 1])
  }

  // ----- the invariant of stop-and-wait

  /** Nothing is outstanding. */
  ghost predicate Quiet(msgs: seq<Message>, s: State) {
    && s.sent == |msgs| && s.sender == Returned
    && s.receiver == Reading([]) && s.frames == [] && s.acks == []
    && s.received == Deliveries(msgs)
  }

  /** The frame of msgs[sent] is partly written, and what is written is read or in flight. */
  ghost predicate FrameOnItsWay(msgs: seq<Message>, s: State)
    requires AllSendable(msgs)
  {
    && s.sent < |msgs|
    && var f := Frame(msgs[s.sent]);
    && (s.sender == Waiting(0) || (s.sender.Sending? && s.sender.off < |f|))
    && s.receiver.Reading? && s.acks == []
    && s.receiver.got + s.frames == (if s.sender.Sending? then f[..s.sender.off] else f)
    && Need(s.receiver.got) > 0
    && s.received == Deliveries(msgs[..s.sent])
  }

  /** The receiver has the frame and is writing its acknowledgement. */
  ghost predicate AckOnItsWay(msgs: seq<Message>, s: State)
    requires AllSendable(msgs)
  {
    && s.sent < |msgs| && s.frames == []
    && s.sender.Waiting? && s.sender.got < |ACK|
    && s.receiver.Acking? && s.receiver.frame == Frame(msgs[s.sent])
    && s.sender.got <= s.receiver.off < |ACK|
    && s.acks == ACK[s.sender.got..s.receiver.off]
    && s.received == Deliveries(msgs[..s.sent])
  }

  /** internal_recv has returned, and the sender is still reading the acknowledgement. */
  ghost predicate AckComplete(msgs: seq<Message>, s: State) {
    && s.sent < |msgs| && s.frames == []
    && s.sender.Waiting? && s.sender.got < |ACK|
    && s.receiver == Reading([])
    && s.acks == ACK[s.sender.got..]
    && s.received == Deliveries(msgs[..s.sent + 1])
  }

  ghost predicate Inv(msgs: seq<Message>, s: State)
    requires AllSendable(msgs)
  {
    Quiet(msgs, s) || FrameOnItsWay(msgs, s) || AckOnItsWay(msgs, s) || AckComplete(msgs, s)
  }

  lemma {:induction false} InvInitial(msgs: seq<Message>)
    requires AllSendable(msgs)
    ensures Inv(msgs, Initial(msgs))
  {
    if msgs != [] {
      FrameSelfDelimiting(msgs[0], []);
      assert FrameOnItsWay(msgs, Initial(msgs));
    }
  }

  lemma {:induction false} SenderPuts(msgs: seq<Message>, s: State, b: seq<Byte>, s': State)
    requires AllSendable(msgs)
    requires Inv(msgs, s) && SenderMoves(msgs, s, Put(b), s')
    ensures FrameOnItsWay(msgs, s')
  {
    var f := Frame(msgs[s.sent]);
    var off := s.sender.off;
    assert f[..off] + f[off..off + |b|] == f[..off + |b|];
    assert f[..|f|] == f;
    assert s.receiver.got + (s.frames + b) == (s.receiver.got + s.frames) + b;
  }

  lemma {:induction false} SenderTakes(msgs: seq<Message>, s: State, b: seq<Byte>, s': State)
    requires AllSendable(msgs)
    requires Inv(msgs, s) && SenderMoves(msgs, s, Take(b), s')
    ensures Inv(msgs, s')
  {
    assert s.sender.Waiting? && s.acks != [];
    if AckOnItsWay(msgs, s) {
      assert s'.acks == ACK[s.sender.got + |b|..s.receiver.off];
      assert AckOnItsWay(msgs, s');
    } else if s'.sent == s.sent {
      assert s'.acks == ACK[s.sender.got + |b|..];
      assert AckComplete(msgs, s');
    } else if s'.sent < |msgs| {
      FrameSelfDelimiting(msgs[s'.sent], []);
      assert FrameOnItsWay(msgs, s');
    } else {
      assert msgs[..s'.sent] == msgs;
    }
  }

  lemma {:induction false} Regrouped(got: seq<Byte>, b: seq<Byte>, frames: seq<Byte>)
    requires b <= frames
    ensures (got + b) + frames[|b|..] == got + frames
  {
  }

  lemma {:induction false} ReceiverTakes(msgs: seq<Message>, s: State, b: seq<Byte>, s': State)
    requires AllSendable(msgs)
    requires Inv(msgs, s) && ReceiverMoves(s, Take(b), s')
    ensures Inv(msgs, s')
  {
    assert FrameOnItsWay(msgs, s);
    var f := Frame(msgs[s.sent]);
    var got := s.receiver.got + b;
    Regrouped(s.receiver.got, b, s.frames);
    assert got <= got + s'.frames <= f;
    FrameSelfDelimiting(msgs[s.sent], got);
    if Need(got) == 0 {
      assert got == f;
      assert AckOnItsWay(msgs, s');
    } else {
      assert FrameOnItsWay(msgs, s');
    }
  }

  lemma {:induction false} ReceiverPuts(msgs: seq<Message>, s: State, b: seq<Byte>, s': State)
    requires AllSendable(msgs)
    requires Inv(msgs, s) && ReceiverMoves(s, Put(b), s')
    ensures Inv(msgs, s')
  {
    assert AckOnItsWay(msgs, s);
    var off := s.receiver.off;
    SliceConcat(ACK, s.sender.got, off, off + |b|);
    if off + |b| < |ACK| {
      assert AckOnItsWay(msgs, s');
    } else {
      FrameRoundTrip(msgs[s.sent]);
      assert Deliveries(msgs[..s.sent]) + [Delivery(msgs[s.sent])] == Deliveries(msgs[..s.sent + 1]);
      assert s'.acks == ACK[s.sender.got..];
      assert AckComplete(msgs, s');
    }
  }

  lemma {:induction false} InvStep(msgs: seq<Message>, s: State, who: Party, a: Action, s': State)
    requires AllSendable(msgs)
    requires Inv(msgs, s) && Moves(msgs, s, who, a, s')
    ensures Inv(msgs, s')
  {
    match (who, a)
    case (TheSender, Put(b)) => SenderPuts(msgs, s, b, s');
    case (TheSender, Take(b)) => SenderTakes(msgs, s, b, s');
    case (TheReceiver, Take(b)) => ReceiverTakes(msgs, s, b, s');
    case (TheReceiver, Put(b)) => ReceiverPuts(msgs, s, b, s');
    case (_, Interrupted) =>
    case (_, Failed) =>
      assert FrameOnItsWay(msgs, s) ==> FrameOnItsWay(msgs, s');
  }

  lemma {:induction false} InvAlways(msgs: seq<Message>, run: seq<State>, calls: seq<(Party, Action)>)
    requires AllSendable(msgs)
    requires IsRun(msgs, run, calls)
    ensures Inv(msgs, run[|calls|])
  {
    var n := |calls|;
    if n == 0 {
      InvInitial(msgs);
    } else {
      InvAlways(msgs, run[..n], calls[..n - 1]);
      assert Moves(msgs, run[n - 1], calls[n - 1].0, calls[n - 1].1, run[n - 1 + 1]);
      InvStep(msgs, run[n - 1], calls[n - 1].0, calls[n - 1].1, run[n]);
    }
  }

  // ----- what every run guarantees

  /**
   In every reachable state, also after failures on either side: what was received is a
   prefix of what was sent; a returned internal_send was received; and at most one frame or
   one acknowledgement is in flight.
   */
  lemma {:induction false} Safety(msgs: seq<Message>, run: seq<State>, calls: seq<(Party, Action)>)
    requires AllSendable(msgs)
    requires IsRun(msgs, run, calls)
    ensures var s := run[|calls|];
      && s.received <= Deliveries(msgs)
      && s.sent <= |s.received| <= s.sent + 1
      && (s.frames == [] || s.acks == [])
      && |s.acks| <= |ACK|
      && (if s.sent < |msgs| then |s.frames| <= |Frame(msgs[s.sent])| else s.frames == [] == s.acks)
  {
    InvAlways(msgs, run, calls);
    var s := run[|calls|];
    InvBounds(msgs, s);
    assert Deliveries(msgs[..|s.received|]) == Deliveries(msgs)[..|s.received|];
  }

  lemma {:induction false} InvBounds(msgs: seq<Message>, s: State)
    requires AllSendable(msgs)
    requires Inv(msgs, s)
    ensures s.sent <= |s.received| <= |msgs| && |s.received| <= s.sent + 1
    ensures s.received == Deliveries(msgs[..|s.received|])
    ensures s.sent < |msgs| ==> s.sender.Sending? || s.sender.Waiting?
    ensures s.receiver.Acking? ==> |s.receiver.frame| >= 4
  {
    if Quiet(msgs, s) {
      assert msgs[..|msgs|] == msgs;
    }
  }

  /** Something other than a failure or an interruption can happen. */
  ghost predicate CanProgress(msgs: seq<Message>, s: State)
    requires AllSendable(msgs)
  {
    exists who, a, s' :: Moves(msgs, s, who, a, s') && !a.Failed? && !a.Interrupted?
  }

  /** The two processes never wait for each other: while both are up, some call moves bytes. */
  lemma {:induction false} NoDeadlock(msgs: seq<Message>, s: State)
    requires AllSendable(msgs)
    requires Inv(msgs, s) && s.senderUp && s.receiverUp
    ensures CanProgress(msgs, s) <==> !Quiet(msgs, s)
  {
    if Quiet(msgs, s) {
      assert forall who, a, s' :: Moves(msgs, s, who, a, s') ==> a.Failed? || a.Interrupted?;
    } else if s.sender.Sending? {
      var b := Frame(msgs[s.sent])[s.sender.off..];
      var s' := s.(sender := Waiting(0), frames := s.frames + b);
      assert Moves(msgs, s, TheSender, Put(b), s');
    } else if s.acks != [] {
      var b := s.acks;
      var p := SenderStep(Frame(msgs[s.sent]), s.sender, Take(b)).value;
      var s' := (if p.Returned? then s.(sent := s.sent + 1, sender := StartSending(msgs, s.sent + 1))
                 else s.(sender := p)).(acks := []);
      assert s.acks[|b|..] == [];
      assert Moves(msgs, s, TheSender, Take(b), s');
    } else if s.receiver.Acking? {
      var b := ACK[s.receiver.off..];
      var s' := s.(received := s.received + [Decode(s.receiver.frame)], receiver := Reading([]),
                   acks := s.acks + b);
      assert Moves(msgs, s, TheReceiver, Put(b), s');
    } else {
      var got := s.receiver.got;
      FrameSelfDelimiting(msgs[s.sent], got);
      assert s.frames != [];
      var b := s.frames[..1];
      var p := ReceiverStep(s.receiver, Take(b)).value;
      var s' := s.(receiver := p, frames := s.frames[1..]);
      assert Moves(msgs, s, TheReceiver, Take(b), s');
    }
  }

  // ----- progress

  /** The bytes msgs[i..] put on the wire, with their acknowledgements. */
  function Volume(msgs: seq<Message>, i: nat): nat
    requires i <= |msgs|
    requires forall j :: 0 <= j < |msgs| ==> |msgs[j].text| <= MAX_TEXT
    decreases |msgs| - i
  {
    if i == |msgs| then 0 else |Frame(msgs[i])| + |ACK| + Volume(msgs, i + 1)
  }

  /** How many bytes the two processes still have to write or read. */
  ghost function Remaining(msgs: seq<Message>, s: State): int
    requires AllSendable(msgs)
    requires s.sent <= |msgs| && |s.received| <= |msgs|
  {
    var senderDone := match s.sender
      case Sending(off) => off
      case Waiting(n) => if s.sent < |msgs| then |Frame(msgs[s.sent])| + n else 0
      case _ => 0;
    var receiverDone := match s.receiver
      case Reading(got) => |got|
      case Acking(frame, off) => |frame| + off
      case _ => 0;
    Volume(msgs, s.sent) - senderDone + Volume(msgs, |s.received|) - receiverDone
  }

  function Moved(a: Action): nat {
    if a.Put? || a.Take? then |a.bytes| else 0
  }

  lemma {:induction false} SenderProgress(msgs: seq<Message>, s: State, a: Action, s': State)
    requires AllSendable(msgs)
    requires s.sent <= |msgs| && |s.received| <= |msgs|
    requires SenderMoves(msgs, s, a, s')
    ensures s'.sent <= |msgs| && s'.received == s.received
    ensures Remaining(msgs, s') == Remaining(msgs, s) - Moved(a)
    ensures a.Put? || a.Take? ==> Moved(a) > 0
  {
    assert Volume(msgs, s.sent) == |Frame(msgs[s.sent])| + |ACK| + Volume(msgs, s.sent + 1);
  }

  lemma {:induction false} ReceiverReadProgress(msgs: seq<Message>, s: State, b: seq<Byte>, s': State)
    requires AllSendable(msgs)
    requires s.sent <= |msgs| && |s.received| <= |msgs|
    requires ReceiverMoves(s, Take(b), s')
    ensures s'.received == s.received && s'.sent == s.sent
    ensures Remaining(msgs, s') == Remaining(msgs, s) - |b| && |b| > 0
  {
    assert s.receiver.Reading? && s'.sender == s.sender;
  }

  lemma {:induction false} ReceiverAckProgress(msgs: seq<Message>, s: State, b: seq<Byte>, s': State)
    requires AllSendable(msgs)
    requires s.sent < |msgs| && |s.received| == s.sent
    requires s.receiver.Acking? && s.receiver.frame == Frame(msgs[s.sent])
    requires ReceiverMoves(s, Put(b), s')
    ensures |s'.received| <= |msgs| && s'.sent == s.sent
    ensures Remaining(msgs, s') == Remaining(msgs, s) - |b| && |b| > 0
  {
    assert Volume(msgs, s.sent) == |Frame(msgs[s.sent])| + |ACK| + Volume(msgs, s.sent + 1);
    assert s'.sender == s.sender;
    if s.receiver.off + |b| == |ACK| {
      assert |s'.received| == s.sent + 1 && s'.receiver == Reading([]);
    } else {
      assert s'.received == s.received;
    }
  }

  /** Every call lowers Remaining by exactly the bytes it moves, so no run moves bytes forever. */
  lemma {:induction false} StepProgress(msgs: seq<Message>, s: State, who: Party, a: Action, s': State)
    requires AllSendable(msgs)
    requires Inv(msgs, s) && Moves(msgs, s, who, a, s')
    ensures s.sent <= |msgs| && |s.received| <= |msgs|
    ensures s'.sent <= |msgs| && |s'.received| <= |msgs|
    ensures Remaining(msgs, s') == Remaining(msgs, s) - Moved(a)
    ensures a.Put? || a.Take? ==> Moved(a) > 0
  {
    InvBounds(msgs, s);
    if who.TheSender? {
      SenderProgress(msgs, s, a, s');
    } else if a.Take? {
      ReceiverReadProgress(msgs, s, a.bytes, s');
    } else if a.Put? {
      assert AckOnItsWay(msgs, s);
      ReceiverAckProgress(msgs, s, a.bytes, s');
    }
  }

  lemma {:induction false} RemainingNatural(msgs: seq<Message>, s: State)
    requires AllSendable(msgs)
    requires Inv(msgs, s)
    ensures s.sent <= |msgs| && |s.received| <= |msgs| && Remaining(msgs, s) >= 0
  {
    InvBounds(msgs, s);
    if s.sent < |msgs| {
      assert Volume(msgs, s.sent) == |Frame(msgs[s.sent])| + |ACK| + Volume(msgs, s.sent + 1);
      if FrameOnItsWay(msgs, s) {
        FrameSelfDelimiting(msgs[s.sent], s.receiver.got);
      }
    }
  }

  /** The bytes moved by the calls of a run, given who did what. */
  function TotalMoved(calls: seq<(Party, Action)>): nat {
    if calls == [] then 0 else TotalMoved(calls[..|calls| - 1]) + Moved(calls[|calls| - 1].1)
  }

  /**
   The bytes moved so far and the bytes still to move always add up to two per byte of the
   conversation; and a run that can make no more progress while both sides are up has
   delivered every message.
   */
  lemma {:induction false} EverythingArrives(msgs: seq<Message>, run: seq<State>, calls: seq<(Party, Action)>)
    requires AllSendable(msgs)
    requires IsRun(msgs, run, calls)
    ensures var s := run[|calls|];
      && s.sent <= |msgs| && |s.received| <= |msgs|
      && TotalMoved(calls) + Remaining(msgs, s) == 2 * Volume(msgs, 0)
      && Remaining(msgs, s) >= 0
      && (s.senderUp && s.receiverUp && !CanProgress(msgs, s) ==>
            s.sent == |msgs| && s.received == Deliveries(msgs))
  {
    var s := run[|calls|];
    InvAlways(msgs, run, calls);
    RemainingNatural(msgs, s);
    MovedAndRemaining(msgs, run, calls);
    if s.senderUp && s.receiverUp {
      NoDeadlock(msgs, s);
    }
  }

  lemma {:induction false} MovedAndRemaining(msgs: seq<Message>, run: seq<State>, calls: seq<(Party, Action)>)
    requires AllSendable(msgs)
    requires IsRun(msgs, run, calls)
    ensures run[|calls|].sent <= |msgs| && |run[|calls|].received| <= |msgs|
    ensures TotalMoved(calls) + Remaining(msgs, run[|calls|]) == 2 * Volume(msgs, 0)
  {
    var n := |calls|;
    if n > 0 {
      RunBefore(msgs, run, calls);
      MovedAndRemaining(msgs, run[..n], calls[..n - 1]);
      InvAlways(msgs, run[..n], calls[..n - 1]);
      StepProgress(msgs, run[n - 1], calls[n - 1].0, calls[n - 1].1, run[n]);
    }
  }

  /** A run without its last call. */
  lemma {:induction false} RunBefore(msgs: seq<Message>, run: seq<State>, calls: seq<(Party, Action)>)
    requires AllSendable(msgs)
    requires IsRun(msgs, run, calls) && calls != []
    ensures var n := |calls|;
      && IsRun(msgs, run[..n], calls[..n - 1]) && Moves(msgs, run[n - 1], calls[n - 1].0, calls[n - 1].1, run[n])
  {
    var n := |calls|;
    assert Moves(msgs, run[n - 1], calls[n - 1].0, calls[n - 1].1, run[n - 1 + 1]);
  }
}
