/**
 The framed messages two OpenVAS processes exchange over a socket pair
 (misc/network.c, internal_send and internal_recv).

 A message travels as its type, and unless the type is a control type also as its
 length and its text; the receiver answers every message with one acknowledgement.
 This module gives the wire format and the two processes as automata over single
 `send` and `recv` calls; IpcCalls proves that the C functions follow the automata, and
 IpcSystem what the two together guarantee.
 */
module Ipc {
  import opened Options
  import opened Bytes

  const CTRL: nat := 0x1_0000     // INTERNAL_COMM_MSG_TYPE_CTRL
  const CTRL_ACK: nat := 2        // INTERNAL_COMM_CTRL_ACK
  const MAX_TEXT: nat := 0x7FFF_FFFE

  /** What internal_send is given: a type, and a text without NUL (it is measured by strlen). */
  datatype Message = Message(msgType: Int32, text: seq<Byte>)

  ghost predicate Sendable(m: Message) {
    && |m.text| <= MAX_TEXT
    && forall i :: 0 <= i < |m.text| ==> m.text[i] != 0
  }

  /** The test `type & INTERNAL_COMM_MSG_TYPE_CTRL`. */
  predicate IsCtrl(t: Int32) {
    Unsigned(t) / CTRL % 2 == 1
  }

  /** The acknowledgement on the wire. */
  const ACK: seq<Byte> := [2, 0, 1, 0]

  lemma {:induction false} AckBytes()
    ensures ACK == EncodeInt(CTRL + CTRL_ACK)
  {
    assert EncodeNat(0x1_0002, 4) == [2] + EncodeNat(0x100, 3) == [2] + ([0] + EncodeNat(1, 2));
  }

  /** All the bytes internal_send puts on the wire for m. */
  function Frame(m: Message): (f: seq<Byte>)
    requires |m.text| <= MAX_TEXT
    ensures |f| >= 4
  {
    EncodeInt(m.msgType) + if IsCtrl(m.msgType) then [] else EncodeInt(|m.text|) + m.text
  }

  /** The frames of several messages, one behind the other. */
  function Frames(ms: seq<Message>): seq<Byte>
    requires forall i :: 0 <= i < |ms| ==> |ms[i].text| <= MAX_TEXT
  {
    if ms == [] then [] else Frame(ms[0]) + Frames(ms[1..])
  }

  /** What internal_recv hands to its caller for m: control messages lose their text. */
  function Delivery(m: Message): Message {
    if IsCtrl(m.msgType) then m.(text := []) else m
  }

  function Deliveries(ms: seq<Message>): (ds: seq<Message>)
    ensures |ds| == |ms|
  {
    seq(|ms|, i requires 0 <= i < |ms| => Delivery(ms[i]))
  }

  /**
   How many bytes the `recv` call wants that internal_recv issues after it has read `got`
   of one message; 0 when it has read all it will read. The arguments are exactly those of
   the three os_recv loops, so a negative length announces an empty text.
   */
  function Need(got: seq<Byte>): nat {
    if |got| < 4 then 4 - |got|
    else if IsCtrl(DecodeInt(got[..4])) then 0
    else if |got| < 8 then 8 - |got|
    else if |got| - 8 < DecodeInt(got[4..8]) then DecodeInt(got[4..8]) - (|got| - 8)
    else 0
  }

  /** The type and the first len bytes internal_recv reports once Need is 0. */
  function Decode(got: seq<Byte>): Message
    requires |got| >= 4
  {
    Message(DecodeInt(got[..4]), if |got| < 8 then [] else got[8..])
  }

  /** Frames delimit themselves: a reader asking for Need bytes stops exactly at the end. */
  lemma {:induction false} FrameSelfDelimiting(m: Message, got: seq<Byte>)
    requires |m.text| <= MAX_TEXT
    requires got <= Frame(m)
    ensures |got| + Need(got) <= |Frame(m)|
    ensures Need(got) == 0 <==> got == Frame(m)
  {
    var f := Frame(m);
    IntRoundTrip(m.msgType);
    assert f[..4] == EncodeInt(m.msgType);
    if |got| >= 4 {
      assert got[..4] == f[..4];
      if !IsCtrl(m.msgType) {
        IntRoundTrip(|m.text|);
        assert f[4..8] == EncodeInt(|m.text|);
        if |got| >= 8 {
          assert got[4..8] == f[4..8];
        }
      }
    }
  }

  lemma {:induction false} FrameRoundTrip(m: Message)
    requires |m.text| <= MAX_TEXT
    ensures Decode(Frame(m)) == Delivery(m)
  {
    IntRoundTrip(m.msgType);
    assert Frame(m)[..4] == EncodeInt(m.msgType);
    if !IsCtrl(m.msgType) {
      assert Frame(m)[8..] == m.text;
    }
  }

  // ----- the two processes, one system call at a time

  /** One return of send or recv: bytes moved, interrupted by a signal, or an error or end of file. */
  datatype Action = Put(bytes: seq<Byte>) | Take(bytes: seq<Byte>) | Interrupted | Failed

  /** internal_send: how much of the frame is out, or how much of the acknowledgement is in. */
  datatype SenderPhase = Sending(off: nat) | Waiting(got: nat) | Returned | SenderDead

  /** internal_recv: what it has read, or how much of the acknowledgement is out. */
  datatype ReceiverPhase = Reading(got: seq<Byte>) | Acking(frame: seq<Byte>, off: nat)
                         | Took(frame: seq<Byte>) | ReceiverDead

  /** internal_send, writing the frame f. */
  function SenderStep(f: seq<Byte>, p: SenderPhase, a: Action): Option<SenderPhase> {
    match (p, a)
    case (Sending(off), Put(b)) =>
      if 0 < |b| && off + |b| <= |f| && b == f[off..off + |b|] then
        Some(if off + |b| == |f| then Waiting(0) else Sending(off + |b|))
      else None
    case (Waiting(n), Take(b)) =>
      if 0 < |b| && n + |b| <= |ACK| then
        Some(if n + |b| == |ACK| then Returned else Waiting(n + |b|))
      else None
    case (Sending(_), Interrupted) => Some(p)
    case (Waiting(_), Interrupted) => Some(p)
    case (Sending(_), Failed) => Some(SenderDead)
    case (Waiting(_), Failed) => Some(SenderDead)
    case _ => None
  }

  function ReceiverStep(p: ReceiverPhase, a: Action): Option<ReceiverPhase> {
    match (p, a)
    case (Reading(got), Take(b)) =>
      if 0 < |b| <= Need(got) then
        Some(if Need(got + b) == 0 then Acking(got + b, 0) else Reading(got + b))
      else None
    case (Acking(frame, off), Put(b)) =>
      if 0 < |b| && off + |b| <= |ACK| && b == ACK[off..off + |b|] then
        Some(if off + |b| == |ACK| then Took(frame) else Acking(frame, off + |b|))
      else None
    case (Reading(_), Interrupted) => Some(p)
    case (Acking(_, _), Interrupted) => Some(p)
    case (Reading(_), Failed) => Some(ReceiverDead)
    case (Acking(_, _), Failed) => Some(ReceiverDead)
    case _ => None
  }
}
