/** One session of the coordinator: requests are read from arbitrary chunks, replies leave at whatever pace the
    peer takes them. */
module Coordinator {
  import opened Bytes
  import opened Wire

  const RECEIVE_CHUNK_BYTES: nat := 16 * 1024
  const FRAMES_PER_PASS: nat := 8
  const MAX_INBOUND_BYTES: nat := MAX_FRAME_BYTES - 1 + RECEIVE_CHUNK_BYTES

  /** What a future send does: take at least one byte, block, or fail. */
  datatype Send = Takes(extra: nat) | Blocks | Breaks

  /** What a future receive does: deliver a chunk, deliver nothing yet, or fail. */
  datatype Receive = Chunk(bytes: Bytes) | Quiet | Lost

  /** The reply to a request. */
  datatype Answer = Answer(kind: nat, body: Bytes)

  datatype Ending = Open | Malformed | Broken | ReplyTooLarge

  predicate ChunkOk(r: Receive) {
    r.Chunk? ==> 1 <= |r.bytes| <= RECEIVE_CHUNK_BYTES
  }

  /** The bytes of one reply; a reply that cannot be framed contributes nothing. */
  function ReplyBytes(a: Answer, requestId: nat): Bytes {
    if FitsFrame(a.body) then Encoded(a.kind, requestId, a.body) else []
  }

  /** The replies to a list of requests, in order; the k-th answer goes to the k-th request. */
  function Replies(answers: nat -> Answer, requests: seq<Frame>): Bytes {
    if requests == [] then []
    else
      var k := |requests| - 1;
      Replies(answers, requests[..k]) + ReplyBytes(answers(k), requests[k].requestId)
  }

  lemma RepliesOne(answers: nat -> Answer, requests: seq<Frame>, f: Frame)
    ensures Replies(answers, requests + [f]) == Replies(answers, requests) + ReplyBytes(answers(|requests|), f.requestId)
  {
    assert (requests + [f])[..|requests|] == requests;
  }

  /** The bytes a script of receives delivers. */
  function Delivered(script: seq<Receive>): Bytes {
    if script == [] then []
    else
      var last := script[|script| - 1];
      Delivered(script[..|script| - 1]) + if last.Chunk? then last.bytes else []
  }

  /** From one point of the script to a later one: what lies between was delivered. */
  ghost predicate Moved(left: seq<Receive>, before: Bytes, now: seq<Receive>, after: Bytes) {
    && |now| <= |left| && now == left[|left| - |now|..]
    && after == before + Delivered(left[..|left| - |now|])
  }

  class Session {
    const answers: nat -> Answer
    /** What the peer does at the k-th send. */
    const peer: nat -> Send
    var inbound: Bytes
    var outbound: Bytes
    var outOffset: nat
    var ready: bool
    var used: bool
    /** How many requests were answered. */
    var answered: nat
    /** How many sends were tried. */
    var tried: nat
    /** What future receives deliver; then the peer is quiet. */
    var receives: seq<Receive>
    /** Everything received, the part of it already turned into requests, and what a drop threw away. */
    ghost var received: Bytes
    ghost var consumed: Bytes
    ghost var abandoned: Bytes
    ghost var handled: seq<Frame>
    ghost var sent: Bytes
    ghost var ending: Ending

    ghost predicate Valid()
      reads this`inbound, this`outbound, this`outOffset, this`used, this`answered, this`receives
      reads this`received, this`consumed, this`abandoned, this`handled, this`sent, this`ending
    {
      && outOffset <= |outbound| && |inbound| <= MAX_INBOUND_BYTES
      && (forall r :: r in receives ==> ChunkOk(r))
      && Consumes(consumed, handled) && answered == |handled|
      && received == consumed + (inbound + abandoned)
      && (used ==> abandoned == [] && ending.Open? && sent + outbound[outOffset..] == Replies(answers, handled))
      && (!used ==> inbound == outbound == [] && !ending.Open? && sent <= Replies(answers, handled))
      && (ending.Malformed? ==> DecodeFrame(abandoned).Refused? && DecodeFrame(abandoned).code != TruncatedFrame)
    }

    /** The last of the sends tried since a point did this. */
    ghost predicate LastSend(since: nat, blocks: bool)
      reads this`tried
    {
      since < tried && if blocks then peer(tried - 1).Blocks? else peer(tried - 1).Breaks?
    }

    /** Every send since a point took something. */
    ghost predicate AllTaken(since: nat)
      reads this`tried
    {
      since <= tried && forall k :: since <= k < tried ==> peer(k).Takes?
    }

    /** Why a session ended: a send failed, the last receive failed, a reply could not be framed, or, with everything sent,
        the stream has a malformed header (which Valid describes). */
    ghost predicate Explained(since: nat, script: seq<Receive>)
      reads this`ending, this`tried, this`sent, this`handled, this`receives
    {
      match ending
      case Open => false
      case Malformed => sent == Replies(answers, handled)
      case ReplyTooLarge => handled != [] && !FitsFrame(answers(|handled| - 1).body)
      case Broken => LastSend(since, false) || (|receives| < |script| && script[|script| - |receives| - 1].Lost?)
    }

    constructor (answers: nat -> Answer, peer: nat -> Send, receives: seq<Receive>)
      requires forall r :: r in receives ==> ChunkOk(r)
      ensures Valid() && used && received == [] && handled == [] && sent == [] && !PendingOutput() && tried == 0
      ensures this.answers == answers && this.peer == peer && this.receives == receives
    {
      this.answers, this.peer, this.receives := answers, peer, receives;
      inbound, outbound, outOffset, ready, used, answered, tried := [], [], 0, false, true, 0, 0;
      received, consumed, abandoned, handled, sent, ending := [], [], [], [], [], Open;
      new;
      ParseNothing();
    }

    predicate PendingOutput()
      reads this`outbound, this`outOffset
    {
      outOffset < |outbound|
    }

    method Drop(reason: Ending)
      requires Valid() && used && !reason.Open?
      requires reason.Malformed? ==> DecodeFrame(inbound).Refused? && DecodeFrame(inbound).code != TruncatedFrame
      modifies this
      ensures Valid() && !used && ending == reason && inbound == []
      ensures received == old(received) && handled == old(handled) && sent == old(sent)
      ensures receives == old(receives) && tried == old(tried)
    {
      hide DecodeFrame, Replies, Consumes;
      assert sent <= Replies(answers, handled);
      abandoned := inbound;
      inbound, outbound, outOffset := [], [], 0;
      ready, used := false, false;
      ending := reason;
      assert [] + abandoned == old(inbound) + [];
    }

    /** One send: the peer takes at least one byte and at most a slice, blocks, or fails. */
    method SendSome() returns (outcome: Send)
      requires Valid() && used && PendingOutput()
      modifies this`tried, this`sent, this`outOffset
      ensures Valid() && tried == old(tried) + 1 && outcome == peer(old(tried))
      ensures if outcome.Takes? then old(outOffset) < outOffset && old(sent) <= sent
              else outOffset == old(outOffset) && sent == old(sent)
    {
      hide DecodeFrame, Replies, Consumes;
      outcome := peer(tried);
      tried := tried + 1;
      if outcome.Takes? {
        var left := |outbound| - outOffset;
        var slice := if left < RECEIVE_CHUNK_BYTES then left else RECEIVE_CHUNK_BYTES;
        var taken := if outcome.extra + 1 < slice then outcome.extra + 1 else slice;
        Slide(sent, outbound, outOffset, taken);
        sent := sent + outbound[outOffset..outOffset + taken];
        outOffset := outOffset + taken;
      }
    }

    /** Forgets what was sent. */
    method Clear()
      requires Valid() && used && !PendingOutput()
      modifies this`outbound, this`outOffset
      ensures Valid() && !PendingOutput()
    {
      hide DecodeFrame, Replies, Consumes;
      assert outbound[outOffset..] == [][0..];
      outbound := [];
      outOffset := 0;
    }

    /** Sends until everything is out, or the peer blocks or fails. */
    method Flush()
      requires Valid() && used
      modifies this
      ensures Valid() && handled == old(handled) && received == old(received) && receives == old(receives)
      ensures used ==> inbound == old(inbound) && (PendingOutput() ==> ready) && (!PendingOutput() ==> ready == old(ready))
      ensures used && PendingOutput() ==> LastSend(old(tried), true)
      ensures used && !PendingOutput() ==> AllTaken(old(tried))
      ensures !used ==> ending.Broken? && LastSend(old(tried), false)
      ensures old(tried) <= tried && old(sent) <= sent
    {
      hide Valid, DecodeFrame;
      while PendingOutput()
        invariant Valid() && used && handled == old(handled) && received == old(received) && receives == old(receives)
        invariant inbound == old(inbound) && ready == old(ready)
        invariant AllTaken(old(tried)) && old(sent) <= sent
        decreases |outbound| - outOffset
      {
        var outcome := SendSome();
        if outcome.Blocks? {
          ready := true;
          return;
        }
        if outcome.Breaks? {
          Drop(Broken);
          return;
        }
      }
      Clear();
    }

    /** Queues a reply; one that cannot be framed ends the session instead. */
    method QueueFrame(kind: nat, requestId: nat, body: Bytes) returns (ok: bool)
      requires outOffset <= |outbound|
      modifies this`outbound
      ensures ok == FitsFrame(body)
      ensures outbound == old(outbound) + if ok then Encoded(kind, requestId, body) else []
    {
      hide Encoded;
      assert outbound + [] == outbound;
      ok, outbound := EncodeFrame(kind, requestId, body, outbound);
    }

    /** Takes a decoded frame off the buffer and answers it. */
    method HandleFrame(frame: Frame, size: nat)
      requires Valid() && used && DecodeFrame(inbound) == Decoded(frame, size)
      modifies this
      ensures Valid() && handled == old(handled) + [frame] && received == old(received) && receives == old(receives)
      ensures used ==> inbound == old(inbound)[size..] && ready == old(ready)
      ensures !used ==> ending.ReplyTooLarge? && !FitsFrame(answers(|old(handled)|).body)
      ensures tried == old(tried) && sent == old(sent)
    {
      hide Replies, Encoded, Consumes, DecodeFrame;
      ConsumedSize(inbound);
      ConsumeNext(consumed, handled, inbound);
      RepliesOne(answers, handled, frame);
      Erase(consumed, inbound, size);
      var answer := answers(answered);
      answered := answered + 1;
      consumed := consumed + inbound[..size];
      handled := handled + [frame];
      inbound := inbound[size..];
      Attach(sent, outbound, outOffset, ReplyBytes(answer, frame.requestId));
      assert sent + outbound[outOffset..] + [] == sent + outbound[outOffset..];
      var ok := QueueFrame(answer.kind, frame.requestId, answer.body);
      if !ok {
        assert outbound == old(outbound);
        Drop(ReplyTooLarge);
      }
    }

    /** Answers buffered requests until the pass limit, a blocked reply, or an incomplete frame. */
    method ServeBuffered(before: nat) returns (processed: nat)
      requires Valid() && used && !PendingOutput() && !ready && before <= FRAMES_PER_PASS
      modifies this
      ensures Valid() && received == old(received) && receives == old(receives) && old(handled) <= handled
      ensures before <= processed <= FRAMES_PER_PASS && old(tried) <= tried
      ensures used ==> |handled| == |old(handled)| + processed - before
      ensures used && !PendingOutput() && processed < FRAMES_PER_PASS ==>
        !ready && DecodeFrame(inbound) == Refused(TruncatedFrame)
      ensures used && PendingOutput() ==> LastSend(old(tried), true)
      ensures !used ==> Explained(old(tried), receives)
    {
      hide Valid, Replies, DecodeFrame;
      processed := before;
      while processed < FRAMES_PER_PASS && !PendingOutput()
        invariant Valid() && used && received == old(received) && receives == old(receives) && old(handled) <= handled
        invariant before <= processed <= FRAMES_PER_PASS && (!PendingOutput() ==> !ready)
        invariant |handled| == |old(handled)| + processed - before && old(tried) <= tried
        invariant PendingOutput() ==> LastSend(old(tried), true)
        decreases FRAMES_PER_PASS - processed
      {
        ShortIsTruncated(inbound);
        if |inbound| < HEADER_BYTES {
          break;
        }
        var r := DecodeFrame(inbound);
        if r.Refused? {
          if r.code == TruncatedFrame {
            break;
          }
          AllSent();
          Drop(Malformed);
          return;
        }
        HandleFrame(r.frame, r.consumed);
        if !used {
          return;
        }
        Flush();
        if !used {
          return;
        }
        processed := processed + 1;
      }
    }

    /** Idle means that exactly the complete frames of the received stream were handled. */
    lemma IdleStream()
      requires Valid() && used && DecodeFrame(inbound) == Refused(TruncatedFrame)
      ensures ParseStream(received) == Stream(handled, inbound, false)
    {
      hide Replies, Consumes, DecodeFrame, ParseStream;
      Idle(consumed, handled, inbound);
    }

    /** With nothing pending, everything queued was sent. */
    lemma AllSent()
      requires Valid() && used && !PendingOutput()
      ensures sent == Replies(answers, handled)
    {
      hide Replies, Consumes, DecodeFrame;
      assert outbound[outOffset..] == [] && sent + [] == sent;
    }

    lemma SentEarlier(since: nat, later: nat, blocks: bool)
      requires since <= later && LastSend(later, blocks)
      ensures LastSend(since, blocks)
    {
    }

    lemma SendExplains(since: nat, script: seq<Receive>)
      requires ending.Broken? && LastSend(since, false)
      ensures Explained(since, script)
    {
    }

    lemma LossExplains(since: nat, script: seq<Receive>)
      requires ending.Broken? && |receives| < |script| && script[|script| - |receives| - 1].Lost?
      ensures Explained(since, script)
    {
    }

    /** A reason found while serving what was already read is a reason for the whole pass. */
    lemma ExplainedEarlier(since: nat, later: nat, script: seq<Receive>)
      requires since <= later && Explained(later, receives)
      ensures Explained(since, script)
    {
    }

    /** One pass over the session. It is left idle only after reading until the peer had nothing more, with exactly the
        complete frames of the whole received stream handled and every reply sent; busy only after a full pass of
        requests or a blocked send; and ended only for a reason. The bound on a partial frame is never exceeded: the
        branch that would drop the session for it cannot be reached. */
    method Pump()
      requires Valid() && used
      modifies this
      ensures Valid() && old(handled) <= handled && old(received) <= received && old(tried) <= tried
      ensures Moved(old(receives), old(received), receives, received)
      ensures used && ready ==> PendingOutput() || |handled| == |old(handled)| + FRAMES_PER_PASS
      ensures used && PendingOutput() ==> ready && LastSend(old(tried), true)
      ensures used && !ready ==>
        && ParseStream(received) == Stream(handled, inbound, false) && sent == Replies(answers, handled)
        && (receives == [] || (|receives| < |old(receives)| && old(receives)[|old(receives)| - |receives| - 1].Quiet?))
      ensures !used ==> Explained(old(tried), old(receives))
    {
      hide Valid, Replies, DecodeFrame, Delivered, ParseStream, Moved, LastSend, Explained, AllTaken;
      NothingMoved(receives, received);
      ready := false;
      Flush();
      if !used {
        SendExplains(old(tried), old(receives));
        return;
      }
      if PendingOutput() {
        ready := true;
        return;
      }
      var processed := 0;
      while true
        invariant Valid() && used && !PendingOutput() && !ready && processed <= FRAMES_PER_PASS
        invariant old(handled) <= handled && |handled| == |old(handled)| + processed
        invariant old(tried) <= tried && old(received) <= received
        invariant Moved(old(receives), old(received), receives, received)
        decreases |receives|
      {
        ghost var since := tried;
        processed := ServeBuffered(processed);
        if !used {
          ExplainedEarlier(old(tried), since, old(receives));
          return;
        }
        if PendingOutput() {
          SentEarlier(old(tried), since, true);
          ready := true;
          return;
        }
        if processed >= FRAMES_PER_PASS {
          ready := true;
          return;
        }
        TruncatedIsShort(inbound);
        if |inbound| > MAX_FRAME_BYTES {
          assert false;
        }
        MovedOne(old(receives), old(received), receives, received);
        var outcome := NextReceive();
        if outcome.Quiet? {
          IdleStream();
          AllSent();
          return;
        }
        if outcome.Lost? {
          Drop(Broken);
          LossExplains(old(tried), old(receives));
          return;
        }
        Receive(outcome.bytes);
      }
    }

    /** The outcome of the next read; a peer with nothing to say is quiet. */
    method NextReceive() returns (outcome: Receive)
      requires Valid()
      modifies this`receives
      ensures Valid() && ChunkOk(outcome)
      ensures if old(receives) == [] then outcome == Quiet && receives == [] else outcome == old(receives)[0] && receives == old(receives)[1..]
    {
      hide Replies, Consumes, DecodeFrame;
      if receives == [] {
        return Quiet;
      }
      outcome := receives[0];
      assert outcome in receives;
      receives := receives[1..];
    }

    /** Appends a received chunk. */
    method Receive(chunk: Bytes)
      requires Valid() && used && |inbound| < MAX_FRAME_BYTES && |chunk| <= RECEIVE_CHUNK_BYTES
      modifies this`inbound, this`received
      ensures Valid() && received == old(received) + chunk
    {
      hide Replies, Consumes, DecodeFrame;
      assert (consumed + (inbound + [])) + chunk == consumed + ((inbound + chunk) + []);
      inbound := inbound + chunk;
      received := received + chunk;
    }
  }

  // ---------------------------------------------------------------------------
  // What was delivered
  // ---------------------------------------------------------------------------

  lemma NothingMoved(script: seq<Receive>, bytes: Bytes)
    ensures Moved(script, bytes, script, bytes)
  {
    assert script[..0] == [] && bytes + [] == bytes;
  }

  /** Reading one outcome more. */
  lemma MovedOne(left: seq<Receive>, before: Bytes, now: seq<Receive>, after: Bytes)
    requires Moved(left, before, now, after)
    ensures |now| <= |left|
    ensures now != [] ==>
      && now[0] == left[|left| - |now|]
      && Moved(left, before, now[1..], if now[0].Chunk? then after + now[0].bytes else after)
  {
    if now != [] {
      var n := |left| - |now|;
      assert now[1..] == left[n + 1..] && left[..n + 1][..n] == left[..n];
      assert after + [] == after;
    }
  }

  // ---------------------------------------------------------------------------
  // Bytes in flight
  // ---------------------------------------------------------------------------

  lemma Slide(sent: Bytes, outbound: Bytes, offset: nat, taken: nat)
    requires offset + taken <= |outbound|
    ensures (sent + outbound[offset..offset + taken]) + outbound[offset + taken..] == sent + outbound[offset..]
  {
    assert outbound[offset..] == outbound[offset..offset + taken] + outbound[offset + taken..];
  }

  lemma Attach(sent: Bytes, outbound: Bytes, offset: nat, reply: Bytes)
    requires offset <= |outbound|
    ensures sent + (outbound + reply)[offset..] == (sent + outbound[offset..]) + reply
  {
  }

  lemma Erase(consumed: Bytes, inbound: Bytes, size: nat)
    requires size <= |inbound|
    ensures consumed + (inbound + []) == (consumed + inbound[..size]) + (inbound[size..] + [])
  {
  }

  lemma ConsumedSize(bytes: Bytes)
    ensures DecodeFrame(bytes).Decoded? ==> DecodeFrame(bytes).consumed <= |bytes|
  {
  }

  lemma ShortIsTruncated(bytes: Bytes)
    ensures |bytes| < HEADER_BYTES ==> DecodeFrame(bytes) == Refused(TruncatedFrame)
  {
  }

  lemma TruncatedIsShort(bytes: Bytes)
    ensures DecodeFrame(bytes) == Refused(TruncatedFrame) ==> |bytes| < MAX_FRAME_BYTES
  {
  }

  lemma Idle(consumed: Bytes, handled: seq<Frame>, inbound: Bytes)
    requires Consumes(consumed, handled) && DecodeFrame(inbound) == Refused(TruncatedFrame)
    ensures ParseStream(consumed + (inbound + [])) == Stream(handled, inbound, false)
  {
    hide DecodeFrame;
    ParseBehind(consumed, handled, inbound);
    assert inbound + [] == inbound && handled + [] == handled;
  }

  /** In every state of a session: the requests handled are an initial part of the frames of the whole received
      stream; a session that ended on a malformed header handled exactly the frames before it. The bytes sent are
      an initial part of the replies to the handled requests, and while the session lives, sent and pending bytes
      together are exactly those replies. */
  lemma SessionServes(s: Session)
    requires s.Valid()
    ensures s.handled <= ParseStream(s.received).frames
    ensures s.ending.Malformed? ==> ParseStream(s.received).malformed && s.handled == ParseStream(s.received).frames
    ensures s.sent <= Replies(s.answers, s.handled)
    ensures s.used ==> s.sent + s.outbound[s.outOffset..] == Replies(s.answers, s.handled)
  {
    hide DecodeFrame, Replies, ParseStream, Consumes;
    HandledFirst(s.consumed, s.handled, s.inbound + s.abandoned);
    if s.ending.Malformed? {
      MalformedEnd(s.consumed, s.handled, s.abandoned);
      assert s.inbound + s.abandoned == s.abandoned;
    }
    Initial(s.sent, s.outbound[s.outOffset..]);
  }

  lemma Initial(a: Bytes, b: Bytes)
    ensures a <= a + b
  {
  }

  lemma HandledFirst(consumed: Bytes, handled: seq<Frame>, rest: Bytes)
    requires Consumes(consumed, handled)
    ensures handled <= ParseStream(consumed + rest).frames
  {
    hide ParseStream;
    ParseBehind(consumed, handled, rest);
  }

  lemma MalformedEnd(consumed: Bytes, handled: seq<Frame>, rest: Bytes)
    requires Consumes(consumed, handled) && DecodeFrame(rest).Refused? && DecodeFrame(rest).code != TruncatedFrame
    ensures ParseStream(consumed + rest).malformed && ParseStream(consumed + rest).frames == handled
  {
    hide ParseStream, DecodeFrame;
    ParseBehind(consumed, handled, rest);
    MalformedStops(rest);
    assert handled + [] == handled;
  }

  lemma MalformedStops(bytes: Bytes)
    requires DecodeFrame(bytes).Refused? && DecodeFrame(bytes).code != TruncatedFrame
    ensures ParseStream(bytes) == Stream([], bytes, true)
  {
    hide DecodeFrame;
  }

  /** Sends always take something, the connection never fails, and every answer can be framed. */
  ghost predicate Smooth(answers: nat -> Answer, peer: nat -> Send, script: seq<Receive>) {
    && (forall k: nat :: peer(k).Takes?)
    && (forall k: nat :: FitsFrame(answers(k).body))
    && forall r :: r in script ==> !r.Lost?
  }

  /** Everything was delivered and handled, and the stream has no malformed header. */
  ghost predicate Caught(s: Session, script: seq<Receive>)
    reads s
  {
    var all := ParseStream(Delivered(script));
    s.receives == [] && s.handled == all.frames && !all.malformed
  }

  /** Where a script stands: what is left of it, and what it delivered so far. */
  ghost predicate At(script: seq<Receive>, left: seq<Receive>, received: Bytes) {
    && |left| <= |script| && left == script[|script| - |left|..]
    && received == Delivered(script[..|script| - |left|])
  }

  /** After some passes: what was received is what the script delivered so far, and a smooth session lost nothing and is
      done or has used every pass to read on or to handle requests. */
  ghost predicate Served(s: Session, script: seq<Receive>, passes: nat)
    reads s
  {
    && At(script, s.receives, s.received)
    && (Smooth(s.answers, s.peer, script) ==>
          && (s.used ==> !s.PendingOutput() && (Caught(s, script) || passes + |s.receives| <= |script| + |s.handled|))
          && (!s.used ==> s.ending.Malformed? && s.sent == Replies(s.answers, s.handled)))
  }

  lemma NothingServed(s: Session, script: seq<Receive>)
    requires s.used && s.receives == script && s.received == [] && !s.PendingOutput()
    ensures Served(s, script, 0)
  {
    hide ParseStream, Smooth;
  }

  lemma DeliveredLast(script: seq<Receive>)
    requires script != []
    ensures var last := script[|script| - 1];
      Delivered(script) == Delivered(script[..|script| - 1]) + if last.Chunk? then last.bytes else []
  {
  }

  lemma {:induction false} DeliveredConcat(a: seq<Receive>, b: seq<Receive>)
    ensures Delivered(a + b) == Delivered(a) + Delivered(b)
    decreases |b|
  {
    if b == [] {
      assert a + b == a && Delivered(a) + [] == Delivered(a);
    } else {
      var n := |b| - 1;
      DeliveredConcat(a, b[..n]);
      DeliveredLast(a + b);
      DeliveredLast(b);
      hide Delivered;
      assert (a + b)[..|a + b| - 1] == a + b[..n] && (a + b)[|a + b| - 1] == b[n];
    }
  }

  /** The requests handled are an initial part of the frames of everything the script delivers. */
  lemma HandledWithin(s: Session, script: seq<Receive>)
    requires s.Valid() && At(script, s.receives, s.received)
    ensures s.handled <= ParseStream(Delivered(script)).frames
    ensures s.ending.Malformed? ==> ParseStream(Delivered(script)).malformed && s.handled == ParseStream(Delivered(script)).frames
  {
    hide Replies, Consumes, DecodeFrame, ParseStream, Delivered;
    var n := |script| - |s.receives|;
    var more := Delivered(script[n..]);
    DeliveredConcat(script[..n], script[n..]);
    assert script == script[..n] + script[n..];
    Pieces(s);
    hide *;
    Regrouped(s.consumed, s.inbound, s.abandoned, more);
    HandledFirst(s.consumed, s.handled, (s.inbound + s.abandoned) + more);
    if s.ending.Malformed? {
      DecodeLocal(s.abandoned, more);
      MalformedEnd(s.consumed, s.handled, s.abandoned + more);
    }
  }

  lemma Pieces(s: Session)
    requires s.Valid()
    ensures Consumes(s.consumed, s.handled) && s.received == s.consumed + (s.inbound + s.abandoned)
    ensures s.ending.Malformed? ==>
      s.inbound == [] && DecodeFrame(s.abandoned).Refused? && DecodeFrame(s.abandoned).code != TruncatedFrame
  {
    hide Replies, Consumes, DecodeFrame;
  }

  lemma Regrouped(a: Bytes, b: Bytes, c: Bytes, d: Bytes)
    ensures (a + (b + c)) + d == a + ((b + c) + d)
    ensures b == [] ==> (b + c) + d == c + d
  {
  }

  /** What one pass moves, from its promise. */
  lemma PassServes(s: Session, script: seq<Receive>, handled: seq<Frame>, received: Bytes, left: seq<Receive>, since: nat,
                   passes: nat)
    requires s.Valid() && At(script, left, received) && Moved(left, received, s.receives, s.received) && handled <= s.handled
    requires s.used && s.ready ==> s.PendingOutput() || |s.handled| == |handled| + FRAMES_PER_PASS
    requires s.used && s.PendingOutput() ==> s.ready && s.LastSend(since, true)
    requires s.used && !s.ready ==>
      && ParseStream(s.received) == Stream(s.handled, s.inbound, false)
      && (s.receives == [] || |s.receives| < |left|)
    requires !s.used ==> s.Explained(since, left)
    requires Smooth(s.answers, s.peer, script) ==>
      || (left == [] && handled == ParseStream(Delivered(script)).frames && !ParseStream(Delivered(script)).malformed)
      || passes + |left| <= |script| + |handled|
    ensures Served(s, script, passes + 1)
  {
    hide *;
    PassPosition(script, left, s.receives, received, s.received);
    HandledWithin(s, script);
    if Smooth(s.answers, s.peer, script) {
      SmoothPass(s, script, left, received, since);
      PassIsPositive();
      var all := ParseStream(Delivered(script));
      Between(handled, s.handled, all.frames);
      if s.used && !s.ready && s.receives == [] {
        LastPosition(script, s.receives, s.received);
      }
    }
    ServedNow(s, script, passes + 1);
  }

  lemma Between(a: seq<Frame>, b: seq<Frame>, c: seq<Frame>)
    requires a <= b <= c
    ensures |a| <= |b| <= |c| && (a == c ==> b == c)
  {
  }

  lemma LastPosition(script: seq<Receive>, now: seq<Receive>, received: Bytes)
    requires now == [] && At(script, now, received)
    ensures received == Delivered(script)
  {
    assert script[..|script|] == script;
  }

  lemma PassIsPositive()
    ensures FRAMES_PER_PASS >= 1
  {
  }

  lemma ServedNow(s: Session, script: seq<Receive>, passes: nat)
    requires At(script, s.receives, s.received)
    requires var all := ParseStream(Delivered(script));
      Smooth(s.answers, s.peer, script) ==>
        && (s.used ==> && !s.PendingOutput()
                       && ((s.receives == [] && s.handled == all.frames && !all.malformed)
                           || passes + |s.receives| <= |script| + |s.handled|))
        && (!s.used ==> s.ending.Malformed? && s.sent == Replies(s.answers, s.handled))
    ensures Served(s, script, passes)
  {
    hide ParseStream, Delivered, Replies, Smooth, Session.Valid;
  }

  lemma PassPosition(script: seq<Receive>, left: seq<Receive>, now: seq<Receive>, before: Bytes, after: Bytes)
    requires At(script, left, before) && Moved(left, before, now, after)
    ensures At(script, now, after) && |now| <= |left| <= |script|
  {
    hide Delivered;
    var m, n := |script| - |left|, |left| - |now|;
    assert script[..m + n] == script[..m] + left[..n];
    DeliveredConcat(script[..m], left[..n]);
  }

  /** In a smooth session no send blocks and no reason but a malformed header ends it. */
  lemma SmoothPass(s: Session, script: seq<Receive>, left: seq<Receive>, received: Bytes, since: nat)
    requires Smooth(s.answers, s.peer, script) && At(script, left, received)
    ensures !s.LastSend(since, true) && !s.LastSend(since, false)
    ensures s.Explained(since, left) ==> s.ending.Malformed? && s.sent == Replies(s.answers, s.handled)
  {
    hide Replies, Delivered;
    assert forall r :: r in left ==> r in script;
    assert forall k :: 0 <= k < |left| ==> left[k] in left;
  }

  lemma EverythingServed(s: Session, script: seq<Receive>, passes: nat)
    requires s.Valid() && Served(s, script, passes)
    ensures var all := ParseStream(Delivered(script));
      Smooth(s.answers, s.peer, script) && passes > |script| + |all.frames| ==>
        s.handled == all.frames && s.sent == Replies(s.answers, all.frames) && (s.used <==> !all.malformed)
  {
    hide Replies, Consumes, DecodeFrame, ParseStream, Delivered, Smooth;
    HandledWithin(s, script);
    if Smooth(s.answers, s.peer, script) && s.used {
      s.AllSent();
    }
  }

  /** Any number of passes, whatever the peer does in between. With a peer that never blocks a send and never breaks the
      connection, and answers that can be framed, enough passes serve everything: the requests handled are exactly the
      complete frames of all that was delivered, up to the first malformed header, and every reply was sent. */
  method Serve(answers: nat -> Answer, peer: nat -> Send, receives: seq<Receive>, passes: nat) returns (s: Session)
    requires forall r :: r in receives ==> ChunkOk(r)
    ensures s.Valid() && s.answers == answers
    ensures s.handled <= ParseStream(s.received).frames && s.sent <= Replies(answers, s.handled)
    ensures |s.inbound| <= MAX_INBOUND_BYTES
    ensures var all := ParseStream(Delivered(receives));
      Smooth(answers, peer, receives) && passes > |receives| + |all.frames| ==>
        s.handled == all.frames && s.sent == Replies(answers, all.frames) && (s.used <==> !all.malformed)
  {
    hide Replies, Consumes, DecodeFrame, ParseStream, Delivered, Smooth;
    s := new Session(answers, peer, receives);
    NothingServed(s, receives);
    for i := 0 to passes
      invariant fresh(s) && s.Valid() && s.answers == answers && s.peer == peer
      invariant Served(s, receives, i)
    {
      if !s.used {
        assert Served(s, receives, passes);
        break;
      }
      ghost var handled, received, left, since := s.handled, s.received, s.receives, s.tried;
      s.Pump();
      PassServes(s, receives, handled, received, left, since, i);
    }
    SessionServes(s);
    EverythingServed(s, receives, passes);
  }
}
