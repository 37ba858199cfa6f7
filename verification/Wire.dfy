/** The request and reply frames of the wire protocol. */
module Wire {
  import opened Bytes
  import opened Crc

  const MAGIC: nat := 0x574E_4331
  const VERSION: nat := 1
  const HEADER_BYTES: nat := 28
  const MAX_FRAME_BYTES: nat := 1024 * 1024

  datatype Code = BodyTooLarge | TruncatedFrame | BadMagic | BadVersion | CrcMismatch | FrameTooLarge

  datatype Frame = Frame(kind: nat, flags: nat, requestId: nat, body: Bytes)

  datatype Decoded = Decoded(frame: Frame, consumed: nat) | Refused(code: Code)

  function Fields(kind: nat, requestId: nat, body: Bytes): (h: Bytes)
    ensures |h| == 24
  {
    Le(MAGIC, 4) + Le(VERSION, 2) + Le(kind, 2) + Le(0, 4) + Le(|body|, 4) + Le(requestId, 8)
  }

  function Header(kind: nat, requestId: nat, body: Bytes): (h: Bytes)
    ensures |h| == HEADER_BYTES
  {
    Fields(kind, requestId, body) + Le(Crc32(Fields(kind, requestId, body)), 4)
  }

  function Encoded(kind: nat, requestId: nat, body: Bytes): Bytes {
    Header(kind, requestId, body) + body
  }

  predicate FitsFrame(body: Bytes) {
    |body| <= MAX_FRAME_BYTES - HEADER_BYTES
  }

  /** Appends a frame to the output buffer, or leaves the buffer as it was. */
  method EncodeFrame(kind: nat, requestId: nat, body: Bytes, buffer: Bytes) returns (ok: bool, out: Bytes)
    ensures ok == FitsFrame(body)
    ensures out == if ok then buffer + Encoded(kind, requestId, body) else buffer
  {
    out := buffer;
    if |body| > MAX_FRAME_BYTES - HEADER_BYTES {
      return false, out;
    }
    var header := Le(MAGIC, 4);
    header := header + Le(VERSION, 2);
    header := header + Le(kind, 2);
    header := header + Le(0, 4);
    header := header + Le(|body|, 4);
    header := header + Le(requestId, 8);
    header := header + Le(Crc32(header), 4);
    out := out + header;
    out := out + body;
    assert out == buffer + (header + body);
    ok := true;
  }

  /** The checks in their order: header complete, magic, version, checksum, length bound, body complete. */
  function DecodeFrame(bytes: Bytes): (r: Decoded)
    ensures r.Decoded? ==> HEADER_BYTES <= r.consumed == HEADER_BYTES + |r.frame.body| <= |bytes|
    ensures r.Decoded? ==> r.consumed <= MAX_FRAME_BYTES
    ensures r.Refused? && r.code == TruncatedFrame ==> |bytes| < MAX_FRAME_BYTES
  {
    if |bytes| < HEADER_BYTES then Refused(TruncatedFrame)
    else if LeValue(bytes[..4]) != MAGIC then Refused(BadMagic)
    else if LeValue(bytes[4..6]) != VERSION then Refused(BadVersion)
    else if LeValue(bytes[24..28]) != Crc32(bytes[..24]) then Refused(CrcMismatch)
    else
      var length := LeValue(bytes[12..16]);
      if length > MAX_FRAME_BYTES - HEADER_BYTES then Refused(FrameTooLarge)
      else if |bytes| < HEADER_BYTES + length then Refused(TruncatedFrame)
      else Decoded(Frame(LeValue(bytes[6..8]), LeValue(bytes[8..12]), LeValue(bytes[16..24]), bytes[28..28 + length]),
                   HEADER_BYTES + length)
  }

  // ---------------------------------------------------------------------------
  // Round trip
  // ---------------------------------------------------------------------------

  lemma Layout(bytes: Bytes, magic: Bytes, version: Bytes, kind: Bytes, flags: Bytes, length: Bytes, id: Bytes, check: Bytes, rest: Bytes)
    requires |magic| == |flags| == |length| == |check| == 4 && |version| == |kind| == 2 && |id| == 8
    requires bytes == magic + version + kind + flags + length + id + check + rest
    ensures |bytes| == 28 + |rest|
    ensures bytes[..4] == magic && bytes[4..6] == version && bytes[6..8] == kind && bytes[8..12] == flags
    ensures bytes[12..16] == length && bytes[16..24] == id && bytes[24..28] == check && bytes[28..] == rest
    ensures bytes[..24] == magic + version + kind + flags + length + id
  {
    assert bytes[0..] == magic + (version + (kind + (flags + (length + (id + (check + rest))))));
    Part(bytes, 0, magic, version + (kind + (flags + (length + (id + (check + rest))))));
    Part(bytes, 4, version, kind + (flags + (length + (id + (check + rest)))));
    Part(bytes, 6, kind, flags + (length + (id + (check + rest))));
    Part(bytes, 8, flags, length + (id + (check + rest)));
    Part(bytes, 12, length, id + (check + rest));
    Part(bytes, 16, id, check + rest);
    Part(bytes, 24, check, rest);
  }

  lemma Values(kind: nat, requestId: nat, body: Bytes)
    requires kind < 0x1_0000 && requestId < Pow256(8) && FitsFrame(body)
    ensures LeValue(Le(MAGIC, 4)) == MAGIC && LeValue(Le(VERSION, 2)) == VERSION && LeValue(Le(0, 4)) == 0
    ensures LeValue(Le(kind, 2)) == kind && LeValue(Le(|body|, 4)) == |body| && LeValue(Le(requestId, 8)) == requestId
    ensures forall crc: nat :: crc < 0x1_0000_0000 ==> LeValue(Le(crc, 4)) == crc
  {
    PowValues256();
    LeRoundTrip(MAGIC, 4);
    LeRoundTrip(VERSION, 2);
    LeRoundTrip(0, 4);
    LeRoundTrip(kind, 2);
    LeRoundTrip(|body|, 4);
    LeRoundTrip(requestId, 8);
    forall crc: nat | crc < 0x1_0000_0000
      ensures LeValue(Le(crc, 4)) == crc
    {
      LeRoundTrip(crc, 4);
    }
  }

  /** A frame that was encoded decodes to itself, whatever follows it, and consumes exactly its bytes. */
  lemma DecodeEncoded(kind: nat, requestId: nat, body: Bytes, rest: Bytes)
    requires kind < 0x1_0000 && requestId < Pow256(8) && FitsFrame(body)
    ensures DecodeFrame(Encoded(kind, requestId, body) + rest)
         == Decoded(Frame(kind, 0, requestId, body), HEADER_BYTES + |body|)
  {
    hide Crc32, Le, LeValue;
    var bytes := Encoded(kind, requestId, body) + rest;
    var check := Le(Crc32(Fields(kind, requestId, body)), 4);
    assert bytes == Fields(kind, requestId, body) + check + (body + rest);
    Layout(bytes, Le(MAGIC, 4), Le(VERSION, 2), Le(kind, 2), Le(0, 4), Le(|body|, 4), Le(requestId, 8), check, body + rest);
    Values(kind, requestId, body);
    Part(bytes, 28, body, rest);
  }

  /** Where the fields of a frame lie. */
  lemma FieldOffsets(kind: nat, requestId: nat, body: Bytes)
    requires kind < 0x1_0000 && requestId < Pow256(8) && FitsFrame(body)
    ensures var f := Encoded(kind, requestId, body);
      && |f| == 28 + |body| && f[28..] == body
      && LeValue(f[..4]) == 0x574E_4331 && LeValue(f[4..6]) == 1 && LeValue(f[6..8]) == kind && LeValue(f[8..12]) == 0
      && LeValue(f[12..16]) == |body| && LeValue(f[16..24]) == requestId && LeValue(f[24..28]) == Crc32(f[..24])
  {
    hide Crc32, Le, LeValue;
    var f := Encoded(kind, requestId, body);
    var check := Le(Crc32(Fields(kind, requestId, body)), 4);
    Layout(f, Le(MAGIC, 4), Le(VERSION, 2), Le(kind, 2), Le(0, 4), Le(|body|, 4), Le(requestId, 8), check, body);
    Values(kind, requestId, body);
  }

  /** Accepted bytes are the encoding of the frame they decode to, whenever its flags are clear: nothing in them is
      passed over. */
  lemma EncodeDecoded(bytes: Bytes)
    requires DecodeFrame(bytes).Decoded?
    ensures var r := DecodeFrame(bytes);
      r.frame.flags == 0 <==> bytes[..r.consumed] == Encoded(r.frame.kind, r.frame.requestId, r.frame.body)
  {
    hide Crc32, Le, LeValue;
    var r := DecodeFrame(bytes);
    PowValues256();
    LeValueRoundTrip(bytes[..4]);
    LeValueRoundTrip(bytes[4..6]);
    LeValueRoundTrip(bytes[6..8]);
    LeValueRoundTrip(bytes[8..12]);
    LeValueRoundTrip(bytes[12..16]);
    LeValueRoundTrip(bytes[16..24]);
    LeValueRoundTrip(bytes[24..28]);
    HeaderParts(bytes);
    assert bytes[..r.consumed] == bytes[..24] + bytes[24..28] + r.frame.body;
    var e := Encoded(r.frame.kind, r.frame.requestId, r.frame.body);
    if bytes[..r.consumed] == e {
      assert |e| >= 12 && e[8..12] == bytes[8..12];
      FieldOffsets(r.frame.kind, r.frame.requestId, r.frame.body);
    }
  }

  lemma HeaderParts(bytes: Bytes)
    requires |bytes| >= 24
    ensures bytes[..24] == bytes[..4] + bytes[4..6] + bytes[6..8] + bytes[8..12] + bytes[12..16] + bytes[16..24]
  {
    assert bytes[..12] == bytes[..4] + bytes[4..6] + bytes[6..8] + bytes[8..12];
    assert bytes[..24] == bytes[..12] + bytes[12..16] + bytes[16..24];
  }

  // ---------------------------------------------------------------------------
  // Damage and growth
  // ---------------------------------------------------------------------------

  /** A complete header changed inside any four consecutive bytes is refused for good: more input cannot
      complete it. */
  lemma HeaderDamageRefused(before: Bytes, x: Bytes, y: Bytes, after: Bytes, rest: Bytes)
    requires |before| + |x| + |after| == HEADER_BYTES && |x| == |y| <= 4 && x != y
    requires DecodeFrame(before + x + after + rest).Decoded?
    ensures DecodeFrame(before + y + after + rest).Refused?
    ensures DecodeFrame(before + y + after + rest).code in {BadMagic, BadVersion, CrcMismatch}
  {
    hide Crc32, LeValue;
    var good, bad := before + x + after, before + y + after;
    assert (good + rest)[..24] == good[..24] && (good + rest)[24..28] == good[24..];
    assert (bad + rest)[..24] == bad[..24] && (bad + rest)[24..28] == bad[24..];
    assert Sealed(good);
    SealDetectsBurst(before, x, y, after);
  }

  /** Only a truncated frame can change its verdict when more bytes arrive. */
  lemma DecodeLocal(bytes: Bytes, more: Bytes)
    requires DecodeFrame(bytes) != Refused(TruncatedFrame)
    ensures DecodeFrame(bytes + more) == DecodeFrame(bytes)
  {
    hide Crc32, LeValue;
    var all := bytes + more;
    assert all[..4] == bytes[..4] && all[4..6] == bytes[4..6] && all[6..8] == bytes[6..8] && all[8..12] == bytes[8..12];
    assert all[12..16] == bytes[12..16] && all[16..24] == bytes[16..24] && all[24..28] == bytes[24..28] && all[..24] == bytes[..24];
    var r := DecodeFrame(bytes);
    if r.Decoded? {
      assert all[28..r.consumed] == bytes[28..r.consumed];
    }
  }

  /** The bytes of one frame alone decode to that frame. */
  lemma DecodeExact(bytes: Bytes)
    requires DecodeFrame(bytes).Decoded?
    ensures DecodeFrame(bytes[..DecodeFrame(bytes).consumed]) == DecodeFrame(bytes)
  {
    hide Crc32, LeValue;
    var n := DecodeFrame(bytes).consumed;
    var cut := bytes[..n];
    assert cut[..4] == bytes[..4] && cut[4..6] == bytes[4..6] && cut[6..8] == bytes[6..8] && cut[8..12] == bytes[8..12];
    assert cut[12..16] == bytes[12..16] && cut[16..24] == bytes[16..24] && cut[24..28] == bytes[24..28] && cut[..24] == bytes[..24];
    assert cut[28..n] == bytes[28..n];
  }

  // ---------------------------------------------------------------------------
  // Streams
  // ---------------------------------------------------------------------------

  /** The complete frames of a stream up to the first malformed header, and what is left. */
  datatype Stream = Stream(frames: seq<Frame>, rest: Bytes, malformed: bool)

  function ParseStream(bytes: Bytes): Stream
    decreases |bytes|
  {
    match DecodeFrame(bytes)
    case Refused(code) => Stream([], bytes, code != TruncatedFrame)
    case Decoded(frame, n) => Behind([frame], ParseStream(bytes[n..]))
  }

  function Behind(frames: seq<Frame>, s: Stream): Stream {
    s.(frames := frames + s.frames)
  }

  /** The bytes parse to exactly these frames, with nothing left. */
  ghost predicate Consumes(bytes: Bytes, frames: seq<Frame>) {
    ParseStream(bytes) == Stream(frames, [], false)
  }

  lemma ParseNothing()
    ensures Consumes([], [])
  {
  }

  /** What was consumed does not influence how the stream goes on. */
  lemma {:induction false} ParseBehind(consumed: Bytes, frames: seq<Frame>, more: Bytes)
    requires Consumes(consumed, frames)
    ensures ParseStream(consumed + more) == Behind(frames, ParseStream(more))
    decreases |consumed|
  {
    hide DecodeFrame;
    if DecodeFrame(consumed).Refused? {
      assert consumed + more == more && [] + ParseStream(more).frames == ParseStream(more).frames;
    } else {
      var r := DecodeFrame(consumed);
      var tail := ParseStream(consumed[r.consumed..]);
      DecodeLocal(consumed, more);
      assert (consumed + more)[r.consumed..] == consumed[r.consumed..] + more;
      ParseBehind(consumed[r.consumed..], tail.frames, more);
      assert [r.frame] + (tail.frames + ParseStream(more).frames) == frames + ParseStream(more).frames;
    }
  }

  lemma ParseOne(bytes: Bytes)
    requires DecodeFrame(bytes).Decoded?
    ensures Consumes(bytes[..DecodeFrame(bytes).consumed], [DecodeFrame(bytes).frame])
  {
    hide DecodeFrame;
    var r := DecodeFrame(bytes);
    DecodeExact(bytes);
    DecodeEmpty();
    assert bytes[..r.consumed][r.consumed..] == [];
    assert ParseStream([]) == Stream([], [], false);
    assert [r.frame] + [] == [r.frame];
  }

  lemma DecodeEmpty()
    ensures DecodeFrame([]) == Refused(TruncatedFrame)
  {
  }

  /** Consuming one more frame. */
  lemma ConsumeNext(consumed: Bytes, frames: seq<Frame>, inbound: Bytes)
    requires Consumes(consumed, frames) && DecodeFrame(inbound).Decoded?
    ensures var r := DecodeFrame(inbound);
      Consumes(consumed + inbound[..r.consumed], frames + [r.frame])
  {
    hide DecodeFrame, ParseStream;
    var r := DecodeFrame(inbound);
    ParseOne(inbound);
    ParseBehind(consumed, frames, inbound[..r.consumed]);
  }
}
