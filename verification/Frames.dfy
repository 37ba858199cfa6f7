/** The journal frame: 88 bytes of fields, a checksum over them, and a payload. */
module Frames {
  import opened Bytes
  import opened Crc

  const MAGIC: nat := 0x314C_4E57
  const VERSION: nat := 1
  const PREFIX_BYTES: nat := 88
  const HEADER_BYTES: nat := 92
  const MAX_RECORD_BYTES: nat := 512 * 1024

  type Digest = d: Bytes | |d| == 32 witness seq(32, _ => 0)

  /** The digest function; nothing here depends on what it computes. */
  type Hash = Bytes -> Digest

  function Zero(): Digest {
    seq(32, _ => 0)
  }

  datatype Code = LedgerTruncated | LedgerCorrupt | LedgerIncompatible | LedgerOversized | IndexGapDetected

  /** What a caller appends: a record type and a payload within the bound. */
  datatype Entry = Entry(kind: nat, payload: Bytes) {
    predicate Valid() {
      kind < 0x1_0000 && |payload| <= MAX_RECORD_BYTES
    }
  }

  /** What a reader gets back. link is the chain value of the record before this one. */
  datatype Record = Record(sequence: nat, kind: nat, payload: Bytes, payloadDigest: Digest, link: Digest)

  datatype Parse = Parsed(record: Record, consumed: nat) | Refused(code: Code)

  // ---------------------------------------------------------------------------
  // Writing
  // ---------------------------------------------------------------------------

  function Prefix(hash: Hash, sequence: nat, entry: Entry, link: Digest): (p: Bytes)
    ensures |p| == PREFIX_BYTES
  {
    Le(MAGIC, 4) + Le(VERSION, 2) + Le(entry.kind, 2) + Le(sequence, 8) + Le(|entry.payload|, 8)
    + hash(entry.payload) + link
  }

  /** What a record's own chain value covers: its prefix with the link zeroed, and its payload. */
  function ChainInput(hash: Hash, sequence: nat, entry: Entry): Bytes {
    Prefix(hash, sequence, entry, Zero()) + entry.payload
  }

  function ChainOf(hash: Hash, sequence: nat, entry: Entry): Digest {
    hash(ChainInput(hash, sequence, entry))
  }

  function Header(hash: Hash, sequence: nat, entry: Entry, link: Digest): (h: Bytes)
    ensures |h| == HEADER_BYTES
  {
    var prefix := Prefix(hash, sequence, entry, link);
    prefix + Le(Crc32(prefix), 4)
  }

  function Frame(hash: Hash, sequence: nat, entry: Entry, link: Digest): (f: Bytes)
    ensures |f| == HEADER_BYTES + |entry.payload|
  {
    Header(hash, sequence, entry, link) + entry.payload
  }

  function RecordOf(hash: Hash, sequence: nat, entry: Entry, link: Digest): Record {
    Record(sequence, entry.kind, entry.payload, hash(entry.payload), link)
  }

  /** The header is built with the link bytes zeroed for the chain value, then patched. */
  method BuildFrame(hash: Hash, sequence: nat, entry: Entry, link: Digest)
    returns (frame: Bytes, chain: Digest)
    ensures frame == Frame(hash, sequence, entry, link)
    ensures chain == ChainOf(hash, sequence, entry)
  {
    var header: Bytes := Le(MAGIC, 4);
    header := header + Le(VERSION, 2);
    header := header + Le(entry.kind, 2);
    header := header + Le(sequence, 8);
    header := header + Le(|entry.payload|, 8);
    header := header + hash(entry.payload);
    ghost var fields := header;
    header := header + link;
    for i := 56 to 88
      invariant |header| == 88 && header[..56] == fields
      invariant forall k :: 56 <= k < i ==> header[k] == 0
    {
      header := header[i := 0];
    }
    assert header == fields + Zero();
    chain := hash(header + entry.payload);
    header := header[..56] + link;
    header := header + Le(Crc32(header), 4);
    frame := header + entry.payload;
  }

  // ---------------------------------------------------------------------------
  // Reading
  // ---------------------------------------------------------------------------

  function ParseFrame(hash: Hash, bytes: Bytes): (r: Parse)
    ensures r.Parsed? ==> HEADER_BYTES <= r.consumed == HEADER_BYTES + |r.record.payload| <= |bytes|
  {
    if |bytes| < HEADER_BYTES then Refused(LedgerTruncated)
    else if LeValue(bytes[..4]) != MAGIC then Refused(LedgerCorrupt)
    else if LeValue(bytes[4..6]) != VERSION then Refused(LedgerIncompatible)
    else
      var length := LeValue(bytes[16..24]);
      if length > MAX_RECORD_BYTES then Refused(LedgerOversized)
      else if LeValue(bytes[88..92]) != Crc32(bytes[..88]) then Refused(LedgerCorrupt)
      else if |bytes| < HEADER_BYTES + length then Refused(LedgerTruncated)
      else
        var payload := bytes[92..92 + length];
        if hash(payload) != bytes[24..56] then Refused(LedgerCorrupt)
        else Parsed(Record(LeValue(bytes[8..16]), LeValue(bytes[6..8]), payload, bytes[24..56], bytes[56..88]),
                    HEADER_BYTES + length)
  }

  /** The chain value a reader recomputes from the bytes on disk. */
  function DerivedChain(hash: Hash, bytes: Bytes, payload: Bytes): Digest
    requires |bytes| >= HEADER_BYTES
  {
    hash(bytes[..56] + Zero() + payload)
  }

  // ---------------------------------------------------------------------------
  // What was written is read back
  // ---------------------------------------------------------------------------

  /** Where each field of a frame lies, in a buffer that starts with the frame's prefix. */
  lemma Fields(bytes: Bytes, magic: Bytes, version: Bytes, kind: Bytes, sequence: Bytes, length: Bytes,
               digest: Bytes, link: Bytes, rest: Bytes)
    requires |magic| == 4 && |version| == |kind| == 2 && |sequence| == |length| == 8
    requires |digest| == |link| == 32
    requires bytes == magic + version + kind + sequence + length + digest + link + rest
    ensures |bytes| == 88 + |rest|
    ensures bytes[..4] == magic && bytes[4..6] == version && bytes[6..8] == kind
    ensures bytes[8..16] == sequence && bytes[16..24] == length
    ensures bytes[24..56] == digest && bytes[56..88] == link && bytes[88..] == rest
  {
    assert bytes[0..] == magic + (version + (kind + (sequence + (length + (digest + (link + rest))))));
    Part(bytes, 0, magic, version + (kind + (sequence + (length + (digest + (link + rest))))));
    Part(bytes, 4, version, kind + (sequence + (length + (digest + (link + rest)))));
    Part(bytes, 6, kind, sequence + (length + (digest + (link + rest))));
    Part(bytes, 8, sequence, length + (digest + (link + rest)));
    Part(bytes, 16, length, digest + (link + rest));
    Part(bytes, 24, digest, link + rest);
    Part(bytes, 56, link, rest);
  }

  /** What a reader sees in any buffer that starts with a complete header. */
  ghost predicate Shows(hash: Hash, bytes: Bytes, sequence: nat, entry: Entry, link: Digest) {
    && |bytes| >= HEADER_BYTES
    && LeValue(bytes[..4]) == MAGIC && LeValue(bytes[4..6]) == VERSION
    && LeValue(bytes[6..8]) == entry.kind && LeValue(bytes[8..16]) == sequence
    && LeValue(bytes[16..24]) == |entry.payload|
    && bytes[24..56] == hash(entry.payload) && bytes[56..88] == link
    && LeValue(bytes[88..92]) == Crc32(bytes[..88])
  }

  lemma HeaderShows(hash: Hash, sequence: nat, entry: Entry, link: Digest, rest: Bytes)
    requires entry.Valid() && sequence < Pow256(8)
    ensures Shows(hash, Header(hash, sequence, entry, link) + rest, sequence, entry, link)
  {
    hide Crc32, LeValue, Le;
    var prefix := Prefix(hash, sequence, entry, link);
    var bytes := Header(hash, sequence, entry, link) + rest;
    var check := Le(Crc32(prefix), 4);
    assert bytes == prefix + (check + rest);
    Fields(bytes, Le(MAGIC, 4), Le(VERSION, 2), Le(entry.kind, 2), Le(sequence, 8), Le(|entry.payload|, 8),
           hash(entry.payload), link, check + rest);
    Part(bytes, 88, check, rest);
    assert bytes[..88] == prefix;
    FieldValues(sequence, entry, Crc32(prefix));
  }

  lemma FieldValues(sequence: nat, entry: Entry, crc: nat)
    requires entry.Valid() && sequence < Pow256(8) && crc < 0x1_0000_0000
    ensures LeValue(Le(MAGIC, 4)) == MAGIC && LeValue(Le(VERSION, 2)) == VERSION
    ensures LeValue(Le(entry.kind, 2)) == entry.kind && LeValue(Le(sequence, 8)) == sequence
    ensures LeValue(Le(|entry.payload|, 8)) == |entry.payload| && LeValue(Le(crc, 4)) == crc
  {
    PowValues256();
    LeRoundTrip(MAGIC, 4);
    LeRoundTrip(VERSION, 2);
    LeRoundTrip(entry.kind, 2);
    LeRoundTrip(sequence, 8);
    LeRoundTrip(|entry.payload|, 8);
    LeRoundTrip(crc, 4);
  }

  /** Where the fields of a frame lie. */
  lemma FieldOffsets(hash: Hash, sequence: nat, entry: Entry, link: Digest)
    requires entry.Valid() && sequence < Pow256(8)
    ensures var f := Frame(hash, sequence, entry, link);
      && |f| == 92 + |entry.payload| && f[92..] == entry.payload
      && LeValue(f[..4]) == 0x314C_4E57 && LeValue(f[4..6]) == 1 && LeValue(f[6..8]) == entry.kind
      && LeValue(f[8..16]) == sequence && LeValue(f[16..24]) == |entry.payload|
      && f[24..56] == hash(entry.payload) && f[56..88] == link && LeValue(f[88..92]) == Crc32(f[..88])
  {
    hide Header, Crc32, LeValue;
    HeaderShows(hash, sequence, entry, link, entry.payload);
  }

  /** A complete frame parses to its own record, whatever follows it. */
  lemma ParseBuilt(hash: Hash, sequence: nat, entry: Entry, link: Digest, rest: Bytes)
    requires entry.Valid() && sequence < Pow256(8)
    ensures ParseFrame(hash, Frame(hash, sequence, entry, link) + rest)
         == Parsed(RecordOf(hash, sequence, entry, link), HEADER_BYTES + |entry.payload|)
  {
    hide Header, Crc32, LeValue;
    var bytes := Frame(hash, sequence, entry, link) + rest;
    assert bytes == Header(hash, sequence, entry, link) + (entry.payload + rest);
    HeaderShows(hash, sequence, entry, link, entry.payload + rest);
    Part(bytes, 92, entry.payload, rest);
  }

  /** Accepted bytes are the frame of the record they parse to: nothing in them is passed over. */
  lemma BuildParsed(hash: Hash, bytes: Bytes)
    requires ParseFrame(hash, bytes).Parsed?
    ensures var r := ParseFrame(hash, bytes); var e := Entry(r.record.kind, r.record.payload);
      && e.Valid() && r.record == RecordOf(hash, r.record.sequence, e, r.record.link)
      && bytes[..r.consumed] == Frame(hash, r.record.sequence, e, r.record.link)
  {
    hide Crc32, Le, LeValue;
    var r := ParseFrame(hash, bytes);
    LeValueRoundTrip(bytes[..4]);
    LeValueRoundTrip(bytes[4..6]);
    LeValueRoundTrip(bytes[6..8]);
    LeValueRoundTrip(bytes[8..16]);
    LeValueRoundTrip(bytes[16..24]);
    LeValueRoundTrip(bytes[88..92]);
    PowValues256();
    HeaderParts(bytes);
    assert bytes[..r.consumed] == bytes[..88] + bytes[88..92] + r.record.payload;
  }

  lemma HeaderParts(bytes: Bytes)
    requires |bytes| >= 88
    ensures bytes[..88]
         == bytes[..4] + bytes[4..6] + bytes[6..8] + bytes[8..16] + bytes[16..24] + bytes[24..56] + bytes[56..88]
  {
    assert bytes[..24] == bytes[..4] + bytes[4..6] + bytes[6..8] + bytes[8..16] + bytes[16..24];
    assert bytes[..88] == bytes[..24] + bytes[24..56] + bytes[56..88];
  }

  /** A frame cut anywhere reads as a torn tail, never as corruption. */
  lemma ParseCut(hash: Hash, sequence: nat, entry: Entry, link: Digest, k: nat)
    requires entry.Valid() && sequence < Pow256(8)
    requires k < HEADER_BYTES + |entry.payload|
    ensures ParseFrame(hash, Frame(hash, sequence, entry, link)[..k]) == Refused(LedgerTruncated)
  {
    hide Header, Crc32, LeValue;
    if k >= HEADER_BYTES {
      var part := entry.payload[..k - HEADER_BYTES];
      HeaderShows(hash, sequence, entry, link, part);
      assert Frame(hash, sequence, entry, link)[..k] == Header(hash, sequence, entry, link) + part;
    }
  }

  /** A reader recomputes exactly the chain value the writer kept. */
  lemma DerivedIsChain(hash: Hash, sequence: nat, entry: Entry, link: Digest, rest: Bytes)
    ensures DerivedChain(hash, Frame(hash, sequence, entry, link) + rest, entry.payload) == ChainOf(hash, sequence, entry)
  {
    var bytes := Frame(hash, sequence, entry, link) + rest;
    assert bytes[..56] == Prefix(hash, sequence, entry, link)[..56];
    assert bytes[..56] + Zero() == Prefix(hash, sequence, entry, Zero());
  }

  // ---------------------------------------------------------------------------
  // Damage
  // ---------------------------------------------------------------------------

  /** A complete header changed inside any four consecutive bytes is refused, and never as a torn tail:
      recovery cannot mistake it for an interrupted write. The changed payload length may ask for more
      bytes than the file holds; the checksum is examined first. */
  lemma HeaderDamageRefused(hash: Hash, before: Bytes, x: Bytes, y: Bytes, after: Bytes, rest: Bytes)
    requires |before| + |x| + |after| == HEADER_BYTES && |x| == |y| <= 4 && x != y
    requires ParseFrame(hash, before + x + after + rest).Parsed?
    ensures ParseFrame(hash, before + y + after + rest).Refused?
    ensures ParseFrame(hash, before + y + after + rest).code != LedgerTruncated
  {
    hide Crc32, LeValue;
    var good, bad := before + x + after, before + y + after;
    assert (good + rest)[..88] == good[..88] && (good + rest)[88..92] == good[88..];
    assert (bad + rest)[..88] == bad[..88] && (bad + rest)[88..92] == bad[88..];
    assert Sealed(good);
    SealDetectsBurst(before, x, y, after);
  }

  /** Under an intact header, another payload of the same length is accepted only if it has the same digest. */
  lemma PayloadDamage(hash: Hash, sequence: nat, entry: Entry, link: Digest, payload: Bytes, rest: Bytes)
    requires entry.Valid() && sequence < Pow256(8) && |payload| == |entry.payload|
    ensures ParseFrame(hash, Header(hash, sequence, entry, link) + payload + rest)
         == if hash(payload) == hash(entry.payload)
            then Parsed(RecordOf(hash, sequence, Entry(entry.kind, payload), link), HEADER_BYTES + |payload|)
            else Refused(LedgerCorrupt)
  {
    hide Header, Crc32, LeValue;
    var bytes := Header(hash, sequence, entry, link) + payload + rest;
    assert bytes == Header(hash, sequence, entry, link) + (payload + rest);
    HeaderShows(hash, sequence, entry, link, payload + rest);
    Part(bytes, 92, payload, rest);
  }
}
