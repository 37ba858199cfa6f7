/** Whatever a reader accepts is something a writer could have left, and what a chain value pins. */
module JournalReads {
  import opened Bytes
  import opened Frames
  import opened Journal

  // ---------------------------------------------------------------------------
  // Whatever is read was written
  // ---------------------------------------------------------------------------

  /** One accepted frame is the frame that the writer at this mark makes of its entry. */
  lemma AcceptedFrame(hash: Hash, bytes: Bytes, m: Mark) returns (e: Entry)
    requires ParseFrame(hash, bytes).Parsed?
    requires var record := ParseFrame(hash, bytes).record; record.sequence == m.next && record.link == m.chain
    ensures e.Valid() && ParseFrame(hash, bytes) == Parsed(RecordOf(hash, m.next, e, m.chain), FrameBytes(e))
    ensures FrameBytes(e) <= |bytes| && bytes[..FrameBytes(e)] == FrameAt(hash, m, e)
    ensures NextMark(hash, bytes, ParseFrame(hash, bytes).record) == Advance(hash, m, e)
  {
    hide Frame, ChainOf, DerivedChain;
    BuildParsed(hash, bytes);
    var r := ParseFrame(hash, bytes);
    e := Entry(r.record.kind, r.record.payload);
    hide ParseFrame;
    var rest := bytes[r.consumed..];
    assert bytes == FrameAt(hash, m, e) + rest;
    DerivedIsChain(hash, m.next, e, m.chain, rest);
  }

  lemma AcceptedMore(bytes: Bytes, n: nat, valid: nat, frame: Bytes, image: Bytes)
    requires n + valid <= |bytes| && bytes[..n] == frame && bytes[n..][..valid] == image
    ensures bytes[..n + valid] == frame + image
  {
    assert bytes[..n + valid] == bytes[..n] + bytes[n..][..valid];
  }

  /** The valid bytes of a file are the frames of some entries, and the records are theirs. */
  lemma {:induction false} ScanIsWritten(hash: Hash, bytes: Bytes, m: Mark) returns (entries: seq<Entry>)
    requires ScanSegment(hash, bytes, m).Scanned?
    ensures AllValid(entries)
    ensures var s := ScanSegment(hash, bytes, m);
      && bytes[..s.valid] == Image(hash, m, entries)
      && s.records == RecordsOf(hash, m, entries) && s.mark == After(hash, m, entries)
    decreases |bytes|
  {
    hide ParseFrame, NextMark, Image, After, RecordsOf, Advance;
    entries := [];
    Nil(hash, m);
    if bytes != [] && ParseFrame(hash, bytes).Parsed? {
      var e := AcceptedFrame(hash, bytes, m);
      var n, next := FrameBytes(e), Advance(hash, m, e);
      var more := ScanIsWritten(hash, bytes[n..], next);
      var rest := ScanSegment(hash, bytes[n..], next);
      entries := [e] + more;
      Cons(hash, m, e, more);
      AcceptedMore(bytes, n, rest.valid, FrameAt(hash, m, e), Image(hash, next, more));
    }
  }

  /** The files of a clean directory are what appending some entries leaves, and the records are theirs. */
  lemma {:induction false} CleanIsWritten(hash: Hash, disk: seq<Bytes>, m: Mark) returns (placed: seq<seq<Entry>>)
    requires ScanDisk(hash, disk, m).Recovered? && !ScanDisk(hash, disk, m).report.torn
    ensures AllValid(Flat(placed)) && disk == DiskImage(hash, m, placed)
    ensures var o := ScanDisk(hash, disk, m);
      o.records == RecordsOf(hash, m, Flat(placed)) && o.mark == After(hash, m, Flat(placed))
    decreases |disk|
  {
    hide ScanSegment, Image, After, RecordsOf, DiskImage, Flat;
    placed := [];
    Nil(hash, m);
    if disk != [] {
      var first := ScanIsWritten(hash, disk[0], m);
      var next := After(hash, m, first);
      assert disk[0][..|disk[0]|] == disk[0];
      var more := CleanIsWritten(hash, disk[1..], next);
      placed := [first] + more;
      ConsFile(hash, m, first, more);
      FlatCons(first, more);
      AfterAppend(hash, m, first, Flat(more));
      assert disk == [disk[0]] + disk[1..];
    }
  }

  /** A directory can be read exactly when its repair is what a writer leaves: a reader accepts no record that appending
      the same entries would not have written. */
  lemma ReadIsWritten(hash: Hash, disk: seq<Bytes>) returns (placed: seq<seq<Entry>>)
    requires ScanDisk(hash, disk, START).Recovered?
    ensures var o := ScanDisk(hash, disk, START);
      && AllValid(Flat(placed)) && Repair(disk, o.report) == DiskImage(hash, START, placed)
      && o.records == RecordsOf(hash, START, Flat(placed)) && o.mark == After(hash, START, Flat(placed))
  {
    hide ScanDisk, Repair;
    RepairReads(hash, disk, START);
    placed := CleanIsWritten(hash, Repair(disk, ScanDisk(hash, disk, START).report), START);
  }

  // ---------------------------------------------------------------------------
  // What a chain value pins
  // ---------------------------------------------------------------------------

  /** The input of a chain value determines the number, the type and the payload of its record. */
  lemma InputPins(hash: Hash, m: nat, d: Entry, n: nat, e: Entry)
    requires d.Valid() && e.Valid() && m < Pow256(8) && n < Pow256(8)
    requires ChainInput(hash, m, d) == ChainInput(hash, n, e)
    ensures m == n && d == e
  {
    hide Le, LeValue, Pow256;
    InputFields(hash, m, d);
    InputFields(hash, n, e);
  }

  lemma InputFields(hash: Hash, n: nat, e: Entry)
    requires e.Valid() && n < Pow256(8)
    ensures var bytes := ChainInput(hash, n, e);
      |bytes| >= 88 && LeValue(bytes[6..8]) == e.kind && LeValue(bytes[8..16]) == n && bytes[88..] == e.payload
  {
    hide Le, LeValue, Pow256;
    Fields(ChainInput(hash, n, e), Le(MAGIC, 4), Le(VERSION, 2), Le(e.kind, 2), Le(n, 8), Le(|e.payload|, 8),
           hash(e.payload), Zero(), e.payload);
    FieldValues(n, e, 0);
  }

  /** Two inputs that the digest function does not tell apart. */
  ghost predicate Collide(hash: Hash, a: Bytes, b: Bytes) {
    a != b && hash(a) == hash(b)
  }

  lemma {:induction false} LastChain(hash: Hash, m: Mark, entries: seq<Entry>)
    requires entries != []
    ensures After(hash, m, entries).chain == ChainOf(hash, m.next + |entries| - 1, entries[|entries| - 1])
    decreases |entries|
  {
    hide ChainOf;
    if |entries| == 1 {
      assert entries == [entries[0]];
      One(hash, m, entries[0]);
    } else {
      LastChain(hash, Advance(hash, m, entries[0]), entries[1..]);
    }
  }

  /** The link of record k + 1 pins record k: two accepted histories that agree on it agree on the record before, or the
      digest function fails on two particular inputs. */
  lemma LinkPinsRecord(hash: Hash, a: seq<Entry>, b: seq<Entry>, k: nat)
    requires AllValid(a) && AllValid(b) && k + 1 < |a| && k + 1 < |b| && |a| < Pow256(8)
    requires RecordsOf(hash, START, a)[k + 1].link == RecordsOf(hash, START, b)[k + 1].link
    ensures a[k] == b[k] || Collide(hash, ChainInput(hash, k + 1, a[k]), ChainInput(hash, k + 1, b[k]))
  {
    hide ChainInput, Pow256;
    RecordsChain(hash, START, a, k + 1);
    RecordsChain(hash, START, b, k + 1);
    LastChain(hash, START, a[..k + 1]);
    LastChain(hash, START, b[..k + 1]);
    assert a[k] in a && b[k] in b;
    if ChainInput(hash, k + 1, a[k]) == ChainInput(hash, k + 1, b[k]) {
      InputPins(hash, k + 1, a[k], k + 1, b[k]);
    }
  }

  /** And it pins nothing before that: histories of one length end in the same chain value exactly when their last
      records do, whatever their other records are. */
  lemma ChainForgets(hash: Hash, a: seq<Entry>, b: seq<Entry>)
    requires |a| == |b| > 0 && |a| < Pow256(8) && AllValid(a) && AllValid(b)
    ensures var p, q := a[|a| - 1], b[|b| - 1];
      (After(hash, START, a).chain == After(hash, START, b).chain)
        <==> (p == q || Collide(hash, ChainInput(hash, |a|, p), ChainInput(hash, |b|, q)))
  {
    hide ChainInput, Pow256;
    var p, q := a[|a| - 1], b[|b| - 1];
    LastChain(hash, START, a);
    LastChain(hash, START, b);
    assert p in a && q in b;
    if ChainInput(hash, |a|, p) == ChainInput(hash, |b|, q) {
      InputPins(hash, |a|, p, |b|, q);
    }
  }
}
