/** The ledger object: appends, rotation, reading back, and opening with repair. */
module Ledgers {
  import opened Bytes
  import opened Frames
  import opened Journal

  /** Writing one frame to the file of a segment; the file appears with its first frame. */
  function Written(disk: seq<Bytes>, segment: nat, frame: Bytes): seq<Bytes>
    requires segment <= |disk|
  {
    if segment < |disk| then disk[segment := disk[segment] + frame] else disk + [frame]
  }

  function Placed(placed: seq<seq<Entry>>, segment: nat, entry: Entry): seq<seq<Entry>>
    requires segment <= |placed|
  {
    if segment < |placed| then placed[segment := placed[segment] + [entry]] else placed + [[entry]]
  }

  function SizeOf(disk: seq<Bytes>, segment: nat): nat {
    if segment < |disk| then |disk[segment]| else 0
  }

  // ---------------------------------------------------------------------------
  // One append, on bytes and on entries
  // ---------------------------------------------------------------------------

  /** The directory holds exactly the placed entries, and mark is the position behind them. */
  ghost predicate Holds(hash: Hash, disk: seq<Bytes>, placed: seq<seq<Entry>>, mark: Mark) {
    && disk == DiskImage(hash, START, placed)
    && AllValid(Flat(placed))
    && mark == After(hash, START, Flat(placed))
  }

  lemma LastSplit<T>(s: seq<T>)
    requires s != []
    ensures s == s[..|s| - 1] + [s[|s| - 1]]
  {
  }

  lemma OneFile(hash: Hash, m: Mark, file: seq<Entry>)
    ensures DiskImage(hash, m, [file]) == [Image(hash, m, file)] && Flat([file]) == file
  {
    ConsFile(hash, m, file, []);
    Nil(hash, After(hash, m, file));
    assert [file] + [] == [file];
    assert file + [] == file;
  }

  lemma AppendHolds(hash: Hash, disk: seq<Bytes>, placed: seq<seq<Entry>>, mark: Mark, segment: nat, e: Entry)
    requires Holds(hash, disk, placed, mark) && e.Valid()
    requires segment <= |disk| <= segment + 1
    ensures Holds(hash, Written(disk, segment, FrameAt(hash, mark, e)), Placed(placed, segment, e), Advance(hash, mark, e))
    ensures Flat(Placed(placed, segment, e)) == Flat(placed) + [e]
  {
    hide Image, FrameAt, Advance, Flat, DiskImage, After;
    AfterAppend(hash, START, Flat(placed), [e]);
    One(hash, mark, e);
    ValidOne(Flat(placed), e);
    if segment < |disk| {
      var files, last := placed[..segment], placed[segment];
      LastSplit(placed);
      LastSplit(disk);
      AppendToLast(hash, files, last, e);
      assert Placed(placed, segment, e) == files + [last + [e]];
      assert Written(disk, segment, FrameAt(hash, mark, e)) == disk[..segment] + [disk[segment] + FrameAt(hash, mark, e)];
    } else {
      DiskSplit(hash, START, placed, [[e]]);
      FlatSplit(placed, [[e]]);
      OneFile(hash, mark, [e]);
    }
  }

  lemma ValidOne(entries: seq<Entry>, e: Entry)
    requires AllValid(entries) && e.Valid()
    ensures AllValid(entries + [e])
  {
  }

  lemma AppendToLast(hash: Hash, files: seq<seq<Entry>>, last: seq<Entry>, e: Entry)
    ensures var mark := After(hash, START, Flat(files + [last]));
      var disk := DiskImage(hash, START, files + [last]);
      DiskImage(hash, START, files + [last + [e]]) == disk[..|files|] + [disk[|files|] + FrameAt(hash, mark, e)]
    ensures Flat(files + [last + [e]]) == Flat(files + [last]) + [e]
  {
    hide *;
    var m := After(hash, START, Flat(files));
    DiskSplit(hash, START, files, [last]);
    DiskSplit(hash, START, files, [last + [e]]);
    FlatSplit(files, [last]);
    FlatSplit(files, [last + [e]]);
    OneFile(hash, m, last);
    OneFile(hash, m, last + [e]);
    AfterAppend(hash, m, last, [e]);
    AfterAppend(hash, START, Flat(files), last);
    One(hash, After(hash, m, last), e);
    assert Flat(files) + (last + [e]) == (Flat(files) + last) + [e];
  }

  // ---------------------------------------------------------------------------
  // Bounds
  // ---------------------------------------------------------------------------

  lemma {:induction false} ImageSize(hash: Hash, m: Mark, entries: seq<Entry>)
    ensures |Image(hash, m, entries)| >= HEADER_BYTES * |entries|
    decreases |entries|
  {
    if entries != [] {
      hide Image;
      Cons(hash, m, entries[0], entries[1..]);
      assert entries == [entries[0]] + entries[1..];
      ImageSize(hash, Advance(hash, m, entries[0]), entries[1..]);
    }
  }

  /** Every record takes at least a header, so the byte bound also bounds the sequence numbers. */
  lemma {:induction false} SequenceBounded(hash: Hash, m: Mark, placed: seq<seq<Entry>>)
    ensures HEADER_BYTES * |Flat(placed)| <= Total(DiskImage(hash, m, placed))
    decreases |placed|
  {
    if placed != [] {
      hide Image;
      ImageSize(hash, m, placed[0]);
      SequenceBounded(hash, After(hash, m, placed[0]), placed[1..]);
      assert DiskImage(hash, m, placed)[1..] == DiskImage(hash, After(hash, m, placed[0]), placed[1..]);
    }
  }

  lemma {:induction false} TotalSplit(a: seq<Bytes>, b: seq<Bytes>)
    ensures Total(a + b) == Total(a) + Total(b)
    decreases |a|
  {
    if a == [] {
      assert a + b == b;
    } else {
      assert (a + b)[1..] == a[1..] + b && (a + b)[0] == a[0];
      TotalSplit(a[1..], b);
    }
  }

  lemma WrittenTotal(disk: seq<Bytes>, segment: nat, frame: Bytes)
    requires segment <= |disk| <= segment + 1
    ensures Total(Written(disk, segment, frame)) == Total(disk) + |frame|
  {
    if segment < |disk| {
      LastSplit(disk);
      assert Written(disk, segment, frame) == disk[..segment] + [disk[segment] + frame];
      TotalSplit(disk[..segment], [disk[segment]]);
      TotalSplit(disk[..segment], [disk[segment] + frame]);
      TotalOne(disk[segment]);
      TotalOne(disk[segment] + frame);
    } else {
      TotalSplit(disk, [frame]);
      TotalOne(frame);
    }
  }

  lemma TotalOne(file: Bytes)
    ensures Total([file]) == |file|
  {
    assert [file][1..] == [];
  }

  // ---------------------------------------------------------------------------
  // The ledger
  // ---------------------------------------------------------------------------

  datatype Append = Appended(sequence: nat) | Rejected(code: Code)

  class Ledger {
    const hash: Hash
    /** The journal files of the state directory, in name order. */
    var disk: seq<Bytes>
    var lastSequence: nat
    var chain: Digest
    var segment: nat
    var segmentBytes: nat
    var segmentCount: nat
    var retainedBytes: nat
    /** The entries of every file, while the directory holds nothing else. */
    ghost var placed: seq<seq<Entry>>

    /** The counters describe the files. */
    ghost predicate Layout()
      reads this
    {
      && segment <= |disk| <= segment + 1
      && segmentBytes == SizeOf(disk, segment)
      && retainedBytes == Total(disk)
    }

    /** The directory is a faithful history and the running chain value continues it. */
    ghost predicate Valid()
      reads this
    {
      && Layout()
      && |placed| == |disk|
      && Holds(hash, disk, placed, Mark(lastSequence + 1, chain))
      && FitsFiles(disk)
      && retainedBytes <= MAX_JOURNAL_BYTES
    }

    ghost function Entries(): seq<Entry>
      reads this
    {
      Flat(placed)
    }

    /** Opening a directory without journal files. */
    constructor Create(hash: Hash)
      ensures this.hash == hash && disk == [] && Valid() && Entries() == []
      ensures segmentCount == segment == segmentBytes == retainedBytes == lastSequence == 0
    {
      this.hash := hash;
      disk, placed := [], [];
      lastSequence, chain := 0, Zero();
      segment, segmentBytes, segmentCount, retainedBytes := 0, 0, 0, 0;
      new;
      Nil(hash, START);
    }

    method RotateSegment() returns (ok: bool)
      requires Layout()
      modifies this`segment, this`segmentBytes, this`segmentCount
      ensures ok <==> old(segmentCount) < MAX_SEGMENTS
      ensures ok ==> segment == old(segment) + 1 && segmentBytes == 0 && segmentCount == old(segmentCount) + 1
      ensures !ok ==> segment == old(segment) && segmentBytes == old(segmentBytes) && segmentCount == old(segmentCount)
    {
      if segmentCount >= MAX_SEGMENTS {
        return false;
      }
      segment := segment + 1;
      segmentBytes := 0;
      segmentCount := segmentCount + 1;
      ok := true;
    }

    /** Whether a payload of this size is accepted in the current state. */
    ghost predicate Accepts(size: nat)
      reads this
    {
      && size <= MAX_RECORD_BYTES
      && (segmentBytes + HEADER_BYTES + size > MAX_SEGMENT_BYTES ==> segmentCount < MAX_SEGMENTS)
      && retainedBytes + HEADER_BYTES + size <= MAX_JOURNAL_BYTES
    }

    /** Appends one record. On success exactly one frame was written, at the end of the current file or as
        a new file; a refusal writes nothing. A faithful history stays one, longer by this entry. */
    method Append(kind: nat, payload: Bytes) returns (r: Append)
      requires Layout() && kind < 0x1_0000
      modifies this
      ensures Layout()
      ensures r.Appended? <==> old(Accepts(|payload|))
      ensures r.Rejected? ==> r.code == LedgerOversized && disk == old(disk)
                              && lastSequence == old(lastSequence) && chain == old(chain)
      ensures r.Appended? ==>
                && r.sequence == lastSequence == old(lastSequence) + 1
                && segment <= |old(disk)| <= segment + 1
                && SizeOf(old(disk), segment) + HEADER_BYTES + |payload| <= MAX_SEGMENT_BYTES
                && disk == Written(old(disk), segment, Frame(hash, lastSequence, Entry(kind, payload), old(chain)))
                && chain == ChainOf(hash, lastSequence, Entry(kind, payload))
      ensures var rotates := old(segmentBytes) + HEADER_BYTES + |payload| > MAX_SEGMENT_BYTES;
        r.Appended? ==>
          && segment == old(segment) + (if rotates then 1 else 0)
          && segmentCount == old(segmentCount) + (if rotates then 1 else 0)
      ensures old(Valid()) ==> Valid()
      ensures old(Valid()) ==> Entries() == old(Entries()) + if r.Appended? then [Entry(kind, payload)] else []
    {
      hide Frame, FrameAt, ChainOf, DiskImage, After, Flat, Total;
      assert Entries() == Entries() + [];
      if |payload| > MAX_RECORD_BYTES || HEADER_BYTES + |payload| > MAX_SEGMENT_BYTES {
        return Rejected(LedgerOversized);
      }
      var frameBytes := HEADER_BYTES + |payload|;
      if segmentBytes + frameBytes > MAX_SEGMENT_BYTES {
        var rotated := RotateSegment();
        if !rotated {
          return Rejected(LedgerOversized);
        }
      }
      if retainedBytes + frameBytes > MAX_JOURNAL_BYTES {
        return Rejected(LedgerOversized);
      }
      WriteFrame(Entry(kind, payload));
      r := Appended(lastSequence);
    }

    /** The unconditional part of an append: build the frame, write it, move the position. */
    method WriteFrame(entry: Entry)
      requires Layout() && entry.Valid()
      requires segmentBytes + FrameBytes(entry) <= MAX_SEGMENT_BYTES
      requires retainedBytes + FrameBytes(entry) <= MAX_JOURNAL_BYTES
      modifies this
      ensures Layout() && segment == old(segment) && segmentCount == old(segmentCount)
      ensures lastSequence == old(lastSequence) + 1
      ensures disk == Written(old(disk), segment, Frame(hash, lastSequence, entry, old(chain)))
      ensures chain == ChainOf(hash, lastSequence, entry)
      ensures old(Valid()) ==> Valid() && Entries() == old(Entries()) + [entry]
    {
      hide Frame, ChainOf, DiskImage, After, Flat, Total;
      var next := lastSequence + 1;
      var frame, newChain := BuildFrame(hash, next, entry, chain);
      WrittenTotal(disk, segment, frame);
      if old(Valid()) {
        AppendHolds(hash, disk, placed, Mark(next, chain), segment, entry);
        WrittenFits(disk, segment, frame);
      }
      WrittenSize(disk, segment, frame);
      placed := if segment <= |placed| then Placed(placed, segment, entry) else placed;
      disk := Written(disk, segment, frame);
      lastSequence := next;
      chain := newChain;
      segmentBytes := segmentBytes + |frame|;
      retainedBytes := retainedBytes + |frame|;
    }
  }

  lemma WrittenSize(disk: seq<Bytes>, segment: nat, frame: Bytes)
    requires segment <= |disk| <= segment + 1
    ensures SizeOf(Written(disk, segment, frame), segment) == SizeOf(disk, segment) + |frame|
    ensures |Written(disk, segment, frame)| == segment + 1
  {
  }

  lemma WrittenFits(disk: seq<Bytes>, segment: nat, frame: Bytes)
    requires segment <= |disk| <= segment + 1 && FitsFiles(disk)
    requires SizeOf(disk, segment) + |frame| <= MAX_SEGMENT_BYTES
    ensures FitsFiles(Written(disk, segment, frame))
  {
  }

  // ---------------------------------------------------------------------------
  // Reading
  // ---------------------------------------------------------------------------

  /** One file: frames are parsed one behind the other until the end or a torn frame. */
  method ReadSegment(hash: Hash, bytes: Bytes, m: Mark) returns (s: Scan)
    ensures s == ScanSegment(hash, bytes, m)
  {
    hide ParseFrame, DerivedChain;
    var records, offset, previous := [], 0, m.chain;
    var expected: nat := m.next;
    while offset < |bytes|
      invariant offset <= |bytes|
      invariant ScanSegment(hash, bytes, m)
             == Shift(records, offset, ScanSegment(hash, bytes[offset..], Mark(expected, previous)))
    {
      var rest := bytes[offset..];
      match ParseFrame(hash, rest)
      case Refused(code) =>
        if code != LedgerTruncated {
          return Failed(code);
        }
        assert records + [] == records;
        return Scanned(records, Mark(expected, previous), offset);
      case Parsed(record, consumed) =>
        if record.sequence != expected {
          return Failed(IndexGapDetected);
        }
        if record.link != previous {
          return Failed(LedgerCorrupt);
        }
        ParsedSize(hash, rest);
        var next := NextMark(hash, rest, record);
        assert rest[consumed..] == bytes[offset + consumed..];
        ShiftTwice(records, offset, [record], consumed, ScanSegment(hash, rest[consumed..], next));
        previous := next.chain;
        expected := record.sequence + 1;
        offset := offset + consumed;
        records := records + [record];
    }
    assert bytes[offset..] == [];
    assert records + [] == records;
    s := Scanned(records, Mark(expected, previous), offset);
  }

  lemma ParsedSize(hash: Hash, bytes: Bytes)
    requires ParseFrame(hash, bytes).Parsed?
    ensures HEADER_BYTES <= ParseFrame(hash, bytes).consumed <= |bytes|
  {
  }

  /** All files in order; behind a torn file, files are only counted. */
  method ReadFrames(hash: Hash, disk: seq<Bytes>) returns (o: Outcome)
    ensures o == ScanDisk(hash, disk, START)
  {
    hide ScanSegment;
    var records, mark, report, torn := [], START, CLEAN, false;
    PrependNothing(ScanDisk(hash, disk, START));
    assert disk[0..] == disk;
    for i := 0 to |disk|
      invariant report.torn == torn && (!torn ==> report == CLEAN)
      invariant ScanDisk(hash, disk, START)
             == if torn then Recovered(records, mark, report.(excessSegments := report.excessSegments + |disk| - i))
                else Prepend(records, ScanDisk(hash, disk[i..], mark))
    {
      if torn {
        report := report.(excessSegments := report.excessSegments + 1);
      } else {
        var bytes := disk[i];
        assert disk[i..][0] == bytes && disk[i..][1..] == disk[i + 1..];
        if |bytes| > MAX_SEGMENT_BYTES + 1 {
          return Lost(LedgerOversized);
        }
        var s := ReadSegment(hash, bytes, mark);
        match s
        case Failed(code) => return Lost(code);
        case Scanned(more, next, valid) =>
          Regroup(records, more, ScanDisk(hash, disk[i + 1..], next));
          if valid < |bytes| {
            torn := true;
            report := Report(true, |bytes| - valid, valid, 0);
          }
          records := records + more;
          mark := next;
      }
    }
    assert disk[|disk|..] == [];
    assert records + [] == records;
    o := Recovered(records, mark, report);
  }

  // ---------------------------------------------------------------------------
  // Crashes
  // ---------------------------------------------------------------------------

  /** A readable position within the bounds the ledger keeps. */
  ghost predicate Bounded(hash: Hash, disk: seq<Bytes>, placed: seq<seq<Entry>>, mark: Mark) {
    Holds(hash, disk, placed, mark) && FitsFiles(disk) && Total(disk) <= MAX_JOURNAL_BYTES
  }

  /** The byte bound keeps every sequence number far below 2^64. */
  lemma NumbersFit(hash: Hash, disk: seq<Bytes>, placed: seq<seq<Entry>>, mark: Mark)
    requires Bounded(hash, disk, placed, mark)
    ensures mark.next == 1 + |Flat(placed)| && mark.next + 1 <= Pow256(8)
  {
    hide DiskImage, Flat, Total;
    SequenceBounded(hash, START, placed);
    PowValues256();
  }

  /** The directory reads back as its entries, with nothing torn. */
  lemma ReadsBack(hash: Hash, disk: seq<Bytes>, placed: seq<seq<Entry>>, mark: Mark)
    requires Bounded(hash, disk, placed, mark)
    ensures ScanDisk(hash, disk, START) == Recovered(RecordsOf(hash, START, Flat(placed)), mark, CLEAN)
  {
    hide *;
    NumbersFit(hash, disk, placed, mark);
    HoldsMeans(hash, disk, placed, mark);
    ScanDiskWritten(hash, START, placed, []);
    assert disk + [] == disk;
    ScanNoFiles(hash, mark);
    PrependNone(RecordsOf(hash, START, Flat(placed)), mark, CLEAN);
  }

  lemma HoldsMeans(hash: Hash, disk: seq<Bytes>, placed: seq<seq<Entry>>, mark: Mark)
    requires Bounded(hash, disk, placed, mark)
    ensures disk == DiskImage(hash, START, placed) && AllValid(Flat(placed)) && FitsFiles(disk)
    ensures |disk| == |placed|
    ensures mark == After(hash, START, Flat(placed)) && START.next == 1
  {
  }

  lemma ScanNoFiles(hash: Hash, m: Mark)
    ensures ScanDisk(hash, [], m) == Recovered([], m, CLEAN)
  {
  }

  lemma PrependNone(records: seq<Record>, mark: Mark, report: Report)
    ensures Prepend(records, Recovered([], mark, report)) == Recovered(records, mark, report)
  {
    assert records + [] == records;
  }

  /** The file an append goes to, split from the files before it. */
  function FilesBefore(placed: seq<seq<Entry>>, segment: nat): seq<seq<Entry>>
    requires segment <= |placed|
  {
    placed[..segment]
  }

  function FileOf(placed: seq<seq<Entry>>, segment: nat): seq<Entry> {
    if segment < |placed| then placed[segment] else []
  }

  lemma AppendTarget(hash: Hash, disk: seq<Bytes>, placed: seq<seq<Entry>>, mark: Mark, segment: nat, bytes: Bytes)
    requires Bounded(hash, disk, placed, mark) && segment <= |disk| <= segment + 1
    ensures var files, last := FilesBefore(placed, segment), FileOf(placed, segment);
      var m := After(hash, START, Flat(files));
      && Written(disk, segment, bytes) == DiskImage(hash, START, files) + [Image(hash, m, last) + bytes]
      && |Image(hash, m, last)| == SizeOf(disk, segment)
      && mark == After(hash, m, last) && Flat(placed) == Flat(files) + last
      && FitsFiles(DiskImage(hash, START, files))
  {
    hide Image, After, Flat, DiskImage, Total;
    var files, last := FilesBefore(placed, segment), FileOf(placed, segment);
    var m := After(hash, START, Flat(files));
    AfterAppend(hash, START, Flat(files), last);
    if segment < |disk| {
      LastSplit(placed);
      LastSplit(disk);
      DiskSplit(hash, START, files, [last]);
      FlatSplit(files, [last]);
      OneFile(hash, m, last);
    } else {
      Nil(hash, m);
      assert placed[..segment] == placed && disk[..segment] == disk;
      assert Flat(files) + [] == Flat(files) && [] + bytes == bytes;
    }
  }

  /** In every state a ledger reaches, cutting its last file at any byte leaves a directory that reads without
      corruption as a prefix of the appended entries, and repairs to one that reads the same with nothing torn. */
  lemma CrashOfLedger(l: Ledger, k: nat) returns (kept: nat)
    requires l.Valid() && l.disk != [] && k <= |l.disk[|l.disk| - 1]|
    ensures kept <= |l.Entries()|
    ensures var n := |l.disk| - 1;
      var o := ScanDisk(l.hash, l.disk[..n] + [l.disk[n][..k]], START);
      && o.Recovered? && o.records == RecordsOf(l.hash, START, l.Entries()[..kept])
      && o.mark == After(l.hash, START, l.Entries()[..kept])
      && ScanDisk(l.hash, Repair(l.disk[..n] + [l.disk[n][..k]], o.report), START) == Recovered(o.records, o.mark, CLEAN)
    ensures k == |l.disk[|l.disk| - 1]| ==> kept == |l.Entries()|
  {
    hide ScanDisk, DiskImage, Image, RecordsOf, After, Flat, Total, Complete, Repair;
    var hash, n := l.hash, |l.disk| - 1;
    var files, last, mark := l.placed[..n], l.placed[n], Mark(l.lastSequence + 1, l.chain);
    var crashed := l.disk[..n] + [l.disk[n][..k]];
    NumbersFit(hash, l.disk, l.placed, mark);
    LastSplit(l.placed);
    DiskSplit(hash, START, files, [last]);
    FlatSplit(files, [last]);
    OneFile(hash, After(hash, START, Flat(files)), last);
    assert l.disk[..n] == DiskImage(hash, START, files);
    CrashReads(hash, files, last, k, crashed);
    RepairReads(hash, crashed, START);
    CompleteAll(hash, After(hash, START, Flat(files)), last);
    kept := |Flat(files)| + Complete(last, k);
    assert l.Entries()[..kept] == Flat(files) + last[..Complete(last, k)];
  }

  lemma {:induction false} CompleteAll(hash: Hash, m: Mark, entries: seq<Entry>)
    ensures Complete(entries, |Image(hash, m, entries)|) == |entries|
    decreases |entries|
  {
    hide *;
    CompleteSteps(hash, m, entries, |Image(hash, m, entries)|);
    if entries != [] {
      var e, more := entries[0], entries[1..];
      assert entries == [e] + more;
      Cons(hash, m, e, more);
      FrameSize(hash, m, e);
      CompleteAll(hash, Advance(hash, m, e), more);
    }
  }

  /** What a reader finds behind the history when bytes were added to the current file. */
  lemma ScanExtended(hash: Hash, disk: seq<Bytes>, placed: seq<seq<Entry>>, mark: Mark, segment: nat, bytes: Bytes)
    requires Bounded(hash, disk, placed, mark) && segment <= |disk| <= segment + 1
    requires SizeOf(disk, segment) + |bytes| <= MAX_SEGMENT_BYTES
    ensures var s := ScanSegment(hash, bytes, mark);
      ScanDisk(hash, Written(disk, segment, bytes), START)
        == if s.Failed? then Lost(s.code)
           else Recovered(RecordsOf(hash, START, Flat(placed)) + s.records, s.mark,
                          if s.valid < |bytes| then Report(true, |bytes| - s.valid, SizeOf(disk, segment) + s.valid, 0) else CLEAN)
  {
    hide *;
    HoldsMeans(hash, disk, placed, mark);
    NumbersFit(hash, disk, placed, mark);
    var files, last := FilesBefore(placed, segment), FileOf(placed, segment);
    var m := After(hash, START, Flat(files));
    AppendTarget(hash, disk, placed, mark, segment, bytes);
    ValidParts(Flat(files), last);
    ScanDiskWritten(hash, START, files, [Image(hash, m, last) + bytes]);
    ScanWritten(hash, m, last, bytes);
    AfterNext(hash, START, Flat(files));
    AfterNext(hash, m, last);
    LastFileScan(hash, Image(hash, m, last) + bytes, m, RecordsOf(hash, m, last), |Image(hash, m, last)|,
                 ScanSegment(hash, bytes, mark), |bytes|);
    AfterAppend(hash, START, Flat(files), last);
    Regroup(RecordsOf(hash, START, Flat(files)), RecordsOf(hash, m, last),
            Ended(ScanSegment(hash, bytes, mark), |bytes|, |Image(hash, m, last)|));
    PrependEnded(RecordsOf(hash, START, Flat(placed)), ScanSegment(hash, bytes, mark), |bytes|, |Image(hash, m, last)|);
  }

  lemma AfterNext(hash: Hash, m: Mark, entries: seq<Entry>)
    ensures After(hash, m, entries).next == m.next + |entries|
  {
  }

  lemma ValidParts(a: seq<Entry>, b: seq<Entry>)
    requires AllValid(a + b)
    ensures AllValid(a) && AllValid(b)
  {
    assert forall e :: e in a ==> e in a + b;
    assert forall e :: e in b ==> e in a + b;
  }

  /** The outcome of a last file whose final bytes were scanned as s. */
  function Ended(s: Scan, size: nat, before: nat): Outcome
    requires s.Scanned? ==> s.valid <= size
  {
    match s
    case Failed(code) => Lost(code)
    case Scanned(records, mark, valid) =>
      Recovered(records, mark, if valid < size then Report(true, size - valid, before + valid, 0) else CLEAN)
  }

  lemma PrependEnded(records: seq<Record>, s: Scan, size: nat, before: nat)
    requires s.Scanned? ==> s.valid <= size
    ensures Prepend(records, Ended(s, size, before))
         == if s.Failed? then Lost(s.code)
            else Recovered(records + s.records, s.mark,
                           if s.valid < size then Report(true, size - s.valid, before + s.valid, 0) else CLEAN)
  {
  }

  lemma LastFileScan(hash: Hash, file: Bytes, m: Mark, records: seq<Record>, before: nat, s: Scan, size: nat)
    requires |file| == before + size <= MAX_SEGMENT_BYTES && (s.Scanned? ==> s.valid <= size)
    requires ScanSegment(hash, file, m) == Shift(records, before, s)
    ensures ScanDisk(hash, [file], m) == Prepend(records, Ended(s, size, before))
  {
    hide ScanSegment;
    assert [file][1..] == [];
    if s.Scanned? {
      PrependNone(records + s.records, s.mark, CLEAN);
    }
  }

  /** A crash while an entry is being appended. Whatever part of its frame reached the file, every entry
      acknowledged before is read back, and the interrupted one exactly when its frame is complete. */
  lemma CrashDuringAppend(hash: Hash, disk: seq<Bytes>, placed: seq<seq<Entry>>, mark: Mark, segment: nat, e: Entry, j: nat)
    requires Bounded(hash, disk, placed, mark) && e.Valid() && segment <= |disk| <= segment + 1
    requires SizeOf(disk, segment) + FrameBytes(e) <= MAX_SEGMENT_BYTES && j <= FrameBytes(e)
    ensures var whole := j == FrameBytes(e);
      ScanDisk(hash, Written(disk, segment, FrameAt(hash, mark, e)[..j]), START)
        == Recovered(RecordsOf(hash, START, Flat(placed) + if whole then [e] else []),
                     if whole then Advance(hash, mark, e) else mark,
                     if !whole && j > 0 then Report(true, j, SizeOf(disk, segment), 0) else CLEAN)
  {
    hide *;
    NumbersFit(hash, disk, placed, mark);
    HoldsMeans(hash, disk, placed, mark);
    FrameSize(hash, mark, e);
    var bytes := FrameAt(hash, mark, e)[..j];
    if j == FrameBytes(e) {
      assert bytes == FrameAt(hash, mark, e);
      ScanExact(hash, mark, e);
      AfterAppend(hash, START, Flat(placed), [e]);
      RecordsOfOne(hash, mark, e);
    } else {
      ScanTorn(hash, mark, e, j);
      assert Flat(placed) + [] == Flat(placed);
      assert RecordsOf(hash, START, Flat(placed)) + [] == RecordsOf(hash, START, Flat(placed));
    }
    ScanExtended(hash, disk, placed, mark, segment, bytes);
  }

  lemma FrameSize(hash: Hash, m: Mark, e: Entry)
    ensures |FrameAt(hash, m, e)| == FrameBytes(e)
  {
  }

  lemma RecordsOfOne(hash: Hash, m: Mark, e: Entry)
    ensures RecordsOf(hash, m, [e]) == [RecordOf(hash, m.next, e, m.chain)]
  {
    assert [e][1..] == [];
  }

  lemma ScanExact(hash: Hash, m: Mark, e: Entry)
    requires e.Valid() && m.next < Pow256(8)
    ensures ScanSegment(hash, FrameAt(hash, m, e), m)
         == Scanned([RecordOf(hash, m.next, e, m.chain)], Advance(hash, m, e), FrameBytes(e))
  {
    hide *;
    ScanFrame(hash, m, e, []);
    ScanEmpty(hash, Advance(hash, m, e));
    assert FrameAt(hash, m, e) + [] == FrameAt(hash, m, e);
    NothingMore([RecordOf(hash, m.next, e, m.chain)], FrameBytes(e), Advance(hash, m, e));
  }

  lemma ScanEmpty(hash: Hash, m: Mark)
    ensures ScanSegment(hash, [], m) == Scanned([], m, 0)
  {
  }

  lemma ScanTorn(hash: Hash, m: Mark, e: Entry, j: nat)
    requires e.Valid() && m.next < Pow256(8) && j < FrameBytes(e)
    ensures |FrameAt(hash, m, e)| == FrameBytes(e)
    ensures ScanSegment(hash, FrameAt(hash, m, e)[..j], m) == Scanned([], m, 0)
  {
    if j > 0 {
      ParseCut(hash, m.next, e, m.chain, j);
    }
  }

  // ---------------------------------------------------------------------------
  // Opening again
  // ---------------------------------------------------------------------------

  datatype Opened = Opened(ledger: Ledger, records: seq<Record>, report: Report) | Unreadable(code: Code)

  /** The chain value that opening seeds: the link stored in the last record, not that record's own value. */
  function SeededChain(records: seq<Record>): Digest {
    if records == [] then Zero() else records[|records| - 1].link
  }

  /** Opening reads the directory, repairs a torn tail, and takes its counters from the files left. */
  method Open(hash: Hash, directory: seq<Bytes>) returns (r: Opened)
    ensures r.Unreadable? <==> ScanDisk(hash, directory, START).Lost?
    ensures r.Unreadable? ==> r.code == ScanDisk(hash, directory, START).code
    ensures r.Opened? ==>
              var o := ScanDisk(hash, directory, START);
              && fresh(r.ledger) && r.ledger.hash == hash && r.ledger.Layout()
              && r.records == o.records && r.report == o.report
              && r.ledger.disk == Repair(directory, o.report)
              && r.ledger.lastSequence + 1 == o.mark.next
              && r.ledger.chain == SeededChain(o.records)
              && r.ledger.segmentCount == |r.ledger.disk|
              && r.ledger.segment == if r.ledger.disk == [] then 0 else |r.ledger.disk| - 1
  {
    hide ScanDisk, Total;
    var o := ReadFrames(hash, directory);
    if o.Lost? {
      return Unreadable(o.code);
    }
    NextPositive(hash, directory, START);
    TornWithin(hash, directory);
    var ledger := new Ledger.Create(hash);
    ledger.lastSequence := o.mark.next - 1;
    ledger.chain := SeededChain(o.records);
    ledger.disk := Repair(directory, o.report);
    ledger.segment := if |ledger.disk| == 0 then 0 else |ledger.disk| - 1;
    ledger.segmentBytes := SizeOf(ledger.disk, ledger.segment);
    ledger.segmentCount := |ledger.disk|;
    ledger.retainedBytes := Total(ledger.disk);
    r := Opened(ledger, o.records, o.report);
  }

  lemma TornWithin(hash: Hash, disk: seq<Bytes>)
    ensures var o := ScanDisk(hash, disk, START);
      o.Recovered? && o.report.torn ==> o.report.excessSegments < |disk|
  {
  }

  lemma {:induction false} SegmentNext(hash: Hash, bytes: Bytes, m: Mark)
    requires ScanSegment(hash, bytes, m).Scanned?
    ensures ScanSegment(hash, bytes, m).mark.next >= m.next
    decreases |bytes|
  {
    hide *;
    if bytes == [] || ParseFrame(hash, bytes).Refused? {
      ScanStops(hash, bytes, m);
    } else {
      var p := ParseFrame(hash, bytes);
      ScanUnfolds(hash, bytes, m);
      NextIs(hash, bytes, p.record);
      SegmentNext(hash, bytes[p.consumed..], NextMark(hash, bytes, p.record));
    }
  }

  lemma NextIs(hash: Hash, bytes: Bytes, record: Record)
    requires |bytes| >= HEADER_BYTES
    ensures NextMark(hash, bytes, record).next == record.sequence + 1
  {
  }

  lemma {:induction false} NextPositive(hash: Hash, disk: seq<Bytes>, m: Mark)
    ensures ScanDisk(hash, disk, m).Recovered? ==> ScanDisk(hash, disk, m).mark.next >= m.next
    decreases |disk|
  {
    if disk != [] && ScanDisk(hash, disk, m).Recovered? {
      hide ScanSegment;
      SegmentNext(hash, disk[0], m);
      NextPositive(hash, disk[1..], ScanSegment(hash, disk[0], m).mark);
    }
  }

  /** The seeded value of a faithful history is the chain value one record too early. */
  lemma SeedIsOneBehind(hash: Hash, entries: seq<Entry>)
    ensures SeededChain(RecordsOf(hash, START, entries))
         == if entries == [] then START.chain else After(hash, START, entries[..|entries| - 1]).chain
  {
    hide *;
    if entries == [] {
      SeedOfNone(hash);
    } else {
      RecordsChain(hash, START, entries, |entries| - 1);
      SeedOfSome(hash, START, entries);
    }
  }

  lemma SeedOfNone(hash: Hash)
    ensures SeededChain(RecordsOf(hash, START, [])) == START.chain
  {
  }

  lemma SeedOfSome(hash: Hash, m: Mark, entries: seq<Entry>)
    requires entries != []
    ensures |RecordsOf(hash, m, entries)| == |entries|
    ensures SeededChain(RecordsOf(hash, m, entries)) == RecordsOf(hash, m, entries)[|entries| - 1].link
    ensures forall n, e, d :: RecordOf(hash, n, e, d).link == d
  {
    hide RecordsOf;
  }

  /** Whether the seeded chain value happens to be the one the history ends with. */
  ghost predicate SeedFits(hash: Hash, entries: seq<Entry>) {
    entries == [] || After(hash, START, entries[..|entries| - 1]).chain == After(hash, START, entries).chain
  }

  /** A frame with any link behind a faithful history: read back if the link fits, corruption if not. */
  lemma ScanLinked(hash: Hash, disk: seq<Bytes>, placed: seq<seq<Entry>>, mark: Mark, segment: nat, e: Entry, link: Digest)
    requires Bounded(hash, disk, placed, mark) && e.Valid() && segment <= |disk| <= segment + 1
    requires SizeOf(disk, segment) + FrameBytes(e) <= MAX_SEGMENT_BYTES
    ensures ScanDisk(hash, Written(disk, segment, Frame(hash, mark.next, e, link)), START)
         == if link == mark.chain
            then Recovered(RecordsOf(hash, START, Flat(placed) + [e]), Advance(hash, mark, e), CLEAN)
            else Lost(LedgerCorrupt)
  {
    hide *;
    NumbersFit(hash, disk, placed, mark);
    HoldsMeans(hash, disk, placed, mark);
    var bytes := FrameAt(hash, Mark(mark.next, link), e);
    FrameSize(hash, Mark(mark.next, link), e);
    FrameIs(hash, mark.next, e, link);
    if link == mark.chain {
      ScanExact(hash, mark, e);
      AfterAppend(hash, START, Flat(placed), [e]);
      RecordsOfOne(hash, mark, e);
    } else {
      ScanUnlinked(hash, mark, e, link);
    }
    ScanExtended(hash, disk, placed, mark, segment, bytes);
  }

  lemma FrameIs(hash: Hash, next: nat, e: Entry, link: Digest)
    ensures FrameAt(hash, Mark(next, link), e) == Frame(hash, next, e, link)
  {
  }

  lemma ScanUnlinked(hash: Hash, m: Mark, e: Entry, link: Digest)
    requires e.Valid() && m.next < Pow256(8) && link != m.chain
    ensures ScanSegment(hash, FrameAt(hash, Mark(m.next, link), e), m) == Failed(LedgerCorrupt)
  {
    ParseBuilt(hash, m.next, e, link, []);
    assert FrameAt(hash, Mark(m.next, link), e) + [] == FrameAt(hash, Mark(m.next, link), e);
  }

  /** Opening a faithful directory and appending one record to it. The enlarged history can be read exactly
      when the directory was empty or the last two chain values coincide; otherwise reading reports
      corruption, because the new frame links to the record before the last one. */
  method ReopenAndAppend(hash: Hash, directory: seq<Bytes>, kind: nat, payload: Bytes,
                         ghost placed: seq<seq<Entry>>, ghost mark: Mark)
    returns (first: Opened, append: Append, o: Outcome)
    requires Bounded(hash, directory, placed, mark) && kind < 0x1_0000
    ensures first.Opened? && first.report == CLEAN && first.records == RecordsOf(hash, START, Flat(placed))
    ensures append.Rejected? ==> o == Recovered(first.records, mark, CLEAN)
    ensures append.Appended? && SeedFits(hash, Flat(placed)) ==>
      o == Recovered(RecordsOf(hash, START, Flat(placed) + [Entry(kind, payload)]), Advance(hash, mark, Entry(kind, payload)), CLEAN)
    ensures append.Appended? && !SeedFits(hash, Flat(placed)) ==> o == Lost(LedgerCorrupt)
  {
    hide ScanDisk, DiskImage, RecordsOf, After, Frame, ChainOf, Flat, Total, FrameAt;
    ReadsBack(hash, directory, placed, mark);
    SeedIsOneBehind(hash, Flat(placed));
    Nil(hash, START);
    first := Open(hash, directory);
    var ledger := first.ledger;
    append := ledger.Append(kind, payload);
    if append.Appended? {
      ScanLinked(hash, directory, placed, mark, ledger.segment, Entry(kind, payload), SeededChain(first.records));
    }
    o := ReadFrames(hash, ledger.disk);
  }

  /** The chain value behind a history is its last record's own. */
  lemma ChainBehind(hash: Hash, entries: seq<Entry>)
    requires entries != []
    ensures After(hash, START, entries).chain == ChainOf(hash, |entries|, entries[|entries| - 1])
  {
    hide ChainOf;
    var before, last := entries[..|entries| - 1], entries[|entries| - 1];
    LastSplit(entries);
    AfterAppend(hash, START, before, [last]);
    One(hash, After(hash, START, before), last);
    AfterNext(hash, START, before);
  }

  lemma SequenceField(hash: Hash, n: nat, e: Entry)
    ensures |ChainInput(hash, n, e)| >= 16 && ChainInput(hash, n, e)[8..16] == Le(n, 8)
  {
    hide Le;
  }

  /** Different sequence numbers give different chain inputs. */
  lemma ChainInputsDiffer(hash: Hash, m: nat, n: nat, d: Entry, e: Entry)
    requires m < n < Pow256(8)
    ensures ChainInput(hash, m, d) != ChainInput(hash, n, e)
  {
    hide ChainInput, Le, LeValue, Pow256;
    SequenceField(hash, m, d);
    SequenceField(hash, n, e);
    LeRoundTrip(m, 8);
    LeRoundTrip(n, 8);
  }

  /** After one record the seeded value fits exactly when the digest of that record is all zeros. */
  lemma OneRecordIsEnough(hash: Hash, e: Entry)
    ensures SeedFits(hash, [e]) <==> ChainOf(hash, 1, e) == Zero()
  {
    hide ChainOf;
    Nil(hash, START);
    ChainBehind(hash, [e]);
    assert [e][..0] == [];
  }

  /** After two or more it fits exactly when the digest maps two particular different inputs to one value. So a history
      survives reopening and one append only when it is empty or the digest function fails. */
  lemma SeedNeedsCollision(hash: Hash, entries: seq<Entry>)
    requires 2 <= |entries| < Pow256(8)
    ensures var n := |entries|;
      var a, b := ChainInput(hash, n - 1, entries[n - 2]), ChainInput(hash, n, entries[n - 1]);
      a != b && (SeedFits(hash, entries) <==> hash(a) == hash(b))
  {
    hide ChainInput;
    var n := |entries|;
    ChainBehind(hash, entries);
    ChainBehind(hash, entries[..n - 1]);
    ChainInputsDiffer(hash, n - 1, n, entries[n - 2], entries[n - 1]);
  }

  /** The segment bound when a new file is needed. A ledger that created its directory counts one file less
      than it has and goes on to file 257; after reopening, the bound is 256. */
  lemma SegmentBound(l: Ledger, size: nat)
    requires l.Valid() && size <= MAX_RECORD_BYTES
    requires l.segmentBytes + HEADER_BYTES + size > MAX_SEGMENT_BYTES
    requires l.retainedBytes + HEADER_BYTES + size <= MAX_JOURNAL_BYTES
    ensures l.segmentCount == l.segment ==> (l.Accepts(size) <==> |l.disk| <= MAX_SEGMENTS)
    ensures l.segmentCount == |l.disk| ==> (l.Accepts(size) <==> |l.disk| < MAX_SEGMENTS)
  {
  }

  const FULL_FRAME: nat := HEADER_BYTES + MAX_RECORD_BYTES

  /** As many frames of the largest size as one file takes. */
  const FRAMES_PER_FILE: nat := 15

  /** The counters after this many appends of the largest record to a new directory. */
  ghost predicate Filled(l: Ledger, appends: nat)
    reads l
  {
    && l.Valid()
    && l.segmentCount == l.segment
    && l.retainedBytes == FULL_FRAME * appends
    && if appends == 0 then l.segment == 0 && l.segmentBytes == 0 && l.disk == []
       else
         && l.segment == (appends - 1) / FRAMES_PER_FILE && |l.disk| == l.segment + 1
         && l.segmentBytes == FULL_FRAME * ((appends - 1) % FRAMES_PER_FILE + 1)
  }

  /** Whether the next append of the largest record starts a file, and that it is accepted. */
  lemma FilledAccepts(l: Ledger, appends: nat)
    requires Filled(l, appends) && appends <= FRAMES_PER_FILE * MAX_SEGMENTS
    ensures l.Accepts(MAX_RECORD_BYTES)
    ensures l.segmentBytes + FULL_FRAME > MAX_SEGMENT_BYTES <==> appends != 0 && appends % FRAMES_PER_FILE == 0
  {
    hide Ledger.Valid;
  }

  /** The counters after one more. */
  lemma NextPlace(appends: nat)
    requires appends != 0
    ensures appends / FRAMES_PER_FILE == (appends - 1) / FRAMES_PER_FILE + (if appends % FRAMES_PER_FILE == 0 then 1 else 0)
    ensures appends % FRAMES_PER_FILE == (if appends % FRAMES_PER_FILE == 0 then 0 else (appends - 1) % FRAMES_PER_FILE + 1)
  {
  }

  method AppendFull(l: Ledger, kind: nat, payload: Bytes, ghost appends: nat) returns (r: Append)
    requires Filled(l, appends) && appends <= FRAMES_PER_FILE * MAX_SEGMENTS
    requires kind < 0x1_0000 && |payload| == MAX_RECORD_BYTES
    modifies l
    ensures r.Appended? && Filled(l, appends + 1)
  {
    hide Ledger.Valid, Frame, ChainOf, Total, Written;
    FilledAccepts(l, appends);
    ghost var disk, bytes := l.disk, l.segmentBytes;
    FilledLayout(l, appends);
    r := l.Append(kind, payload);
    ghost var frame := Frame(l.hash, l.lastSequence, Entry(kind, payload), old(l.chain));
    WrittenTotal(disk, l.segment, frame);
    WrittenSize(disk, l.segment, frame);
    FreshSize(disk, l.segment, bytes, old(l.segment));
    if appends != 0 {
      NextPlace(appends);
    }
  }

  lemma FilledLayout(l: Ledger, appends: nat)
    requires Filled(l, appends)
    ensures l.Layout() && |l.disk| <= l.segment + 1
  {
  }

  lemma FreshSize(disk: seq<Bytes>, segment: nat, bytes: nat, before: nat)
    requires before <= |disk| <= before + 1 && bytes == SizeOf(disk, before)
    ensures segment == before ==> SizeOf(disk, segment) == bytes
    ensures segment == before + 1 ==> SizeOf(disk, segment) == 0
  {
  }

  /** The full directory reads back with nothing torn, so opening leaves it as it is. */
  lemma FilledReadsBack(l: Ledger, appends: nat)
    requires Filled(l, appends)
    ensures var o := ScanDisk(l.hash, l.disk, START); o.Recovered? && Repair(l.disk, o.report) == l.disk
    ensures l.retainedBytes == Total(l.disk) && forall k :: 0 <= k < |l.disk| ==> (k == l.segment ==> SizeOf(l.disk, k) == l.segmentBytes)
  {
    hide ScanDisk, Total, DiskImage, After, Flat;
    ReadsBack(l.hash, l.disk, l.placed, Mark(l.lastSequence + 1, l.chain));
  }

  /** The boot that creates a directory and appends the largest record again and again gets a 257th file; a ledger
      opened on the 256 full files does not. */
  method FillDirectory(hash: Hash, kind: nat) returns (directory: seq<Bytes>, creator: Append, files: nat, reopened: Append)
    requires kind < 0x1_0000
    ensures |directory| == MAX_SEGMENTS && ScanDisk(hash, directory, START).Recovered?
    ensures creator.Appended? && files == MAX_SEGMENTS + 1
    ensures reopened.Rejected?
  {
    hide ScanDisk, Total, Frame, ChainOf, Ledger.Valid, Repair, Written;
    var payload := seq(MAX_RECORD_BYTES, _ => 0);
    var ledger := new Ledger.Create(hash);
    for i := 0 to FRAMES_PER_FILE * MAX_SEGMENTS
      invariant fresh(ledger) && ledger.hash == hash && Filled(ledger, i)
    {
      var r := AppendFull(ledger, kind, payload, i);
    }
    directory := ledger.disk;
    FilledReadsBack(ledger, FRAMES_PER_FILE * MAX_SEGMENTS);
    ghost var used := ledger.segmentBytes;
    creator := AppendFull(ledger, kind, payload, FRAMES_PER_FILE * MAX_SEGMENTS);
    files := |ledger.disk|;
    var again := Open(hash, directory);
    assert SizeOf(directory, MAX_SEGMENTS - 1) == used == FULL_FRAME * FRAMES_PER_FILE;
    reopened := again.ledger.Append(kind, payload);
  }
}
