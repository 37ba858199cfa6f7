/** What a reader makes of the journal's bytes, and what a writer left there. */
module Journal {
  import opened Bytes
  import opened Frames

  const MAX_SEGMENT_BYTES: nat := 8 * 1024 * 1024
  const MAX_SEGMENTS: nat := 256
  const MAX_JOURNAL_BYTES: nat := MAX_SEGMENTS * MAX_SEGMENT_BYTES

  /** A position in the journal: the next sequence number and the chain value it must link to. */
  datatype Mark = Mark(next: nat, chain: Digest)

  const START: Mark := Mark(1, Zero())

  // ---------------------------------------------------------------------------
  // What a writer leaves
  // ---------------------------------------------------------------------------

  function FrameBytes(entry: Entry): nat {
    HEADER_BYTES + |entry.payload|
  }

  function FrameAt(hash: Hash, m: Mark, entry: Entry): (f: Bytes)
    ensures |f| == FrameBytes(entry)
  {
    Frame(hash, m.next, entry, m.chain)
  }

  function Advance(hash: Hash, m: Mark, entry: Entry): Mark {
    Mark(m.next + 1, ChainOf(hash, m.next, entry))
  }

  function After(hash: Hash, m: Mark, entries: seq<Entry>): (r: Mark)
    ensures r.next == m.next + |entries|
    decreases |entries|
  {
    if entries == [] then m else After(hash, Advance(hash, m, entries[0]), entries[1..])
  }

  function Image(hash: Hash, m: Mark, entries: seq<Entry>): Bytes
    decreases |entries|
  {
    if entries == [] then [] else FrameAt(hash, m, entries[0]) + Image(hash, Advance(hash, m, entries[0]), entries[1..])
  }

  function RecordsOf(hash: Hash, m: Mark, entries: seq<Entry>): (r: seq<Record>)
    ensures |r| == |entries|
    decreases |entries|
  {
    if entries == [] then []
    else [RecordOf(hash, m.next, entries[0], m.chain)] + RecordsOf(hash, Advance(hash, m, entries[0]), entries[1..])
  }

  function Flat(placed: seq<seq<Entry>>): seq<Entry> {
    if placed == [] then [] else placed[0] + Flat(placed[1..])
  }

  /** The journal files when placed[i] are the entries of file i. */
  function DiskImage(hash: Hash, m: Mark, placed: seq<seq<Entry>>): (disk: seq<Bytes>)
    ensures |disk| == |placed|
    decreases |placed|
  {
    if placed == [] then []
    else [Image(hash, m, placed[0])] + DiskImage(hash, After(hash, m, placed[0]), placed[1..])
  }

  ghost predicate AllValid(entries: seq<Entry>) {
    forall e :: e in entries ==> e.Valid()
  }

  ghost predicate FitsFiles(disk: seq<Bytes>) {
    forall s :: s in disk ==> |s| <= MAX_SEGMENT_BYTES
  }

  function Total(disk: seq<Bytes>): nat {
    if disk == [] then 0 else |disk[0]| + Total(disk[1..])
  }

  // ---------------------------------------------------------------------------
  // What a reader makes of it
  // ---------------------------------------------------------------------------

  /** valid is the number of bytes that belong to complete records. */
  datatype Scan = Scanned(records: seq<Record>, mark: Mark, valid: nat) | Failed(code: Code)

  function Shift(records: seq<Record>, bytes: nat, s: Scan): Scan {
    match s
    case Failed(code) => s
    case Scanned(more, mark, valid) => Scanned(records + more, mark, bytes + valid)
  }

  function ScanSegment(hash: Hash, bytes: Bytes, m: Mark): (s: Scan)
    ensures s.Scanned? ==> s.valid <= |bytes|
    decreases |bytes|
  {
    if bytes == [] then Scanned([], m, 0)
    else
      match ParseFrame(hash, bytes)
      case Refused(code) => if code == LedgerTruncated then Scanned([], m, 0) else Failed(code)
      case Parsed(record, consumed) =>
        if record.sequence != m.next then Failed(IndexGapDetected)
        else if record.link != m.chain then Failed(LedgerCorrupt)
        else Shift([record], consumed, ScanSegment(hash, bytes[consumed..], NextMark(hash, bytes, record)))
  }

  function NextMark(hash: Hash, bytes: Bytes, record: Record): Mark
    requires |bytes| >= HEADER_BYTES
  {
    Mark(record.sequence + 1, DerivedChain(hash, bytes, record.payload))
  }

  datatype Report = Report(torn: bool, truncatedBytes: nat, validBytes: nat, excessSegments: nat)

  const CLEAN: Report := Report(false, 0, 0, 0)

  datatype Outcome = Recovered(records: seq<Record>, mark: Mark, report: Report) | Lost(code: Code)

  function Prepend(records: seq<Record>, o: Outcome): Outcome {
    match o
    case Lost(code) => o
    case Recovered(more, mark, report) => Recovered(records + more, mark, report)
  }

  /** The scan of all files in name order. A torn file ends it; the files after it are excess. */
  function ScanDisk(hash: Hash, disk: seq<Bytes>, m: Mark): (o: Outcome)
    ensures o.Recovered? && o.report.torn ==> o.report.excessSegments < |disk|
    ensures o.Recovered? && !o.report.torn ==> o.report == CLEAN
    decreases |disk|
  {
    if disk == [] then Recovered([], m, CLEAN)
    else if |disk[0]| > MAX_SEGMENT_BYTES + 1 then Lost(LedgerOversized)
    else
      match ScanSegment(hash, disk[0], m)
      case Failed(code) => Lost(code)
      case Scanned(records, next, valid) =>
        if valid < |disk[0]| then Recovered(records, next, Report(true, |disk[0]| - valid, valid, |disk| - 1))
        else Prepend(records, ScanDisk(hash, disk[1..], next))
  }

  /** The repair that opening performs: the torn file is cut to its valid bytes, later files go. */
  function Repair(disk: seq<Bytes>, report: Report): seq<Bytes>
    requires report.torn ==> report.excessSegments < |disk|
  {
    if !report.torn then disk
    else
      var kept := |disk| - report.excessSegments;
      disk[..kept - 1] + [disk[kept - 1][..Min(report.validBytes, |disk[kept - 1]|)]]
  }

  function Min(a: nat, b: nat): nat {
    if a < b then a else b
  }

  // ---------------------------------------------------------------------------
  // Written frames are read back
  // ---------------------------------------------------------------------------

  lemma Reassociate<T>(a: seq<T>, b: seq<T>, c: seq<T>)
    ensures a + (b + c) == (a + b) + c
  {
  }

  lemma Nil(hash: Hash, m: Mark)
    ensures Image(hash, m, []) == [] && After(hash, m, []) == m && RecordsOf(hash, m, []) == []
    ensures DiskImage(hash, m, []) == [] && Flat([]) == []
  {
  }

  lemma Cons(hash: Hash, m: Mark, e: Entry, more: seq<Entry>)
    ensures var next := Advance(hash, m, e);
      && Image(hash, m, [e] + more) == FrameAt(hash, m, e) + Image(hash, next, more)
      && After(hash, m, [e] + more) == After(hash, next, more)
      && RecordsOf(hash, m, [e] + more) == [RecordOf(hash, m.next, e, m.chain)] + RecordsOf(hash, next, more)
  {
    assert ([e] + more)[1..] == more;
  }

  lemma {:induction false} AfterAppend(hash: Hash, m: Mark, a: seq<Entry>, b: seq<Entry>)
    ensures After(hash, m, a + b) == After(hash, After(hash, m, a), b)
    ensures Image(hash, m, a + b) == Image(hash, m, a) + Image(hash, After(hash, m, a), b)
    ensures RecordsOf(hash, m, a + b) == RecordsOf(hash, m, a) + RecordsOf(hash, After(hash, m, a), b)
    decreases |a|
  {
    hide *;
    Nil(hash, m);
    if a == [] {
      assert a + b == b;
    } else {
      var e, more, next := a[0], a[1..], Advance(hash, m, a[0]);
      assert a == [e] + more && a + b == [e] + (more + b);
      Cons(hash, m, e, more);
      Cons(hash, m, e, more + b);
      AfterAppend(hash, next, more, b);
      Reassociate(FrameAt(hash, m, e), Image(hash, next, more), Image(hash, After(hash, next, more), b));
      Reassociate([RecordOf(hash, m.next, e, m.chain)], RecordsOf(hash, next, more), RecordsOf(hash, After(hash, next, more), b));
    }
  }

  lemma One(hash: Hash, m: Mark, e: Entry)
    ensures After(hash, m, [e]) == Advance(hash, m, e) && Image(hash, m, [e]) == FrameAt(hash, m, e)
  {
    assert [e][1..] == [];
    assert Image(hash, m, [e]) == FrameAt(hash, m, e) + [];
  }

  /** Records carry consecutive numbers, their own content, and the link to the record before. */
  lemma {:induction false} RecordsChain(hash: Hash, m: Mark, entries: seq<Entry>, i: nat)
    requires i < |entries|
    ensures RecordsOf(hash, m, entries)[i]
         == RecordOf(hash, m.next + i, entries[i], After(hash, m, entries[..i]).chain)
    decreases |entries|
  {
    if i == 0 {
      assert entries[..0] == [];
    } else {
      RecordsChain(hash, Advance(hash, m, entries[0]), entries[1..], i - 1);
      assert entries[..i] == [entries[0]] + entries[1..][..i - 1];
      assert entries[..i][0] == entries[0] && entries[..i][1..] == entries[1..][..i - 1];
    }
  }

  lemma ScanFrame(hash: Hash, m: Mark, e: Entry, rest: Bytes)
    requires e.Valid() && m.next < Pow256(8)
    ensures ScanSegment(hash, FrameAt(hash, m, e) + rest, m)
         == Shift([RecordOf(hash, m.next, e, m.chain)], FrameBytes(e), ScanSegment(hash, rest, Advance(hash, m, e)))
  {
    var bytes := FrameAt(hash, m, e) + rest;
    ParseBuilt(hash, m.next, e, m.chain, rest);
    DerivedIsChain(hash, m.next, e, m.chain, rest);
    assert bytes[FrameBytes(e)..] == rest;
  }

  lemma ShiftTwice(a: seq<Record>, i: nat, b: seq<Record>, j: nat, s: Scan)
    ensures Shift(a, i, Shift(b, j, s)) == Shift(a + b, i + j, s)
  {
    if s.Scanned? {
      assert a + (b + s.records) == (a + b) + s.records;
    }
  }

  lemma ScanOneMore(hash: Hash, m: Mark, e: Entry, more: seq<Entry>, rest: Bytes, s: Scan)
    requires e.Valid() && m.next < Pow256(8)
    requires ScanSegment(hash, Image(hash, Advance(hash, m, e), more) + rest, Advance(hash, m, e))
          == Shift(RecordsOf(hash, Advance(hash, m, e), more), |Image(hash, Advance(hash, m, e), more)|, s)
    ensures ScanSegment(hash, Image(hash, m, [e] + more) + rest, m)
         == Shift(RecordsOf(hash, m, [e] + more), |Image(hash, m, [e] + more)|, s)
  {
    hide *;
    var tail := Image(hash, Advance(hash, m, e), more);
    Cons(hash, m, e, more);
    assert Image(hash, m, [e] + more) + rest == FrameAt(hash, m, e) + (tail + rest);
    ScanFrame(hash, m, e, tail + rest);
    ShiftTwice([RecordOf(hash, m.next, e, m.chain)], FrameBytes(e), RecordsOf(hash, Advance(hash, m, e), more), |tail|, s);
  }

  /** The scan walks over everything that was written and goes on with what follows. */
  lemma {:induction false} ScanWritten(hash: Hash, m: Mark, entries: seq<Entry>, rest: Bytes)
    requires AllValid(entries) && m.next + |entries| <= Pow256(8)
    ensures ScanSegment(hash, Image(hash, m, entries) + rest, m)
         == Shift(RecordsOf(hash, m, entries), |Image(hash, m, entries)|,
                  ScanSegment(hash, rest, After(hash, m, entries)))
    decreases |entries|
  {
    if entries == [] {
      assert Image(hash, m, entries) + rest == rest;
    } else {
      var e, more := entries[0], entries[1..];
      ScanWritten(hash, Advance(hash, m, e), more, rest);
      ScanOneMore(hash, m, e, more, rest, ScanSegment(hash, rest, After(hash, m, entries)));
      assert entries == [e] + more;
    }
  }

  /** How many whole frames the first k bytes hold. */
  function Complete(entries: seq<Entry>, k: nat): (c: nat)
    ensures c <= |entries|
  {
    if entries == [] || k < FrameBytes(entries[0]) then 0 else 1 + Complete(entries[1..], k - FrameBytes(entries[0]))
  }

  lemma CutJoin(first: Bytes, tail: Bytes, k: nat, head: Bytes, piece: Bytes)
    requires |first| <= k <= |first| + |tail| && tail[..k - |first|] == head + piece
    ensures (first + tail)[..k] == (first + head) + piece
  {
    assert (first + tail)[..k] == first + tail[..k - |first|];
  }

  lemma PrefixStep(hash: Hash, m: Mark, entries: seq<Entry>, c: nat)
    requires 1 <= c <= |entries|
    ensures var next := Advance(hash, m, entries[0]);
      && Image(hash, m, entries[..c]) == FrameAt(hash, m, entries[0]) + Image(hash, next, entries[1..][..c - 1])
      && After(hash, m, entries[..c]) == After(hash, next, entries[1..][..c - 1])
  {
    assert entries[..c][0] == entries[0] && entries[..c][1..] == entries[1..][..c - 1];
  }

  ghost predicate IsPiece(hash: Hash, m: Mark, entries: seq<Entry>, c: nat, piece: Bytes)
    requires c <= |entries|
  {
    piece == [] || (c < |entries| && |piece| < FrameBytes(entries[c])
                    && piece == FrameAt(hash, After(hash, m, entries[..c]), entries[c])[..|piece|])
  }

  /** A cut file is its complete frames and a proper piece of the next one. */
  lemma {:induction false} CutSplits(hash: Hash, m: Mark, entries: seq<Entry>, k: nat) returns (piece: Bytes)
    requires k <= |Image(hash, m, entries)|
    ensures Image(hash, m, entries)[..k] == Image(hash, m, entries[..Complete(entries, k)]) + piece
    ensures IsPiece(hash, m, entries, Complete(entries, k), piece)
    decreases |entries|
  {
    hide *;
    CompleteSteps(hash, m, entries, k);
    if entries == [] {
      piece := [];
      Nil(hash, m);
      NoPiece(hash, m, entries);
    } else if k < FrameBytes(entries[0]) {
      piece := Image(hash, m, entries)[..k];
      ShortPiece(hash, m, entries, k);
    } else {
      var c := Complete(entries, k);
      var e, more, next := entries[0], entries[1..], Advance(hash, m, entries[0]);
      Cons(hash, m, e, more);
      assert entries == [e] + more;
      piece := CutSplits(hash, next, more, k - FrameBytes(e));
      PrefixStep(hash, m, entries, c);
      CutJoin(FrameAt(hash, m, e), Image(hash, next, more), k, Image(hash, next, more[..c - 1]), piece);
      PieceStep(hash, m, entries, c, piece);
    }
  }

  lemma CompleteSteps(hash: Hash, m: Mark, entries: seq<Entry>, k: nat)
    ensures entries == [] ==> Complete(entries, k) == 0
    ensures entries != [] && k < FrameBytes(entries[0]) ==> Complete(entries, k) == 0
    ensures entries != [] && k >= FrameBytes(entries[0]) ==>
      Complete(entries, k) == 1 + Complete(entries[1..], k - FrameBytes(entries[0]))
  {
  }

  lemma NoPiece(hash: Hash, m: Mark, entries: seq<Entry>)
    ensures IsPiece(hash, m, entries, 0, [])
  {
  }

  lemma ShortPiece(hash: Hash, m: Mark, entries: seq<Entry>, k: nat)
    requires entries != [] && k < FrameBytes(entries[0]) && k <= |Image(hash, m, entries)|
    ensures IsPiece(hash, m, entries, 0, Image(hash, m, entries)[..k])
    ensures Image(hash, m, entries[..0]) == []
  {
    assert entries[..0] == [];
    assert Image(hash, m, entries)[..k] == FrameAt(hash, m, entries[0])[..k];
  }

  lemma PieceStep(hash: Hash, m: Mark, entries: seq<Entry>, c: nat, piece: Bytes)
    requires 1 <= c <= |entries| && IsPiece(hash, Advance(hash, m, entries[0]), entries[1..], c - 1, piece)
    ensures IsPiece(hash, m, entries, c, piece)
  {
    hide Image, After, FrameAt;
    PrefixStep(hash, m, entries, c);
  }

  /** Whatever byte a file is cut at, the scan returns exactly the records whose frames are complete. */
  lemma ScanCut(hash: Hash, m: Mark, entries: seq<Entry>, k: nat)
    requires AllValid(entries) && m.next + |entries| <= Pow256(8)
    requires k <= |Image(hash, m, entries)|
    ensures var kept := entries[..Complete(entries, k)];
      && ScanSegment(hash, Image(hash, m, entries)[..k], m)
           == Scanned(RecordsOf(hash, m, kept), After(hash, m, kept), |Image(hash, m, kept)|)
  {
    KeptIsValid(entries, Complete(entries, k));
    hide *;
    var c := Complete(entries, k);
    var kept := entries[..c];
    var piece := CutSplits(hash, m, entries, k);
    ScanPiece(hash, m, entries, c, piece);
    ScanWritten(hash, m, kept, piece);
    NothingMore(RecordsOf(hash, m, kept), |Image(hash, m, kept)|, After(hash, m, kept));
  }

  lemma ScanPiece(hash: Hash, m: Mark, entries: seq<Entry>, c: nat, piece: Bytes)
    requires AllValid(entries) && m.next + |entries| <= Pow256(8)
    requires c <= |entries| && IsPiece(hash, m, entries, c, piece)
    ensures var mark := After(hash, m, entries[..c]);
      ScanSegment(hash, piece, mark) == Scanned([], mark, 0)
  {
    if piece != [] {
      var mark := After(hash, m, entries[..c]);
      ParseCut(hash, mark.next, entries[c], mark.chain, |piece|);
    }
  }

  lemma ScanWhole(hash: Hash, m: Mark, entries: seq<Entry>)
    requires AllValid(entries) && m.next + |entries| <= Pow256(8)
    ensures ScanSegment(hash, Image(hash, m, entries), m)
         == Scanned(RecordsOf(hash, m, entries), After(hash, m, entries), |Image(hash, m, entries)|)
  {
    ScanWritten(hash, m, entries, []);
    assert Image(hash, m, entries) + [] == Image(hash, m, entries);
    assert RecordsOf(hash, m, entries) + [] == RecordsOf(hash, m, entries);
  }

  /** The scan of the directory walks over every fully written file. */
  lemma {:induction false} ScanDiskWritten(hash: Hash, m: Mark, placed: seq<seq<Entry>>, rest: seq<Bytes>)
    requires AllValid(Flat(placed)) && m.next + |Flat(placed)| <= Pow256(8)
    requires FitsFiles(DiskImage(hash, m, placed))
    ensures ScanDisk(hash, DiskImage(hash, m, placed) + rest, m)
         == Prepend(RecordsOf(hash, m, Flat(placed)), ScanDisk(hash, rest, After(hash, m, Flat(placed))))
    decreases |placed|
  {
    hide *;
    Nil(hash, m);
    var disk := DiskImage(hash, m, placed);
    if placed == [] {
      assert disk + rest == rest;
      PrependNothing(ScanDisk(hash, rest, m));
    } else {
      var next, more := After(hash, m, placed[0]), placed[1..];
      ConsFile(hash, m, placed[0], more);
      assert placed == [placed[0]] + more;
      FirstFile(hash, m, placed);
      ScanDiskWritten(hash, next, more, rest);
      AfterAppend(hash, m, placed[0], Flat(more));
      FileAndMore(hash, disk[0], m, DiskImage(hash, next, more) + rest, RecordsOf(hash, next, Flat(more)),
                  ScanDisk(hash, rest, After(hash, m, Flat(placed))));
      assert disk + rest == [disk[0]] + (DiskImage(hash, next, more) + rest);
    }
  }

  lemma PrependNothing(o: Outcome)
    ensures Prepend([], o) == o
  {
    if o.Recovered? {
      assert [] + o.records == o.records;
    }
  }

  lemma FileAndMore(hash: Hash, first: Bytes, m: Mark, rest: seq<Bytes>, records: seq<Record>, o: Outcome)
    requires |first| <= MAX_SEGMENT_BYTES + 1
    requires ScanSegment(hash, first, m).Scanned? && ScanSegment(hash, first, m).valid == |first|
    requires ScanDisk(hash, rest, ScanSegment(hash, first, m).mark) == Prepend(records, o)
    ensures ScanDisk(hash, [first] + rest, m) == Prepend(ScanSegment(hash, first, m).records + records, o)
  {
    ScanFirst(hash, first, rest, m);
    Regroup(ScanSegment(hash, first, m).records, records, o);
  }

  lemma ConsFile(hash: Hash, m: Mark, file: seq<Entry>, more: seq<seq<Entry>>)
    ensures DiskImage(hash, m, [file] + more) == [Image(hash, m, file)] + DiskImage(hash, After(hash, m, file), more)
    ensures Flat([file] + more) == file + Flat(more)
  {
    assert ([file] + more)[1..] == more;
  }

  lemma FirstFile(hash: Hash, m: Mark, placed: seq<seq<Entry>>)
    requires placed != [] && AllValid(Flat(placed)) && m.next + |Flat(placed)| <= Pow256(8)
    requires FitsFiles(DiskImage(hash, m, placed))
    ensures AllValid(Flat(placed[1..])) && FitsFiles(DiskImage(hash, After(hash, m, placed[0]), placed[1..]))
    ensures |Image(hash, m, placed[0])| <= MAX_SEGMENT_BYTES
    ensures ScanSegment(hash, Image(hash, m, placed[0]), m)
         == Scanned(RecordsOf(hash, m, placed[0]), After(hash, m, placed[0]), |Image(hash, m, placed[0])|)
  {
    var disk := DiskImage(hash, m, placed);
    var tail := DiskImage(hash, After(hash, m, placed[0]), placed[1..]);
    assert disk == [disk[0]] + tail && disk[0] in disk;
    assert forall s :: s in tail ==> s in disk;
    assert forall e :: e in placed[0] ==> e in Flat(placed);
    assert forall e :: e in Flat(placed[1..]) ==> e in Flat(placed);
    ScanWhole(hash, m, placed[0]);
  }

  lemma ScanFirst(hash: Hash, first: Bytes, rest: seq<Bytes>, m: Mark)
    requires |first| <= MAX_SEGMENT_BYTES + 1
    requires ScanSegment(hash, first, m).Scanned? && ScanSegment(hash, first, m).valid == |first|
    ensures var s := ScanSegment(hash, first, m);
      ScanDisk(hash, [first] + rest, m) == Prepend(s.records, ScanDisk(hash, rest, s.mark))
  {
    assert ([first] + rest)[1..] == rest;
  }

  lemma Regroup(a: seq<Record>, b: seq<Record>, o: Outcome)
    ensures Prepend(a, Prepend(b, o)) == Prepend(a + b, o)
  {
    if o.Recovered? {
      assert a + (b + o.records) == (a + b) + o.records;
    }
  }

  lemma FlatCons(file: seq<Entry>, more: seq<seq<Entry>>)
    ensures Flat([file] + more) == file + Flat(more) && Flat([]) == []
  {
    assert ([file] + more)[1..] == more;
  }

  lemma {:induction false} FlatSplit(a: seq<seq<Entry>>, b: seq<seq<Entry>>)
    ensures Flat(a + b) == Flat(a) + Flat(b)
    decreases |a|
  {
    hide *;
    if a == [] {
      FlatCons([], b);
      assert a + b == b;
    } else {
      var file, more := a[0], a[1..];
      assert a == [file] + more && a + b == [file] + (more + b);
      FlatCons(file, more);
      FlatCons(file, more + b);
      FlatSplit(more, b);
    }
  }

  lemma {:induction false} DiskSplit(hash: Hash, m: Mark, a: seq<seq<Entry>>, b: seq<seq<Entry>>)
    ensures DiskImage(hash, m, a + b) == DiskImage(hash, m, a) + DiskImage(hash, After(hash, m, Flat(a)), b)
    decreases |a|
  {
    hide *;
    Nil(hash, m);
    if a == [] {
      assert a + b == b;
    } else {
      var file, more := a[0], a[1..];
      assert a == [file] + more && a + b == [file] + (more + b);
      ConsFile(hash, m, file, more);
      ConsFile(hash, m, file, more + b);
      DiskSplit(hash, After(hash, m, file), more, b);
      AfterAppend(hash, m, file, Flat(more));
    }
  }

  /** The directory a crash leaves: every file whole but the last, which is cut at byte k. */
  ghost predicate IsCrash(hash: Hash, files: seq<seq<Entry>>, last: seq<Entry>, k: nat, disk: seq<Bytes>) {
    var mark := After(hash, START, Flat(files));
    && k <= |Image(hash, mark, last)|
    && disk == DiskImage(hash, START, files) + [Image(hash, mark, last)[..k]]
  }

  ghost predicate WellSized(hash: Hash, files: seq<seq<Entry>>) {
    && AllValid(Flat(files))
    && 1 + |Flat(files)| <= Pow256(8)
    && FitsFiles(DiskImage(hash, START, files))
  }

  lemma CrashShape(hash: Hash, files: seq<seq<Entry>>, last: seq<Entry>, k: nat, disk: seq<Bytes>)
    requires IsCrash(hash, files, last, k, disk)
    ensures k <= |Image(hash, After(hash, START, Flat(files)), last)|
    ensures disk == DiskImage(hash, START, files) + [Image(hash, After(hash, START, Flat(files)), last)[..k]]
  {
  }

  lemma WellSizedMeans(hash: Hash, files: seq<seq<Entry>>, last: seq<Entry>)
    requires WellSized(hash, files + [last]) && WellSized(hash, files) && Flat(files + [last]) == Flat(files) + last
    ensures AllValid(Flat(files)) && FitsFiles(DiskImage(hash, START, files))
    ensures START.next + |Flat(files)| <= Pow256(8)
    ensures After(hash, START, Flat(files)).next + |last| <= Pow256(8)
  {
    hide Image, DiskImage, Flat, Pow256, After;
  }

  lemma KeptIsValid(entries: seq<Entry>, c: nat)
    requires AllValid(entries) && c <= |entries|
    ensures AllValid(entries[..c])
  {
  }

  lemma NothingMore(records: seq<Record>, bytes: nat, mark: Mark)
    ensures Shift(records, bytes, Scanned([], mark, 0)) == Scanned(records, mark, bytes)
  {
    assert records + [] == records;
  }

  lemma PrependOne(records: seq<Record>, more: seq<Record>, mark: Mark, report: Report)
    ensures Prepend(records, Recovered(more, mark, report)) == Recovered(records + more, mark, report)
  {
  }

  lemma PrefixOfLast(before: seq<Entry>, last: seq<Entry>, c: nat)
    requires c <= |last|
    ensures before + last[..c] <= before + last
  {
  }

  /** What is complete in a cut image is no longer than the cut. */
  lemma CutFits(hash: Hash, m: Mark, entries: seq<Entry>, k: nat)
    requires k <= |Image(hash, m, entries)|
    ensures |Image(hash, m, entries[..Complete(entries, k)])| <= k
  {
    var piece := CutSplits(hash, m, entries, k);
  }

  /** The cut file alone. */
  lemma CrashedLast(hash: Hash, m: Mark, last: seq<Entry>, k: nat)
    requires AllValid(last) && m.next + |last| <= Pow256(8)
    requires k <= |Image(hash, m, last)| <= MAX_SEGMENT_BYTES
    ensures var some := last[..Complete(last, k)];
      var valid := |Image(hash, m, some)|;
      && valid <= k
      && ScanDisk(hash, [Image(hash, m, last)[..k]], m)
           == Recovered(RecordsOf(hash, m, some), After(hash, m, some),
                        if valid < k then Report(true, k - valid, valid, 0) else CLEAN)
  {
    ScanCut(hash, m, last, k);
    CutFits(hash, m, last, k);
    hide Image, RecordsOf, After, Complete, ScanSegment, ScanDisk;
    LastFile(hash, Image(hash, m, last)[..k], m);
  }

  /** Whole files and a cut one behind them. */
  lemma CrashScan(hash: Hash, files: seq<seq<Entry>>, last: seq<Entry>, k: nat)
    requires AllValid(Flat(files)) && FitsFiles(DiskImage(hash, START, files)) && AllValid(last)
    requires START.next + |Flat(files)| <= Pow256(8) && After(hash, START, Flat(files)).next + |last| <= Pow256(8)
    requires k <= |Image(hash, After(hash, START, Flat(files)), last)| <= MAX_SEGMENT_BYTES
    ensures var mark, some := After(hash, START, Flat(files)), last[..Complete(last, k)];
      var valid := |Image(hash, mark, some)|;
      && valid <= k
      && ScanDisk(hash, DiskImage(hash, START, files) + [Image(hash, mark, last)[..k]], START)
           == Recovered(RecordsOf(hash, START, Flat(files) + some), After(hash, START, Flat(files) + some),
                        if valid < k then Report(true, k - valid, valid, 0) else CLEAN)
  {
    hide *;
    var mark, some := After(hash, START, Flat(files)), last[..Complete(last, k)];
    var valid := |Image(hash, mark, some)|;
    ScanDiskWritten(hash, START, files, [Image(hash, mark, last)[..k]]);
    CrashedLast(hash, mark, last, k);
    AfterAppend(hash, START, Flat(files), some);
    PrependOne(RecordsOf(hash, START, Flat(files)), RecordsOf(hash, mark, some), After(hash, mark, some),
               if valid < k then Report(true, k - valid, valid, 0) else CLEAN);
  }

  /** After a crash at any byte of the last file, reading never reports corruption and returns exactly the
      records whose frames are complete, numbered from 1; the report names the torn bytes. */
  lemma CrashReads(hash: Hash, files: seq<seq<Entry>>, last: seq<Entry>, k: nat, disk: seq<Bytes>)
    requires WellSized(hash, files + [last]) && IsCrash(hash, files, last, k, disk)
    ensures var kept := Flat(files) + last[..Complete(last, k)];
      var valid := |Image(hash, After(hash, START, Flat(files)), last[..Complete(last, k)])|;
      && valid <= k
      && ScanDisk(hash, disk, START)
           == Recovered(RecordsOf(hash, START, kept), After(hash, START, kept),
                        if valid < k then Report(true, k - valid, valid, 0) else CLEAN)
      && kept <= Flat(files + [last])
  {
    hide *;
    CrashShape(hash, files, last, k, disk);
    WellSizedSplit(hash, files, last);
    WellSizedMeans(hash, files, last);
    CrashScan(hash, files, last, k);
    PrefixOfLast(Flat(files), last, Complete(last, k));
  }

  lemma WellSizedSplit(hash: Hash, files: seq<seq<Entry>>, last: seq<Entry>)
    requires WellSized(hash, files + [last])
    ensures WellSized(hash, files) && AllValid(last) && Flat(files + [last]) == Flat(files) + last
    ensures |Image(hash, After(hash, START, Flat(files)), last)| <= MAX_SEGMENT_BYTES
  {
    FlatSplit(files, [last]);
    assert Flat([last]) == last + Flat([]) == last;
    DiskSplit(hash, START, files, [last]);
    var whole := DiskImage(hash, START, files + [last]);
    assert forall s :: s in DiskImage(hash, START, files) ==> s in whole;
    assert whole[|files|] == Image(hash, After(hash, START, Flat(files)), last) && whole[|files|] in whole;
  }

  lemma LastFile(hash: Hash, bytes: Bytes, m: Mark)
    requires |bytes| <= MAX_SEGMENT_BYTES && ScanSegment(hash, bytes, m).Scanned?
    ensures var s := ScanSegment(hash, bytes, m);
      ScanDisk(hash, [bytes], m)
        == Recovered(s.records, s.mark, if s.valid < |bytes| then Report(true, |bytes| - s.valid, s.valid, 0) else CLEAN)
  {
    var s := ScanSegment(hash, bytes, m);
    assert [bytes][1..] == [];
    assert s.records + [] == s.records;
  }

  // ---------------------------------------------------------------------------
  // The repair, on any directory that can be read at all
  // ---------------------------------------------------------------------------

  lemma CutSlice(bytes: Bytes, n: nat, i: nat, j: nat)
    requires i <= j <= n <= |bytes|
    ensures bytes[..n][i..j] == bytes[i..j]
  {
  }

  /** Parsing looks at no byte behind the frame. */
  lemma ParseLocal(hash: Hash, bytes: Bytes, n: nat)
    requires n <= |bytes| && ParseFrame(hash, bytes).Parsed? && ParseFrame(hash, bytes).consumed <= n
    ensures ParseFrame(hash, bytes[..n]) == ParseFrame(hash, bytes)
  {
    hide LeValue, Crc.Crc32, Le, Pow256;
    var c := ParseFrame(hash, bytes).consumed;
    assert bytes[..n][..4] == bytes[..4] && bytes[..n][..88] == bytes[..88];
    CutSlice(bytes, n, 4, 6);
    CutSlice(bytes, n, 6, 8);
    CutSlice(bytes, n, 8, 16);
    CutSlice(bytes, n, 16, 24);
    CutSlice(bytes, n, 24, 56);
    CutSlice(bytes, n, 56, 88);
    CutSlice(bytes, n, 88, 92);
    CutSlice(bytes, n, 92, c);
  }

  /** One record of a readable file: it follows the mark, and the rest is readable from the next mark. */
  lemma ScanUnfolds(hash: Hash, bytes: Bytes, m: Mark)
    requires bytes != [] && ParseFrame(hash, bytes).Parsed? && ScanSegment(hash, bytes, m).Scanned?
    ensures var p := ParseFrame(hash, bytes);
      var rest := ScanSegment(hash, bytes[p.consumed..], NextMark(hash, bytes, p.record));
      && 0 < HEADER_BYTES <= p.consumed <= |bytes|
      && p.record.sequence == m.next && p.record.link == m.chain && rest.Scanned?
      && ScanSegment(hash, bytes, m) == Scanned([p.record] + rest.records, rest.mark, p.consumed + rest.valid)
  {
  }

  lemma ScanFolds(hash: Hash, bytes: Bytes, m: Mark, p: Parse)
    requires bytes != [] && ParseFrame(hash, bytes) == p && p.Parsed?
    requires p.record.sequence == m.next && p.record.link == m.chain
    requires ScanSegment(hash, bytes[p.consumed..], NextMark(hash, bytes, p.record)).Scanned?
    ensures var rest := ScanSegment(hash, bytes[p.consumed..], NextMark(hash, bytes, p.record));
      ScanSegment(hash, bytes, m) == Scanned([p.record] + rest.records, rest.mark, p.consumed + rest.valid)
  {
  }

  lemma MarkLocal(hash: Hash, bytes: Bytes, n: nat, record: Record)
    requires HEADER_BYTES <= n <= |bytes|
    ensures NextMark(hash, bytes[..n], record) == NextMark(hash, bytes, record)
  {
    assert bytes[..n][..56] == bytes[..56];
  }

  lemma {:induction false} ScanValidPart(hash: Hash, bytes: Bytes, m: Mark)
    requires ScanSegment(hash, bytes, m).Scanned?
    ensures ScanSegment(hash, bytes[..ScanSegment(hash, bytes, m).valid], m) == ScanSegment(hash, bytes, m)
    decreases |bytes|
  {
    hide *;
    var valid := ScanSegment(hash, bytes, m).valid;
    if bytes == [] || ParseFrame(hash, bytes).Refused? {
      ScanStops(hash, bytes, m);
    } else {
      var p := ParseFrame(hash, bytes);
      ScanUnfolds(hash, bytes, m);
      ScanValidPart(hash, bytes[p.consumed..], NextMark(hash, bytes, p.record));
      ParseLocal(hash, bytes, valid);
      MarkLocal(hash, bytes, valid, p.record);
      assert bytes[..valid][p.consumed..] == bytes[p.consumed..][..valid - p.consumed];
      ScanFolds(hash, bytes[..valid], m, p);
    }
  }

  lemma ScanStops(hash: Hash, bytes: Bytes, m: Mark)
    requires ScanSegment(hash, bytes, m).Scanned? && (bytes == [] || ParseFrame(hash, bytes).Refused?)
    ensures ScanSegment(hash, bytes, m) == ScanSegment(hash, bytes[..0], m) == Scanned([], m, 0)
  {
  }

  lemma FirstFileRead(hash: Hash, disk: seq<Bytes>, m: Mark)
    requires disk != [] && ScanDisk(hash, disk, m).Recovered?
    requires ScanSegment(hash, disk[0], m).Scanned? && ScanSegment(hash, disk[0], m).valid == |disk[0]|
    ensures var s := ScanSegment(hash, disk[0], m);
      && |disk[0]| <= MAX_SEGMENT_BYTES + 1
      && ScanDisk(hash, disk[1..], s.mark).Recovered?
      && ScanDisk(hash, disk, m) == Prepend(s.records, ScanDisk(hash, disk[1..], s.mark))
  {
  }

  lemma TornFirst(hash: Hash, disk: seq<Bytes>, m: Mark)
    requires disk != [] && ScanDisk(hash, disk, m).Recovered?
    requires ScanSegment(hash, disk[0], m).Scanned? && ScanSegment(hash, disk[0], m).valid < |disk[0]|
    ensures var s, o := ScanSegment(hash, disk[0], m), ScanDisk(hash, disk, m);
      && o == Recovered(s.records, s.mark, Report(true, |disk[0]| - s.valid, s.valid, |disk| - 1))
      && |disk[0]| <= MAX_SEGMENT_BYTES + 1
      && Repair(disk, o.report) == [disk[0][..s.valid]]
  {
  }

  /** Whatever the directory holds, if it can be read then the repaired directory reads as the same records,
      with nothing torn; and repairing again changes nothing. */
  lemma {:induction false} RepairReads(hash: Hash, disk: seq<Bytes>, m: Mark)
    requires ScanDisk(hash, disk, m).Recovered?
    ensures var o := ScanDisk(hash, disk, m);
      && ScanDisk(hash, Repair(disk, o.report), m) == Recovered(o.records, o.mark, CLEAN)
      && (o.report.torn ==> o.report.validBytes <= |disk[|disk| - 1 - o.report.excessSegments]|)
    decreases |disk|
  {
    hide ParseFrame;
    var o := ScanDisk(hash, disk, m);
    if o.report.torn {
      var s := ScanSegment(hash, disk[0], m);
      if s.valid < |disk[0]| {
        TornFirst(hash, disk, m);
        ScanValidPart(hash, disk[0], m);
        RepairedFile(hash, disk[0][..s.valid], m);
      } else {
        hide ScanSegment, ScanDisk;
        FirstFileRead(hash, disk, m);
        RepairReads(hash, disk[1..], s.mark);
        assert Repair(disk, o.report) == [disk[0]] + Repair(disk[1..], o.report);
        ScanFirst(hash, disk[0], Repair(disk[1..], o.report), m);
      }
    }
  }

  lemma RepairedFile(hash: Hash, bytes: Bytes, m: Mark)
    requires |bytes| <= MAX_SEGMENT_BYTES + 1
    requires ScanSegment(hash, bytes, m).Scanned? && ScanSegment(hash, bytes, m).valid == |bytes|
    ensures var s := ScanSegment(hash, bytes, m);
      ScanDisk(hash, [bytes], m) == Recovered(s.records, s.mark, CLEAN)
  {
    assert [bytes][1..] == [];
    assert ScanSegment(hash, bytes, m).records + [] == ScanSegment(hash, bytes, m).records;
  }
}
