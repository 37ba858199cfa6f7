/** Streaming SHA-256: how a message is cut into blocks, padded and finished. The compression function of
    one block is a parameter. */
module Sha256 {
  import opened Bytes
  import opened Words
  import Congruence

  const BLOCK: nat := 64

  type Chaining = s: seq<Word> | |s| == 8 witness seq(8, _ => 0)

  type Compress = (Chaining, Bytes) -> Chaining

  const INITIAL: Chaining := [0x6a09e667, 0xbb67ae85, 0x3c6ef372, 0xa54ff53a,
                              0x510e527f, 0x9b05688c, 0x1f83d9ab, 0x5be0cd19]

  /** The k low bytes of n, high byte first. */
  function Be(n: nat, k: nat): (s: Bytes)
    ensures |s| == k
  {
    if k == 0 then [] else Be(n / 256, k - 1) + [n % 256]
  }

  function BeValue(s: Bytes): nat {
    if s == [] then 0 else 256 * BeValue(s[..|s| - 1]) + s[|s| - 1]
  }

  lemma {:induction false} BeRoundTrip(n: nat, k: nat)
    requires n < Pow256(k)
    ensures BeValue(Be(n, k)) == n
  {
    if k > 0 {
      BeRoundTrip(n / 256, k - 1);
      assert Be(n, k)[..k - 1] == Be(n / 256, k - 1);
    }
  }

  /** The last byte counts 1, the one before it 256, and so on. */
  lemma {:induction false} BeAt(n: nat, k: nat, i: nat)
    requires i < k
    ensures Be(n, k)[i] == n / Pow256(k - 1 - i) % 256
  {
    if i < k - 1 {
      BeAt(n / 256, k - 1, i);
      DivDiv(n, Pow256(k - 2 - i));
    }
  }

  function Zeros(k: nat): (s: Bytes)
    ensures |s| == k && forall i :: 0 <= i < k ==> s[i] == 0
  {
    seq(k, _ => 0)
  }

  // ---------------------------------------------------------------------------
  // The reference: fold the compression over the padded message
  // ---------------------------------------------------------------------------

  /** Compresses whole blocks from the front; an incomplete block at the end is left alone. */
  function Fold(compress: Compress, state: Chaining, bytes: Bytes): Chaining
    decreases |bytes|
  {
    if |bytes| < BLOCK then state else Fold(compress, compress(state, bytes[..BLOCK]), bytes[BLOCK..])
  }

  /** The number of zero bytes between the marker and the length field. */
  function ZeroBytes(length: nat): nat {
    if length % BLOCK < 56 then 55 - length % BLOCK else 119 - length % BLOCK
  }

  function BitCount(length: nat): (bits: nat)
    ensures bits < 0x1_0000_0000_0000_0000
    ensures length < 0x2000_0000_0000_0000 ==> bits == 8 * length
  {
    Wrap64(8 * length)
  }

  /** A std::uint64_t keeps its value modulo 2^64. */
  function Wrap64(n: nat): nat {
    n % 0x1_0000_0000_0000_0000
  }

  /** Section 5.1.1 of FIPS 180-4, on whole bytes; the length field is taken modulo 2^64. */
  function Padded(message: Bytes): Bytes {
    message + [0x80] + Zeros(ZeroBytes(|message|)) + Be(BitCount(|message|), 8)
  }

  function Output(state: Chaining): Bytes {
    Be(state[0], 4) + Be(state[1], 4) + Be(state[2], 4) + Be(state[3], 4)
    + Be(state[4], 4) + Be(state[5], 4) + Be(state[6], 4) + Be(state[7], 4)
  }

  function Digest(compress: Compress, message: Bytes): Bytes {
    Output(Fold(compress, INITIAL, Padded(message)))
  }

  /** The digest is the eight words in order, each high byte first. */
  lemma OutputAt(state: Chaining, i: nat)
    requires i < 32
    ensures |Output(state)| == 32 && Output(state)[i] == state[i / 4] / Pow256(3 - i % 4) % 256
  {
    hide Be;
    BeAt(state[i / 4], 4, i % 4);
    assert Output(state)[i] == Be(state[i / 4], 4)[i % 4];
  }

  lemma ZeroBytesFill(length: nat)
    ensures (length + 1 + ZeroBytes(length)) % BLOCK == 56
    ensures (length + 1 + ZeroBytes(length) + 8) % BLOCK == 0
  {
  }

  /** No smaller number of zero bytes would do. */
  lemma ZeroBytesLeast(length: nat, j: nat)
    requires (length + 1 + j) % BLOCK == 56
    ensures ZeroBytes(length) <= j
  {
    var r, q := length % BLOCK, length / BLOCK;
    assert length == BLOCK * q + r;
    assert (r + 1 + j) % BLOCK == 56;
  }

  /** The padding is the standard one: the message, the marker, the fewest zero bytes that make whole blocks,
      and below 2^61 bytes a length field that spells the number of message bits. */
  lemma PaddingIsStandard(message: Bytes)
    ensures |Padded(message)| % BLOCK == 0 && message + [0x80] <= Padded(message)
    ensures |message| < 0x2000_0000_0000_0000 ==>
      BeValue(Padded(message)[|Padded(message)| - 8..]) == 8 * |message|
  {
    hide BeValue, Be, ZeroBytes;
    var bits := BitCount(|message|);
    var zeros := Zeros(ZeroBytes(|message|));
    ZeroBytesFill(|message|);
    LengthField(bits);
    Ends(message + [0x80] + zeros, Be(bits, 8));
    Starts(message + [0x80], zeros, Be(bits, 8));
  }

  lemma LengthField(bits: nat)
    requires bits < 0x1_0000_0000_0000_0000
    ensures BeValue(Be(bits, 8)) == bits
  {
    PowValues256();
    BeRoundTrip(bits, 8);
  }

  lemma Ends(head: Bytes, tail: Bytes)
    ensures (head + tail)[|head + tail| - |tail|..] == tail
  {
  }

  lemma Starts(a: Bytes, b: Bytes, c: Bytes)
    ensures a <= a + b + c
  {
    assert a + b + c == a + (b + c);
  }

  lemma {:induction false} FoldAppend(compress: Compress, state: Chaining, x: Bytes, y: Bytes)
    requires |x| % BLOCK == 0
    ensures Fold(compress, state, x + y) == Fold(compress, Fold(compress, state, x), y)
    decreases |x|
  {
    if |x| < BLOCK {
      assert x + y == y;
    } else {
      assert (x + y)[..BLOCK] == x[..BLOCK] && (x + y)[BLOCK..] == x[BLOCK..] + y;
      FoldAppend(compress, compress(state, x[..BLOCK]), x[BLOCK..], y);
    }
  }

  /** Every chaining value comes from the one before it and one block of the padded message. */
  ghost predicate Compressed(compress: Compress, padded: Bytes, states: seq<Chaining>) {
    && BLOCK * (|states| - 1) == |padded|
    && forall i :: 0 <= i < |states| - 1 ==> states[i + 1] == compress(states[i], Block(padded, i))
  }

  function Block(padded: Bytes, i: nat): Bytes {
    if BLOCK * (i + 1) <= |padded| then padded[BLOCK * i..BLOCK * (i + 1)] else []
  }

  lemma BlockBehind(padded: Bytes, i: nat)
    requires i > 0 && |padded| >= BLOCK
    ensures Block(padded, i) == Block(padded[BLOCK..], i - 1)
  {
  }

  lemma {:induction false} FoldIsCompressed(compress: Compress, state: Chaining, padded: Bytes) returns (states: seq<Chaining>)
    requires |padded| % BLOCK == 0
    ensures states != [] && Compressed(compress, padded, states) && states[0] == state
    ensures Fold(compress, state, padded) == states[|states| - 1]
    decreases |padded|
  {
    if |padded| < BLOCK {
      states := [state];
    } else {
      var rest := padded[BLOCK..];
      var more := FoldIsCompressed(compress, compress(state, padded[..BLOCK]), rest);
      states := [state] + more;
      assert Block(padded, 0) == padded[..BLOCK];
      forall i | 1 <= i < |states| - 1
        ensures states[i + 1] == compress(states[i], Block(padded, i))
      {
        BlockBehind(padded, i);
        assert states[i] == more[i - 1] && states[i + 1] == more[i];
      }
    }
  }

  /** Section 6.2 of FIPS 180-4: from the initial value, one compression for every block of the padded message. */
  lemma DigestIs(compress: Compress, message: Bytes) returns (states: seq<Chaining>)
    ensures states != [] && Compressed(compress, Padded(message), states) && states[0] == INITIAL
    ensures Digest(compress, message) == Output(states[|states| - 1])
  {
    hide Fold, Padded, Output;
    PaddingIsStandard(message);
    states := FoldIsCompressed(compress, INITIAL, Padded(message));
  }

  // ---------------------------------------------------------------------------
  // The streaming state against the bytes fed so far
  // ---------------------------------------------------------------------------

  /** tail is the unprocessed remainder, always less than a block. */
  ghost predicate Holds(compress: Compress, state: Chaining, tail: Bytes, fed: Bytes) {
    && |tail| < BLOCK && |tail| <= |fed|
    && (|fed| - |tail|) % BLOCK == 0
    && tail == fed[|fed| - |tail|..]
    && state == Fold(compress, INITIAL, fed[..|fed| - |tail|])
  }

  lemma FedShort(compress: Compress, state: Chaining, tail: Bytes, fed: Bytes, x: Bytes)
    requires Holds(compress, state, tail, fed) && |tail| + |x| < BLOCK
    ensures Holds(compress, state, tail + x, fed + x)
  {
    assert (fed + x)[..|fed| - |tail|] == fed[..|fed| - |tail|];
  }

  lemma FedBlock(compress: Compress, state: Chaining, tail: Bytes, fed: Bytes, x: Bytes)
    requires Holds(compress, state, tail, fed) && |tail| + |x| == BLOCK
    ensures Holds(compress, compress(state, tail + x), [], fed + x)
  {
    var done := fed[..|fed| - |tail|];
    FoldAppend(compress, INITIAL, done, tail + x);
    assert fed + x == done + (tail + x);
    assert (tail + x)[..BLOCK] == tail + x && (tail + x)[BLOCK..] == [];
    assert (fed + x)[..|fed + x|] == fed + x;
  }

  /** Whole blocks leave no remainder, so the state is the fold of everything fed. */
  lemma FedWhole(compress: Compress, state: Chaining, tail: Bytes, fed: Bytes)
    requires Holds(compress, state, tail, fed) && |fed| % BLOCK == 0
    ensures tail == [] && state == Fold(compress, INITIAL, fed)
  {
    NoRemainder(|fed|, |tail|);
    assert fed[..|fed|] == fed;
  }

  lemma NoRemainder(fed: nat, tail: nat)
    requires tail < BLOCK && tail <= fed && fed % BLOCK == 0 && (fed - tail) % BLOCK == 0
    ensures tail == 0
  {
  }

  lemma Remainder(fed: nat, tail: nat)
    requires tail < BLOCK && tail <= fed && (fed - tail) % BLOCK == 0
    ensures tail == fed % BLOCK
  {
  }

  lemma HoldsMeans(compress: Compress, state: Chaining, tail: Bytes, fed: Bytes)
    requires Holds(compress, state, tail, fed)
    ensures |tail| == |fed| % BLOCK
  {
    Remainder(|fed|, |tail|);
  }

  lemma TotalAdd(total: nat, more: nat)
    ensures Wrap64(Wrap64(total) + more) == Wrap64(total + more)
  {
    var m, q := 0x1_0000_0000_0000_0000, total / 0x1_0000_0000_0000_0000;
    assert total + more == (total % m + more) + m * q;
  }

  lemma EightTimes(n: int, r: int, q: int, m: int)
    requires n == q * m + r
    ensures 8 * n == r * 8 + (8 * q) * m
  {
  }

  lemma BitLength(total: nat)
    ensures Wrap64(Wrap64(total) * 8) == BitCount(total)
  {
    var m, q := 0x1_0000_0000_0000_0000, total / 0x1_0000_0000_0000_0000;
    EightTimes(total, total % m, q, m);
    Congruence.CongIntro(8 * total, (total % m) * 8, 8 * q, m);
    Congruence.CongSameMod(8 * total, (total % m) * 8, m);
  }

  lemma Rejoined(before: Bytes, bytes: Bytes, offset: nat)
    requires offset <= |bytes|
    ensures (before + bytes[..offset]) + bytes[offset..] == before + bytes
    ensures offset == |bytes| ==> before + bytes[..offset] == before + bytes
  {
  }

  class Sha256 {
    const compress: Compress
    var state: Chaining
    const buffer: array<Byte>
    var buffered: nat
    var totalBytes: nat
    var finished: bool
    /** The message bytes seen so far. */
    ghost var message: Bytes

    ghost predicate Valid()
      reads this, buffer
    {
      && buffer.Length == BLOCK && buffered < BLOCK
      && if finished then state == Fold(compress, INITIAL, Padded(message))
         else
           && totalBytes == Wrap64(|message|)
           && Holds(compress, state, buffer[..buffered], message)
    }

    constructor (compress: Compress)
      ensures Valid() && fresh(buffer) && this.compress == compress && !finished && message == []
    {
      this.compress := compress;
      state := INITIAL;
      buffer := new Byte[BLOCK](_ => 0);
      buffered, totalBytes, finished, message := 0, 0, false, [];
    }

    /** Copies bytes into the buffer behind what it holds. */
    method Fill(bytes: Bytes)
      requires buffer.Length == BLOCK && buffered + |bytes| <= BLOCK
      modifies this`buffered, buffer
      ensures buffered == old(buffered) + |bytes|
      ensures buffer[..buffered] == old(buffer[..buffered]) + bytes
    {
      var at := buffered;
      for i := 0 to |bytes|
        invariant buffer[..at + i] == old(buffer[..buffered]) + bytes[..i]
        invariant buffered == at
      {
        buffer[at + i] := bytes[i];
      }
      buffered := at + |bytes|;
      assert bytes[..|bytes|] == bytes;
    }

    /** Completes a partly filled buffer first, and compresses it when it is full. */
    method TopUp(bytes: Bytes, ghost before: Bytes) returns (offset: nat)
      requires buffer.Length == BLOCK && 0 < buffered < BLOCK
      requires Holds(compress, state, buffer[..buffered], before)
      modifies this`state, this`buffered, buffer
      ensures offset <= |bytes| && buffered < BLOCK && (buffered > 0 ==> offset == |bytes|)
      ensures Holds(compress, state, buffer[..buffered], before + bytes[..offset])
    {
      hide Fold, Holds;
      var want := BLOCK - buffered;
      var take := if |bytes| < want then |bytes| else want;
      ghost var tail := buffer[..buffered];
      Fill(bytes[..take]);
      offset := take;
      if buffered == BLOCK {
        FedBlock(compress, state, tail, before, bytes[..take]);
        assert buffer[..] == tail + bytes[..take];
        state := compress(state, buffer[..]);
        buffered := 0;
      } else {
        FedShort(compress, state, tail, before, bytes[..take]);
      }
    }

    /** Compresses whole blocks straight from the input. */
    method Blocks(bytes: Bytes, from: nat, ghost before: Bytes) returns (offset: nat)
      requires from <= |bytes| && buffer.Length == BLOCK
      requires buffered < BLOCK && (buffered > 0 ==> from == |bytes|)
      requires Holds(compress, state, buffer[..buffered], before + bytes[..from])
      modifies this`state
      ensures offset <= |bytes| < offset + BLOCK && (buffered > 0 ==> offset == |bytes|)
      ensures Holds(compress, state, buffer[..buffered], before + bytes[..offset])
    {
      hide Fold, Holds;
      offset := from;
      while offset + BLOCK <= |bytes|
        invariant offset <= |bytes| && (buffered > 0 ==> offset == |bytes|)
        invariant Holds(compress, state, buffer[..buffered], before + bytes[..offset])
      {
        var block := bytes[offset..offset + BLOCK];
        assert buffer[..buffered] == [] && [] + block == block;
        FedBlock(compress, state, [], before + bytes[..offset], block);
        assert (before + bytes[..offset]) + block == before + bytes[..offset + BLOCK];
        state := compress(state, block);
        offset := offset + BLOCK;
      }
    }

    /** Keeps the incomplete block at the end of the input. */
    method Keep(bytes: Bytes, offset: nat, ghost before: Bytes)
      requires offset <= |bytes| < offset + BLOCK && buffer.Length == BLOCK
      requires buffered < BLOCK && (buffered > 0 ==> offset == |bytes|)
      requires Holds(compress, state, buffer[..buffered], before + bytes[..offset])
      modifies this`buffered, buffer
      ensures buffered < BLOCK && Holds(compress, state, buffer[..buffered], before + bytes)
    {
      hide Fold, Holds;
      if offset < |bytes| {
        assert buffer[..buffered] == [];
        FedShort(compress, state, [], before + bytes[..offset], bytes[offset..]);
        Rejoined(before, bytes, offset);
        Fill(bytes[offset..]);
      } else {
        Rejoined(before, bytes, offset);
      }
    }

    /** However a message is split into updates, only the concatenation matters. After finishing, further
        updates are ignored. */
    method Update(bytes: Bytes)
      requires Valid()
      modifies this`state, this`buffered, this`totalBytes, this`message, buffer
      ensures Valid()
      ensures message == if finished then old(message) else old(message) + bytes
      ensures finished ==> state == old(state)
    {
      hide Fold, Holds, Padded, Wrap64;
      if finished {
        return;
      }
      TotalAdd(|message|, |bytes|);
      totalBytes := Wrap64(totalBytes + |bytes|);
      ghost var before := message;
      var offset := 0;
      assert before + bytes[..0] == before;
      if buffered > 0 {
        offset := TopUp(bytes, before);
      }
      offset := Blocks(bytes, offset, before);
      Keep(bytes, offset, before);
      message := before + bytes;
    }

    /** The digest is the fold over the standard padding of all bytes fed, and asking again returns it again. */
    method Finish() returns (out: Bytes)
      requires Valid()
      modifies this, buffer
      ensures Valid() && finished && message == old(message)
      ensures out == Digest(compress, message)
    {
      hide Fold, Holds, Be, Output, Wrap64;
      if !finished {
        ghost var m := message;
        HoldsMeans(compress, state, buffer[..buffered], m);
        BitLength(|m|);
        PaddingIsStandard(m);
        var bitLength := Wrap64(totalBytes * 8);
        var padLength := if buffered < 56 then 56 - buffered else 120 - buffered;
        Update([0x80] + Zeros(padLength - 1));
        Update(Be(bitLength, 8));
        assert message == Padded(m);
        FedWhole(compress, state, buffer[..buffered], message);
        finished := true;
        message := m;
      }
      out := Output(state);
    }
  }

  function Joined(parts: seq<Bytes>): Bytes {
    if parts == [] then [] else Joined(parts[..|parts| - 1]) + parts[|parts| - 1]
  }

  /** Any list of updates gives the digest of the joined message; a later update and a second request
      change nothing. */
  method DigestOfParts(compress: Compress, parts: seq<Bytes>, late: Bytes) returns (out: Bytes, again: Bytes)
    ensures out == again == Digest(compress, Joined(parts))
  {
    hide Digest;
    var hasher := new Sha256(compress);
    for i := 0 to |parts|
      invariant fresh(hasher) && fresh(hasher.buffer) && hasher.Valid() && !hasher.finished
      invariant hasher.compress == compress && hasher.message == Joined(parts[..i])
    {
      assert parts[..i + 1][..i] == parts[..i];
      hasher.Update(parts[i]);
    }
    assert parts[..|parts|] == parts;
    out := hasher.Finish();
    hasher.Update(late);
    again := hasher.Finish();
  }
}
