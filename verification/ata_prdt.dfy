/**
 The Physical Region Descriptor table builder of the DMA path: validation of
 the translation pairs that describe the caller's buffer in physical memory,
 clipping of each pair to the bytes still wanted, the split of a pair that
 straddles the DMA boundary, and the end-of-table flag (the PRD table of the
 Programming Interface for Bus Master IDE Controller, SFF-8038i).
 */
module AtaPrdt {
  import opened AtaTypes

  /**
   The DMA constants of the driver: `ATA_DMA_PHYSICAL_BOUNDARY`,
   `ATA_DMA_ALIGNMENT`, `ATA_DMA_MAX_PHYSICAL_ADDRESS`,
   `ATA_DMA_MAX_PHYSICAL_LEN` and `SECTOR_SIZE`.
   */
  datatype DmaConfig = DmaConfig(
    boundary: nat,
    alignment: nat,
    maxPhysicalAddress: nat,
    maxPhysicalLen: nat,
    sectorSize: nat)
  {
    /** What the code relies on: non-zero divisors, and `SectorCount * SECTOR_SIZE` fits a `DWORD`. */
    predicate Valid() {
      && 0 < boundary
      && 0 < alignment
      && 0 < sectorSize
      && sectorSize * MAX_WORD <= MAX_DWORD
    }

    /** Every byte of every acceptable pair has a 32-bit physical address, so the `(DWORD)` casts lose nothing. */
    predicate Within32Bits() {
      maxPhysicalAddress + maxPhysicalLen <= MAX_DWORD + 1
    }
  }

  /** `MDL_TRANSLATION_PAIR`: a physically contiguous run of the buffer. */
  datatype TranslationPair = TranslationPair(address: Qword, numberOfBytes: Dword)

  /** `PRD_ENTRY`: a 32-bit physical address, a byte count and the end-of-table flag. */
  datatype PrdEntry = PrdEntry(physicalAddress: Dword, byteCount: nat, lastEntry: bool)

  /** `AddressOffset(a, b)`: where `a` lies inside its `b`-byte block. */
  function AddressOffset(a: nat, b: nat): (r: nat)
    requires b > 0
    ensures r < b && r <= a
    decreases a
  {
    if a < b then a else AddressOffset(a - b, b)
  }

  /** The number of the `b`-byte block that holds `a`. */
  function BlockIndex(a: nat, b: nat): nat
    requires b > 0
    decreases a
  {
    if a < b then 0 else 1 + BlockIndex(a - b, b)
  }

  /** Block number and offset are Euclidean quotient and remainder. */
  lemma {:induction false} BlockDecomposition(a: nat, b: nat)
    requires b > 0
    ensures a == b * BlockIndex(a, b) + AddressOffset(a, b)
    ensures BlockIndex(a, b) == a / b && AddressOffset(a, b) == a % b
    decreases a
  {
    if a >= b {
      BlockDecomposition(a - b, b);
      assert b * BlockIndex(a, b) == b * BlockIndex(a - b, b) + b;
    }
    DivModUnique(a, b, BlockIndex(a, b), AddressOffset(a, b));
  }

  /** Any split `x == b * q + r` with `r < b` names the block and the offset of `x`. */
  lemma BlockUnique(x: nat, b: nat, q: int, r: int)
    requires b > 0 && 0 <= r < b && x == b * q + r
    ensures BlockIndex(x, b) == q && AddressOffset(x, b) == r
  {
    BlockDecomposition(x, b);
    DivModUnique(x, b, q, r);
  }

  predicate IsAddressAligned(a: nat, alignment: nat)
    requires alignment > 0
  {
    AddressOffset(a, alignment) == 0
  }

  /** `[a, a + n)` lies inside one `b`-aligned block of `b` bytes (trivially so when it is empty). */
  predicate IsInSameBoundary(a: nat, n: nat, b: nat)
    requires b > 0
  {
    n == 0 || BlockIndex(a, b) == BlockIndex(a + n - 1, b)
  }

  /** The four checks of the validator, all passed. */
  predicate PairValid(cfg: DmaConfig, p: TranslationPair)
    requires cfg.Valid()
  {
    && p.address <= cfg.maxPhysicalAddress
    && IsAddressAligned(p.address, cfg.alignment)
    && p.numberOfBytes <= cfg.maxPhysicalLen
    && IsAddressAligned(p.numberOfBytes, cfg.alignment)
  }

  /** `_AtaValidateTranslationPair`: the checks run in a fixed order and the first that fails decides. */
  function ValidateTranslationPair(cfg: DmaConfig, p: TranslationPair): (s: Status)
    requires cfg.Valid()
    ensures s == Success <==> PairValid(cfg, p)
    ensures s == DmaPhysicalAddressTooHigh <==> p.address > cfg.maxPhysicalAddress
    ensures s == DataAlignmentError <==>
      && p.address <= cfg.maxPhysicalAddress
      && (!IsAddressAligned(p.address, cfg.alignment)
          || (p.numberOfBytes <= cfg.maxPhysicalLen && !IsAddressAligned(p.numberOfBytes, cfg.alignment)))
    ensures s == DmaPhysicalSpanTooLarge <==>
      && p.address <= cfg.maxPhysicalAddress
      && IsAddressAligned(p.address, cfg.alignment)
      && p.numberOfBytes > cfg.maxPhysicalLen
  {
    if p.address > cfg.maxPhysicalAddress then DmaPhysicalAddressTooHigh
    else if !IsAddressAligned(p.address, cfg.alignment) then DataAlignmentError
    else if p.numberOfBytes > cfg.maxPhysicalLen then DmaPhysicalSpanTooLarge
    else if !IsAddressAligned(p.numberOfBytes, cfg.alignment) then DataAlignmentError
    else Success
  }

  function SumBytes(es: seq<PrdEntry>): nat {
    if |es| == 0 then 0 else es[0].byteCount + SumBytes(es[1..])
  }

  lemma {:induction false} SumBytesAppend(a: seq<PrdEntry>, b: seq<PrdEntry>)
    ensures SumBytes(a + b) == SumBytes(a) + SumBytes(b)
  {
    if |a| == 0 {
      assert a + b == b;
    } else {
      assert (a + b)[1..] == a[1..] + b;
      SumBytesAppend(a[1..], b);
    }
  }

  /** No entry carries the end-of-table flag. */
  predicate Unflagged(es: seq<PrdEntry>) {
    |es| == 0 || (!es[0].lastEntry && Unflagged(es[1..]))
  }

  /** Every entry moves at least one byte. */
  predicate AllPositive(es: seq<PrdEntry>) {
    |es| == 0 || (es[0].byteCount > 0 && AllPositive(es[1..]))
  }

  /**
   The bytes of a pair that go into the table: `min(NumberOfBytes, bytesRemaining)`,
   narrowed to a `WORD` as written; this is also what `bytesRemaining` loses.
   */
  function ClippedLength(rev: Revision, p: TranslationPair, remaining: nat): (c: nat)
    ensures c <= remaining
    ensures rev == Corrected ==> c == Min(p.numberOfBytes, remaining)
  {
    if rev == AsWritten then ToWord(Min(p.numberOfBytes, remaining))
    else Min(p.numberOfBytes, remaining)
  }

  /**
   The loop body of `_AtaPrepareDmaTransfer` for one validated pair: one
   entry for a run inside one boundary block, two for a run that crosses it.
   As written, a pair reached with nothing remaining still yields an entry of
   zero bytes; corrected, it yields none. The `(WORD)` casts of the two
   split counts are left out: the first count is below the clipped length,
   which is itself a `WORD` as written.
   */
  function PairEntries(rev: Revision, cfg: DmaConfig, p: TranslationPair, remaining: nat): (es: seq<PrdEntry>)
    requires cfg.Valid()
    ensures SumBytes(es) == ClippedLength(rev, p, remaining)
    ensures |es| <= 2
    ensures rev == AsWritten ==> 1 <= |es|
    ensures rev == Corrected ==> AllPositive(es)
    ensures Unflagged(es)
  {
    var clipped := ClippedLength(rev, p, remaining);
    if rev == Corrected && clipped == 0 then
      []
    else if IsInSameBoundary(p.address, clipped, cfg.boundary) then
      assert [PrdEntry(ToDword(p.address), clipped, false)][1..] == [];
      [PrdEntry(ToDword(p.address), clipped, false)]
    else
      CrossingOffset(p.address, clipped, cfg.boundary);
      var first: nat := cfg.boundary - AddressOffset(p.address, cfg.boundary);
      var head := PrdEntry(ToDword(p.address), first, false);
      var tail := PrdEntry(ToDword(ToDword(p.address) + first), clipped - first, false);
      assert [head, tail][1..] == [tail];
      assert [tail][1..] == [];
      assert SumBytes([tail]) == clipped - first;
      assert SumBytes([head, tail]) == first + SumBytes([tail]);
      [head, tail]
  }

  /** A run that leaves its block starts fewer than `n` bytes before the block's end. */
  lemma CrossingOffset(a: nat, n: nat, b: nat)
    requires b > 0 && !IsInSameBoundary(a, n, b)
    ensures AddressOffset(a, b) + n > b
  {
    BlockDecomposition(a, b);
    var q, r := BlockIndex(a, b), AddressOffset(a, b);
    if r + n <= b {
      BlockUnique(a + n - 1, b, q, r + n - 1);
    }
  }

  /** The bytes from `a` up to the next boundary lie in `a`'s block, and end on the boundary. */
  lemma HeadInBlock(a: nat, b: nat)
    requires b > 0
    ensures IsInSameBoundary(a, b - AddressOffset(a, b), b)
    ensures AddressOffset(a + (b - AddressOffset(a, b)), b) == 0
  {
    BlockDecomposition(a, b);
    var q, r := BlockIndex(a, b), AddressOffset(a, b);
    BlockUnique(a + (b - r) - 1, b, q, b - 1);
    BlockUnique(a + (b - r), b, q + 1, 0);
  }

  /** At most one block's worth of bytes from a boundary stays in that block. */
  lemma AlignedInBlock(x: nat, n: nat, b: nat)
    requires b > 0 && AddressOffset(x, b) == 0 && n <= b
    ensures IsInSameBoundary(x, n, b)
  {
    if n > 0 {
      BlockDecomposition(x, b);
      BlockUnique(x + n - 1, b, BlockIndex(x, b), n - 1);
    }
  }

  /**
   Clip and split, spelled out: a run inside one block gives one entry with
   the pair's address and the clipped length; a crossing run gives two
   entries that partition `[address, address + clipped)` at the boundary.
   */
  lemma PairEntriesCases(rev: Revision, cfg: DmaConfig, p: TranslationPair, remaining: nat)
    requires cfg.Valid() && cfg.Within32Bits() && PairValid(cfg, p)
    requires ClippedLength(rev, p, remaining) > 0
    ensures var c := ClippedLength(rev, p, remaining);
      var es := PairEntries(rev, cfg, p, remaining);
      && (IsInSameBoundary(p.address, c, cfg.boundary) ==>
            es == [PrdEntry(p.address, c, false)])
      && (!IsInSameBoundary(p.address, c, cfg.boundary) ==>
            var f := cfg.boundary - AddressOffset(p.address, cfg.boundary);
            && 0 < f < c
            && AddressOffset(p.address + f, cfg.boundary) == 0
            && es == [PrdEntry(p.address, f, false), PrdEntry(p.address + f, c - f, false)])
  {
    var c := ClippedLength(rev, p, remaining);
    if !IsInSameBoundary(p.address, c, cfg.boundary) {
      CrossingOffset(p.address, c, cfg.boundary);
      HeadInBlock(p.address, cfg.boundary);
    }
  }

  /** When a pair is at most one block long, no entry it yields crosses a boundary. */
  lemma PairEntriesInBlock(rev: Revision, cfg: DmaConfig, p: TranslationPair, remaining: nat)
    requires cfg.Valid() && cfg.Within32Bits() && PairValid(cfg, p)
    requires cfg.maxPhysicalLen <= cfg.boundary
    ensures AllInBlock(cfg, PairEntries(rev, cfg, p, remaining))
  {
    var c := ClippedLength(rev, p, remaining);
    if c > 0 {
      PairEntriesCases(rev, cfg, p, remaining);
      if !IsInSameBoundary(p.address, c, cfg.boundary) {
        var f := cfg.boundary - AddressOffset(p.address, cfg.boundary);
        HeadInBlock(p.address, cfg.boundary);
        AlignedInBlock(p.address + f, c - f, cfg.boundary);
      }
    }
  }

  predicate InBlock(cfg: DmaConfig, e: PrdEntry)
    requires cfg.Valid()
  {
    IsInSameBoundary(e.physicalAddress, e.byteCount, cfg.boundary)
  }

  /** Every entry lies inside one boundary block. */
  predicate AllInBlock(cfg: DmaConfig, es: seq<PrdEntry>)
    requires cfg.Valid()
  {
    |es| == 0 || (InBlock(cfg, es[0]) && AllInBlock(cfg, es[1..]))
  }

  /** An entry inside one boundary block counts at most one block of bytes. */
  lemma InBlockCount(cfg: DmaConfig, e: PrdEntry)
    requires cfg.Valid() && InBlock(cfg, e)
    ensures e.byteCount <= cfg.boundary
  {
    if e.byteCount > 0 {
      BlockDecomposition(e.physicalAddress, cfg.boundary);
      BlockDecomposition(e.physicalAddress + e.byteCount - 1, cfg.boundary);
    }
  }

  /** A table whose entries each lie in one block has no count above the block size. */
  lemma {:induction false} AllInBlockCounts(cfg: DmaConfig, es: seq<PrdEntry>)
    requires cfg.Valid() && AllInBlock(cfg, es)
    ensures forall i :: 0 <= i < |es| ==> es[i].byteCount <= cfg.boundary
  {
    if |es| > 0 {
      InBlockCount(cfg, es[0]);
      AllInBlockCounts(cfg, es[1..]);
      assert forall i :: 1 <= i < |es| ==> es[i] == es[1..][i - 1];
    }
  }

  /** Every pair passes validation. */
  predicate AllValid(cfg: DmaConfig, pairs: seq<TranslationPair>)
    requires cfg.Valid()
  {
    |pairs| == 0 || (PairValid(cfg, pairs[0]) && AllValid(cfg, pairs[1..]))
  }

  lemma {:induction false} UnflaggedAppend(a: seq<PrdEntry>, b: seq<PrdEntry>)
    requires Unflagged(a) && Unflagged(b)
    ensures Unflagged(a + b)
  {
    if |a| == 0 {
      assert a + b == b;
    } else {
      assert (a + b)[1..] == a[1..] + b;
      UnflaggedAppend(a[1..], b);
    }
  }

  lemma {:induction false} AllPositiveAppend(a: seq<PrdEntry>, b: seq<PrdEntry>)
    requires AllPositive(a) && AllPositive(b)
    ensures AllPositive(a + b)
  {
    if |a| == 0 {
      assert a + b == b;
    } else {
      assert (a + b)[1..] == a[1..] + b;
      AllPositiveAppend(a[1..], b);
    }
  }

  lemma {:induction false} AllInBlockAppend(cfg: DmaConfig, a: seq<PrdEntry>, b: seq<PrdEntry>)
    requires cfg.Valid() && AllInBlock(cfg, a) && AllInBlock(cfg, b)
    ensures AllInBlock(cfg, a + b)
  {
    if |a| == 0 {
      assert a + b == b;
    } else {
      assert (a + b)[1..] == a[1..] + b;
      AllInBlockAppend(cfg, a[1..], b);
    }
  }

  lemma {:induction false} UnflaggedAt(es: seq<PrdEntry>, i: nat)
    requires Unflagged(es) && i < |es|
    ensures !es[i].lastEntry
  {
    if i > 0 {
      UnflaggedAt(es[1..], i - 1);
    }
  }

  lemma {:induction false} AllPositiveAt(es: seq<PrdEntry>)
    requires AllPositive(es)
    ensures forall i :: 0 <= i < |es| ==> es[i].byteCount > 0
  {
    if |es| > 0 {
      AllPositiveAt(es[1..]);
      assert forall i :: 1 <= i < |es| ==> es[i] == es[1..][i - 1];
    }
  }

  /** The outcome of the table-building loop. */
  datatype BuildResult =
    | Built(entries: seq<PrdEntry>, remaining: nat)
    | Rejected(status: Status, index: nat)   // the pair at `index` failed validation

  /**
   The loop of `_AtaPrepareDmaTransfer` over the translation pairs, in order:
   validate, clip and split, subtract the clipped length from
   `bytesRemaining`; the first invalid pair ends it with that pair's status.
   */
  function BuildEntries(rev: Revision, cfg: DmaConfig, pairs: seq<TranslationPair>, remaining: nat): (r: BuildResult)
    requires cfg.Valid()
    ensures r.Built? <==> AllValid(cfg, pairs)
    ensures r.Rejected? ==>
      && r.index < |pairs|
      && r.status != Success
      && r.status == ValidateTranslationPair(cfg, pairs[r.index])
      && AllValid(cfg, pairs[..r.index])
    ensures r.Built? ==>
      && SumBytes(r.entries) + r.remaining == remaining
      && |r.entries| <= 2 * |pairs|
      && (rev == AsWritten ==> |pairs| <= |r.entries|)
      && (rev == Corrected ==> AllPositive(r.entries))
      && Unflagged(r.entries)
      && (rev == Corrected ==>
            r.remaining == (if SumLengths(pairs) >= remaining then 0 else remaining - SumLengths(pairs)))
      && (cfg.Within32Bits() && cfg.maxPhysicalLen <= cfg.boundary ==> AllInBlock(cfg, r.entries))
      && (cfg.Within32Bits() ==> EntryBytes(r.entries) == PairBytes(rev, pairs, remaining))
    decreases |pairs|
  {
    if |pairs| == 0 then
      Built([], remaining)
    else
      var s := ValidateTranslationPair(cfg, pairs[0]);
      if s != Success then
        assert pairs[..0] == [];
        Rejected(s, 0)
      else
        var es := PairEntries(rev, cfg, pairs[0], remaining);
        var rest := BuildEntries(rev, cfg, pairs[1..], remaining - ClippedLength(rev, pairs[0], remaining));
        match rest
        case Rejected(_, i) =>
          assert pairs[..i + 1][1..] == pairs[1..][..i];
          Prepend(es, rest)
        case Built(rs, _) =>
          JoinEntries(rev, cfg, pairs[0], remaining, rs);
          if cfg.Within32Bits() then
            JoinBytes(rev, cfg, pairs, remaining, rs);
            Prepend(es, rest)
          else
            Prepend(es, rest)
  }

  /** The entries of one pair in front of a table keep the table's invariants. */
  lemma JoinEntries(rev: Revision, cfg: DmaConfig, p: TranslationPair, remaining: nat, rs: seq<PrdEntry>)
    requires cfg.Valid() && PairValid(cfg, p)
    requires Unflagged(rs) && (rev == Corrected ==> AllPositive(rs))
    requires cfg.Within32Bits() && cfg.maxPhysicalLen <= cfg.boundary ==> AllInBlock(cfg, rs)
    ensures var es := PairEntries(rev, cfg, p, remaining);
      && SumBytes(es + rs) == ClippedLength(rev, p, remaining) + SumBytes(rs)
      && Unflagged(es + rs)
      && (rev == Corrected ==> AllPositive(es + rs))
      && (cfg.Within32Bits() && cfg.maxPhysicalLen <= cfg.boundary ==> AllInBlock(cfg, es + rs))
  {
    var es := PairEntries(rev, cfg, p, remaining);
    SumBytesAppend(es, rs);
    UnflaggedAppend(es, rs);
    if rev == Corrected {
      AllPositiveAppend(es, rs);
    }
    if cfg.Within32Bits() && cfg.maxPhysicalLen <= cfg.boundary {
      PairEntriesInBlock(rev, cfg, p, remaining);
      AllInBlockAppend(cfg, es, rs);
    }
  }

  /** The entries of the first pair in front of a table that describes the bytes of the rest describe the bytes of all. */
  lemma JoinBytes(rev: Revision, cfg: DmaConfig, pairs: seq<TranslationPair>, remaining: nat, rs: seq<PrdEntry>)
    requires cfg.Valid() && cfg.Within32Bits() && |pairs| > 0 && PairValid(cfg, pairs[0])
    requires EntryBytes(rs) == PairBytes(rev, pairs[1..], remaining - ClippedLength(rev, pairs[0], remaining))
    ensures EntryBytes(PairEntries(rev, cfg, pairs[0], remaining) + rs) == PairBytes(rev, pairs, remaining)
  {
    EntryBytesAppend(PairEntries(rev, cfg, pairs[0], remaining), rs);
    PairEntriesBytes(rev, cfg, pairs[0], remaining);
  }

  /** Puts the entries of one pair in front of the result for the pairs after it. */
  function Prepend(es: seq<PrdEntry>, rest: BuildResult): BuildResult {
    match rest
    case Rejected(s, i) => Rejected(s, i + 1)
    case Built(rs, rem) => Built(es + rs, rem)
  }

  /** One turn of the loop, for a pair that passes validation. */
  lemma BuildEntriesCons(rev: Revision, cfg: DmaConfig, pairs: seq<TranslationPair>, remaining: nat)
    requires cfg.Valid() && |pairs| > 0 && PairValid(cfg, pairs[0])
    ensures BuildEntries(rev, cfg, pairs, remaining)
         == Prepend(PairEntries(rev, cfg, pairs[0], remaining),
                    BuildEntries(rev, cfg, pairs[1..], remaining - ClippedLength(rev, pairs[0], remaining)))
  {
  }

  /** Sets the end-of-table flag of the final entry, `prdTable[indexInPrdEntries - 1].LastEntry = 1`. */
  function MarkLast(es: seq<PrdEntry>): (r: seq<PrdEntry>)
    requires |es| > 0
    ensures |r| == |es|
    ensures forall i :: 0 <= i < |r| ==>
      && r[i].physicalAddress == es[i].physicalAddress
      && r[i].byteCount == es[i].byteCount
    ensures SumBytes(r) == SumBytes(es)
    ensures Unflagged(es) ==> forall i :: 0 <= i < |r| ==> (r[i].lastEntry <==> i == |r| - 1)
  {
    var n := |es| - 1;
    SumBytesAppend(es[..n], [es[n]]);
    SumBytesAppend(es[..n], [es[n].(lastEntry := true)]);
    assert es == es[..n] + [es[n]];
    assert Unflagged(es) ==> forall i :: 0 <= i < n ==> !es[i].lastEntry by {
      if Unflagged(es) {
        forall i | 0 <= i < n
          ensures !es[i].lastEntry
        {
          UnflaggedAt(es, i);
        }
      }
    }
    es[..n] + [es[n].(lastEntry := true)]
  }

  /**
   When no pair may be longer than a boundary block, no entry of a built
   table counts more than one block: with the 64 KiB boundary every count
   fits the 16-bit field, a full block being the field's 0.
   */
  lemma BuiltCountsFitBlock(rev: Revision, cfg: DmaConfig, pairs: seq<TranslationPair>, remaining: nat)
    requires cfg.Valid() && cfg.Within32Bits() && cfg.maxPhysicalLen <= cfg.boundary
    requires BuildEntries(rev, cfg, pairs, remaining).Built?
    ensures var es := BuildEntries(rev, cfg, pairs, remaining).entries;
      forall i :: 0 <= i < |es| ==> 0 < es[i].byteCount <= cfg.boundary || (rev == AsWritten && es[i].byteCount == 0)
  {
    var es := BuildEntries(rev, cfg, pairs, remaining).entries;
    AllInBlockCounts(cfg, es);
    if rev == Corrected {
      AllPositiveAt(es);
    }
  }

  function SumLengths(pairs: seq<TranslationPair>): nat {
    if |pairs| == 0 then 0 else pairs[0].numberOfBytes + SumLengths(pairs[1..])
  }

  /** When no pair can exceed a `WORD`, the `(WORD)` cast is harmless: both revisions build the same table. */
  lemma {:induction false} BuildAgrees(cfg: DmaConfig, pairs: seq<TranslationPair>, remaining: nat)
    requires cfg.Valid() && cfg.maxPhysicalLen <= MAX_WORD
    requires Nonempty(pairs)
    requires SumLengths(pairs) <= remaining
    ensures BuildEntries(AsWritten, cfg, pairs, remaining) == BuildEntries(Corrected, cfg, pairs, remaining)
    decreases |pairs|
  {
    if |pairs| > 0 && PairValid(cfg, pairs[0]) {
      var n := pairs[0].numberOfBytes;
      assert ClippedLength(AsWritten, pairs[0], remaining) == n;
      assert ClippedLength(Corrected, pairs[0], remaining) == n;
      assert PairEntries(AsWritten, cfg, pairs[0], remaining) == PairEntries(Corrected, cfg, pairs[0], remaining);
      BuildEntriesCons(AsWritten, cfg, pairs, remaining);
      BuildEntriesCons(Corrected, cfg, pairs, remaining);
      BuildAgrees(cfg, pairs[1..], remaining - n);
    }
  }

  /** Every pair describes at least one byte. */
  predicate Nonempty(pairs: seq<TranslationPair>) {
    |pairs| == 0 || (pairs[0].numberOfBytes > 0 && Nonempty(pairs[1..]))
  }

  /** As written, a valid pair reached once `bytesRemaining` is 0 yields one entry of zero bytes. */
  lemma ExhaustedPairYieldsEmptyEntry(cfg: DmaConfig, p: TranslationPair)
    requires cfg.Valid()
    ensures PairEntries(AsWritten, cfg, p, 0) == [PrdEntry(ToDword(p.address), 0, false)]
  {
  }

  // ---------------------------------------------------------------------------
  // What the table describes, byte by byte

  /** The physical addresses `[a, a + n)`, in increasing order. */
  function Span(a: nat, n: nat): (s: seq<nat>)
    ensures |s| == n
  {
    seq(n, i requires 0 <= i => a + i)
  }

  /** A run cut at `f` is the run up to `f` followed by the run after it. */
  lemma SpanSplit(a: nat, f: nat, n: nat)
    requires f <= n
    ensures Span(a, f) + Span(a + f, n - f) == Span(a, n)
  {
    var joined := Span(a, f) + Span(a + f, n - f);
    forall i | 0 <= i < n
      ensures joined[i] == Span(a, n)[i]
    {
      if i >= f {
        assert joined[i] == Span(a + f, n - f)[i - f];
      }
    }
  }

  /** The bytes a table tells the bus master to move, entry after entry. */
  function EntryBytes(es: seq<PrdEntry>): seq<nat> {
    if |es| == 0 then [] else Span(es[0].physicalAddress, es[0].byteCount) + EntryBytes(es[1..])
  }

  /**
   The bytes of the buffer that go into a transfer of `remaining` bytes:
   the run of each pair, clipped to what is still wanted, pair after pair.
   */
  function PairBytes(rev: Revision, pairs: seq<TranslationPair>, remaining: nat): seq<nat> {
    if |pairs| == 0 then []
    else
      var c := ClippedLength(rev, pairs[0], remaining);
      Span(pairs[0].address, c) + PairBytes(rev, pairs[1..], remaining - c)
  }

  /** The whole buffer, as the memory manager describes it. */
  function BufferBytes(pairs: seq<TranslationPair>): (s: seq<nat>)
    ensures |s| == SumLengths(pairs)
  {
    if |pairs| == 0 then [] else Span(pairs[0].address, pairs[0].numberOfBytes) + BufferBytes(pairs[1..])
  }

  lemma {:induction false} EntryBytesAppend(a: seq<PrdEntry>, b: seq<PrdEntry>)
    ensures EntryBytes(a + b) == EntryBytes(a) + EntryBytes(b)
  {
    if |a| == 0 {
      assert a + b == b;
    } else {
      assert (a + b)[1..] == a[1..] + b;
      EntryBytesAppend(a[1..], b);
    }
  }

  /** The entries of one pair describe exactly its clipped run. */
  lemma PairEntriesBytes(rev: Revision, cfg: DmaConfig, p: TranslationPair, remaining: nat)
    requires cfg.Valid() && cfg.Within32Bits() && PairValid(cfg, p)
    ensures EntryBytes(PairEntries(rev, cfg, p, remaining)) == Span(p.address, ClippedLength(rev, p, remaining))
  {
    var c := ClippedLength(rev, p, remaining);
    var es := PairEntries(rev, cfg, p, remaining);
    if c == 0 {
      assert EntryBytes(es) == [];
    } else {
      PairEntriesCases(rev, cfg, p, remaining);
      if IsInSameBoundary(p.address, c, cfg.boundary) {
        assert EntryBytes(es) == Span(p.address, c) + EntryBytes([]);
      } else {
        var f := cfg.boundary - AddressOffset(p.address, cfg.boundary);
        assert es[1..] == [PrdEntry(p.address + f, c - f, false)];
        assert EntryBytes(es[1..]) == Span(p.address + f, c - f) + EntryBytes([]);
        SpanSplit(p.address, f, c);
      }
    }
  }

  /** Corrected, with nothing left to take the bytes wanted are none. */
  lemma {:induction false} NothingWanted(pairs: seq<TranslationPair>)
    ensures PairBytes(Corrected, pairs, 0) == []
    decreases |pairs|
  {
    if |pairs| > 0 {
      NothingWanted(pairs[1..]);
    }
  }

  /**
   Corrected, when the buffer is at least as long as the transfer, the
   bytes taken are exactly the first `remaining` bytes of the buffer.
   */
  lemma {:induction false} CorrectedTakesPrefix(pairs: seq<TranslationPair>, remaining: nat)
    requires SumLengths(pairs) >= remaining
    ensures PairBytes(Corrected, pairs, remaining) == BufferBytes(pairs)[..remaining]
    decreases |pairs|
  {
    if |pairs| > 0 {
      var p := pairs[0];
      var whole := Span(p.address, p.numberOfBytes);
      if p.numberOfBytes >= remaining {
        NothingWanted(pairs[1..]);
        assert PairBytes(Corrected, pairs, remaining) == Span(p.address, remaining) + [];
        SpanSplit(p.address, remaining, p.numberOfBytes);
        assert whole[..remaining] == Span(p.address, remaining);
        assert (whole + BufferBytes(pairs[1..]))[..remaining] == whole[..remaining];
      } else {
        CorrectedTakesPrefix(pairs[1..], remaining - p.numberOfBytes);
        assert (whole + BufferBytes(pairs[1..]))[..remaining]
            == whole + BufferBytes(pairs[1..])[..remaining - p.numberOfBytes];
      }
    }
  }

  /** Entries with the same addresses and counts describe the same bytes. */
  lemma {:induction false} SameShapeBytes(a: seq<PrdEntry>, b: seq<PrdEntry>)
    requires |a| == |b|
    requires forall i :: 0 <= i < |a| ==>
      a[i].physicalAddress == b[i].physicalAddress && a[i].byteCount == b[i].byteCount
    ensures EntryBytes(a) == EntryBytes(b)
  {
    if |a| > 0 {
      assert forall i :: 0 <= i < |a| - 1 ==> a[1..][i] == a[i + 1] && b[1..][i] == b[i + 1];
      SameShapeBytes(a[1..], b[1..]);
    }
  }

  /** Block membership depends only on addresses and counts, so setting the flag keeps it. */
  lemma {:induction false} MarkLastInBlock(cfg: DmaConfig, es: seq<PrdEntry>)
    requires cfg.Valid() && |es| > 0 && AllInBlock(cfg, es)
    ensures AllInBlock(cfg, MarkLast(es))
  {
    SameShapeInBlock(cfg, es, MarkLast(es));
  }

  lemma {:induction false} SameShapeInBlock(cfg: DmaConfig, a: seq<PrdEntry>, b: seq<PrdEntry>)
    requires cfg.Valid() && |a| == |b| && AllInBlock(cfg, a)
    requires forall i :: 0 <= i < |a| ==>
      a[i].physicalAddress == b[i].physicalAddress && a[i].byteCount == b[i].byteCount
    ensures AllInBlock(cfg, b)
  {
    if |a| > 0 {
      assert forall i :: 0 <= i < |a| - 1 ==> a[1..][i] == a[i + 1] && b[1..][i] == b[i + 1];
      SameShapeInBlock(cfg, a[1..], b[1..]);
    }
  }
}
