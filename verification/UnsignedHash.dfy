/**
 * Hashing a signed package as if its signature entry had never been inserted (crates/dv-core/src/package_signature.rs,
 * `unsigned_hash`, `hash_range` and `ArchiveHasher`). A digest is the sequence of bytes it absorbed. After a successful
 * read none of the pass's checks can fail, and what it absorbs is one fixed sequence of bytes.
 */
module UnsignedHash {
  import opened Bytes
  import opened Wrappers
  import opened IndexOrder
  import opened SignedArchive

  /** A digest in progress, updated in place. */
  class ArchiveHasher {
    var absorbed: seq<Byte>

    constructor ()
      ensures absorbed == []
    {
      absorbed := [];
    }

    method Update(bytes: seq<Byte>)
      modifies this
      ensures absorbed == old(absorbed) + bytes
    {
      absorbed := absorbed + bytes;
    }
  }

  /** Feeds `length` bytes from `offset` to the hasher, at most one buffer at a time. */
  method HashRange(file: seq<Byte>, hasher: ArchiveHasher, offset: nat, length: nat) returns (r: Result<(), ArchiveError>)
    modifies hasher
    ensures r.Success? <==> length == 0 || offset + length <= |file|
    ensures r.Success? && length != 0 ==> hasher.absorbed == old(hasher.absorbed) + file[offset..offset + length]
    ensures length == 0 ==> hasher.absorbed == old(hasher.absorbed)
  {
    var position: nat, left: nat := offset, length;
    while left != 0
      invariant position + left == offset + length
      invariant offset <= position && (offset < position ==> position <= |file|)
      invariant hasher.absorbed == old(hasher.absorbed) + if offset < position then file[offset..position] else []
    {
      var count := if left < BUFFER_BYTES then left else BUFFER_BYTES;
      if position + count > |file| {
        return Failure(UnexpectedEnd);
      }
      hasher.Update(file[position..position + count]);
      assert file[offset..position + count] ==
             (if offset < position then file[offset..position] else []) + file[position..position + count];
      position, left := position + count, left - count;
    }
    return Success(());
  }

  // ---------------------------------------------------------------- local records

  function Slice(file: seq<Byte>, records: seq<CentralRecord>, i: nat): seq<Byte> {
    if i < |records| && records[i].row.localOffset + records[i].fileEntrySize <= |file| then
      file[records[i].row.localOffset..records[i].row.localOffset + records[i].fileEntrySize]
    else []
  }

  /** `prefix`, then the first `p` local records of `order` that have bytes and are not `skip`. */
  function Slices(prefix: seq<Byte>, file: seq<Byte>, records: seq<CentralRecord>, order: seq<nat>, skip: nat, p: nat): seq<Byte>
    requires p <= |order|
  {
    if p == 0 then prefix
    else if order[p - 1] == skip || !HasBytes(records, order[p - 1]) then Slices(prefix, file, records, order, skip, p - 1)
    else Slices(prefix, file, records, order, skip, p - 1) + Slice(file, records, order[p - 1])
  }

  predicate HasBytes(records: seq<CentralRecord>, i: nat) {
    i < |records| && records[i].fileEntrySize != 0
  }

  /** Those of the first `p` records of `order` that have bytes and are not `skip`. */
  function Solid(records: seq<CentralRecord>, order: seq<nat>, skip: nat, p: nat): seq<nat>
    requires p <= |order|
  {
    if p == 0 then []
    else if HasBytes(records, order[p - 1]) && order[p - 1] != skip then Solid(records, order, skip, p - 1) + [order[p - 1]]
    else Solid(records, order, skip, p - 1)
  }

  lemma {:induction false} SolidMembers(records: seq<CentralRecord>, order: seq<nat>, skip: nat, p: nat)
    requires p <= |order|
    ensures forall i :: i in Solid(records, order, skip, p) <==>
                        HasBytes(records, i) && i != skip && exists q :: 0 <= q < p && order[q] == i
  {
    if p > 0 {
      SolidMembers(records, order, skip, p - 1);
    }
  }

  lemma {:induction false} SlicesFrame(prefix: seq<Byte>, file: seq<Byte>, records: seq<CentralRecord>, a: seq<nat>,
      b: seq<nat>, skip: nat, p: nat)
    requires p <= |a| && p <= |b| && forall q | 0 <= q < p :: a[q] == b[q]
    ensures Slices(prefix, file, records, a, skip, p) == Slices(prefix, file, records, b, skip, p)
  {
    hide Slice, HasBytes;
    if p > 0 {
      SlicesFrame(prefix, file, records, a, b, skip, p - 1);
    }
  }

  lemma SlicesStep(prefix: seq<Byte>, file: seq<Byte>, records: seq<CentralRecord>, order: seq<nat>, skip: nat, p: nat)
    requires p < |order|
    ensures HasBytes(records, order[p]) && order[p] != skip ==>
              && Slices(prefix, file, records, order, skip, p + 1) ==
                 Slices(prefix, file, records, order, skip, p) + Slice(file, records, order[p])
              && Solid(records, order, skip, p + 1) == Solid(records, order, skip, p) + [order[p]]
    ensures !HasBytes(records, order[p]) || order[p] == skip ==>
              && Slices(prefix, file, records, order, skip, p + 1) == Slices(prefix, file, records, order, skip, p)
              && Solid(records, order, skip, p + 1) == Solid(records, order, skip, p)
  {
  }

  lemma SlicesSnoc(prefix: seq<Byte>, file: seq<Byte>, records: seq<CentralRecord>, front: seq<nat>, last: nat, skip: nat)
    requires HasBytes(records, last) && last != skip
    ensures Slices(prefix, file, records, front + [last], skip, |front + [last]|) ==
            Slices(prefix, file, records, front, skip, |front|) + Slice(file, records, last)
  {
    hide Slices, Slice;
    SlicesFrame(prefix, file, records, front, front + [last], skip, |front|);
    SlicesStep(prefix, file, records, front + [last], skip, |front|);
  }

  /** Slicing the first `p` records or only the solid ones among them gives the same bytes. */
  predicate SolidSuffices(prefix: seq<Byte>, file: seq<Byte>, records: seq<CentralRecord>, order: seq<nat>, skip: nat, p: nat)
    requires p <= |order|
  {
    var solid := Solid(records, order, skip, p);
    Slices(prefix, file, records, order, skip, p) == Slices(prefix, file, records, solid, skip, |solid|)
  }

  /** Records without bytes add nothing, wherever a sort has put them. */
  lemma {:induction false} SlicesOfSolid(prefix: seq<Byte>, file: seq<Byte>, records: seq<CentralRecord>,
      order: seq<nat>, skip: nat, p: nat)
    requires p <= |order|
    ensures SolidSuffices(prefix, file, records, order, skip, p)
  {
    hide SolidSuffices;
    if p == 0 {
      NoSolid(prefix, file, records, order, skip);
    } else {
      SlicesOfSolid(prefix, file, records, order, skip, p - 1);
      OneMoreSolid(prefix, file, records, order, skip, p - 1);
    }
  }

  lemma NoSolid(prefix: seq<Byte>, file: seq<Byte>, records: seq<CentralRecord>, order: seq<nat>, skip: nat)
    ensures SolidSuffices(prefix, file, records, order, skip, 0)
  {
  }

  lemma OneMoreSolid(prefix: seq<Byte>, file: seq<Byte>, records: seq<CentralRecord>, order: seq<nat>, skip: nat, p: nat)
    requires p < |order| && SolidSuffices(prefix, file, records, order, skip, p)
    ensures SolidSuffices(prefix, file, records, order, skip, p + 1)
  {
    hide Slices, Solid, Slice;
    SlicesStep(prefix, file, records, order, skip, p);
    if HasBytes(records, order[p]) && order[p] != skip {
      SlicesSnoc(prefix, file, records, Solid(records, order, skip, p), order[p], skip);
    }
  }

  /** Two different records with bytes start at different offsets. */
  lemma SolidOffsetsDiffer(records: seq<CentralRecord>, order: seq<nat>, centralStart: nat, p: nat, q: nat)
    requires SizesTile(records, order, centralStart) && p < q < |order|
    requires HasBytes(records, order[p])
    ensures records[order[p]].row.localOffset < records[order[q]].row.localOffset
  {
    assert EndsAtSuccessor(records, order, centralStart, p);
    assert p + 1 < q ==> Offsets(records)[order[p + 1]] <= Offsets(records)[order[q]];
  }

  ghost predicate DistinctSolids(records: seq<CentralRecord>) {
    forall i, j | 0 <= i < |records| && 0 <= j < |records| && i != j
        && HasBytes(records, i) && HasBytes(records, j) ::
      records[i].row.localOffset != records[j].row.localOffset
  }

  lemma SolidsAreDistinct(records: seq<CentralRecord>, order: seq<nat>, centralStart: nat)
    requires SizesTile(records, order, centralStart)
    ensures DistinctSolids(records)
  {
    forall i, j | 0 <= i < |records| && 0 <= j < |records| && i != j
        && HasBytes(records, i) && HasBytes(records, j)
      ensures records[i].row.localOffset != records[j].row.localOffset
    {
      var p := PlaceOf(Offsets(records), order, |records|, i);
      var q := PlaceOf(Offsets(records), order, |records|, j);
      if p < q {
        SolidOffsetsDiffer(records, order, centralStart, p, q);
      } else {
        SolidOffsetsDiffer(records, order, centralStart, q, p);
      }
    }
  }

  lemma {:induction false} SolidSorted(records: seq<CentralRecord>, order: seq<nat>, skip: nat, p: nat)
    requires p <= |order| && DistinctSolids(records) && Sorted(Offsets(records), order)
    requires forall q, r | 0 <= q < r < |order| :: order[q] != order[r]
    ensures StrictlySorted(Offsets(records), Solid(records, order, skip, p))
  {
    if p > 0 {
      SolidSorted(records, order, skip, p - 1);
      SolidMembers(records, order, skip, p - 1);
      var solid, last := Solid(records, order, skip, p - 1), order[p - 1];
      forall q | 0 <= q < |solid| && HasBytes(records, last)
        ensures Offsets(records)[solid[q]] < Offsets(records)[last]
      {
        assert solid[q] in solid;
      }
    }
  }

  lemma SameSolids(records: seq<CentralRecord>, full: seq<nat>, kept: seq<nat>, signature: nat, i: nat)
    requires InLocalOrder(records, full, |records|) && InLocalOrder(records, kept, signature)
    ensures i in Solid(records, full, signature, |full|) <==> i in Solid(records, kept, signature, |kept|)
  {
    SolidMembers(records, full, signature, |full|);
    SolidMembers(records, kept, signature, |kept|);
    if i < |records| && i != signature {
      var p := PlaceOf(Offsets(records), full, |records|, i);
      var q := PlaceOf(Offsets(records), kept, signature, i);
    }
  }

  /** Whatever the order of records with equal offsets, the same bytes come out. */
  lemma SlicesAgree(prefix: seq<Byte>, file: seq<Byte>, records: seq<CentralRecord>, full: seq<nat>, kept: seq<nat>,
      centralStart: nat, signature: nat)
    requires SizesTile(records, full, centralStart) && InLocalOrder(records, kept, signature) && signature < |records|
    ensures Slices(prefix, file, records, full, signature, |full|) == Slices(prefix, file, records, kept, signature, |kept|)
  {
    SolidsAreDistinct(records, full, centralStart);
    SolidSorted(records, full, signature, |full|);
    SolidSorted(records, kept, signature, |kept|);
    var a, b := Solid(records, full, signature, |full|), Solid(records, kept, signature, |kept|);
    forall i ensures i in a <==> i in b {
      SameSolids(records, full, kept, signature, i);
    }
    StrictOrderIsUnique(Offsets(records), a, b);
    SlicesOfSolid(prefix, file, records, full, signature, |full|);
    SlicesOfSolid(prefix, file, records, kept, signature, |kept|);
  }

  /** The first `end` bytes of `file` without those from `lo` to `hi`. */
  function Without(file: seq<Byte>, lo: nat, hi: nat, end: nat): seq<Byte>
    requires lo <= hi <= end <= |file|
  {
    file[..lo] + file[hi..end]
  }

  /** Where the local record number `p` of `order` starts, and where the last one ends. */
  function Boundary(records: seq<CentralRecord>, order: seq<nat>, centralStart: nat, p: nat): nat
    requires p <= |order| && forall q | 0 <= q < |order| :: order[q] < |records|
  {
    if p < |order| then records[order[p]].row.localOffset else centralStart
  }

  lemma BoundaryStep(records: seq<CentralRecord>, order: seq<nat>, centralStart: nat, p: nat)
    requires SizesTile(records, order, centralStart) && p < |order|
    ensures Boundary(records, order, centralStart, p + 1) ==
            Boundary(records, order, centralStart, p) + records[order[p]].fileEntrySize
    ensures Boundary(records, order, centralStart, p + 1) <= centralStart
  {
    OffsetWithin(records, order, centralStart, p);
    assert EndsAtSuccessor(records, order, centralStart, p);
  }

  /** `emitted` is the file up to `end`, less the bytes from `lo` to `hi` once these are `passed`. */
  ghost predicate EmittedTo(file: seq<Byte>, lo: nat, hi: nat, passed: bool, end: nat, emitted: seq<Byte>) {
    && end <= |file|
    && if passed then lo <= hi <= end && emitted == Without(file, lo, hi, end) else emitted == file[..end]
  }

  lemma EmitSignature(file: seq<Byte>, lo: nat, hi: nat, emitted: seq<Byte>)
    requires EmittedTo(file, lo, hi, false, lo, emitted) && lo <= hi <= |file|
    ensures EmittedTo(file, lo, hi, true, hi, emitted)
  {
    assert file[hi..hi] == [];
  }

  lemma EmitKept(file: seq<Byte>, lo: nat, hi: nat, passed: bool, a: nat, b: nat, emitted: seq<Byte>)
    requires EmittedTo(file, lo, hi, passed, a, emitted) && a <= b <= |file|
    ensures EmittedTo(file, lo, hi, passed, b, emitted + file[a..b])
  {
    if passed {
      assert file[hi..a] + file[a..b] == file[hi..b];
    } else {
      assert file[..a] + file[a..b] == file[..b];
    }
  }

  /** What has been passed after `p` records, by the signature's place in the local order. */
  predicate Passed(order: seq<nat>, signature: nat, p: nat)
    requires p <= |order|
  {
    exists q :: 0 <= q < p && order[q] == signature
  }

  /** The prefix and the first `p` records of the local order are emitted. */
  ghost predicate EmittedUpTo(file: seq<Byte>, records: seq<CentralRecord>, order: seq<nat>, centralStart: nat,
      signature: nat, prefix: seq<Byte>, p: nat)
    requires signature < |records| && p <= |order| && forall q | 0 <= q < |order| :: order[q] < |records|
  {
    EmittedTo(file, records[signature].row.localOffset,
              records[signature].row.localOffset + records[signature].fileEntrySize,
              Passed(order, signature, p), Boundary(records, order, centralStart, p),
              Slices(prefix, file, records, order, signature, p))
  }

  lemma {:induction false} EmitPrefix(file: seq<Byte>, records: seq<CentralRecord>, order: seq<nat>, centralStart: nat,
      signature: nat, p: nat)
    requires SizesTile(records, order, centralStart) && centralStart <= |file| && signature < |records|
    requires p <= |order| && |order| > 0
    ensures records[order[0]].row.localOffset <= |file|
    ensures EmittedUpTo(file, records, order, centralStart, signature, file[..records[order[0]].row.localOffset], p)
  {
    OffsetWithin(records, order, centralStart, 0);
    if p > 0 {
      EmitPrefix(file, records, order, centralStart, signature, p - 1);
      EmitNext(file, records, order, centralStart, signature, file[..records[order[0]].row.localOffset], p - 1);
    }
  }

  lemma EmitNext(file: seq<Byte>, records: seq<CentralRecord>, order: seq<nat>, centralStart: nat, signature: nat,
      prefix: seq<Byte>, p: nat)
    requires SizesTile(records, order, centralStart) && centralStart <= |file| && signature < |records| && p < |order|
    requires EmittedUpTo(file, records, order, centralStart, signature, prefix, p)
    ensures EmittedUpTo(file, records, order, centralStart, signature, prefix, p + 1)
  {
    hide Slices, EmittedTo;
    BoundaryStep(records, order, centralStart, p);
    SlicesStep(prefix, file, records, order, signature, p);
    PassOne(order, signature, p);
    var a, b := Boundary(records, order, centralStart, p), Boundary(records, order, centralStart, p + 1);
    var lo, hi := records[signature].row.localOffset, records[signature].row.localOffset + records[signature].fileEntrySize;
    var before := Slices(prefix, file, records, order, signature, p);
    if order[p] == signature {
      EmitSignature(file, lo, hi, before);
    } else if HasBytes(records, order[p]) {
      EmitKept(file, lo, hi, Passed(order, signature, p), a, b, before);
    }
  }

  lemma PassOne(order: seq<nat>, signature: nat, p: nat)
    requires p < |order| && forall q, r | 0 <= q < r < |order| :: order[q] != order[r]
    ensures Passed(order, signature, p + 1) <==> Passed(order, signature, p) || order[p] == signature
    ensures order[p] == signature ==> !Passed(order, signature, p)
  {
  }

  /** The bytes in front of the central directory once the signature's local record is gone. */
  function KeptLocals(file: seq<Byte>, a: Archive, centralStart: nat): seq<Byte>
    requires a.signatureIndex < |a.records| && SignatureEnd(a) <= centralStart <= |file|
  {
    Without(file, a.records[a.signatureIndex].row.localOffset, SignatureEnd(a), centralStart)
  }

  function SignatureEnd(a: Archive): nat
    requires a.signatureIndex < |a.records|
  {
    a.records[a.signatureIndex].row.localOffset + a.records[a.signatureIndex].fileEntrySize
  }

  lemma KeptSlicesEmitted(file: seq<Byte>, records: seq<CentralRecord>, order: seq<nat>, kept: seq<nat>,
      centralStart: nat, signature: nat)
    requires SizesTile(records, order, centralStart) && InLocalOrder(records, kept, signature)
    requires signature < |records| && centralStart <= |file| && |order| > 0
    ensures var lo := records[signature].row.localOffset;
            var hi := lo + records[signature].fileEntrySize;
            && records[order[0]].row.localOffset <= lo && hi <= centralStart
            && Slices(file[..records[order[0]].row.localOffset], file, records, kept, signature, |kept|) ==
                Without(file, lo, hi, centralStart)
  {
    StartIsLeast(records, order, centralStart, signature);
    EmitPrefix(file, records, order, centralStart, signature, |order|);
    var place := PlaceOf(Offsets(records), order, |records|, signature);
    assert Passed(order, signature, |order|);
    SlicesAgree(file[..records[order[0]].row.localOffset], file, records, order, kept, centralStart, signature);
  }

  /**
   * However a second sort orders records with equal offsets, what is fed to the hasher is the file without the
   * signature's bytes.
   */
  lemma LocalsEmitted(file: seq<Byte>, a: Archive, order: seq<nat>, kept: seq<nat>)
    requires Describes(a, file, order) && InLocalOrder(a.records, kept, a.signatureIndex)
    ensures a.startOfLocalHeaders <= SignatureEnd(a) <= CentralStart(file, a.eocd) <= |file|
    ensures Slices(file[..a.startOfLocalHeaders], file, a.records, kept, a.signatureIndex, |kept|) ==
              KeptLocals(file, a, CentralStart(file, a.eocd))
  {
    KeptSlicesEmitted(file, a.records, order, kept, CentralStart(file, a.eocd), a.signatureIndex);
  }

  lemma StartIsLeast(records: seq<CentralRecord>, order: seq<nat>, centralStart: nat, i: nat)
    requires SizesTile(records, order, centralStart) && i < |records| && |order| > 0
    ensures records[order[0]].row.localOffset <= records[i].row.localOffset
    ensures records[i].row.localOffset + records[i].fileEntrySize <= centralStart
  {
    var p := PlaceOf(Offsets(records), order, |records|, i);
    assert p > 0 ==> Offsets(records)[order[0]] <= Offsets(records)[order[p]];
    OffsetWithin(records, order, centralStart, p);
  }

  // ---------------------------------------------------------------- central records and footer

  /** The row lies in the file with its offset where APPNOTE puts it, and its new offset fits a ZIP32 field. */
  predicate RowFits(file: seq<Byte>, record: CentralRecord) {
    && CENTRAL_FIXED <= record.row.headerSize && record.row.position + record.row.headerSize <= |file|
    && record.row.localOffset == U32At(file, record.row.position + 42)
    && 0 <= record.row.localOffset + record.changeInOffset < U32_LIMIT
  }

  /** The row as it was before the signature went in: only the local offset differs. */
  function PatchedRow(file: seq<Byte>, record: CentralRecord): (s: seq<Byte>)
    requires RowFits(file, record)
    ensures |s| == record.row.headerSize
  {
    var p := record.row.position;
    file[p..p + 42] + U32Le(record.row.localOffset + record.changeInOffset) + file[p + 46..p + record.row.headerSize]
  }

  ghost predicate RowsFit(file: seq<Byte>, records: seq<CentralRecord>, skip: nat) {
    forall i | 0 <= i < |records| && i != skip :: RowFits(file, records[i])
  }

  /** `prefix`, then the patched rows with numbers below `n` except `skip`. */
  ghost function PatchedRows(prefix: seq<Byte>, file: seq<Byte>, records: seq<CentralRecord>, skip: nat, n: nat): seq<Byte>
    requires n <= |records| && RowsFit(file, records, skip)
  {
    if n == 0 then prefix
    else if n - 1 == skip then PatchedRows(prefix, file, records, skip, n - 1)
    else PatchedRows(prefix, file, records, skip, n - 1) + PatchedRow(file, records[n - 1])
  }

  /**
   * `prefix`, then the footer with one entry less, a central directory without the signature's row, and moved forward
   * by the signature's local record.
   */
  function PatchedFooter(prefix: seq<Byte>, file: seq<Byte>, eocd: nat, headerSize: nat, entrySize: nat): seq<Byte>
    requires eocd + 22 <= |file| && 0 < Count(file, eocd) && 0 < U16At(file, eocd + 8)
    requires headerSize <= CentralSize(file, eocd) && entrySize <= CentralStart(file, eocd)
  {
    prefix + file[eocd..eocd + 8] + U16Le(U16At(file, eocd + 8) - 1) + U16Le(Count(file, eocd) - 1) +
    U32Le(CentralSize(file, eocd) - headerSize) + U32Le(CentralStart(file, eocd) - entrySize) + file[eocd + 20..]
  }

  /** The footer's counts and sizes cover the signature entry. */
  predicate CoversSignature(file: seq<Byte>, a: Archive) {
    && a.signatureIndex < |a.records| && a.eocd + 22 <= |file|
    && SignatureEnd(a) <= CentralStart(file, a.eocd) <= |file|
    && 0 < Count(file, a.eocd) && 0 < U16At(file, a.eocd + 8)
    && a.records[a.signatureIndex].row.headerSize <= CentralSize(file, a.eocd)
  }

  /** Everything `EmittedBytes` needs is in range. */
  ghost predicate Emittable(file: seq<Byte>, a: Archive) {
    CoversSignature(file, a) && RowsFit(file, a.records, a.signatureIndex)
  }

  /** The archive without its signature entry: kept local bytes, patched central rows, patched footer. */
  ghost function EmittedBytes(file: seq<Byte>, a: Archive): seq<Byte>
    requires Emittable(file, a)
  {
    var signature := a.records[a.signatureIndex];
    var locals := KeptLocals(file, a, CentralStart(file, a.eocd));
    var rows := PatchedRows(locals, file, a.records, a.signatureIndex, |a.records|);
    PatchedFooter(rows, file, a.eocd, signature.row.headerSize, signature.fileEntrySize)
  }

  /** A record's patched offset is the number of kept bytes in front of it, within ZIP32. */
  lemma PatchedOffset(file: seq<Byte>, a: Archive, order: seq<nat>, i: nat)
    requires Describes(a, file, order) && i < |a.records| && i != a.signatureIndex
    ensures 0 <= a.records[i].row.localOffset + a.records[i].changeInOffset <= a.records[i].row.localOffset < U32_LIMIT
  {
    var p := PlaceOf(Offsets(a.records), order, |a.records|, i);
    ShiftInRange(a.records, order, CentralStart(file, a.eocd), a.signatureIndex, p);
  }

  /** The row number `i` lies inside the central directory. */
  lemma RowInDirectory(file: seq<Byte>, a: Archive, order: seq<nat>, i: nat)
    requires Describes(a, file, order) && i < |a.records|
    ensures a.records[i].row.position == Starts(file, a.eocd)[i] >= CentralStart(file, a.eocd)
    ensures a.records[i].row.headerSize == HeaderSize(file, a.records[i].row.position) >= CENTRAL_FIXED
    ensures a.records[i].row.position + a.records[i].row.headerSize <= a.eocd <= |file|
    ensures a.records[i].row.localOffset == U32At(file, a.records[i].row.position + 42)
  {
    var start, count := CentralStart(file, a.eocd), Count(file, a.eocd);
    StartsIncrease(file, start, count, i, count);
    if i > 0 {
      StartsIncrease(file, start, count, 0, i);
    }
  }

  lemma RowFitsAfterRead(file: seq<Byte>, a: Archive, order: seq<nat>, i: nat)
    requires Describes(a, file, order) && i < |a.records| && i != a.signatureIndex
    ensures RowFits(file, a.records[i])
  {
    RowInDirectory(file, a, order, i);
    PatchedOffset(file, a, order, i);
  }

  lemma SignatureFits(file: seq<Byte>, a: Archive, order: seq<nat>)
    requires Describes(a, file, order)
    ensures CoversSignature(file, a)
  {
    StartIsLeast(a.records, order, CentralStart(file, a.eocd), a.signatureIndex);
    RowInDirectory(file, a, order, a.signatureIndex);
  }

  lemma RowsFitAfterRead(file: seq<Byte>, a: Archive, order: seq<nat>)
    requires Describes(a, file, order)
    ensures RowsFit(file, a.records, a.signatureIndex)
  {
    forall i | 0 <= i < |a.records| && i != a.signatureIndex ensures RowFits(file, a.records[i]) {
      RowFitsAfterRead(file, a, order, i);
    }
  }

  /** After a successful read no check of `UnsignedHash` can fail. */
  lemma ReadIsEmittable(file: seq<Byte>, a: Archive, order: seq<nat>)
    requires Describes(a, file, order)
    ensures Emittable(file, a)
  {
    SignatureFits(file, a, order);
    RowsFitAfterRead(file, a, order);
  }

  lemma LocalsInFile(file: seq<Byte>, a: Archive, order: seq<nat>)
    requires Describes(a, file, order)
    ensures a.startOfLocalHeaders <= |file|
    ensures forall i | 0 <= i < |a.records| :: a.records[i].row.localOffset + a.records[i].fileEntrySize <= |file|
  {
    forall i | 0 <= i < |a.records| ensures a.records[i].row.localOffset + a.records[i].fileEntrySize <= |file| {
      StartIsLeast(a.records, order, CentralStart(file, a.eocd), i);
    }
  }

  method HashSlices(file: seq<Byte>, records: seq<CentralRecord>, local: seq<nat>, signature: nat, hasher: ArchiveHasher)
    returns (r: Result<(), ArchiveError>)
    requires forall p | 0 <= p < |local| :: local[p] < |records| && local[p] != signature
    requires forall i | 0 <= i < |records| :: records[i].row.localOffset + records[i].fileEntrySize <= |file|
    modifies hasher
    ensures r.Success? && hasher.absorbed == Slices(old(hasher.absorbed), file, records, local, signature, |local|)
  {
    hide Slices;
    NoSlices(hasher.absorbed, file, records, local, signature);
    r := Success(());
    for p := 0 to |local|
      invariant r.Success?
      invariant hasher.absorbed == Slices(old(hasher.absorbed), file, records, local, signature, p)
    {
      SlicesStep(old(hasher.absorbed), file, records, local, signature, p);
      var record := records[local[p]];
      r := HashRange(file, hasher, record.row.localOffset, record.fileEntrySize);
    }
  }

  lemma NoSlices(prefix: seq<Byte>, file: seq<Byte>, records: seq<CentralRecord>, order: seq<nat>, skip: nat)
    ensures Slices(prefix, file, records, order, skip, 0) == prefix
  {
  }

  method HashLocals(file: seq<Byte>, a: Archive, hasher: ArchiveHasher, ghost order: seq<nat>)
      returns (r: Result<(), ArchiveError>)
    requires Describes(a, file, order) && Emittable(file, a) && hasher.absorbed == []
    modifies hasher
    ensures r.Success? && hasher.absorbed == KeptLocals(file, a, CentralStart(file, a.eocd))
  {
    var local := SortByKey(Offsets(a.records), a.signatureIndex);
    LocalsEmitted(file, a, order, local);
    LocalsInFile(file, a, order);
    r := HashRange(file, hasher, 0, a.startOfLocalHeaders);
    assert hasher.absorbed == file[..a.startOfLocalHeaders];
    r := HashSlices(file, a.records, local, a.signatureIndex, hasher);
  }

  /** Feeds one patched row; the offset is read back from the file and checked as the source checks it. */
  method HashRow(file: seq<Byte>, record: CentralRecord, hasher: ArchiveHasher) returns (r: Result<(), ArchiveError>)
    requires RowFits(file, record)
    modifies hasher
    ensures r.Success? && hasher.absorbed == old(hasher.absorbed) + PatchedRow(file, record)
  {
    if record.row.headerSize < CENTRAL_FIXED {
      return Failure(TruncatedCentral);
    }
    var p := record.row.position;
    r := HashRange(file, hasher, p, 42);
    var patched := U32At(file, p + 42) + record.changeInOffset;
    if patched < 0 || patched >= U32_LIMIT {
      return Failure(OffsetNotZip32);
    }
    hasher.Update(U32Le(patched));
    r := HashRange(file, hasher, p + 46, record.row.headerSize - 46);
    assert file[p + 46..p + 46 + (record.row.headerSize - 46)] == file[p + 46..p + record.row.headerSize];
    Regroup(old(hasher.absorbed), file[p..p + 42], U32Le(patched), file[p + 46..p + record.row.headerSize]);
  }

  lemma Regroup(a: seq<Byte>, b: seq<Byte>, c: seq<Byte>, d: seq<Byte>)
    ensures a + b + c + d == a + (b + c + d)
  {
  }

  function Positions(rows: seq<CentralRecord>): (s: seq<nat>)
    ensures |s| == |rows| && forall i | 0 <= i < |s| :: s[i] == rows[i].row.position
  {
    seq(|rows|, i requires 0 <= i < |rows| => rows[i].row.position)
  }

  /** Sorting rows by position changes nothing: they were read in that order. */
  lemma PositionsIncrease(file: seq<Byte>, a: Archive, order: seq<nat>)
    requires Describes(a, file, order)
    ensures forall i, j | 0 <= i < j < |a.records| :: Positions(a.records)[i] < Positions(a.records)[j]
  {
    forall i, j | 0 <= i < j < |a.records| ensures Positions(a.records)[i] < Positions(a.records)[j] {
      StartsIncrease(file, CentralStart(file, a.eocd), Count(file, a.eocd), i, j);
    }
  }

  method HashCentral(file: seq<Byte>, a: Archive, hasher: ArchiveHasher, ghost order: seq<nat>)
      returns (r: Result<(), ArchiveError>)
    requires Describes(a, file, order) && Emittable(file, a)
    modifies hasher
    ensures r.Success?
    ensures hasher.absorbed == PatchedRows(old(hasher.absorbed), file, a.records, a.signatureIndex, |a.records|)
  {
    var central := SortByKey(Positions(a.records), a.signatureIndex);
    PositionsIncrease(file, a, order);
    OrderOfIncreasingKeys(Positions(a.records), central, a.signatureIndex);
    AllButAt(|a.records|, a.signatureIndex);
    r := HashRows(file, a.records, central, a.signatureIndex, hasher);
  }

  /** The number of the kept row at place `p`. */
  function KeptRow(p: nat, skip: nat): nat {
    if p < skip then p else p + 1
  }

  /** The rows in front of the kept row at place `p + 1` are those in front of place `p`, and the row there. */
  lemma NextKeptRow(prefix: seq<Byte>, file: seq<Byte>, records: seq<CentralRecord>, skip: nat, p: nat)
    requires RowsFit(file, records, skip) && skip < |records| && p + 1 < |records|
    ensures PatchedRows(prefix, file, records, skip, KeptRow(p + 1, skip)) ==
            PatchedRows(prefix, file, records, skip, KeptRow(p, skip)) + PatchedRow(file, records[KeptRow(p, skip)])
  {
    var i := KeptRow(p, skip);
    assert PatchedRows(prefix, file, records, skip, i + 1) ==
           PatchedRows(prefix, file, records, skip, i) + PatchedRow(file, records[i]);
  }

  lemma FirstKeptRow(prefix: seq<Byte>, file: seq<Byte>, records: seq<CentralRecord>, skip: nat)
    requires RowsFit(file, records, skip) && skip < |records|
    ensures PatchedRows(prefix, file, records, skip, KeptRow(0, skip)) == prefix
  {
  }

  method HashRows(file: seq<Byte>, records: seq<CentralRecord>, central: seq<nat>, skip: nat, hasher: ArchiveHasher)
    returns (r: Result<(), ArchiveError>)
    requires RowsFit(file, records, skip) && skip < |records| && |central| == |records| - 1
    requires forall p | 0 <= p < |central| :: central[p] == KeptRow(p, skip)
    modifies hasher
    ensures r.Success? && hasher.absorbed == PatchedRows(old(hasher.absorbed), file, records, skip, |records|)
  {
    hide PatchedRows, PatchedRow;
    FirstKeptRow(hasher.absorbed, file, records, skip);
    r := Success(());
    for p := 0 to |central|
      invariant r.Success?
      invariant hasher.absorbed == PatchedRows(old(hasher.absorbed), file, records, skip, KeptRow(p, skip))
    {
      NextKeptRow(old(hasher.absorbed), file, records, skip, p);
      r := HashRow(file, records[central[p]], hasher);
    }
  }

  lemma FooterFields(file: seq<Byte>, eocd: nat)
    requires IsFooter(file, eocd)
    ensures var footer := file[eocd..eocd + 20];
            && footer[..4] == FOOTER_SIGNATURE && footer[..8] == file[eocd..eocd + 8]
            && U16At(footer, 8) == U16At(file, eocd + 8) && U16At(footer, 10) == Count(file, eocd)
            && U32At(footer, 12) == CentralSize(file, eocd) && U32At(footer, 16) == CentralStart(file, eocd)
  {
  }

  /** Feeds the footer with the signature's entry, row and local record subtracted. */
  method HashFooter(file: seq<Byte>, eocd: nat, headerSize: nat, entrySize: nat, fileLen: nat, hasher: ArchiveHasher)
    returns (r: Result<(), ArchiveError>)
    requires IsFooter(file, eocd) && 0 < Count(file, eocd) && 0 < U16At(file, eocd + 8) && fileLen == |file|
    requires headerSize <= CentralSize(file, eocd) && entrySize <= CentralStart(file, eocd)
    modifies hasher
    ensures r.Success? && hasher.absorbed == PatchedFooter(old(hasher.absorbed), file, eocd, headerSize, entrySize)
  {
    hide U16At, U32At;
    var footer := file[eocd..eocd + 20];
    FooterFields(file, eocd);
    if footer[..4] != FOOTER_SIGNATURE {
      return Failure(FooterChanged);
    }
    hasher.Update(footer[..8]);
    var entriesOnDisk, entriesTotal := U16At(footer, 8), U16At(footer, 10);
    if entriesOnDisk < 1 || entriesTotal < 1 {
      return Failure(CountUnderflow);
    }
    hasher.Update(U16Le(entriesOnDisk - 1));
    hasher.Update(U16Le(entriesTotal - 1));
    var centralSize, centralOffset := U32At(footer, 12), U32At(footer, 16);
    if headerSize >= U32_LIMIT || centralSize < headerSize {
      return Failure(SizeUnderflow);
    }
    hasher.Update(U32Le(centralSize - headerSize));
    if entrySize >= U32_LIMIT || centralOffset < entrySize {
      return Failure(SizeUnderflow);
    }
    hasher.Update(U32Le(centralOffset - entrySize));
    r := HashRange(file, hasher, eocd + 20, fileLen - eocd - 20);
  }

  method HashFooterOf(file: seq<Byte>, a: Archive, hasher: ArchiveHasher) returns (r: Result<(), ArchiveError>)
    requires CoversSignature(file, a) && IsFooter(file, a.eocd) && a.fileLen == |file|
    modifies hasher
    ensures r.Success?
    ensures hasher.absorbed == PatchedFooter(old(hasher.absorbed), file, a.eocd, a.records[a.signatureIndex].row.headerSize,
                                             a.records[a.signatureIndex].fileEntrySize)
  {
    var signature := a.records[a.signatureIndex];
    r := HashFooter(file, a.eocd, signature.row.headerSize, signature.fileEntrySize, a.fileLen, hasher);
  }

  /** Hashes the package as it was before signing. On an archive that was just read, none of its checks can fail. */
  method UnsignedHash(file: seq<Byte>, a: Archive, ghost order: seq<nat>) returns (r: Result<seq<Byte>, ArchiveError>)
    requires Describes(a, file, order)
    ensures Emittable(file, a) && r == Success(EmittedBytes(file, a))
  {
    ReadIsEmittable(file, a, order);
    var hasher := new ArchiveHasher();
    var locals := HashLocals(file, a, hasher, order);
    var central := HashCentral(file, a, hasher, order);
    var footer := HashFooterOf(file, a, hasher);
    return Success(hasher.absorbed);
  }
}
