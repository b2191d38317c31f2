/**
 * What `UnsignedHash` feeds to the digest is itself a ZIP archive: the signed one without its signature entry. Its footer
 * describes its central directory, the directory lists the kept entries with their patched offsets, and every kept local
 * record stands, unchanged, where its patched offset says, counted from the first local header.
 */
module EmittedArchive {
  import opened Bytes
  import opened Wrappers
  import opened IndexOrder
  import opened SignedArchive
  import opened UnsignedHash

  /** Where the row number `i` starts, and where the last one ends. */
  function RowStart(records: seq<CentralRecord>, end: nat, i: nat): nat
    requires i <= |records|
  {
    if i < |records| then records[i].row.position else end
  }

  /** The rows follow each other without a gap up to `end`. */
  ghost predicate Contiguous(records: seq<CentralRecord>, end: nat) {
    forall i: nat | i < |records| :: RowEndsAtNext(records, end, i)
  }

  predicate RowEndsAtNext(records: seq<CentralRecord>, end: nat, i: nat)
    requires i < |records|
  {
    records[i].row.position + records[i].row.headerSize == RowStart(records, end, i + 1)
  }

  lemma ReadIsContiguous(file: seq<Byte>, a: Archive, order: seq<nat>)
    requires Describes(a, file, order)
    ensures Contiguous(a.records, a.eocd) && RowStart(a.records, a.eocd, 0) == CentralStart(file, a.eocd)
  {
    forall i: nat | i < |a.records| ensures RowEndsAtNext(a.records, a.eocd, i) {
      RowInDirectory(file, a, order, i);
      assert Starts(file, a.eocd)[i + 1] == Starts(file, a.eocd)[i] + HeaderSize(file, Starts(file, a.eocd)[i]);
      if i + 1 < |a.records| {
        RowInDirectory(file, a, order, i + 1);
      }
    }
  }

  /** Where the row number `i` lands when the kept rows follow `prefixLen` other bytes. */
  function Landing(prefixLen: nat, records: seq<CentralRecord>, end: nat, skip: nat, i: nat): int
    requires i <= |records| && skip < |records|
  {
    prefixLen + RowStart(records, end, i) - RowStart(records, end, 0) - if skip < i then records[skip].row.headerSize else 0
  }

  /** `bytes` holds the patched row number `i` at its landing place. */
  ghost predicate Landed(bytes: seq<Byte>, prefixLen: nat, file: seq<Byte>, records: seq<CentralRecord>, end: nat,
      skip: nat, i: nat)
    requires i < |records| && skip < |records| && RowFits(file, records[i])
  {
    var at := Landing(prefixLen, records, end, skip, i);
    && 0 <= at && at + records[i].row.headerSize <= |bytes|
    && bytes[at..at + records[i].row.headerSize] == PatchedRow(file, records[i])
  }

  lemma {:induction false} RowsLength(prefix: seq<Byte>, file: seq<Byte>, records: seq<CentralRecord>, end: nat,
      skip: nat, n: nat)
    requires RowsFit(file, records, skip) && Contiguous(records, end) && skip < |records| && n <= |records|
    ensures |PatchedRows(prefix, file, records, skip, n)| == Landing(|prefix|, records, end, skip, n)
    ensures prefix <= PatchedRows(prefix, file, records, skip, n)
  {
    if n > 0 {
      RowsLength(prefix, file, records, end, skip, n - 1);
      assert RowEndsAtNext(records, end, n - 1);
    }
  }

  lemma {:induction false} RowLands(prefix: seq<Byte>, file: seq<Byte>, records: seq<CentralRecord>, end: nat,
      skip: nat, n: nat, i: nat)
    requires RowsFit(file, records, skip) && Contiguous(records, end) && skip < |records| && n <= |records|
    requires i < n && i != skip
    ensures Landed(PatchedRows(prefix, file, records, skip, n), |prefix|, file, records, end, skip, i)
  {
    if i == n - 1 {
      LastRowLands(prefix, file, records, end, skip, i);
    } else {
      RowLands(prefix, file, records, end, skip, n - 1, i);
      var before, after := PatchedRows(prefix, file, records, skip, n - 1), PatchedRows(prefix, file, records, skip, n);
      assert before <= after;
      LandedInLonger(before, after, |prefix|, file, records, end, skip, i);
    }
  }

  lemma LastRowLands(prefix: seq<Byte>, file: seq<Byte>, records: seq<CentralRecord>, end: nat, skip: nat, i: nat)
    requires RowsFit(file, records, skip) && Contiguous(records, end) && skip < |records| && i < |records| && i != skip
    ensures Landed(PatchedRows(prefix, file, records, skip, i + 1), |prefix|, file, records, end, skip, i)
  {
    RowsLength(prefix, file, records, end, skip, i);
    LastPiece(PatchedRows(prefix, file, records, skip, i), PatchedRow(file, records[i]));
  }

  lemma LastPiece(before: seq<Byte>, piece: seq<Byte>)
    ensures (before + piece)[|before|..|before| + |piece|] == piece
  {
  }

  lemma LandedInLonger(bytes: seq<Byte>, longer: seq<Byte>, prefixLen: nat, file: seq<Byte>,
      records: seq<CentralRecord>, end: nat, skip: nat, i: nat)
    requires i < |records| && skip < |records| && RowFits(file, records[i]) && bytes <= longer
    requires Landed(bytes, prefixLen, file, records, end, skip, i)
    ensures Landed(longer, prefixLen, file, records, end, skip, i)
  {
    var at := Landing(prefixLen, records, end, skip, i);
    assert longer[at..at + records[i].row.headerSize] == bytes[at..at + records[i].row.headerSize];
  }

  // ---------------------------------------------------------------- the emitted archive

  function NewStart(file: seq<Byte>, a: Archive): nat
    requires CoversSignature(file, a)
  {
    CentralStart(file, a.eocd) - a.records[a.signatureIndex].fileEntrySize
  }

  function NewEocd(file: seq<Byte>, a: Archive): int
    requires CoversSignature(file, a)
  {
    a.eocd - a.records[a.signatureIndex].fileEntrySize - a.records[a.signatureIndex].row.headerSize
  }

  /** The emitted rows as the emitted bytes see them: prefix length, then the kept rows. */
  ghost function EmittedRows(file: seq<Byte>, a: Archive): seq<Byte>
    requires Emittable(file, a)
  {
    PatchedRows(KeptLocals(file, a, CentralStart(file, a.eocd)), file, a.records, a.signatureIndex, |a.records|)
  }

  /** The emitted footer has the fields `fields` in front of the unchanged comment. */
  lemma FooterShape(prefix: seq<Byte>, file: seq<Byte>, eocd: nat, headerSize: nat, entrySize: nat)
    requires IsFooter(file, eocd) && 0 < Count(file, eocd) && 0 < U16At(file, eocd + 8)
    requires headerSize <= CentralSize(file, eocd) && entrySize <= CentralStart(file, eocd)
    ensures var s, e := PatchedFooter(prefix, file, eocd, headerSize, entrySize), |prefix|;
            && prefix <= s && |s| == |prefix| + |file| - eocd && e + 22 <= |s|
            && s[e..e + 8] == file[eocd..eocd + 8] && s[e + 20..] == file[eocd + 20..]
            && U16At(s, e + 8) == U16At(file, eocd + 8) - 1 && U16At(s, e + 10) == Count(file, eocd) - 1
            && U32At(s, e + 12) == CentralSize(file, eocd) - headerSize
            && U32At(s, e + 16) == CentralStart(file, eocd) - entrySize
  {
    var e := |prefix|;
    var s0 := prefix + file[eocd..eocd + 8];
    var onDisk, total := U16Le(U16At(file, eocd + 8) - 1), U16Le(Count(file, eocd) - 1);
    var size, start := U32Le(CentralSize(file, eocd) - headerSize), U32Le(CentralStart(file, eocd) - entrySize);
    var s := PatchedFooter(prefix, file, eocd, headerSize, entrySize);
    assert s == s0 + onDisk + total + size + start + file[eocd + 20..];
    assert s[e + 8] == onDisk[0] && s[e + 9] == onDisk[1] && s[e + 10] == total[0] && s[e + 11] == total[1];
    assert s[e + 12] == size[0] && s[e + 13] == size[1] && s[e + 14] == size[2] && s[e + 15] == size[3];
    assert s[e + 16] == start[0] && s[e + 17] == start[1] && s[e + 18] == start[2] && s[e + 19] == start[3];
  }

  /** What the emitted bytes depend on, once the archive is read. */
  ghost predicate Ready(file: seq<Byte>, a: Archive) {
    && Emittable(file, a) && FooterOk(file, a.eocd) && Contiguous(a.records, a.eocd)
    && |a.records| == Count(file, a.eocd)
    && RowStart(a.records, a.eocd, 0) == CentralStart(file, a.eocd)
  }

  lemma ReadIsReady(file: seq<Byte>, a: Archive, order: seq<nat>)
    requires Describes(a, file, order)
    ensures Ready(file, a)
  {
    ReadIsEmittable(file, a, order);
    ReadIsContiguous(file, a, order);
  }

  lemma RowsShape(file: seq<Byte>, a: Archive)
    requires Ready(file, a)
    ensures |KeptLocals(file, a, CentralStart(file, a.eocd))| == NewStart(file, a)
    ensures KeptLocals(file, a, CentralStart(file, a.eocd)) <= EmittedRows(file, a)
    ensures |EmittedRows(file, a)| == NewEocd(file, a)
  {
    RowsLength(KeptLocals(file, a, CentralStart(file, a.eocd)), file, a.records, a.eocd, a.signatureIndex, |a.records|);
  }

  predicate ReducedFooter(file: seq<Byte>, a: Archive, s: seq<Byte>)
    requires CoversSignature(file, a)
  {
    var e := NewEocd(file, a);
    var signature := a.records[a.signatureIndex];
    && 0 <= e && e + 22 <= |s| && |s| == e + |file| - a.eocd
    && s[e..e + 8] == file[a.eocd..a.eocd + 8] && s[e + 20..] == file[a.eocd + 20..]
    && U16At(s, e + 8) == U16At(file, a.eocd + 8) - 1 && Count(s, e) == Count(file, a.eocd) - 1
    && CentralSize(s, e) == CentralSize(file, a.eocd) - signature.row.headerSize
    && CentralStart(s, e) == NewStart(file, a)
  }

  lemma FooterIsEmitted(file: seq<Byte>, a: Archive)
    requires Ready(file, a)
    ensures EmittedRows(file, a) <= EmittedBytes(file, a)
    ensures ReducedFooter(file, a, EmittedBytes(file, a))
  {
    RowsShape(file, a);
    var signature := a.records[a.signatureIndex];
    FooterShape(EmittedRows(file, a), file, a.eocd, signature.row.headerSize, signature.fileEntrySize);
  }

  /** A central record copied with another local offset is a central record of the same size and name. */
  lemma CopiedRow(s: seq<Byte>, at: nat, file: seq<Byte>, p: nat, size: nat, offset: nat)
    requires IsCentralRecord(file, p) && size == HeaderSize(file, p) && p + size <= |file| && at + size <= |s|
             && offset < U32_LIMIT
    requires s[at..at + size] == file[p..p + 42] + U32Le(offset) + file[p + 46..p + size]
    ensures IsCentralRecord(s, at) && HeaderSize(s, at) == size
    ensures NamesSignature(s, at) <==> NamesSignature(file, p)
    ensures RowAt(s, at) == RowAt(file, p).(position := at, localOffset := offset)
  {
    var row := s[at..at + size];
    var le := U32Le(offset);
    assert forall k | 0 <= k < size :: s[at + k] == row[k];
    assert forall k | 0 <= k < 42 :: row[k] == file[p + k];
    assert row[42] == le[0] && row[43] == le[1] && row[44] == le[2] && row[45] == le[3];
    assert row[46..] == file[p + 46..p + size];
    assert s[at + 46..at + size] == row[46..];
    CopiedName(s, at, file, p, size);
  }

  lemma CopiedName(s: seq<Byte>, at: nat, file: seq<Byte>, p: nat, size: nat)
    requires CENTRAL_FIXED <= size && p + size <= |file| && at + size <= |s| && size == HeaderSize(file, p)
    requires s[at + 46..at + size] == file[p + 46..p + size] && U16At(s, at + 28) == U16At(file, p + 28)
    ensures NamesSignature(s, at) <==> NamesSignature(file, p)
  {
    if U16At(file, p + 28) == |SIGNATURE_PATH| {
      assert size >= CENTRAL_FIXED + |SIGNATURE_PATH|;
      var tail := s[at + 46..at + size];
      assert s[at + 46..at + 60] == tail[..14];
      assert file[p + 46..p + 60] == tail[..14];
    }
  }

  /** Where the kept row number `i` starts in the emitted bytes. */
  function NewPosition(file: seq<Byte>, a: Archive, i: nat): int
    requires CoversSignature(file, a) && i <= |a.records|
  {
    Landing(NewStart(file, a), a.records, a.eocd, a.signatureIndex, i)
  }

  /** The row number `i` is what the file says at its place. */
  predicate RowIsRead(file: seq<Byte>, a: Archive, i: nat)
    requires i < |a.records|
  {
    && IsCentralRecord(file, a.records[i].row.position) && a.records[i].row == RowAt(file, a.records[i].row.position)
    && (NamesSignature(file, a.records[i].row.position) <==> i == a.signatureIndex)
  }

  lemma RowWasRead(file: seq<Byte>, a: Archive, order: seq<nat>, i: nat)
    requires Describes(a, file, order) && i < |a.records|
    ensures RowIsRead(file, a, i)
  {
    assert a.records[i].row == RowAt(file, Starts(file, a.eocd)[i]);
  }

  /** Every kept row is in the emitted bytes, with its patched offset and otherwise as it was. */
  ghost predicate RowIsEmitted(file: seq<Byte>, a: Archive, s: seq<Byte>, i: nat)
    requires CoversSignature(file, a) && i < |a.records|
  {
    var at := NewPosition(file, a, i);
    && 0 <= at && IsCentralRecord(s, at) && !NamesSignature(s, at)
    && 0 <= a.records[i].row.localOffset + a.records[i].changeInOffset
    && RowAt(s, at) == a.records[i].row.(position := at,
        localOffset := a.records[i].row.localOffset + a.records[i].changeInOffset)
  }

  lemma KeptRowEmitted(file: seq<Byte>, a: Archive, i: nat)
    requires Ready(file, a) && i < |a.records| && i != a.signatureIndex && RowIsRead(file, a, i)
    ensures RowIsEmitted(file, a, EmittedBytes(file, a), i)
  {
    var s := EmittedBytes(file, a);
    RowsShape(file, a);
    FooterIsEmitted(file, a);
    var locals := KeptLocals(file, a, CentralStart(file, a.eocd));
    RowLands(locals, file, a.records, a.eocd, a.signatureIndex, |a.records|, i);
    LandedInLonger(EmittedRows(file, a), s, |locals|, file, a.records, a.eocd, a.signatureIndex, i);
    LandedRowIsEmitted(file, a, s, i);
  }

  lemma LandedRowIsEmitted(file: seq<Byte>, a: Archive, s: seq<Byte>, i: nat)
    requires CoversSignature(file, a) && i < |a.records| && i != a.signatureIndex && RowIsRead(file, a, i)
             && RowFits(file, a.records[i])
    requires Landed(s, NewStart(file, a), file, a.records, a.eocd, a.signatureIndex, i)
    ensures RowIsEmitted(file, a, s, i)
  {
    CopiedRow(s, NewPosition(file, a, i), file, a.records[i].row.position, a.records[i].row.headerSize,
              a.records[i].row.localOffset + a.records[i].changeInOffset);
  }

  /** Read in order, the emitted directory has the kept rows where they landed. */
  lemma {:induction false} EmittedStarts(file: seq<Byte>, a: Archive, k: nat)
    requires Ready(file, a) && k < |a.records| && forall i: nat | i < |a.records| :: RowIsRead(file, a, i)
    ensures RecordStarts(EmittedBytes(file, a), NewStart(file, a), |a.records| - 1)[k] ==
              NewPosition(file, a, KeptRow(k, a.signatureIndex))
  {
    if k == 0 {
      assert RowEndsAtNext(a.records, a.eocd, 0);
    } else {
      EmittedStarts(file, a, k - 1);
      var i := KeptRow(k - 1, a.signatureIndex);
      assert RowIsRead(file, a, i);
      KeptRowEmitted(file, a, i);
      NextLanding(file, a, k - 1);
    }
  }

  lemma NextLanding(file: seq<Byte>, a: Archive, k: nat)
    requires Ready(file, a) && k + 1 < |a.records|
    ensures NewPosition(file, a, KeptRow(k + 1, a.signatureIndex)) ==
            NewPosition(file, a, KeptRow(k, a.signatureIndex)) + a.records[KeptRow(k, a.signatureIndex)].row.headerSize
  {
    assert RowEndsAtNext(a.records, a.eocd, KeptRow(k, a.signatureIndex));
    assert RowEndsAtNext(a.records, a.eocd, a.signatureIndex);
  }

  /** The emitted row number `k` is the kept row at place `k`, moved and with its patched offset. */
  ghost predicate EmittedRowIs(file: seq<Byte>, a: Archive, s: seq<Byte>, p: nat, k: nat)
    requires k + 1 < |a.records|
  {
    var kept := a.records[KeptRow(k, a.signatureIndex)];
    && IsCentralRecord(s, p) && !NamesSignature(s, p)
    && 0 <= kept.row.localOffset + kept.changeInOffset
    && RowAt(s, p) == kept.row.(position := p, localOffset := kept.row.localOffset + kept.changeInOffset)
  }

  lemma EmittedRowAt(file: seq<Byte>, a: Archive, k: nat)
    requires Ready(file, a) && k + 1 < |a.records| && forall i: nat | i < |a.records| :: RowIsRead(file, a, i)
    ensures EmittedRowIs(file, a, EmittedBytes(file, a),
              RecordStarts(EmittedBytes(file, a), NewStart(file, a), |a.records| - 1)[k], k)
  {
    EmittedStarts(file, a, k);
    assert RowIsRead(file, a, KeptRow(k, a.signatureIndex));
    KeptRowEmitted(file, a, KeptRow(k, a.signatureIndex));
  }

  /** The emitted central section is a directory of the kept rows that ends at the emitted footer. */
  ghost predicate IsUnsignedDirectory(file: seq<Byte>, a: Archive, s: seq<Byte>)
    requires CoversSignature(file, a)
  {
    && NewEocd(file, a) >= 0 && DirectoryOk(s, NewEocd(file, a))
    && Count(s, NewEocd(file, a)) == |a.records| - 1
    && (forall i: nat :: !IsSignatureIndex(s, NewEocd(file, a), i))
    && forall k: nat | k + 1 < |a.records| :: EmittedRowIs(file, a, s, Starts(s, NewEocd(file, a))[k], k)
  }

  lemma EmittedEnd(file: seq<Byte>, a: Archive)
    requires Ready(file, a) && forall i: nat | i < |a.records| :: RowIsRead(file, a, i)
    ensures RecordStarts(EmittedBytes(file, a), NewStart(file, a), |a.records| - 1)[|a.records| - 1] == NewEocd(file, a)
  {
    var last := |a.records| - 1;
    EmittedStarts(file, a, last);
    assert RowEndsAtNext(a.records, a.eocd, a.signatureIndex);
  }

  lemma EmittedFooterIsFooter(file: seq<Byte>, a: Archive, s: seq<Byte>)
    requires CoversSignature(file, a) && FooterOk(file, a.eocd) && ReducedFooter(file, a, s)
    ensures FooterOk(s, NewEocd(file, a))
  {
    var e := NewEocd(file, a);
    var head := s[e..e + 8];
    assert s[e..e + 4] == head[..4] && file[a.eocd..a.eocd + 4] == head[..4];
    assert s[e + 4] == head[4] && s[e + 5] == head[5] && s[e + 6] == head[6] && s[e + 7] == head[7];
    assert file[a.eocd + 4] == head[4] && file[a.eocd + 5] == head[5] && file[a.eocd + 6] == head[6]
           && file[a.eocd + 7] == head[7];
    var tail := s[e + 20..];
    assert s[e + 20] == tail[0] && s[e + 21] == tail[1];
    assert file[a.eocd + 20] == tail[0] && file[a.eocd + 21] == tail[1];
  }

  /**
   * Main result: what is hashed is an archive again. Its length is the file's less the signature's two records,
   * its footer describes its central directory, and that directory lists exactly the kept entries.
   */
  lemma EmittedIsArchive(file: seq<Byte>, a: Archive, order: seq<nat>)
    requires Describes(a, file, order)
    ensures Emittable(file, a) && IsUnsignedDirectory(file, a, EmittedBytes(file, a))
    ensures |EmittedBytes(file, a)| ==
            |file| - a.records[a.signatureIndex].fileEntrySize - a.records[a.signatureIndex].row.headerSize
  {
    ReadIsReady(file, a, order);
    var s, n := EmittedBytes(file, a), |a.records| - 1;
    forall i: nat | i < |a.records| ensures RowIsRead(file, a, i) {
      RowWasRead(file, a, order, i);
    }
    var starts := RecordStarts(s, NewStart(file, a), n);
    forall k: nat | k < n ensures EmittedRowIs(file, a, s, starts[k], k) {
      EmittedRowAt(file, a, k);
    }
    EmittedEnd(file, a);
    FooterIsEmitted(file, a);
    EmittedFooterIsFooter(file, a, s);
    RowsFormDirectory(file, a, s, starts);
  }

  lemma RowsFormDirectory(file: seq<Byte>, a: Archive, s: seq<Byte>, starts: seq<nat>)
    requires CoversSignature(file, a) && |a.records| == Count(file, a.eocd) && ReducedFooter(file, a, s)
             && FooterOk(s, NewEocd(file, a))
    requires starts == RecordStarts(s, NewStart(file, a), |a.records| - 1) && starts[|a.records| - 1] == NewEocd(file, a)
    requires forall k: nat | k < |a.records| - 1 :: EmittedRowIs(file, a, s, starts[k], k)
    ensures IsUnsignedDirectory(file, a, s)
  {
    var n := |a.records| - 1;
    assert Starts(s, NewEocd(file, a)) == starts;
    NoSignatureIn(file, a, s, starts);
    assert AcceptsCentral(s, NewStart(file, a), n, NewEocd(file, a));
  }

  lemma NoSignatureIn(file: seq<Byte>, a: Archive, s: seq<Byte>, starts: seq<nat>)
    requires |a.records| > 0 && |starts| == |a.records|
    requires forall k: nat | k < |a.records| - 1 :: EmittedRowIs(file, a, s, starts[k], k)
    ensures AreCentralRecords(s, starts, |a.records| - 1) && OnlySignature(s, starts, |a.records| - 1, None)
    ensures forall i: nat :: !OnlySignature(s, starts, |a.records| - 1, Some(i))
  {
    forall i: nat | i < |a.records| - 1 ensures IsCentralRecord(s, starts[i]) && !NamesSignature(s, starts[i]) {
      assert EmittedRowIs(file, a, s, starts[i], i);
    }
  }

  // ---------------------------------------------------------------- local records in the emitted archive

  /** In local order, a record ends before any later one starts. */
  lemma LocalsAreDisjoint(records: seq<CentralRecord>, order: seq<nat>, centralStart: nat, p: nat, q: nat)
    requires SizesTile(records, order, centralStart) && p < q < |order|
    ensures records[order[p]].row.localOffset + records[order[p]].fileEntrySize <= records[order[q]].row.localOffset
  {
    assert EndsAtSuccessor(records, order, centralStart, p);
    assert p + 1 < q ==> Offsets(records)[order[p + 1]] <= Offsets(records)[order[q]];
  }

  /** A kept record lies wholly in front of the signature's or wholly behind it, and its shift says which. */
  ghost predicate ShiftFollowsSignature(records: seq<CentralRecord>, start: nat, signature: nat, i: nat)
    requires signature < |records| && i < |records|
  {
    var lo, hi := records[signature].row.localOffset, records[signature].row.localOffset + records[signature].fileEntrySize;
    var offset, size := records[i].row.localOffset, records[i].fileEntrySize;
    || (offset + size <= lo && offset + records[i].changeInOffset == offset - start)
    || (hi <= offset && offset + records[i].changeInOffset == offset - start - records[signature].fileEntrySize)
  }

  lemma ShiftOfKept(records: seq<CentralRecord>, order: seq<nat>, centralStart: nat, signature: nat, i: nat)
    requires SizesTile(records, order, centralStart) && ShiftsPack(records, order, signature)
    requires signature < |records| && i < |records| && i != signature && |order| > 0
    ensures ShiftFollowsSignature(records, records[order[0]].row.localOffset, signature, i)
  {
    var p := PlaceOf(Offsets(records), order, |records|, i);
    var q := PlaceOf(Offsets(records), order, |records|, signature);
    KeptBeforeClosed(records, order, centralStart, signature, p);
    if q < p {
      assert order[..p][q] == signature;
      LocalsAreDisjoint(records, order, centralStart, q, p);
    } else {
      assert signature !in order[..p];
      LocalsAreDisjoint(records, order, centralStart, p, q);
    }
  }

  /** Cutting out the bytes from `lo` to `hi` leaves what is in front of them in place ... */
  lemma CutKeepsFront(file: seq<Byte>, lo: nat, hi: nat, end: nat, s: seq<Byte>, offset: nat, size: nat)
    requires lo <= hi <= end <= |file| && Without(file, lo, hi, end) <= s && offset + size <= lo
    ensures offset + size <= |s| && s[offset..offset + size] == file[offset..offset + size]
  {
    var cut := Without(file, lo, hi, end);
    assert s[..|cut|] == cut;
    assert s[..lo] == file[..lo];
    SliceOfSlice(s, 0, lo, offset, offset + size);
    SliceOfSlice(file, 0, lo, offset, offset + size);
  }

  /** ... and moves what is behind them. */
  lemma CutMovesBack(file: seq<Byte>, lo: nat, hi: nat, end: nat, s: seq<Byte>, offset: nat, size: nat)
    requires lo <= hi <= end <= |file| && Without(file, lo, hi, end) <= s && hi <= offset && offset + size <= end
    ensures var at := offset - (hi - lo); at + size <= |s| && s[at..at + size] == file[offset..offset + size]
  {
    var cut, at := Without(file, lo, hi, end), offset - (hi - lo);
    SliceOfSlice(file, hi, end, offset - hi, offset - hi + size);
    SliceOfRight(file[..lo], file[hi..end], offset - hi, offset - hi + size);
    assert s[..|cut|] == cut;
    SliceOfSlice(s, 0, |cut|, at, at + size);
  }

  /** Where the bytes of the kept record number `i` stand in the emitted archive: the prefix, then its patched offset. */
  function EmittedOffset(a: Archive, i: nat): int
    requires i < |a.records|
  {
    a.startOfLocalHeaders + a.records[i].row.localOffset + a.records[i].changeInOffset
  }

  /**
   * Main result: every kept local record is in the emitted archive, unchanged, at its patched offset
   * counted from the start of the local headers.
   */
  lemma KeptLocalEmitted(file: seq<Byte>, a: Archive, order: seq<nat>, i: nat)
    requires Describes(a, file, order) && i < |a.records| && i != a.signatureIndex
    ensures Emittable(file, a) && LocalIsEmitted(file, a, EmittedBytes(file, a), i)
  {
    ReadIsReady(file, a, order);
    ShiftOfKept(a.records, order, CentralStart(file, a.eocd), a.signatureIndex, i);
    StartIsLeast(a.records, order, CentralStart(file, a.eocd), i);
    ShiftedLocalEmitted(file, a, i);
  }

  predicate LocalIsEmitted(file: seq<Byte>, a: Archive, s: seq<Byte>, i: nat)
    requires i < |a.records|
  {
    var at, offset, size := EmittedOffset(a, i), a.records[i].row.localOffset, a.records[i].fileEntrySize;
    && 0 <= at && at + size <= |s| && offset + size <= |file|
    && s[at..at + size] == file[offset..offset + size]
  }

  lemma ShiftedLocalEmitted(file: seq<Byte>, a: Archive, i: nat)
    requires Ready(file, a) && i < |a.records|
    requires ShiftFollowsSignature(a.records, a.startOfLocalHeaders, a.signatureIndex, i)
    requires a.records[i].row.localOffset + a.records[i].fileEntrySize <= CentralStart(file, a.eocd)
    ensures LocalIsEmitted(file, a, EmittedBytes(file, a), i)
  {
    RowsShape(file, a);
    FooterIsEmitted(file, a);
    LocalInCut(file, a.records[a.signatureIndex].row.localOffset, SignatureEnd(a), CentralStart(file, a.eocd),
        EmittedBytes(file, a), a, i);
  }

  lemma LocalInCut(file: seq<Byte>, lo: nat, hi: nat, end: nat, s: seq<Byte>, a: Archive, i: nat)
    requires a.signatureIndex < |a.records| && i < |a.records|
    requires lo == a.records[a.signatureIndex].row.localOffset && hi == SignatureEnd(a)
    requires lo <= hi <= end <= |file| && Without(file, lo, hi, end) <= s
    requires ShiftFollowsSignature(a.records, a.startOfLocalHeaders, a.signatureIndex, i)
    requires a.records[i].row.localOffset + a.records[i].fileEntrySize <= end
    ensures LocalIsEmitted(file, a, s, i)
  {
    var offset, size := a.records[i].row.localOffset, a.records[i].fileEntrySize;
    if offset + size <= lo && EmittedOffset(a, i) == offset {
      CutKeepsFront(file, lo, hi, end, s, offset, size);
    } else {
      CutMovesBack(file, lo, hi, end, s, offset, size);
    }
  }

  /**
   * The emitted rows point at the emitted local records exactly when nothing precedes the first local header. With a
   * prefix (a self-extractor stub, say) the source keeps the prefix but patches offsets as if it were not there.
   */
  lemma OffsetsAreAbsolute(file: seq<Byte>, a: Archive, order: seq<nat>, i: nat)
    requires Describes(a, file, order) && i < |a.records| && i != a.signatureIndex
    ensures Emittable(file, a) && 0 <= NewPosition(file, a, i)
              && NewPosition(file, a, i) + CENTRAL_FIXED <= |EmittedBytes(file, a)|
    ensures RowAt(EmittedBytes(file, a), NewPosition(file, a, i)).localOffset == EmittedOffset(a, i) <==>
              a.startOfLocalHeaders == 0
  {
    hide Describes, RowIsEmitted, RowIsRead, Ready, EmittedBytes, RowAt, EmittedOffset;
    ReadIsReady(file, a, order);
    RowWasRead(file, a, order, i);
    ReadyIsEmittable(file, a);
    KeptRowEmitted(file, a, i);
    EmittedRowPoints(file, a, EmittedBytes(file, a), i);
  }

  lemma ReadyIsEmittable(file: seq<Byte>, a: Archive)
    requires Ready(file, a)
    ensures Emittable(file, a)
  {
  }

  lemma EmittedRowPoints(file: seq<Byte>, a: Archive, s: seq<Byte>, i: nat)
    requires CoversSignature(file, a) && i < |a.records| && i != a.signatureIndex && RowIsEmitted(file, a, s, i)
    ensures 0 <= NewPosition(file, a, i) && NewPosition(file, a, i) + CENTRAL_FIXED <= |s|
    ensures RowAt(s, NewPosition(file, a, i)).localOffset == EmittedOffset(a, i) <==> a.startOfLocalHeaders == 0
  {
  }
}
