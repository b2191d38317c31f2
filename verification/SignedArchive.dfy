/** Reading a signed package (crates/dv-core/src/package_signature.rs, `SignedArchive::read`). */
module SignedArchive {
  import opened Bytes
  import opened Wrappers
  import opened IndexOrder

  // Layouts follow PKWARE APPNOTE 4.3.7 (local record), 4.3.12 (central record) and 4.3.16 (end of central directory).

  const SIGNATURE_PATH: seq<Byte> := [0x2e, 0x73, 0x69, 0x67, 0x6e, 0x61, 0x74, 0x75, 0x72, 0x65, 0x2e, 0x70, 0x37, 0x73]
  const MAX_SIGNATURE_BYTES: nat := 16 * 1024 * 1024
  const CENTRAL_SIGNATURE: nat := 0x0201_4b50
  const LOCAL_SIGNATURE: nat := 0x0403_4b50
  const FOOTER_SIGNATURE: seq<Byte> := [0x50, 0x4b, 0x05, 0x06]
  const CENTRAL_FIXED: nat := 46
  const LOCAL_FIXED: nat := 30
  const FOOTER_WINDOW: nat := 65_557
  const BUFFER_BYTES: nat := 64 * 1024

  datatype ArchiveError =
    | NoFooter | NotSingleDisk | CentralBounds | MalformedCentral | UnexpectedEnd
    | SecondSignature | CountInconsistent | LocalOverlap | SignatureLayout | LocalHeaderLayout
    | OffsetNotZip32 | CountUnderflow | SizeUnderflow | FooterChanged | TruncatedCentral

  /** What the archive says in one central-directory row. */
  datatype CentralRow = CentralRow(
    position: nat, localOffset: nat, headerSize: nat,
    flags: nat, compression: nat, compressedSize: nat, uncompressedSize: nat, externalAttributes: nat)

  /** A row with what `Read` derives for it: the size of its local record, and how far that record moves. */
  datatype CentralRecord = CentralRecord(row: CentralRow, fileEntrySize: nat, changeInOffset: int)

  datatype Archive = Archive(
    records: seq<CentralRecord>, signatureIndex: nat, startOfLocalHeaders: nat, eocd: nat, fileLen: nat)

  // ---------------------------------------------------------------- the footer

  /** An end-of-central-directory record at `o` whose comment ends exactly with the file. */
  predicate IsFooter(file: seq<Byte>, o: nat) {
    && o + 22 <= |file|
    && file[o..o + 4] == FOOTER_SIGNATURE
    && o + 22 + U16At(file, o + 20) == |file|
  }

  /** The inputs on which the source's footer scan slices inside its buffer. */
  predicate FooterScanInBounds(file: seq<Byte>) {
    |file| >= 22 || (|file| >= 4 && file[..4] != FOOTER_SIGNATURE)
  }

  ghost predicate IsLastFooter(file: seq<Byte>, o: nat) {
    IsFooter(file, o) && forall later: nat | o < later :: !IsFooter(file, later)
  }

  /** Scans backwards over at most the last 65,557 bytes. The window never hides a footer from it. */
  method FindFooter(file: seq<Byte>) returns (r: Option<nat>)
    requires FooterScanInBounds(file)
    ensures r.Some? ==> IsLastFooter(file, r.value)
    ensures r.None? ==> forall o: nat :: !IsFooter(file, o)
  {
    var footerLen := if |file| < FOOTER_WINDOW then |file| else FOOTER_WINDOW;
    var footerStart := |file| - footerLen;
    var offset := if footerLen < 22 then 1 else footerLen - 21;
    while offset > 0
      invariant offset <= |file| && (footerLen < 22 ==> offset <= 1)
      invariant footerLen >= 22 ==> offset + 21 <= footerLen
      invariant forall o: nat | footerStart + offset <= o :: !IsFooter(file, o)
    {
      offset := offset - 1;
      var o := footerStart + offset;
      if file[o..o + 4] == FOOTER_SIGNATURE && o + 22 + U16At(file, o + 20) == |file| {
        return Some(o);
      }
    }
    return None;
  }

  // ---------------------------------------------------------------- the central directory

  function HeaderSize(file: seq<Byte>, p: nat): (r: nat)
    ensures r >= CENTRAL_FIXED
  {
    if p + CENTRAL_FIXED <= |file| then CENTRAL_FIXED + U16At(file, p + 28) + U16At(file, p + 30) + U16At(file, p + 32)
    else CENTRAL_FIXED
  }

  /** Where each of `count` central records starts when the directory starts at `start`, and where the last one ends. */
  function RecordStarts(file: seq<Byte>, start: nat, count: nat): (s: seq<nat>)
    ensures |s| == count + 1 && s[0] == start
    ensures forall i | 0 <= i < count :: s[i + 1] == s[i] + HeaderSize(file, s[i])
  {
    if count == 0 then [start] else
      var s := RecordStarts(file, start, count - 1);
      s + [s[count - 1] + HeaderSize(file, s[count - 1])]
  }

  lemma {:induction false} StartsIncrease(file: seq<Byte>, start: nat, count: nat, i: nat, j: nat)
    requires i < j <= count
    ensures var s := RecordStarts(file, start, count); s[i] + HeaderSize(file, s[i]) <= s[j]
    decreases j
  {
    if i < j - 1 {
      StartsIncrease(file, start, count, i, j - 1);
    }
  }

  predicate IsCentralRecord(file: seq<Byte>, p: nat) {
    p + CENTRAL_FIXED <= |file| && U32At(file, p) == CENTRAL_SIGNATURE
  }

  predicate NamesSignature(file: seq<Byte>, p: nat) {
    && p + CENTRAL_FIXED + |SIGNATURE_PATH| <= |file|
    && U16At(file, p + 28) == |SIGNATURE_PATH|
    && file[p + CENTRAL_FIXED..p + CENTRAL_FIXED + |SIGNATURE_PATH|] == SIGNATURE_PATH
  }

  function RowAt(file: seq<Byte>, p: nat): CentralRow
    requires p + CENTRAL_FIXED <= |file|
  {
    CentralRow(p, U32At(file, p + 42), HeaderSize(file, p), U16At(file, p + 8), U16At(file, p + 10),
               U32At(file, p + 20), U32At(file, p + 24), U32At(file, p + 38))
  }

  /** Central records stand at the first `n` positions of `starts`. */
  ghost predicate AreCentralRecords(file: seq<Byte>, starts: seq<nat>, n: nat)
    requires n <= |starts|
  {
    forall i | 0 <= i < n :: IsCentralRecord(file, starts[i])
  }

  /** `signature` is the only one of the first `n` positions of `starts` that names the signature entry, if one does. */
  ghost predicate OnlySignature(file: seq<Byte>, starts: seq<nat>, n: nat, signature: Option<nat>)
    requires n <= |starts|
  {
    && (signature.Some? ==> signature.value < n)
    && forall i: nat | i < n :: NamesSignature(file, starts[i]) <==> signature == Some(i)
  }

  ghost predicate RowsOf(file: seq<Byte>, starts: seq<nat>, n: nat, rows: seq<CentralRecord>)
    requires n <= |starts|
  {
    && |rows| == n
    && forall i | 0 <= i < n :: starts[i] + CENTRAL_FIXED <= |file| && rows[i] == CentralRecord(RowAt(file, starts[i]), 0, 0)
  }

  /** Reads one row; the flag says whether it names the signature entry. */
  method ReadRow(file: seq<Byte>, position: nat) returns (r: Result<(CentralRecord, bool), ArchiveError>)
    ensures r.Success? ==> IsCentralRecord(file, position)
    ensures r.Success? ==> r.value == (CentralRecord(RowAt(file, position), 0, 0), NamesSignature(file, position))
    ensures r.Failure? ==> !IsCentralRecord(file, position) || position + HeaderSize(file, position) > |file|
  {
    if position + CENTRAL_FIXED > |file| {
      return Failure(UnexpectedEnd);
    }
    if U32At(file, position) != CENTRAL_SIGNATURE {
      return Failure(MalformedCentral);
    }
    var isSignature := false;
    if U16At(file, position + 28) == |SIGNATURE_PATH| {
      if position + CENTRAL_FIXED + |SIGNATURE_PATH| > |file| {
        return Failure(UnexpectedEnd);
      }
      isSignature := file[position + CENTRAL_FIXED..position + CENTRAL_FIXED + |SIGNATURE_PATH|] == SIGNATURE_PATH;
    }
    return Success((CentralRecord(RowAt(file, position), 0, 0), isSignature));
  }

  /** The `count` central records tile the bytes from `start` to `eocd`, and at most one names the signature entry. */
  ghost predicate AcceptsCentral(file: seq<Byte>, start: nat, count: nat, eocd: nat) {
    var starts := RecordStarts(file, start, count);
    && starts[count] == eocd
    && AreCentralRecords(file, starts, count)
    && exists signature :: OnlySignature(file, starts, count, signature)
  }

  /** The first `n` records are read and `signature` is what has been found among them. */
  ghost predicate ReadUpTo(file: seq<Byte>, starts: seq<nat>, n: nat, rows: seq<CentralRecord>, signature: Option<nat>)
    requires n <= |starts|
  {
    && AreCentralRecords(file, starts, n) && RowsOf(file, starts, n, rows) && OnlySignature(file, starts, n, signature)
  }

  lemma ReadOne(file: seq<Byte>, starts: seq<nat>, n: nat, rows: seq<CentralRecord>, signature: Option<nat>, isSignature: bool)
    requires n < |starts| && ReadUpTo(file, starts, n, rows, signature)
    requires IsCentralRecord(file, starts[n]) && isSignature == NamesSignature(file, starts[n])
    requires !(isSignature && signature.Some?)
    ensures ReadUpTo(file, starts, n + 1, rows + [CentralRecord(RowAt(file, starts[n]), 0, 0)],
                     if isSignature then Some(n) else signature)
  {
  }

  /** A record that cannot be read, or a second signature entry, makes the directory unacceptable. */
  lemma RefuseAt(file: seq<Byte>, start: nat, count: nat, eocd: nat, n: nat, signature: Option<nat>)
    requires n < count && eocd <= |file|
    requires var starts := RecordStarts(file, start, count);
             || !IsCentralRecord(file, starts[n])
             || starts[n] + HeaderSize(file, starts[n]) > |file|
             || (signature.Some? && signature.value < n && NamesSignature(file, starts[signature.value])
                 && NamesSignature(file, starts[n]))
    ensures !AcceptsCentral(file, start, count, eocd)
  {
    StartsIncrease(file, start, count, n, count);
  }

  method ReadCentralDirectory(file: seq<Byte>, start: nat, count: nat, eocd: nat)
    returns (r: Result<(seq<CentralRecord>, Option<nat>), ArchiveError>)
    requires eocd <= |file|
    ensures r.Success? <==> AcceptsCentral(file, start, count, eocd)
    ensures r.Success? ==> RowsOf(file, RecordStarts(file, start, count), count, r.value.0)
    ensures r.Success? ==> OnlySignature(file, RecordStarts(file, start, count), count, r.value.1)
  {
    ghost var starts := RecordStarts(file, start, count);
    var rows: seq<CentralRecord> := [];
    var signature: Option<nat> := None;
    var position := start;
    for i := 0 to count
      invariant position == starts[i]
      invariant ReadUpTo(file, starts, i, rows, signature)
    {
      var row := ReadRow(file, position);
      if row.Failure? {
        RefuseAt(file, start, count, eocd, i, None);
        return Failure(row.error);
      }
      if row.value.1 && signature.Some? {
        RefuseAt(file, start, count, eocd, i, signature);
        return Failure(SecondSignature);
      }
      ReadOne(file, starts, i, rows, signature, row.value.1);
      if row.value.1 {
        signature := Some(i);
      }
      rows := rows + [row.value.0];
      position := position + row.value.0.row.headerSize;
    }
    if position != eocd {
      return Failure(CountInconsistent);
    }
    return Success((rows, signature));
  }

  // ---------------------------------------------------------------- local records

  function Offsets(rows: seq<CentralRecord>): (s: seq<nat>)
    ensures |s| == |rows| && forall i | 0 <= i < |s| :: s[i] == rows[i].row.localOffset
  {
    seq(|rows|, i requires 0 <= i < |rows| => rows[i].row.localOffset)
  }

  /** `order` lists the rows except `skip` by local offset. */
  ghost predicate InLocalOrder(rows: seq<CentralRecord>, order: seq<nat>, skip: nat) {
    IsOrder(Offsets(rows), order, skip)
  }

  /** Where the local record number `p` of `order` must end: at its successor, the last one at the central directory. */
  function EndOf(rows: seq<CentralRecord>, order: seq<nat>, centralStart: nat, p: nat): nat
    requires p < |order| && forall q | 0 <= q < |order| :: order[q] < |rows|
  {
    if p + 1 < |order| then rows[order[p + 1]].row.localOffset else centralStart
  }

  predicate EndsAtSuccessor(rows: seq<CentralRecord>, order: seq<nat>, centralStart: nat, p: nat)
    requires p < |order| && forall q | 0 <= q < |order| :: order[q] < |rows|
  {
    rows[order[p]].row.localOffset + rows[order[p]].fileEntrySize == EndOf(rows, order, centralStart, p)
  }

  /** Every record ends where its successor in local order starts. */
  ghost predicate SizesTile(rows: seq<CentralRecord>, order: seq<nat>, centralStart: nat) {
    && InLocalOrder(rows, order, |rows|)
    && forall p: nat | p < |order| :: EndsAtSuccessor(rows, order, centralStart, p)
  }

  /** Bytes of the kept records in front of position `p` of `order`. */
  function KeptBefore(rows: seq<CentralRecord>, order: seq<nat>, signature: nat, p: nat): nat
    requires p <= |order| && forall q | 0 <= q < |order| :: order[q] < |rows|
  {
    if p == 0 then 0
    else KeptBefore(rows, order, signature, p - 1) + if order[p - 1] == signature then 0 else rows[order[p - 1]].fileEntrySize
  }

  /** Every kept record's shift moves it to the number of kept bytes in front of it. */
  ghost predicate ShiftsPack(rows: seq<CentralRecord>, order: seq<nat>, signature: nat) {
    && InLocalOrder(rows, order, |rows|)
    && forall p | 0 <= p < |order| && order[p] != signature ::
        rows[order[p]].row.localOffset + rows[order[p]].changeInOffset == KeptBefore(rows, order, signature, p)
  }

  /** The two lists differ at most in what `Read` derives. */
  ghost predicate SameRows(a: seq<CentralRecord>, b: seq<CentralRecord>) {
    |a| == |b| && forall i | 0 <= i < |a| :: a[i].row == b[i].row
  }

  method AssignEntrySizes(rows: seq<CentralRecord>, order: seq<nat>, centralStart: nat)
    returns (r: Result<seq<CentralRecord>, ArchiveError>)
    requires InLocalOrder(rows, order, |rows|)
    ensures r.Success? <==> forall i | 0 <= i < |rows| :: rows[i].row.localOffset <= centralStart
    ensures r.Success? ==> SameRows(r.value, rows) && SizesTile(r.value, order, centralStart)
  {
    var sized := rows;
    for p := 0 to |order|
      invariant SizedUpTo(sized, rows, order, centralStart, p)
    {
      var next := EndOf(rows, order, centralStart, p);
      var own := sized[order[p]].row.localOffset;
      StartsBeforeSuccessor(rows, order, centralStart, p);
      if next < own {
        return Failure(LocalOverlap);
      }
      SizeOne(sized, rows, order, centralStart, p, next - own);
      sized := sized[order[p] := sized[order[p]].(fileEntrySize := next - own)];
    }
    SizedAll(sized, rows, order, centralStart);
    return Success(sized);
  }

  /** A record starts where its successor starts or earlier; only the last one can start behind its end. */
  lemma StartsBeforeSuccessor(rows: seq<CentralRecord>, order: seq<nat>, centralStart: nat, p: nat)
    requires InLocalOrder(rows, order, |rows|) && p < |order|
    ensures rows[order[p]].row.localOffset <= EndOf(rows, order, centralStart, p)
              || EndOf(rows, order, centralStart, p) == centralStart
  {
    assert p + 1 < |order| ==> Offsets(rows)[order[p]] <= Offsets(rows)[order[p + 1]];
  }

  ghost predicate SizedUpTo(sized: seq<CentralRecord>, rows: seq<CentralRecord>, order: seq<nat>, centralStart: nat, p: nat)
    requires p <= |order| && forall q | 0 <= q < |order| :: order[q] < |rows|
  {
    && SameRows(sized, rows)
    && forall q: nat | q < p :: EndsAtSuccessor(sized, order, centralStart, q)
  }

  lemma SizeOne(sized: seq<CentralRecord>, rows: seq<CentralRecord>, order: seq<nat>, centralStart: nat, p: nat, size: nat)
    requires InLocalOrder(rows, order, |rows|) && p < |order| && SizedUpTo(sized, rows, order, centralStart, p)
    requires rows[order[p]].row.localOffset + size == EndOf(rows, order, centralStart, p)
    ensures SizedUpTo(sized[order[p] := sized[order[p]].(fileEntrySize := size)], rows, order, centralStart, p + 1)
  {
    var next := sized[order[p] := sized[order[p]].(fileEntrySize := size)];
    assert SameRows(next, rows);
    forall q: nat | q < p + 1 ensures EndsAtSuccessor(next, order, centralStart, q) {
      if q < p {
        assert EndsAtSuccessor(sized, order, centralStart, q);
        assert order[q] != order[p];
      }
    }
  }

  lemma SizedAll(sized: seq<CentralRecord>, rows: seq<CentralRecord>, order: seq<nat>, centralStart: nat)
    requires InLocalOrder(rows, order, |rows|) && SizedUpTo(sized, rows, order, centralStart, |order|)
    ensures SizesTile(sized, order, centralStart)
    ensures forall i | 0 <= i < |rows| :: rows[i].row.localOffset <= centralStart
  {
    assert Offsets(sized) == Offsets(rows);
    forall i | 0 <= i < |rows| ensures rows[i].row.localOffset <= centralStart {
      var p := PlaceOf(Offsets(rows), order, |rows|, i);
      OffsetWithin(sized, order, centralStart, p);
    }
  }

  lemma OffsetWithin(rows: seq<CentralRecord>, order: seq<nat>, centralStart: nat, p: nat)
    requires SizesTile(rows, order, centralStart) && p < |order|
    ensures rows[order[p]].row.localOffset + rows[order[p]].fileEntrySize <= centralStart
  {
    var last: nat := |order| - 1;
    assert EndsAtSuccessor(rows, order, centralStart, last);
    assert EndsAtSuccessor(rows, order, centralStart, p);
    if p < last {
      assert Offsets(rows)[order[p + 1]] <= Offsets(rows)[order[last]];
    }
  }

  /** Without the signature, what precedes a record shrinks by the signature's size exactly when the signature precedes it. */
  lemma {:induction false} KeptBeforeClosed(rows: seq<CentralRecord>, order: seq<nat>, centralStart: nat, signature: nat, p: nat)
    requires SizesTile(rows, order, centralStart) && p < |order| && signature < |rows|
    ensures KeptBefore(rows, order, signature, p) ==
            rows[order[p]].row.localOffset - rows[order[0]].row.localOffset
            - if signature in order[..p] then rows[signature].fileEntrySize else 0
    ensures rows[order[0]].row.localOffset <= rows[order[p]].row.localOffset
  {
    if p > 0 {
      KeptBeforeClosed(rows, order, centralStart, signature, p - 1);
      assert order[..p] == order[..p - 1] + [order[p - 1]];
      assert EndsAtSuccessor(rows, order, centralStart, p - 1);
    }
  }

  lemma {:induction false} KeptBeforeSame(a: seq<CentralRecord>, b: seq<CentralRecord>, order: seq<nat>, signature: nat, p: nat)
    requires |a| == |b| && p <= |order| && forall q | 0 <= q < |order| :: order[q] < |a|
    requires forall i | 0 <= i < |a| :: a[i].fileEntrySize == b[i].fileEntrySize
    ensures KeptBefore(a, order, signature, p) == KeptBefore(b, order, signature, p)
  {
    if p > 0 {
      KeptBeforeSame(a, b, order, signature, p - 1);
    }
  }

  /** The source's conversions to i64 and its checked additions. */
  predicate FitsI64(v: int) {
    -0x8000_0000_0000_0000 <= v < 0x8000_0000_0000_0000
  }

  /** The records in front of position `p` of `order` have their shifts; nothing else has changed. */
  ghost predicate ShiftedUpTo(shifted: seq<CentralRecord>, rows: seq<CentralRecord>, order: seq<nat>, signature: nat, p: nat)
    requires p <= |order| && forall q | 0 <= q < |order| :: order[q] < |rows|
  {
    && |shifted| == |rows|
    && (forall i | 0 <= i < |rows| :: shifted[i].row == rows[i].row && shifted[i].fileEntrySize == rows[i].fileEntrySize)
    && (forall q | 0 <= q < p && order[q] != signature ::
          shifted[order[q]].row.localOffset + shifted[order[q]].changeInOffset == KeptBefore(rows, order, signature, q))
  }

  lemma ShiftOne(shifted: seq<CentralRecord>, rows: seq<CentralRecord>, order: seq<nat>, signature: nat, p: nat, change: int)
    requires p < |order| && order[p] != signature && (forall q | 0 <= q < |order| :: order[q] < |rows|)
    requires forall q | 0 <= q < p :: order[q] != order[p]
    requires ShiftedUpTo(shifted, rows, order, signature, p)
    requires rows[order[p]].row.localOffset + change == KeptBefore(rows, order, signature, p)
    ensures ShiftedUpTo(shifted[order[p] := shifted[order[p]].(changeInOffset := change)], rows, order, signature, p + 1)
  {
    var next := shifted[order[p] := shifted[order[p]].(changeInOffset := change)];
    forall q | 0 <= q < p + 1 && order[q] != signature
      ensures next[order[q]].row.localOffset + next[order[q]].changeInOffset == KeptBefore(rows, order, signature, q)
    {
      if q < p {
        assert next[order[q]] == shifted[order[q]];
      }
    }
  }

  lemma ShiftedAll(shifted: seq<CentralRecord>, rows: seq<CentralRecord>, order: seq<nat>, centralStart: nat, signature: nat)
    requires SizesTile(rows, order, centralStart) && ShiftedUpTo(shifted, rows, order, signature, |order|)
    ensures SizesTile(shifted, order, centralStart) && ShiftsPack(shifted, order, signature)
  {
    assert Offsets(shifted) == Offsets(rows);
    forall p: nat | p < |order| ensures EndsAtSuccessor(shifted, order, centralStart, p) {
      assert EndsAtSuccessor(rows, order, centralStart, p);
    }
    forall p | 0 <= p < |order| && order[p] != signature
      ensures shifted[order[p]].row.localOffset + shifted[order[p]].changeInOffset == KeptBefore(shifted, order, signature, p)
    {
      KeptBeforeSame(shifted, rows, order, signature, p);
    }
  }

  /** Every intermediate value of the shift computation for position `p` is below 4 GiB in size. */
  lemma ShiftInRange(rows: seq<CentralRecord>, order: seq<nat>, centralStart: nat, signature: nat, p: nat)
    requires SizesTile(rows, order, centralStart) && p < |order| && signature < |rows|
    ensures KeptBefore(rows, order, signature, p) <= rows[order[p]].row.localOffset
    ensures rows[order[p]].row.localOffset + rows[order[p]].fileEntrySize <= centralStart
  {
    KeptBeforeClosed(rows, order, centralStart, signature, p);
    OffsetWithin(rows, order, centralStart, p);
  }

  /** Assigns every kept record its shift. No conversion or addition it checks can fail. */
  method AssignShifts(rows: seq<CentralRecord>, order: seq<nat>, centralStart: nat, signature: nat)
    returns (r: Result<seq<CentralRecord>, ArchiveError>)
    requires SizesTile(rows, order, centralStart) && signature < |rows| && centralStart < U32_LIMIT
    ensures r.Success?
    ensures SameRows(r.value, rows)
    ensures SizesTile(r.value, order, centralStart) && ShiftsPack(r.value, order, signature)
  {
    var shifted := rows;
    var previous: int := 0;
    for p := 0 to |order|
      invariant previous == KeptBefore(rows, order, signature, p)
      invariant ShiftedUpTo(shifted, rows, order, signature, p)
    {
      if order[p] != signature {
        ShiftInRange(rows, order, centralStart, signature, p);
        var localOffset := shifted[order[p]].row.localOffset;
        var change := previous - localOffset;
        var size := shifted[order[p]].fileEntrySize;
        if !FitsI64(localOffset) || !FitsI64(size) || !FitsI64(localOffset + size) || !FitsI64(localOffset + size + change) {
          return Failure(OffsetNotZip32);
        }
        ShiftOne(shifted, rows, order, signature, p, change);
        shifted := shifted[order[p] := shifted[order[p]].(changeInOffset := change)];
        previous := localOffset + size + change;
      }
    }
    ShiftedAll(shifted, rows, order, centralStart, signature);
    return Success(shifted);
  }

  // ---------------------------------------------------------------- the whole read

  /** What the NuGet signing layout demands of the signature's central row. */
  predicate SignatureRowOk(row: CentralRow) {
    && row.flags == 0 && row.compression == 0 && row.compressedSize == row.uncompressedSize
    && row.externalAttributes == 0 && row.compressedSize <= MAX_SIGNATURE_BYTES
  }

  /** ... and of its local header. */
  predicate SignatureHeaderOk(file: seq<Byte>, row: CentralRow) {
    var o := row.localOffset;
    && o + LOCAL_FIXED + |SIGNATURE_PATH| <= |file|
    && U32At(file, o) == LOCAL_SIGNATURE && U16At(file, o + 6) == 0 && U16At(file, o + 8) == 0
    && U32At(file, o + 18) == row.compressedSize && U32At(file, o + 22) == row.uncompressedSize
    && U16At(file, o + 26) == |SIGNATURE_PATH|
    && file[o + LOCAL_FIXED..o + LOCAL_FIXED + |SIGNATURE_PATH|] == SIGNATURE_PATH
  }

  method ValidateSignatureLocalHeader(file: seq<Byte>, row: CentralRow) returns (r: Result<(), ArchiveError>)
    ensures r.Success? <==> SignatureHeaderOk(file, row)
  {
    var o := row.localOffset;
    if o + LOCAL_FIXED > |file| {
      return Failure(UnexpectedEnd);
    }
    if U32At(file, o) != LOCAL_SIGNATURE || U16At(file, o + 6) != 0 || U16At(file, o + 8) != 0
       || U32At(file, o + 18) != row.compressedSize || U32At(file, o + 22) != row.uncompressedSize
       || U16At(file, o + 26) != |SIGNATURE_PATH| {
      return Failure(LocalHeaderLayout);
    }
    if o + LOCAL_FIXED + |SIGNATURE_PATH| > |file| {
      return Failure(UnexpectedEnd);
    }
    if file[o + LOCAL_FIXED..o + LOCAL_FIXED + |SIGNATURE_PATH|] != SIGNATURE_PATH {
      return Failure(LocalHeaderLayout);
    }
    return Success(());
  }

  function Count(file: seq<Byte>, eocd: nat): nat
    requires eocd + 22 <= |file|
  {
    U16At(file, eocd + 10)
  }

  function CentralSize(file: seq<Byte>, eocd: nat): nat
    requires eocd + 22 <= |file|
  {
    U32At(file, eocd + 12)
  }

  function CentralStart(file: seq<Byte>, eocd: nat): nat
    requires eocd + 22 <= |file|
  {
    U32At(file, eocd + 16)
  }

  function Starts(file: seq<Byte>, eocd: nat): (s: seq<nat>)
    requires eocd + 22 <= |file|
    ensures |s| == Count(file, eocd) + 1
  {
    RecordStarts(file, CentralStart(file, eocd), Count(file, eocd))
  }

  /** One disk, ZIP32 counts, and room for a central directory up to the footer at `eocd`. */
  predicate FooterOk(file: seq<Byte>, eocd: nat) {
    && IsFooter(file, eocd)
    && U16At(file, eocd + 4) == 0 && U16At(file, eocd + 6) == 0
    && U16At(file, eocd + 8) == Count(file, eocd) && Count(file, eocd) != U16_LIMIT - 1
    && CentralStart(file, eocd) + CentralSize(file, eocd) == eocd
  }

  /** ... which the central records fill. */
  ghost predicate DirectoryOk(file: seq<Byte>, eocd: nat) {
    && FooterOk(file, eocd)
    && AcceptsCentral(file, CentralStart(file, eocd), Count(file, eocd), eocd)
  }

  ghost predicate IsSignatureIndex(file: seq<Byte>, eocd: nat, i: nat) {
    eocd + 22 <= |file| && OnlySignature(file, Starts(file, eocd), Count(file, eocd), Some(i))
  }

  ghost predicate LocalsBeforeCentral(file: seq<Byte>, eocd: nat)
    requires eocd + 22 <= |file|
  {
    forall i | 0 <= i < Count(file, eocd) ::
      var p := Starts(file, eocd)[i]; p + CENTRAL_FIXED <= |file| && U32At(file, p + 42) <= CentralStart(file, eocd)
  }

  /** No local record starts behind the start of the central directory, and the signature entry has the signing layout. */
  ghost predicate SignatureOk(file: seq<Byte>, eocd: nat, i: nat) {
    && DirectoryOk(file, eocd) && IsSignatureIndex(file, eocd, i)
    && LocalsBeforeCentral(file, eocd)
    && var row := RowAt(file, Starts(file, eocd)[i]);
    SignatureRowOk(row) && SignatureHeaderOk(file, row)
  }

  /** The files that `Read` reads without an error. */
  ghost predicate Accepts(file: seq<Byte>) {
    exists eocd: nat :: IsLastFooter(file, eocd) && DirectoryOk(file, eocd)
      && forall i: nat | IsSignatureIndex(file, eocd, i) :: SignatureOk(file, eocd, i)
  }

  /** What a read archive says about its file; `order` is the local order it was computed with. */
  ghost predicate Describes(a: Archive, file: seq<Byte>, order: seq<nat>) {
    && IsLastFooter(file, a.eocd) && SignatureOk(file, a.eocd, a.signatureIndex) && a.fileLen == |file|
    && |a.records| == Count(file, a.eocd)
    && (forall i | 0 <= i < |a.records| ::
         Starts(file, a.eocd)[i] + CENTRAL_FIXED <= |file| && a.records[i].row == RowAt(file, Starts(file, a.eocd)[i]))
    && SizesTile(a.records, order, CentralStart(file, a.eocd))
    && ShiftsPack(a.records, order, a.signatureIndex)
    && |order| > 0 && a.startOfLocalHeaders == a.records[order[0]].row.localOffset
  }

  /** Reads the directory in front of the footer at `eocd`. */
  method ReadDirectory(file: seq<Byte>, eocd: nat) returns (r: Result<(seq<CentralRecord>, Option<nat>), ArchiveError>)
    requires IsFooter(file, eocd)
    ensures r.Success? <==> DirectoryOk(file, eocd)
    ensures r.Success? ==> RowsOf(file, Starts(file, eocd), Count(file, eocd), r.value.0)
    ensures r.Success? ==> OnlySignature(file, Starts(file, eocd), Count(file, eocd), r.value.1)
  {
    var count := U16At(file, eocd + 10);
    var centralStart := U32At(file, eocd + 16);
    if U16At(file, eocd + 4) != 0 || U16At(file, eocd + 6) != 0 || U16At(file, eocd + 8) != count || count == U16_LIMIT - 1 {
      return Failure(NotSingleDisk);
    }
    if centralStart + U32At(file, eocd + 12) != eocd {
      return Failure(CentralBounds);
    }
    r := ReadCentralDirectory(file, centralStart, count, eocd);
  }

  lemma OffsetsWithinCentral(file: seq<Byte>, eocd: nat, rows: seq<CentralRecord>)
    requires eocd + 22 <= |file| && RowsOf(file, Starts(file, eocd), Count(file, eocd), rows)
    ensures (forall i | 0 <= i < |rows| :: rows[i].row.localOffset <= CentralStart(file, eocd)) <==>
              LocalsBeforeCentral(file, eocd)
  {
  }

  /** Sorts the rows and derives sizes and shifts. */
  method LayOut(file: seq<Byte>, eocd: nat, rows: seq<CentralRecord>, signature: nat)
    returns (r: Result<Archive, ArchiveError>, ghost order: seq<nat>)
    requires IsLastFooter(file, eocd) && DirectoryOk(file, eocd) && IsSignatureIndex(file, eocd, signature)
    requires RowsOf(file, Starts(file, eocd), Count(file, eocd), rows)
    ensures r.Success? <==> SignatureOk(file, eocd, signature)
    ensures r.Success? ==> Describes(r.value, file, order)
    ensures r.Success? ==> r.value.signatureIndex == signature && r.value.eocd == eocd
  {
    var centralStart := CentralStart(file, eocd);
    var localOrder := SortByKey(Offsets(rows), |rows|);
    order := localOrder;
    OffsetsWithinCentral(file, eocd, rows);
    var sized := AssignEntrySizes(rows, localOrder, centralStart);
    if sized.Failure? {
      return Failure(sized.error), order;
    }
    assert signature in localOrder;
    assert sized.value[signature].row == RowAt(file, Starts(file, eocd)[signature]);
    var startOfLocalHeaders := rows[localOrder[0]].row.localOffset;
    if !SignatureRowOk(sized.value[signature].row) {
      return Failure(SignatureLayout), order;
    }
    var header := ValidateSignatureLocalHeader(file, sized.value[signature].row);
    if header.Failure? {
      return Failure(header.error), order;
    }
    var shifted := AssignShifts(sized.value, localOrder, centralStart, signature);
    if shifted.Failure? {
      assert false;
    }
    return Success(Archive(shifted.value, signature, startOfLocalHeaders, eocd, |file|)), order;
  }

  method Read(file: seq<Byte>) returns (r: Result<Option<Archive>, ArchiveError>, ghost order: seq<nat>)
    requires FooterScanInBounds(file)
    ensures r.Success? <==> Accepts(file)
    ensures r.Success? && r.value.Some? ==> Describes(r.value.value, file, order)
    ensures r.Success? && r.value.None? ==>
              forall eocd: nat, i: nat | IsLastFooter(file, eocd) :: !IsSignatureIndex(file, eocd, i)
  {
    order := [];
    var footer := FindFooter(file);
    if footer.None? {
      return Failure(NoFooter), order;
    }
    var eocd := footer.value;
    LastFooterIsUnique(file, eocd);
    var directory := ReadDirectory(file, eocd);
    if directory.Failure? {
      return Failure(directory.error), order;
    }
    var (rows, signature) := directory.value;
    if signature.None? {
      assert forall i: nat :: !IsSignatureIndex(file, eocd, i);
      return Success(None), order;
    }
    SignatureIndexIsUnique(file, eocd, signature.value);
    var archive;
    archive, order := LayOut(file, eocd, rows, signature.value);
    if archive.Failure? {
      return Failure(archive.error), order;
    }
    return Success(Some(archive.value)), order;
  }

  lemma LastFooterIsUnique(file: seq<Byte>, eocd: nat)
    requires IsLastFooter(file, eocd)
    ensures forall other: nat | IsLastFooter(file, other) :: other == eocd
  {
  }

  lemma SignatureIndexIsUnique(file: seq<Byte>, eocd: nat, signature: nat)
    requires IsSignatureIndex(file, eocd, signature)
    ensures forall i: nat | IsSignatureIndex(file, eocd, i) :: i == signature
  {
    assert NamesSignature(file, Starts(file, eocd)[signature]);
  }
}
