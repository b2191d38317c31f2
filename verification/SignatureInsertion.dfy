/**
 * Removal undoes insertion: hashing a package into which a signature entry was inserted hashes the package as it was,
 * byte for byte, exactly if the footer that the reader takes is the package's own. The inserting side is not part of the
 * repository; it is written here as the inverse to remove. An archive is a value: local records, central rows that
 * point at them, and a comment.
 */
module SignatureInsertion {
  import opened Bytes
  import opened Wrappers
  import opened IndexOrder
  import opened SignedArchive
  import opened UnsignedHash
  import opened EmittedArchive

  /** A central row by its parts: the 42 bytes in front of the offset, which local record it names, and what follows. */
  datatype Row = Row(head: seq<Byte>, local: nat, tail: seq<Byte>)

  /** An archive whose local records tile its front. */
  datatype Zip = Zip(locals: seq<seq<Byte>>, rows: seq<Row>, comment: seq<Byte>)

  /** Where the local record number `i` starts. */
  function OffsetOf(locals: seq<seq<Byte>>, i: nat): nat
    requires i <= |locals|
  {
    if i == 0 then 0 else OffsetOf(locals, i - 1) + |locals[i - 1]|
  }

  predicate RowOk(row: Row) {
    && |row.head| == 42 && U32At(row.head, 0) == CENTRAL_SIGNATURE
    && |row.tail| == U16At(row.head, 28) + U16At(row.head, 30) + U16At(row.head, 32)
  }

  predicate RowNames(row: Row)
    requires RowOk(row)
  {
    U16At(row.head, 28) == |SIGNATURE_PATH| && row.tail[..|SIGNATURE_PATH|] == SIGNATURE_PATH
  }

  /** Length of the first `n` central rows. */
  function CentralLen(rows: seq<Row>, n: nat): nat
    requires n <= |rows|
  {
    if n == 0 then 0 else CentralLen(rows, n - 1) + CENTRAL_FIXED + |rows[n - 1].tail|
  }

  function Total(z: Zip): nat {
    OffsetOf(z.locals, |z.locals|)
  }

  /** Every row names its own local record. */
  ghost predicate RowsMatchLocals(z: Zip) {
    && |z.rows| == |z.locals|
    && (forall i | 0 <= i < |z.rows| :: z.rows[i].local < |z.locals|)
    && (forall i, j | 0 <= i < j < |z.rows| :: z.rows[i].local != z.rows[j].local)
    && (forall l: nat | l < |z.locals| :: HasRow(z, l))
  }

  ghost predicate HasRow(z: Zip, l: nat) {
    exists i :: 0 <= i < |z.rows| && z.rows[i].local == l
  }

  /** What makes the bytes of `z` a ZIP32 archive with at least the fixed part of every local record. */
  ghost predicate ValidZip(z: Zip) {
    && RowsMatchLocals(z)
    && (forall i | 0 <= i < |z.rows| :: RowOk(z.rows[i]))
    && (forall l | 0 <= l < |z.locals| :: |z.locals[l]| >= LOCAL_FIXED)
    && |z.rows| < U16_LIMIT - 1 && |z.comment| < U16_LIMIT
    && Total(z) + CentralLen(z.rows, |z.rows|) < U32_LIMIT
  }

  lemma {:induction false} OffsetMonotone(locals: seq<seq<Byte>>, i: nat, j: nat)
    requires i < j <= |locals|
    ensures OffsetOf(locals, i) + |locals[i]| <= OffsetOf(locals, j)
    decreases j
  {
    if i < j - 1 {
      OffsetMonotone(locals, i, j - 1);
    }
  }

  function RowBytes(z: Zip, i: nat): (s: seq<Byte>)
    requires i < |z.rows| && RowOk(z.rows[i]) && z.rows[i].local < |z.locals| && Total(z) < U32_LIMIT
    ensures |s| == CENTRAL_FIXED + |z.rows[i].tail|
  {
    OffsetMonotone(z.locals, z.rows[i].local, |z.locals|);
    z.rows[i].head + U32Le(OffsetOf(z.locals, z.rows[i].local)) + z.rows[i].tail
  }

  /** `prefix`, then the first `n` central rows. */
  ghost function AppendRows(prefix: seq<Byte>, z: Zip, n: nat): seq<Byte>
    requires ValidZip(z) && n <= |z.rows|
  {
    if n == 0 then prefix else AppendRows(prefix, z, n - 1) + RowBytes(z, n - 1)
  }

  /** `prefix`, then the end-of-central-directory record. */
  ghost function AppendFooter(prefix: seq<Byte>, z: Zip): seq<Byte>
    requires ValidZip(z)
  {
    prefix + FooterHead() + U16Le(|z.rows|) + U16Le(|z.rows|) +
    U32Le(CentralLen(z.rows, |z.rows|)) + U32Le(Total(z)) + (U16Le(|z.comment|) + z.comment)
  }

  function FooterHead(): seq<Byte> {
    FOOTER_SIGNATURE + [0, 0, 0, 0]
  }

  ghost function ZipRows(z: Zip): seq<Byte>
    requires ValidZip(z)
  {
    AppendRows(Concat(z.locals), z, |z.rows|)
  }

  ghost function ZipBytes(z: Zip): seq<Byte>
    requires ValidZip(z)
  {
    AppendFooter(ZipRows(z), z)
  }

  function ZipEocd(z: Zip): nat {
    Total(z) + CentralLen(z.rows, |z.rows|)
  }

  // ---------------------------------------------------------------- the bytes of an archive read back

  lemma {:induction false} ConcatLength(locals: seq<seq<Byte>>)
    ensures |Concat(locals)| == OffsetOf(locals, |locals|)
    decreases |locals|
  {
    if locals != [] {
      var front := locals[..|locals| - 1];
      ConcatLength(front);
      OffsetFrame(front, locals, |front|);
    }
  }

  lemma {:induction false} OffsetFrame(a: seq<seq<Byte>>, b: seq<seq<Byte>>, n: nat)
    requires n <= |a| && n <= |b| && forall i | 0 <= i < n :: a[i] == b[i]
    ensures OffsetOf(a, n) == OffsetOf(b, n)
  {
    if n > 0 {
      OffsetFrame(a, b, n - 1);
    }
  }

  lemma {:induction false} RowsAppended(prefix: seq<Byte>, z: Zip, n: nat)
    requires ValidZip(z) && n <= |z.rows|
    ensures |AppendRows(prefix, z, n)| == |prefix| + CentralLen(z.rows, n)
    ensures prefix <= AppendRows(prefix, z, n)
  {
    if n > 0 {
      RowsAppended(prefix, z, n - 1);
    }
  }

  ghost predicate PieceAt(s: seq<Byte>, at: nat, piece: seq<Byte>) {
    at + |piece| <= |s| && s[at..at + |piece|] == piece
  }

  lemma PieceOfPrefix(front: seq<Byte>, s: seq<Byte>, at: nat, piece: seq<Byte>)
    requires front <= s && PieceAt(front, at, piece)
    ensures PieceAt(s, at, piece)
  {
    assert s[..|front|] == front;
    SliceOfSlice(s, 0, |front|, at, at + |piece|);
  }

  lemma {:induction false} RowAppended(prefix: seq<Byte>, z: Zip, n: nat, i: nat)
    requires ValidZip(z) && i < n <= |z.rows|
    ensures PieceAt(AppendRows(prefix, z, n), |prefix| + CentralLen(z.rows, i), RowBytes(z, i))
  {
    hide RowBytes, CentralLen;
    if i == n - 1 {
      RowsAppended(prefix, z, i);
      LastPiece(AppendRows(prefix, z, i), RowBytes(z, i));
    } else {
      RowAppended(prefix, z, n - 1, i);
      PieceOfPrefix(AppendRows(prefix, z, n - 1), AppendRows(prefix, z, n), |prefix| + CentralLen(z.rows, i), RowBytes(z, i));
    }
  }

  /** The record's fields stand where APPNOTE 4.3.16 puts them. */
  lemma FooterFieldsAppended(prefix: seq<Byte>, z: Zip)
    requires ValidZip(z)
    ensures var s, e := AppendFooter(prefix, z), |prefix|;
            && |s| == e + 22 + |z.comment|
            && U16At(s, e + 8) == Count(s, e) == |z.rows|
            && CentralSize(s, e) == CentralLen(z.rows, |z.rows|) && CentralStart(s, e) == Total(z)
  {
    var s, e := AppendFooter(prefix, z), |prefix|;
    var count, size, start := U16Le(|z.rows|), U32Le(CentralLen(z.rows, |z.rows|)), U32Le(Total(z));
    assert s == prefix + FooterHead() + count + count + size + start + (U16Le(|z.comment|) + z.comment);
    assert s[e + 8] == count[0] && s[e + 9] == count[1] && s[e + 10] == count[0] && s[e + 11] == count[1];
    assert s[e + 12] == size[0] && s[e + 13] == size[1] && s[e + 14] == size[2] && s[e + 15] == size[3];
    assert s[e + 16] == start[0] && s[e + 17] == start[1] && s[e + 18] == start[2] && s[e + 19] == start[3];
  }

  lemma FooterEndsAppended(prefix: seq<Byte>, z: Zip)
    requires ValidZip(z)
    ensures var s, e := AppendFooter(prefix, z), |prefix|;
            && prefix <= s && |s| == e + 22 + |z.comment|
            && s[e..e + 8] == FooterHead() && s[e + 20..] == U16Le(|z.comment|) + z.comment
  {
  }

  lemma FooterAppended(prefix: seq<Byte>, z: Zip)
    requires ValidZip(z) && |prefix| == ZipEocd(z)
    ensures var s, e := AppendFooter(prefix, z), |prefix|;
            && prefix <= s && FooterOk(s, e) && |s| == e + 22 + |z.comment|
            && Count(s, e) == |z.rows| && CentralStart(s, e) == Total(z)
            && s[e..e + 8] == FooterHead() && s[e + 20..] == U16Le(|z.comment|) + z.comment
  {
    FooterFieldsAppended(prefix, z);
    FooterEndsAppended(prefix, z);
    EndsReadAsFooter(AppendFooter(prefix, z), |prefix|, |z.comment|, z.comment);
  }

  lemma EndsReadAsFooter(s: seq<Byte>, e: nat, n: nat, comment: seq<Byte>)
    requires n == |comment| < U16_LIMIT && |s| == e + 22 + n
    requires s[e..e + 8] == FooterHead() && s[e + 20..] == U16Le(n) + comment
    ensures IsFooter(s, e) && U16At(s, e + 4) == 0 && U16At(s, e + 6) == 0
  {
    var head, tail := s[e..e + 8], s[e + 20..];
    assert s[e..e + 4] == head[..4] == FOOTER_SIGNATURE;
    assert s[e + 4] == head[4] && s[e + 5] == head[5] && s[e + 6] == head[6] && s[e + 7] == head[7];
    assert s[e + 20] == tail[0] && s[e + 21] == tail[1];
  }

  /** A row's fields, read from its parts, as they stand in the archive's bytes. */
  predicate RowReadsAs(s: seq<Byte>, at: nat, row: Row, offset: nat)
    requires RowOk(row)
  {
    && IsCentralRecord(s, at) && HeaderSize(s, at) == CENTRAL_FIXED + |row.tail| && at + HeaderSize(s, at) <= |s|
    && (NamesSignature(s, at) <==> RowNames(row))
    && s[at..at + 42] == row.head && U32At(s, at + 42) == offset && s[at + 46..at + HeaderSize(s, at)] == row.tail
  }

  lemma BytesReadAs(s: seq<Byte>, at: nat, row: Row, offset: nat)
    requires RowOk(row) && offset < U32_LIMIT && at + CENTRAL_FIXED + |row.tail| <= |s|
    requires s[at..at + CENTRAL_FIXED + |row.tail|] == row.head + U32Le(offset) + row.tail
    ensures RowReadsAs(s, at, row, offset)
  {
    var size := CENTRAL_FIXED + |row.tail|;
    var le := U32Le(offset);
    var bytes := row.head + le + row.tail;
    SliceOfSlice(s, at, at + size, 0, 42);
    SliceOfSlice(s, at, at + size, 46, size);
    assert bytes[0..42] == row.head && bytes[46..size] == row.tail;
    assert forall k | 0 <= k < size :: s[at + k] == bytes[k];
    assert bytes[42] == le[0] && bytes[43] == le[1] && bytes[44] == le[2] && bytes[45] == le[3];
    NameReadsAs(s, at, row);
  }

  lemma NameReadsAs(s: seq<Byte>, at: nat, row: Row)
    requires RowOk(row) && at + CENTRAL_FIXED + |row.tail| <= |s| && U16At(s, at + 28) == U16At(row.head, 28)
    requires s[at + 46..at + CENTRAL_FIXED + |row.tail|] == row.tail
    ensures NamesSignature(s, at) <==> RowNames(row)
  {
    if U16At(row.head, 28) == |SIGNATURE_PATH| {
      SliceOfSlice(s, at + 46, at + CENTRAL_FIXED + |row.tail|, 0, |SIGNATURE_PATH|);
    }
  }

  /** Where the central row number `i` stands in the bytes of `z`. */
  function RowPlace(z: Zip, i: nat): nat
    requires i <= |z.rows|
  {
    Total(z) + CentralLen(z.rows, i)
  }

  lemma ZipShape(z: Zip)
    requires ValidZip(z)
    ensures var s, e := ZipBytes(z), ZipEocd(z);
            && |Concat(z.locals)| == Total(z) && |ZipRows(z)| == e && Concat(z.locals) <= ZipRows(z) <= s
            && FooterOk(s, e) && |s| == e + 22 + |z.comment|
            && Count(s, e) == |z.rows| && CentralStart(s, e) == Total(z)
            && s[e..e + 8] == FooterHead() && s[e + 20..] == U16Le(|z.comment|) + z.comment
  {
    ConcatLength(z.locals);
    RowsAppended(Concat(z.locals), z, |z.rows|);
    FooterAppended(ZipRows(z), z);
  }

  lemma RowStands(z: Zip, i: nat)
    requires ValidZip(z) && i < |z.rows|
    ensures PieceAt(ZipBytes(z), RowPlace(z, i), RowBytes(z, i))
  {
    hide RowBytes, ZipBytes, CentralLen, PieceAt;
    ZipShape(z);
    RowAppended(Concat(z.locals), z, |z.rows|, i);
    PieceOfPrefix(ZipRows(z), ZipBytes(z), RowPlace(z, i), RowBytes(z, i));
  }

  lemma ZipRowAt(z: Zip, i: nat)
    requires ValidZip(z) && i < |z.rows|
    ensures OffsetOf(z.locals, z.rows[i].local) < U32_LIMIT
    ensures RowReadsAs(ZipBytes(z), RowPlace(z, i), z.rows[i], OffsetOf(z.locals, z.rows[i].local))
  {
    RowStands(z, i);
    hide RowReadsAs, ZipBytes;
    OffsetMonotone(z.locals, z.rows[i].local, |z.locals|);
    BytesReadAs(ZipBytes(z), RowPlace(z, i), z.rows[i], OffsetOf(z.locals, z.rows[i].local));
  }

  /** Where every part of `z` stands in `s`. */
  ghost predicate Written(s: seq<Byte>, z: Zip) {
    && ValidZip(z) && |Concat(z.locals)| == Total(z) && Concat(z.locals) <= s && FooterWritten(s, z)
    && forall i: nat | i < |z.rows| :: RowWritten(s, z, i)
  }

  ghost predicate FooterWritten(s: seq<Byte>, z: Zip) {
    var e := ZipEocd(z);
    && FooterOk(s, e) && |s| == e + 22 + |z.comment| && |z.comment| < U16_LIMIT
    && Count(s, e) == |z.rows| && CentralStart(s, e) == Total(z)
    && s[e..e + 8] == FooterHead() && s[e + 20..] == U16Le(|z.comment|) + z.comment
  }

  ghost predicate RowWritten(s: seq<Byte>, z: Zip, i: nat)
    requires i < |z.rows|
  {
    && RowOk(z.rows[i]) && z.rows[i].local < |z.locals|
    && RowReadsAs(s, RowPlace(z, i), z.rows[i], OffsetOf(z.locals, z.rows[i].local))
  }

  lemma ZipIsWritten(z: Zip)
    requires ValidZip(z)
    ensures Written(ZipBytes(z), z)
  {
    ZipShape(z);
    forall i: nat | i < |z.rows| ensures RowWritten(ZipBytes(z), z, i) {
      ZipRowAt(z, i);
    }
  }

  lemma {:induction false} WrittenStarts(s: seq<Byte>, z: Zip, i: nat)
    requires Written(s, z) && i <= |z.rows|
    ensures RecordStarts(s, Total(z), |z.rows|)[i] == RowPlace(z, i)
  {
    if i > 0 {
      WrittenStarts(s, z, i - 1);
      assert RowWritten(s, z, i - 1);
    }
  }

  ghost predicate OnlyRowNames(z: Zip, signature: Option<nat>) {
    && (signature.Some? ==> signature.value < |z.rows|)
    && forall i: nat | i < |z.rows| :: RowOk(z.rows[i]) && (RowNames(z.rows[i]) <==> signature == Some(i))
  }

  /** The bytes of a valid archive have its central directory in front of the footer. */
  lemma WrittenDirectory(s: seq<Byte>, z: Zip, signature: Option<nat>)
    requires Written(s, z) && OnlyRowNames(z, signature)
    ensures DirectoryOk(s, ZipEocd(z))
    ensures OnlySignature(s, Starts(s, ZipEocd(z)), Count(s, ZipEocd(z)), signature)
  {
    var n := |z.rows|;
    var starts := RecordStarts(s, Total(z), n);
    WrittenStarts(s, z, n);
    forall i: nat | i < n
      ensures IsCentralRecord(s, starts[i]) && (NamesSignature(s, starts[i]) <==> signature == Some(i))
    {
      WrittenStarts(s, z, i);
      assert RowWritten(s, z, i);
    }
    assert OnlySignature(s, starts, n, signature);
  }

  // ---------------------------------------------------------------- what `Read` makes of such an archive

  /** The record number `i` as read: place, offset and size come out as written. */
  predicate RecordIs(a: Archive, z: Zip, i: nat)
    requires i < |a.records| && i < |z.rows| && z.rows[i].local < |z.locals|
  {
    && a.records[i].row.position == RowPlace(z, i)
    && a.records[i].row.localOffset == OffsetOf(z.locals, z.rows[i].local)
    && a.records[i].row.headerSize == CENTRAL_FIXED + |z.rows[i].tail|
  }

  lemma RecordWasWritten(s: seq<Byte>, z: Zip, a: Archive, order: seq<nat>, i: nat)
    requires Written(s, z) && Describes(a, s, order) && a.eocd == ZipEocd(z) && i < |z.rows|
    ensures |a.records| == |z.rows| && RecordIs(a, z, i)
  {
    RowInDirectory(s, a, order, i);
    WrittenStarts(s, z, i);
    assert RowWritten(s, z, i);
  }

  /** The row of the local record number `l`. */
  ghost function RowOf(z: Zip, l: nat): (i: nat)
    requires RowsMatchLocals(z) && l < |z.locals|
    ensures i < |z.rows| && z.rows[i].local == l
  {
    assert HasRow(z, l);
    var i: nat :| i < |z.rows| && z.rows[i].local == l;
    i
  }

  /** The rows in the order of their local records. */
  ghost function ByLocal(z: Zip): (s: seq<nat>)
    requires RowsMatchLocals(z)
    ensures |s| == |z.locals|
    ensures forall l: nat | l < |s| :: s[l] < |z.rows| && z.rows[s[l]].local == l
  {
    seq(|z.locals|, l requires 0 <= l < |z.locals| => RowOf(z, l))
  }

  lemma EveryRowByLocal(z: Zip, i: nat)
    requires RowsMatchLocals(z) && i < |z.rows|
    ensures i in ByLocal(z)
  {
    var l := z.rows[i].local;
    assert ByLocal(z)[l] == i;
  }

  /** Sorting rows by offset puts them in the order of their local records. */
  lemma OrderIsByLocal(z: Zip, records: seq<CentralRecord>, order: seq<nat>)
    requires ValidZip(z) && |records| == |z.rows| && InLocalOrder(records, order, |records|)
    requires forall i | 0 <= i < |records| :: records[i].row.localOffset == OffsetOf(z.locals, z.rows[i].local)
    ensures order == ByLocal(z)
  {
    var keys, inverse := Offsets(records), ByLocal(z);
    forall l, m | 0 <= l < m < |inverse| ensures keys[inverse[l]] < keys[inverse[m]] {
      OffsetMonotone(z.locals, l, m);
    }
    forall p, q | 0 <= p < q < |order| ensures keys[order[p]] < keys[order[q]] {
      OffsetsDiffer(z, order[p], order[q]);
      assert keys[order[p]] <= keys[order[q]];
    }
    forall i: nat ensures i in order <==> i in inverse {
      if i < |records| {
        EveryRowByLocal(z, i);
      }
    }
    StrictOrderIsUnique(keys, order, inverse);
  }

  lemma OffsetsDiffer(z: Zip, i: nat, j: nat)
    requires ValidZip(z) && i < |z.rows| && j < |z.rows| && i != j
    ensures OffsetOf(z.locals, z.rows[i].local) != OffsetOf(z.locals, z.rows[j].local)
  {
    if z.rows[i].local < z.rows[j].local {
      OffsetMonotone(z.locals, z.rows[i].local, z.rows[j].local);
    } else {
      OffsetMonotone(z.locals, z.rows[j].local, z.rows[i].local);
    }
  }

  /** Every record's size is the length of its local record, and the first one starts the file. */
  lemma SizesWereWritten(s: seq<Byte>, z: Zip, a: Archive, order: seq<nat>)
    requires Written(s, z) && Describes(a, s, order) && a.eocd == ZipEocd(z) && |a.records| == |z.rows|
    requires forall i: nat | i < |z.rows| :: RecordIs(a, z, i)
    ensures forall i | 0 <= i < |z.rows| :: a.records[i].fileEntrySize == |z.locals[z.rows[i].local]|
    ensures a.startOfLocalHeaders == 0
  {
    assert |order| > 0 && a.startOfLocalHeaders == a.records[order[0]].row.localOffset;
    SizesOfRecords(z, a, a.records, order);
  }

  lemma SizesOfRecords(z: Zip, a: Archive, records: seq<CentralRecord>, order: seq<nat>)
    requires ValidZip(z) && records == a.records && |records| == |z.rows| && SizesTile(records, order, Total(z))
    requires forall i: nat | i < |z.rows| :: RecordIs(a, z, i)
    ensures forall i | 0 <= i < |z.rows| :: records[i].fileEntrySize == |z.locals[z.rows[i].local]|
    ensures |order| > 0 ==> records[order[0]].row.localOffset == 0
  {
    forall i | 0 <= i < |z.rows| ensures records[i].row.localOffset == OffsetOf(z.locals, z.rows[i].local) {
      assert RecordIs(a, z, i);
    }
    OrderIsByLocal(z, records, order);
    SizesFollow(z, records, Total(z));
  }

  lemma SizesFollow(z: Zip, records: seq<CentralRecord>, centralStart: nat)
    requires ValidZip(z) && |records| == |z.rows| && SizesTile(records, ByLocal(z), centralStart) && centralStart == Total(z)
    requires forall i | 0 <= i < |records| :: records[i].row.localOffset == OffsetOf(z.locals, z.rows[i].local)
    ensures forall i | 0 <= i < |z.rows| :: records[i].fileEntrySize == |z.locals[z.rows[i].local]|
    ensures |records| > 0 ==> records[ByLocal(z)[0]].row.localOffset == 0
  {
    forall i | 0 <= i < |z.rows| ensures records[i].fileEntrySize == |z.locals[z.rows[i].local]| {
      var l := z.rows[i].local;
      assert ByLocal(z)[l] == i;
      assert EndsAtSuccessor(records, ByLocal(z), centralStart, l);
    }
  }

  /** What `Read` found in the bytes of `z`, whose signature entry is the row number `j`. */
  ghost predicate ReadBack(z: Zip, j: nat, a: Archive) {
    && ValidZip(z) && a.eocd == ZipEocd(z) && |a.records| == |z.rows| && a.signatureIndex == j < |z.rows|
        && a.startOfLocalHeaders == 0
    && (forall i: nat | i < |z.rows| :: RecordIs(a, z, i))
    && (forall i | 0 <= i < |z.rows| :: a.records[i].fileEntrySize == |z.locals[z.rows[i].local]|)
  }

  lemma WrittenIsReadBack(s: seq<Byte>, z: Zip, j: nat, a: Archive, order: seq<nat>)
    requires Written(s, z) && OnlyRowNames(z, Some(j)) && IsLastFooter(s, ZipEocd(z)) && Describes(a, s, order)
    ensures ReadBack(z, j, a)
  {
    LastFooterIsUnique(s, ZipEocd(z));
    forall i: nat | i < |z.rows| ensures |a.records| == |z.rows| && RecordIs(a, z, i) {
      RecordWasWritten(s, z, a, order, i);
    }
    SizesWereWritten(s, z, a, order);
    SignatureWasWritten(s, z, a, order, j);
  }

  lemma SignatureWasWritten(s: seq<Byte>, z: Zip, a: Archive, order: seq<nat>, j: nat)
    requires Written(s, z) && OnlyRowNames(z, Some(j)) && Describes(a, s, order) && a.eocd == ZipEocd(z)
    ensures a.signatureIndex == j
  {
    WrittenDirectory(s, z, Some(j));
    SignatureIndexIsUnique(s, a.eocd, j);
  }

  // ---------------------------------------------------------------- inserting an entry

  /** The row after a local record has been inserted at place `k`. */
  function Shift(row: Row, k: nat): Row {
    row.(local := KeptRow(row.local, k))
  }

  /** The entry to insert: its local record goes to place `k` of the local records, its central row to place `j`. */
  datatype Entry = Entry(local: seq<Byte>, k: nat, row: Row, j: nat)

  predicate Placed(z: Zip, entry: Entry) {
    entry.k <= |z.locals| && entry.j <= |z.rows|
  }

  function Insert(z: Zip, entry: Entry): Zip
    requires Placed(z, entry)
  {
    Zip(z.locals[..entry.k] + [entry.local] + z.locals[entry.k..],
        seq(|z.rows| + 1, i requires 0 <= i <= |z.rows| =>
          if i < entry.j then Shift(z.rows[i], entry.k)
          else if i == entry.j then entry.row.(local := entry.k)
          else Shift(z.rows[i - 1], entry.k)),
        z.comment)
  }

  /** `w` is `z` with `entry` inserted, part by part. */
  ghost predicate Inserted(w: Zip, z: Zip, entry: Entry) {
    && Placed(z, entry) && |w.rows| == |z.rows| + 1 && |w.locals| == |z.locals| + 1 && w.comment == z.comment
    && w.locals[entry.k] == entry.local && w.rows[entry.j] == entry.row.(local := entry.k)
    && (forall i: nat | i < |z.rows| :: RowKept(w, z, entry, i))
    && (forall l: nat | l < |z.locals| :: LocalKept(w, z, entry, l))
  }

  predicate RowKept(w: Zip, z: Zip, entry: Entry, i: nat)
    requires i < |z.rows| && |w.rows| == |z.rows| + 1
  {
    w.rows[KeptRow(i, entry.j)] == Shift(z.rows[i], entry.k)
  }

  predicate LocalKept(w: Zip, z: Zip, entry: Entry, l: nat)
    requires l < |z.locals| && |w.locals| == |z.locals| + 1
  {
    w.locals[KeptRow(l, entry.k)] == z.locals[l]
  }

  lemma InsertInserts(z: Zip, entry: Entry)
    requires Placed(z, entry)
    ensures Inserted(Insert(z, entry), z, entry)
  {
  }

  /** The entry names the signature, and the archive with it still fits ZIP32. */
  ghost predicate Insertable(z: Zip, entry: Entry) {
    && ValidZip(z) && OnlyRowNames(z, None) && Placed(z, entry)
    && RowOk(entry.row) && RowNames(entry.row) && |entry.local| >= LOCAL_FIXED
    && |z.rows| + 1 < U16_LIMIT - 1
    && Total(z) + |entry.local| + CentralLen(z.rows, |z.rows|) + CENTRAL_FIXED + |entry.row.tail| < U32_LIMIT
  }

  lemma {:induction false} OffsetAfterInsert(w: Zip, z: Zip, entry: Entry, l: nat)
    requires Inserted(w, z, entry) && l <= |z.locals|
    ensures OffsetOf(w.locals, KeptRow(l, entry.k)) == OffsetOf(z.locals, l) + if l < entry.k then 0 else |entry.local|
    ensures l <= entry.k ==> OffsetOf(w.locals, l) == OffsetOf(z.locals, l)
  {
    if l > 0 {
      OffsetAfterInsert(w, z, entry, l - 1);
      assert LocalKept(w, z, entry, l - 1);
    }
  }

  lemma {:induction false} CentralLenAfterInsert(w: Zip, z: Zip, entry: Entry, i: nat)
    requires Inserted(w, z, entry) && i <= |z.rows|
    ensures CentralLen(w.rows, KeptRow(i, entry.j)) ==
            CentralLen(z.rows, i) + if i < entry.j then 0 else CENTRAL_FIXED + |entry.row.tail|
    ensures i <= entry.j ==> CentralLen(w.rows, i) == CentralLen(z.rows, i)
  {
    if i > 0 {
      CentralLenAfterInsert(w, z, entry, i - 1);
      assert RowKept(w, z, entry, i - 1);
    }
  }

  lemma InsertedSizes(w: Zip, z: Zip, entry: Entry)
    requires Inserted(w, z, entry)
    ensures Total(w) == Total(z) + |entry.local|
    ensures CentralLen(w.rows, |w.rows|) == CentralLen(z.rows, |z.rows|) + CENTRAL_FIXED + |entry.row.tail|
  {
    OffsetAfterInsert(w, z, entry, |z.locals|);
    CentralLenAfterInsert(w, z, entry, |z.rows|);
  }

  /** The number before the insertion of what has number `i` after it. */
  function Unshift(i: nat, j: nat): (r: nat)
    requires i != j
    ensures KeptRow(r, j) == i
  {
    if i < j then i else i - 1
  }

  lemma InsertedRowsMatch(w: Zip, z: Zip, entry: Entry)
    requires RowsMatchLocals(z) && Inserted(w, z, entry)
    ensures RowsMatchLocals(w)
  {
    forall i: nat | i < |w.rows| ensures w.rows[i].local < |w.locals| {
      InsertedRowHasLocal(w, z, entry, i);
    }
    forall i: nat, m: nat | i < m < |w.rows| ensures w.rows[i].local != w.rows[m].local {
      InsertedRowsDiffer(w, z, entry, i, m);
    }
    forall l: nat | l < |w.locals| ensures HasRow(w, l) {
      InsertedLocalHasRow(w, z, entry, l);
    }
  }

  lemma InsertedRowHasLocal(w: Zip, z: Zip, entry: Entry, i: nat)
    requires RowsMatchLocals(z) && Inserted(w, z, entry) && i < |w.rows|
    ensures w.rows[i].local < |w.locals| && (w.rows[i].local == entry.k <==> i == entry.j)
  {
    if i != entry.j {
      assert RowKept(w, z, entry, Unshift(i, entry.j));
    }
  }

  lemma InsertedRowsDiffer(w: Zip, z: Zip, entry: Entry, i: nat, m: nat)
    requires RowsMatchLocals(z) && Inserted(w, z, entry) && i < m < |w.rows|
    ensures w.rows[i].local != w.rows[m].local
  {
    InsertedRowHasLocal(w, z, entry, i);
    InsertedRowHasLocal(w, z, entry, m);
    if i != entry.j && m != entry.j {
      var a, b := Unshift(i, entry.j), Unshift(m, entry.j);
      assert RowKept(w, z, entry, a) && RowKept(w, z, entry, b);
      assert z.rows[a].local != z.rows[b].local;
    }
  }

  lemma InsertedLocalHasRow(w: Zip, z: Zip, entry: Entry, l: nat)
    requires RowsMatchLocals(z) && Inserted(w, z, entry) && l < |w.locals|
    ensures HasRow(w, l)
  {
    if l == entry.k {
      assert w.rows[entry.j].local == l;
    } else {
      var i := RowOf(z, Unshift(l, entry.k));
      assert RowKept(w, z, entry, i);
      assert w.rows[KeptRow(i, entry.j)].local == l;
    }
  }

  lemma InsertedPartsOk(w: Zip, z: Zip, entry: Entry)
    requires Insertable(z, entry) && Inserted(w, z, entry)
    ensures OnlyRowNames(w, Some(entry.j))
    ensures forall l: nat | l < |w.locals| :: |w.locals[l]| >= LOCAL_FIXED
  {
    forall i: nat | i < |w.rows| ensures RowOk(w.rows[i]) && (RowNames(w.rows[i]) <==> i == entry.j) {
      if i != entry.j {
        var m := Unshift(i, entry.j);
        assert RowKept(w, z, entry, m) && RowOk(z.rows[m]) && !RowNames(z.rows[m]);
      }
    }
    forall l: nat | l < |w.locals| ensures |w.locals[l]| >= LOCAL_FIXED {
      if l != entry.k {
        assert LocalKept(w, z, entry, Unshift(l, entry.k));
      }
    }
  }

  lemma InsertedIsValid(w: Zip, z: Zip, entry: Entry)
    requires Insertable(z, entry) && Inserted(w, z, entry)
    ensures ValidZip(w) && OnlyRowNames(w, Some(entry.j))
  {
    InsertedRowsMatch(w, z, entry);
    InsertedPartsOk(w, z, entry);
    InsertedSizes(w, z, entry);
  }

  // ---------------------------------------------------------------- removing it again

  lemma ConcatAround(front: seq<seq<Byte>>, local: seq<Byte>, back: seq<seq<Byte>>)
    ensures Concat(front + [local] + back) == Concat(front) + local + Concat(back)
    ensures Concat(front + back) == Concat(front) + Concat(back)
  {
    ConcatAppend(front, back);
    ConcatAppend(front + [local], back);
    ConcatAppend(front, [local]);
    assert Concat([local]) == local by {
      assert [local][..0] == [];
    }
  }

  lemma CutMiddle(a: seq<Byte>, b: seq<Byte>, c: seq<Byte>)
    ensures (a + b + c)[..|a|] + (a + b + c)[|a| + |b|..] == a + c
    ensures (a + b + c)[|a|..|a| + |b|] == b
  {
  }

  /** The local records without the inserted one are the original ones. */
  ghost predicate LocalsAround(all: seq<Byte>, z: Zip, entry: Entry)
    requires Placed(z, entry)
  {
    var lo := OffsetOf(z.locals, entry.k);
    var hi := lo + |entry.local|;
    hi <= |all| && all[..lo] + all[hi..] == Concat(z.locals) && all[lo..hi] == entry.local
  }

  lemma LocalsWithoutInserted(w: Zip, z: Zip, entry: Entry)
    requires Inserted(w, z, entry)
    ensures LocalsAround(Concat(w.locals), z, entry)
  {
    var front, back := z.locals[..entry.k], z.locals[entry.k..];
    assert z.locals == front + back;
    InsertedLocals(w, z, entry);
    ConcatAround(front, entry.local, back);
    ConcatLength(front);
    OffsetFrame(front, z.locals, entry.k);
    CutMiddle(Concat(front), entry.local, Concat(back));
  }

  lemma InsertedLocals(w: Zip, z: Zip, entry: Entry)
    requires Inserted(w, z, entry)
    ensures w.locals == z.locals[..entry.k] + [entry.local] + z.locals[entry.k..]
  {
    forall l: nat | l < |w.locals| && l != entry.k ensures w.locals[l] == z.locals[Unshift(l, entry.k)] {
      assert LocalKept(w, z, entry, Unshift(l, entry.k));
    }
  }

  lemma OffsetsAround(z: Zip, k: nat, l: nat)
    requires l < |z.locals| && k <= |z.locals|
    ensures l < k ==> OffsetOf(z.locals, l) + |z.locals[l]| <= OffsetOf(z.locals, k)
    ensures l >= k ==> OffsetOf(z.locals, k) <= OffsetOf(z.locals, l)
  {
    if l < k {
      OffsetMonotone(z.locals, l, k);
    } else if k < l {
      OffsetMonotone(z.locals, k, l);
    }
  }

  lemma KeptRecordIs(w: Zip, z: Zip, entry: Entry, a: Archive, i: nat)
    requires Inserted(w, z, entry) && RowsMatchLocals(z) && ReadBack(w, entry.j, a) && i < |z.rows|
    ensures var m, l := KeptRow(i, entry.j), z.rows[i].local;
            && a.records[m].row.localOffset == OffsetOf(w.locals, KeptRow(l, entry.k))
                && a.records[m].fileEntrySize == |z.locals[l]|
            && a.records[entry.j].row.localOffset == OffsetOf(w.locals, entry.k)
                && a.records[entry.j].fileEntrySize == |entry.local|
  {
    assert RecordIs(a, w, KeptRow(i, entry.j)) && RecordIs(a, w, entry.j);
    assert RowKept(w, z, entry, i) && LocalKept(w, z, entry, z.rows[i].local);
  }

  /** The offset patched into a kept row is the offset its local record had before the insertion. */
  lemma PatchedIsOriginal(w: Zip, z: Zip, entry: Entry, a: Archive, i: nat)
    requires Inserted(w, z, entry) && ValidZip(z) && ReadBack(w, entry.j, a) && i < |z.rows|
    requires ShiftFollowsSignature(a.records, 0, entry.j, KeptRow(i, entry.j))
    ensures a.records[KeptRow(i, entry.j)].row.localOffset + a.records[KeptRow(i, entry.j)].changeInOffset ==
            OffsetOf(z.locals, z.rows[i].local)
  {
    KeptRecordIs(w, z, entry, a, i);
    OffsetAfterInsert(w, z, entry, z.rows[i].local);
    OffsetAfterInsert(w, z, entry, entry.k);
    OffsetsAround(z, entry.k, z.rows[i].local);
    assert |z.locals[z.rows[i].local]| >= LOCAL_FIXED;
  }

  lemma PatchedByParts(s: seq<Byte>, record: CentralRecord, row: Row, offset: nat)
    requires RowOk(row) && RowFits(s, record) && RowReadsAs(s, record.row.position, row, offset)
    requires record.row.headerSize == CENTRAL_FIXED + |row.tail|
    ensures PatchedRow(s, record) == row.head + U32Le(record.row.localOffset + record.changeInOffset) + row.tail
  {
  }

  /** Patching the kept row at place `i` gives the row number `i` of `z`. */
  ghost predicate RowIsOriginal(s: seq<Byte>, records: seq<CentralRecord>, j: nat, z: Zip, i: nat)
    requires ValidZip(z) && i < |z.rows| && |records| == |z.rows| + 1
  {
    RowFits(s, records[KeptRow(i, j)]) && PatchedRow(s, records[KeptRow(i, j)]) == RowBytes(z, i)
  }

  ghost predicate AllShiftsFollow(a: Archive) {
    && a.signatureIndex < |a.records|
    && forall m: nat | m < |a.records| && m != a.signatureIndex ::
        ShiftFollowsSignature(a.records, a.startOfLocalHeaders, a.signatureIndex, m)
  }

  lemma ShiftsWereAssigned(s: seq<Byte>, a: Archive, order: seq<nat>)
    requires Describes(a, s, order)
    ensures AllShiftsFollow(a)
  {
    forall m: nat | m < |a.records| && m != a.signatureIndex
      ensures ShiftFollowsSignature(a.records, a.startOfLocalHeaders, a.signatureIndex, m)
    {
      ShiftOfKept(a.records, order, CentralStart(s, a.eocd), a.signatureIndex, m);
    }
  }

  lemma WrittenRowPatched(s: seq<Byte>, w: Zip, a: Archive, m: nat)
    requires m < |w.rows| == |a.records| && RowWritten(s, w, m) && RecordIs(a, w, m) && RowFits(s, a.records[m])
    ensures PatchedRow(s, a.records[m]) ==
            w.rows[m].head + U32Le(a.records[m].row.localOffset + a.records[m].changeInOffset) + w.rows[m].tail
  {
    PatchedByParts(s, a.records[m], w.rows[m], OffsetOf(w.locals, w.rows[m].local));
  }

  lemma KeptRowIsOriginal(s: seq<Byte>, w: Zip, z: Zip, entry: Entry, a: Archive, i: nat)
    requires Inserted(w, z, entry) && ValidZip(z) && ReadBack(w, entry.j, a) && i < |z.rows| && AllShiftsFollow(a)
    requires RowWritten(s, w, KeptRow(i, entry.j)) && RowFits(s, a.records[KeptRow(i, entry.j)])
    ensures RowIsOriginal(s, a.records, entry.j, z, i)
  {
    var m := KeptRow(i, entry.j);
    assert RecordIs(a, w, m) && RowKept(w, z, entry, i);
    assert ShiftFollowsSignature(a.records, 0, entry.j, m);
    PatchedIsOriginal(w, z, entry, a, i);
    WrittenRowPatched(s, w, a, m);
  }

  lemma RowsAreOriginal(s: seq<Byte>, w: Zip, z: Zip, entry: Entry, a: Archive)
    requires Written(s, w) && Inserted(w, z, entry) && ValidZip(z) && ReadBack(w, entry.j, a) && AllShiftsFollow(a)
    requires RowsFit(s, a.records, entry.j)
    ensures forall i: nat | i < |z.rows| :: RowIsOriginal(s, a.records, entry.j, z, i)
  {
    forall i: nat | i < |z.rows| ensures RowIsOriginal(s, a.records, entry.j, z, i) {
      assert RowFits(s, a.records[KeptRow(i, entry.j)]) && RowWritten(s, w, KeptRow(i, entry.j));
      KeptRowIsOriginal(s, w, z, entry, a, i);
    }
  }

  /** All kept rows, patched, are the original central directory. */
  lemma {:induction false} PatchedRowsAreOriginal(prefix: seq<Byte>, s: seq<Byte>, records: seq<CentralRecord>, j: nat,
      z: Zip, n: nat)
    requires ValidZip(z) && n <= |z.rows| && |records| == |z.rows| + 1 && j < |records| && RowsFit(s, records, j)
    requires forall i: nat | i < |z.rows| :: RowIsOriginal(s, records, j, z, i)
    ensures PatchedRows(prefix, s, records, j, KeptRow(n, j)) == AppendRows(prefix, z, n)
  {
    hide PatchedRows, AppendRows, RowIsOriginal;
    if n == 0 {
      NoRowsAreOriginal(prefix, s, records, j, z);
    } else {
      PatchedRowsAreOriginal(prefix, s, records, j, z, n - 1);
      OneMoreRow(prefix, s, records, j, z, n - 1);
    }
  }

  lemma NoRowsAreOriginal(prefix: seq<Byte>, s: seq<Byte>, records: seq<CentralRecord>, j: nat, z: Zip)
    requires ValidZip(z) && |records| == |z.rows| + 1 && j < |records| && RowsFit(s, records, j)
    ensures PatchedRows(prefix, s, records, j, KeptRow(0, j)) == AppendRows(prefix, z, 0)
  {
  }

  lemma OneMoreRow(prefix: seq<Byte>, s: seq<Byte>, records: seq<CentralRecord>, j: nat, z: Zip, n: nat)
    requires ValidZip(z) && n < |z.rows| && |records| == |z.rows| + 1 && j < |records| && RowsFit(s, records, j)
    requires RowIsOriginal(s, records, j, z, n)
    requires PatchedRows(prefix, s, records, j, KeptRow(n, j)) == AppendRows(prefix, z, n)
    ensures PatchedRows(prefix, s, records, j, KeptRow(n + 1, j)) == AppendRows(prefix, z, n + 1)
  {
    NextKeptRow(prefix, s, records, j, n);
  }

  /** The patched footer is the original one. */
  lemma PatchedFooterIsOriginal(prefix: seq<Byte>, s: seq<Byte>, e: nat, z: Zip, headerSize: nat, entrySize: nat)
    requires ValidZip(z) && e + 22 <= |s|
    requires s[e..e + 8] == FooterHead() && s[e + 20..] == U16Le(|z.comment|) + z.comment
    requires Count(s, e) == |z.rows| + 1 && U16At(s, e + 8) == Count(s, e)
    requires CentralSize(s, e) == CentralLen(z.rows, |z.rows|) + headerSize && CentralStart(s, e) == Total(z) + entrySize
    ensures PatchedFooter(prefix, s, e, headerSize, entrySize) == AppendFooter(prefix, z)
  {
  }

  lemma WithoutOfPrefix(front: seq<Byte>, s: seq<Byte>, lo: nat, hi: nat)
    requires lo <= hi <= |front| && front <= s
    ensures Without(s, lo, hi, |front|) == front[..lo] + front[hi..]
  {
    assert s[..|front|] == front;
    SliceOfSlice(s, 0, |front|, 0, lo);
    SliceOfSlice(s, 0, |front|, hi, |front|);
  }

  lemma SignatureIsInserted(w: Zip, z: Zip, entry: Entry, a: Archive)
    requires Inserted(w, z, entry) && ReadBack(w, entry.j, a)
    ensures a.records[entry.j].row.localOffset == OffsetOf(z.locals, entry.k) && a.records[entry.j].fileEntrySize == |entry.local|
    ensures a.records[entry.j].row.headerSize == CENTRAL_FIXED + |entry.row.tail|
  {
    assert RecordIs(a, w, entry.j);
    OffsetAfterInsert(w, z, entry, entry.k);
  }

  /** The local part of the hashed bytes is the original one. */
  lemma KeptLocalsAreOriginal(s: seq<Byte>, w: Zip, z: Zip, entry: Entry, a: Archive)
    requires Written(s, w) && Inserted(w, z, entry) && ReadBack(w, entry.j, a) && CoversSignature(s, a)
    ensures KeptLocals(s, a, CentralStart(s, a.eocd)) == Concat(z.locals)
  {
    LocalsWithoutInserted(w, z, entry);
    SignatureIsInserted(w, z, entry, a);
    WithoutOfPrefix(Concat(w.locals), s, OffsetOf(z.locals, entry.k), OffsetOf(z.locals, entry.k) + |entry.local|);
  }

  lemma FooterIsOriginal(s: seq<Byte>, w: Zip, z: Zip, entry: Entry, a: Archive, prefix: seq<Byte>)
    requires FooterWritten(s, w) && Inserted(w, z, entry) && ValidZip(z) && ReadBack(w, entry.j, a) && CoversSignature(s, a)
    ensures PatchedFooter(prefix, s, a.eocd, a.records[entry.j].row.headerSize, a.records[entry.j].fileEntrySize) ==
              AppendFooter(prefix, z)
  {
    SignatureIsInserted(w, z, entry, a);
    InsertedSizes(w, z, entry);
    PatchedFooterIsOriginal(prefix, s, a.eocd, z, a.records[entry.j].row.headerSize, a.records[entry.j].fileEntrySize);
  }

  /** Local part, central rows and footer come out as they were. */
  lemma PartsAreOriginal(s: seq<Byte>, w: Zip, z: Zip, entry: Entry, a: Archive)
    requires Written(s, w) && Inserted(w, z, entry) && ValidZip(z) && ReadBack(w, entry.j, a) && AllShiftsFollow(a)
             && Emittable(s, a)
    ensures EmittedBytes(s, a) == ZipBytes(z)
  {
    RowsAreOriginal(s, w, z, entry, a);
    KeptLocalsAreOriginal(s, w, z, entry, a);
    PatchedRowsAreOriginal(Concat(z.locals), s, a.records, entry.j, z, |z.rows|);
    FooterIsOriginal(s, w, z, entry, a, ZipRows(z));
  }

  /**
   * Main result: whatever archive was signed, wherever its signature's local record and central row were put,
   * what is hashed after reading the signed archive is the archive that was signed, byte for byte.
   */
  lemma RemovalUndoesInsertion(z: Zip, entry: Entry, a: Archive, order: seq<nat>)
    requires Insertable(z, entry)
    ensures ValidZip(Insert(z, entry))
    ensures var s := ZipBytes(Insert(z, entry));
            IsLastFooter(s, ZipEocd(Insert(z, entry))) && Describes(a, s, order) ==>
                Emittable(s, a) && EmittedBytes(s, a) == ZipBytes(z)
  {
    var w := Insert(z, entry);
    InsertInserts(z, entry);
    InsertedIsValid(w, z, entry);
    ZipIsWritten(w);
    if IsLastFooter(ZipBytes(w), ZipEocd(w)) && Describes(a, ZipBytes(w), order) {
      RemovalFromBytes(ZipBytes(w), w, z, entry, a, order);
    }
  }

  lemma RemovalFromBytes(s: seq<Byte>, w: Zip, z: Zip, entry: Entry, a: Archive, order: seq<nat>)
    requires Written(s, w) && Inserted(w, z, entry) && ValidZip(z) && OnlyRowNames(w, Some(entry.j))
    requires IsLastFooter(s, ZipEocd(w)) && Describes(a, s, order)
    ensures Emittable(s, a) && EmittedBytes(s, a) == ZipBytes(z)
  {
    WrittenIsReadBack(s, w, entry.j, a, order);
    ReadIsEmittable(s, a, order);
    ShiftsWereAssigned(s, a, order);
    PartsAreOriginal(s, w, z, entry, a);
  }

  // ---------------------------------------------------------------- exactly when removal undoes insertion

  lemma MagicBytes(s: seq<Byte>, o: nat)
    requires o + 4 <= |s| && s[o..o + 4] == FOOTER_SIGNATURE
    ensures s[o] == 0x50 && s[o + 1] == 0x4b && s[o + 2] == 5 && s[o + 3] == 6
  {
    var magic := s[o..o + 4];
    assert s[o] == magic[0] && s[o + 1] == magic[1] && s[o + 2] == magic[2] && s[o + 3] == magic[3];
  }

  lemma HeadBytes(s: seq<Byte>, e: nat)
    requires e + 8 <= |s| && s[e..e + 8] == FooterHead()
    ensures s[e + 1] == 0x4b && s[e + 2] == 5 && s[e + 3] == 6 && s[e + 4] == s[e + 5] == s[e + 6] == s[e + 7] == 0
  {
    var head := s[e..e + 8];
    assert s[e + 1] == head[1] && s[e + 2] == head[2] && s[e + 3] == head[3] && s[e + 4] == head[4];
    assert s[e + 5] == head[5] && s[e + 6] == head[6] && s[e + 7] == head[7];
  }

  /** A footer behind another one starts at its second count at the earliest: the two equal counts are no magic number. */
  lemma LaterFooterIsFar(s: seq<Byte>, e: nat, later: nat)
    requires e + 22 <= |s| && s[e..e + 8] == FooterHead() && U16At(s, e + 8) == Count(s, e)
    requires e < later && IsFooter(s, later)
    ensures e + 10 <= later
  {
    MagicBytes(s, later);
    HeadBytes(s, e);
    assert s[e + 8] == s[e + 10] && s[e + 9] == s[e + 11];
  }

  /** Two files with the same bytes behind their counts and offsets have the same count in any footer that lies there. */
  lemma CountInTail(s: seq<Byte>, e: nat, t: seq<Byte>, f: nat, later: nat)
    requires e + 20 <= |s| && f + 20 <= |t| && s[e + 20..] == t[f + 20..]
    requires e + 10 <= later && later + 22 <= |s|
    ensures later - e + f + 22 <= |t| && Count(t, later - e + f) == Count(s, later)
  {
    var tail := s[e + 20..];
    assert |tail| == |s| - e - 20 == |t| - f - 20;
    assert forall k | 0 <= k < |tail| :: s[e + 20 + k] == tail[k] == t[f + 20 + k];
    assert s[later + 10] == tail[later - e - 10] && s[later + 11] == tail[later - e - 9];
  }

  /** What is hashed for a footer in the comment has one entry less there, and the original archive has not. */
  lemma LaterFooterDiffers(s: seq<Byte>, e: nat, t: seq<Byte>, f: nat, a: Archive)
    requires CoversSignature(s, a) && a.eocd + 22 <= |s| && e + 10 <= a.eocd
    requires e + 20 <= |s| && f + 20 <= |t| && s[e + 20..] == t[f + 20..]
    ensures !ReducedFooter(s, a, t)
  {
    CountInTail(s, e, t, f, a.eocd);
    assert |s| - e == |t| - f by {
      assert |s[e + 20..]| == |t[f + 20..]|;
    }
  }

  /** The end of an archive, as far as another footer could overlap it. */
  predicate EndsIn(s: seq<Byte>, e: nat, comment: seq<Byte>) {
    && e + 22 <= |s| && |comment| < U16_LIMIT
    && s[e..e + 8] == FooterHead() && U16At(s, e + 8) == Count(s, e) && s[e + 20..] == U16Le(|comment|) + comment
  }

  lemma FooterEnds(s: seq<Byte>, z: Zip)
    requires FooterWritten(s, z)
    ensures EndsIn(s, ZipEocd(z), z.comment) && IsFooter(s, ZipEocd(z))
  {
  }

  lemma NotLastFooterDiffers(s: seq<Byte>, e: nat, t: seq<Byte>, f: nat, comment: seq<Byte>, a: Archive)
    requires EndsIn(s, e, comment) && EndsIn(t, f, comment) && IsFooter(s, a.eocd) && e < a.eocd && Ready(s, a)
    ensures Emittable(s, a) && EmittedBytes(s, a) != t
  {
    hide EmittedBytes, Ready, IsFooter;
    ReadyParts(s, a);
    FooterIsEmitted(s, a);
    LaterFooterIsFar(s, e, a.eocd);
    LaterFooterDiffers(s, e, t, f, a);
  }

  lemma ReadyParts(s: seq<Byte>, a: Archive)
    requires Ready(s, a)
    ensures Emittable(s, a) && CoversSignature(s, a) && a.eocd + 22 <= |s|
  {
  }

  lemma LastIsBehind(s: seq<Byte>, e: nat, last: nat)
    requires IsFooter(s, e) && IsLastFooter(s, last)
    ensures !IsLastFooter(s, e) ==> e < last
  {
    assert last < e ==> !IsFooter(s, e);
  }

  /** Removal undoes insertion exactly if the reader takes the archive's own footer. */
  lemma OwnFooterExactly(s: seq<Byte>, w: Zip, z: Zip, entry: Entry, a: Archive, order: seq<nat>)
    requires Written(s, w) && ValidZip(z) && Written(ZipBytes(z), z) && Inserted(w, z, entry) && OnlyRowNames(w, Some(entry.j))
    requires Describes(a, s, order)
    ensures Emittable(s, a) && (EmittedBytes(s, a) == ZipBytes(z) <==> IsLastFooter(s, ZipEocd(w)))
  {
    hide Describes, EmittedBytes, IsLastFooter, FooterWritten, Ready, EndsIn, ValidZip;
    ReadIsReady(s, a, order);
    ReadyParts(s, a);
    FooterEnds(s, w);
    FooterEnds(ZipBytes(z), z);
    DescribedFooter(s, a, order);
    LastIsBehind(s, ZipEocd(w), a.eocd);
    if IsLastFooter(s, ZipEocd(w)) {
      RemovalFromBytes(s, w, z, entry, a, order);
    } else {
      NotLastFooterDiffers(s, ZipEocd(w), ZipBytes(z), ZipEocd(z), z.comment, a);
    }
  }

  lemma DescribedFooter(s: seq<Byte>, a: Archive, order: seq<nat>)
    requires Describes(a, s, order)
    ensures IsLastFooter(s, a.eocd) && IsFooter(s, a.eocd)
  {
  }

  /**
   * Main result, both ways: what is hashed after reading a signed archive is the archive that was signed if and only if
   * the footer that the reader took, the last one, is the archive's own and not one inside its comment.
   */
  lemma RemovalUndoesInsertionExactly(z: Zip, entry: Entry, a: Archive, order: seq<nat>)
    requires Insertable(z, entry)
    ensures ValidZip(Insert(z, entry))
    ensures var s := ZipBytes(Insert(z, entry));
            Describes(a, s, order) ==>
              && Emittable(s, a)
              && (EmittedBytes(s, a) == ZipBytes(z) <==> IsLastFooter(s, ZipEocd(Insert(z, entry))))
  {
    var w := Insert(z, entry);
    InsertInserts(z, entry);
    InsertedIsValid(w, z, entry);
    ZipIsWritten(w);
    ZipIsWritten(z);
    if Describes(a, ZipBytes(w), order) {
      OwnFooterExactly(ZipBytes(w), w, z, entry, a, order);
    }
  }

  // ---------------------------------------------------------------- the signed archive is accepted

  /** The fields of the entry's central row and local header have the NuGet signing layout. */
  predicate SignatureFieldsOk(entry: Entry)
    requires RowOk(entry.row) && |entry.local| >= LOCAL_FIXED
  {
    var local, head := entry.local, entry.row.head;
    && U16At(head, 8) == 0 && U16At(head, 10) == 0 && U32At(head, 38) == 0
    && U32At(head, 20) == U32At(head, 24) <= MAX_SIGNATURE_BYTES
    && U32At(local, 0) == LOCAL_SIGNATURE && U16At(local, 6) == 0 && U16At(local, 8) == 0
    && U32At(local, 18) == U32At(head, 20) && U32At(local, 22) == U32At(head, 24)
    && U16At(local, 26) == |SIGNATURE_PATH|
  }

  /** The signature's name stands at `at`. */
  predicate NameAt(s: seq<Byte>, at: nat) {
    at + |SIGNATURE_PATH| <= |s| && s[at..at + |SIGNATURE_PATH|] == SIGNATURE_PATH
  }

  /** The entry has the NuGet signing layout, in its central row and in its local record. */
  predicate SignatureEntryOk(entry: Entry)
    requires RowOk(entry.row)
  {
    |entry.local| >= LOCAL_FIXED && SignatureFieldsOk(entry) && NameAt(entry.local, LOCAL_FIXED)
  }

  lemma LocalReadsAs(s: seq<Byte>, row: CentralRow, entry: Entry)
    requires RowOk(entry.row) && |entry.local| >= LOCAL_FIXED
    requires row.localOffset + |entry.local| <= |s| && s[row.localOffset..row.localOffset + |entry.local|] == entry.local
    requires row.compressedSize == U32At(entry.row.head, 20) && row.uncompressedSize == U32At(entry.row.head, 24)
    ensures SignatureHeaderOk(s, row) <==>
              && U32At(entry.local, 0) == LOCAL_SIGNATURE && U16At(entry.local, 6) == 0 && U16At(entry.local, 8) == 0
              && U32At(entry.local, 18) == U32At(entry.row.head, 20) && U32At(entry.local, 22) == U32At(entry.row.head, 24)
              && U16At(entry.local, 26) == |SIGNATURE_PATH| && NameAt(s, row.localOffset + LOCAL_FIXED)
  {
    var o := row.localOffset;
    assert forall i | 0 <= i < |entry.local| :: s[o + i] == entry.local[i];
  }

  /** If the local record has room for the name, the name in the file is the name in the record. */
  lemma NameReadsInside(s: seq<Byte>, o: nat, local: seq<Byte>)
    requires o + |local| <= |s| && s[o..o + |local|] == local && |local| >= LOCAL_FIXED + |SIGNATURE_PATH|
    ensures NameAt(s, o + LOCAL_FIXED) <==> NameAt(local, LOCAL_FIXED)
  {
    SliceOfSlice(s, o, o + |local|, LOCAL_FIXED, LOCAL_FIXED + |SIGNATURE_PATH|);
  }

  lemma HeadReadsAs(s: seq<Byte>, at: nat, row: Row, offset: nat)
    requires RowOk(row) && RowReadsAs(s, at, row, offset)
    ensures var read := RowAt(s, at);
            && read.flags == U16At(row.head, 8) && read.compression == U16At(row.head, 10)
            && read.compressedSize == U32At(row.head, 20) && read.uncompressedSize == U32At(row.head, 24)
            && read.externalAttributes == U32At(row.head, 38) && read.localOffset == offset
  {
    assert forall i | 0 <= i < 42 :: s[at + i] == row.head[i];
  }

  lemma LocalsBeforeDirectory(s: seq<Byte>, w: Zip)
    requires Written(s, w)
    ensures LocalsBeforeCentral(s, ZipEocd(w))
  {
    var starts := Starts(s, ZipEocd(w));
    forall i: nat | i < |w.rows|
      ensures starts[i] + CENTRAL_FIXED <= |s| && U32At(s, starts[i] + 42) <= Total(w)
    {
      WrittenStarts(s, w, i);
      assert RowWritten(s, w, i);
      OffsetMonotone(w.locals, w.rows[i].local, |w.locals|);
    }
  }

  /** Where the entry's local record starts in the signed archive. */
  function EntryOffset(z: Zip, entry: Entry): nat
    requires entry.k <= |z.locals|
  {
    OffsetOf(z.locals, entry.k)
  }

  /** The entry's row, as it was written at `at` with the local offset `o`, and its local record at `o`. */
  lemma EntryReads(s: seq<Byte>, at: nat, o: nat, row: Row, entry: Entry)
    requires RowOk(entry.row) && |entry.local| >= LOCAL_FIXED && PieceAt(s, o, entry.local)
    requires row == entry.row.(local := row.local) && RowReadsAs(s, at, row, o)
    ensures at + CENTRAL_FIXED <= |s|
    ensures SignatureRowOk(RowAt(s, at)) && SignatureHeaderOk(s, RowAt(s, at)) <==>
              SignatureFieldsOk(entry) && NameAt(s, o + LOCAL_FIXED)
    ensures |entry.local| >= LOCAL_FIXED + |SIGNATURE_PATH| ==> (NameAt(s, o + LOCAL_FIXED) <==> NameAt(entry.local, LOCAL_FIXED))
  {
    hide SignatureHeaderOk, NameAt, U16At, U32At;
    HeadReadsAs(s, at, row, o);
    LocalReadsAs(s, RowAt(s, at), entry);
    if |entry.local| >= LOCAL_FIXED + |SIGNATURE_PATH| {
      NameReadsInside(s, o, entry.local);
    }
  }

  lemma EntryIsPlaced(s: seq<Byte>, w: Zip, z: Zip, entry: Entry)
    requires Written(s, w) && Inserted(w, z, entry)
    ensures w.rows[entry.j] == entry.row.(local := entry.k) && RowOk(w.rows[entry.j])
    ensures PieceAt(s, EntryOffset(z, entry), entry.local)
    ensures RowReadsAs(s, RowPlace(w, entry.j), w.rows[entry.j], EntryOffset(z, entry))
  {
    hide RowReadsAs, RowPlace;
    LocalsWithoutInserted(w, z, entry);
    OffsetAfterInsert(w, z, entry, entry.k);
    PieceOfPrefix(Concat(w.locals), s, OffsetOf(z.locals, entry.k), entry.local);
    assert RowWritten(s, w, entry.j);
  }

  lemma SignedEntryReads(s: seq<Byte>, w: Zip, z: Zip, entry: Entry)
    requires Written(s, w) && Inserted(w, z, entry) && RowOk(entry.row) && |entry.local| >= LOCAL_FIXED
    ensures RowPlace(w, entry.j) + CENTRAL_FIXED <= |s|
    ensures SignatureRowOk(RowAt(s, RowPlace(w, entry.j))) && SignatureHeaderOk(s, RowAt(s, RowPlace(w, entry.j))) <==>
              SignatureFieldsOk(entry) && NameAt(s, EntryOffset(z, entry) + LOCAL_FIXED)
    ensures |entry.local| >= LOCAL_FIXED + |SIGNATURE_PATH| ==>
              (NameAt(s, EntryOffset(z, entry) + LOCAL_FIXED) <==> NameAt(entry.local, LOCAL_FIXED))
  {
    hide Written, RowReadsAs, PieceAt, SignatureFieldsOk, SignatureRowOk, SignatureHeaderOk, NameAt, RowAt, RowOk, EntryOffset;
    EntryIsPlaced(s, w, z, entry);
    EntryReads(s, RowPlace(w, entry.j), EntryOffset(z, entry), w.rows[entry.j], entry);
  }

  lemma SignedSignatureOk(s: seq<Byte>, w: Zip, z: Zip, entry: Entry)
    requires Written(s, w) && Inserted(w, z, entry) && OnlyRowNames(w, Some(entry.j)) && RowOk(entry.row)
    requires |entry.local| >= LOCAL_FIXED
    ensures SignatureOk(s, ZipEocd(w), entry.j) <==>
              SignatureFieldsOk(entry) && NameAt(s, EntryOffset(z, entry) + LOCAL_FIXED)
    ensures DirectoryOk(s, ZipEocd(w)) && IsSignatureIndex(s, ZipEocd(w), entry.j)
  {
    hide SignatureFieldsOk, NameAt, SignatureRowOk, SignatureHeaderOk;
    WrittenDirectory(s, w, Some(entry.j));
    LocalsBeforeDirectory(s, w);
    WrittenStarts(s, w, entry.j);
    SignedEntryReads(s, w, z, entry);
  }

  /** A file is accepted exactly if its one signature entry is in order. */
  lemma AcceptsBySignature(s: seq<Byte>, e: nat, j: nat)
    requires IsLastFooter(s, e) && DirectoryOk(s, e) && IsSignatureIndex(s, e, j)
    ensures Accepts(s) <==> SignatureOk(s, e, j)
  {
    hide DirectoryOk, SignatureOk, IsLastFooter;
    SignatureIndexIsUnique(s, e, j);
    LastFooterIsUnique(s, e);
  }

  /** What the archive and the entry say about acceptance, whatever layout the entry has. */
  ghost predicate AcceptedAs(s: seq<Byte>, z: Zip, entry: Entry)
    requires Insertable(z, entry)
  {
    && (Accepts(s) <==> SignatureFieldsOk(entry) && NameAt(s, EntryOffset(z, entry) + LOCAL_FIXED))
    && (|entry.local| >= LOCAL_FIXED + |SIGNATURE_PATH| ==> (Accepts(s) <==> SignatureEntryOk(entry)))
  }

  /**
   * Main result: an archive with an entry named as the signature is accepted exactly if the entry has the signing layout.
   * The name is looked for behind the fixed part of the local header, even if the local record ends there.
   */
  lemma SignedIsAcceptedExactly(z: Zip, entry: Entry)
    requires Insertable(z, entry)
    ensures ValidZip(Insert(z, entry))
    ensures var s, e := ZipBytes(Insert(z, entry)), ZipEocd(Insert(z, entry));
            IsLastFooter(s, e) ==> AcceptedAs(s, z, entry) && IsSignatureIndex(s, e, entry.j)
  {
    var w := Insert(z, entry);
    InsertInserts(z, entry);
    InsertedIsValid(w, z, entry);
    ZipIsWritten(w);
    if IsLastFooter(ZipBytes(w), ZipEocd(w)) {
      WrittenIsAcceptedExactly(ZipBytes(w), w, z, entry);
    }
  }

  lemma WrittenIsAcceptedExactly(s: seq<Byte>, w: Zip, z: Zip, entry: Entry)
    requires Insertable(z, entry) && Written(s, w) && Inserted(w, z, entry) && OnlyRowNames(w, Some(entry.j))
    requires IsLastFooter(s, ZipEocd(w))
    ensures AcceptedAs(s, z, entry) && IsSignatureIndex(s, ZipEocd(w), entry.j)
  {
    hide SignatureFieldsOk, NameAt, Accepts, SignatureOk, DirectoryOk, IsSignatureIndex, IsLastFooter, Written, Inserted,
         ValidZip, OnlyRowNames, RowOk, RowNames, SignatureRowOk, SignatureHeaderOk, RowAt, ZipEocd, EntryOffset,
             CentralLen, Total;
    SignedSignatureOk(s, w, z, entry);
    SignedEntryReads(s, w, z, entry);
    AcceptsBySignature(s, ZipEocd(w), entry.j);
  }

  /** A signed archive is read as one: reading it does not fail, and finds the signature entry. */
  lemma SignedIsAccepted(z: Zip, entry: Entry)
    requires Insertable(z, entry) && SignatureEntryOk(entry)
    ensures ValidZip(Insert(z, entry))
    ensures var s, e := ZipBytes(Insert(z, entry)), ZipEocd(Insert(z, entry));
            IsLastFooter(s, e) ==> Accepts(s) && IsSignatureIndex(s, e, entry.j)
  {
    hide ZipBytes, Insert, Insertable, Accepts, IsLastFooter;
    SignedIsAcceptedExactly(z, entry);
  }

  /** Without a comment no later bytes can pass for a footer. */
  lemma OwnFooterIsLast(w: Zip)
    requires ValidZip(w) && w.comment == []
    ensures IsLastFooter(ZipBytes(w), ZipEocd(w))
  {
    ZipIsWritten(w);
  }

  /** A comment that is itself an empty end-of-central-directory record. */
  const BARE_FOOTER: seq<Byte> := FOOTER_SIGNATURE + [0, 0, 0, 0] + [0, 0, 0, 0] + [0, 0, 0, 0] + [0, 0, 0, 0] + [0, 0]

  lemma BareFooterReads(s: seq<Byte>, at: nat)
    requires at + 22 == |s| && s[at..] == BARE_FOOTER
    ensures IsFooter(s, at) && CentralStart(s, at) == 0 && CentralSize(s, at) == 0
  {
    forall k | 0 <= k < 22 ensures s[at + k] == BARE_FOOTER[k] {
      assert s[at + k] == s[at..][k];
    }
    assert s[at..at + 4] == FOOTER_SIGNATURE;
  }

  lemma EndsInComment(s: seq<Byte>, e: nat, comment: seq<Byte>)
    requires |comment| < U16_LIMIT && e + 22 + |comment| == |s| && s[e + 20..] == U16Le(|comment|) + comment
    ensures s[e + 22..] == comment
  {
    assert s[e + 22..] == s[e + 20..][2..];
  }

  lemma HiddenFooter(s: seq<Byte>, e: nat)
    requires e + 44 == |s| && s[e + 20..] == U16Le(22) + BARE_FOOTER
    ensures !IsLastFooter(s, e) && !Accepts(s)
  {
    EndsInComment(s, e, BARE_FOOTER);
    BareFooterReads(s, e + 22);
    forall eocd: nat | IsLastFooter(s, eocd) ensures !DirectoryOk(s, eocd) {
      assert eocd == e + 22;
    }
  }

  /** The premise on the last footer is needed: an archive whose comment is such a record is not accepted. */
  lemma CommentCanHideFooter(w: Zip)
    requires ValidZip(w) && w.comment == BARE_FOOTER
    ensures !IsLastFooter(ZipBytes(w), ZipEocd(w)) && !Accepts(ZipBytes(w))
  {
    ZipIsWritten(w);
    assert FooterWritten(ZipBytes(w), w);
    HiddenFooter(ZipBytes(w), ZipEocd(w));
  }

  // ---------------------------------------------------------------- accepted archives in general

  lemma AcceptedHasDirectory(file: seq<Byte>, e: nat)
    requires Accepts(file) && IsLastFooter(file, e)
    ensures DirectoryOk(file, e)
  {
    hide DirectoryOk, IsLastFooter, SignatureOk, IsSignatureIndex;
    LastFooterIsUnique(file, e);
  }

  lemma FooterMeans(file: seq<Byte>, e: nat)
    requires FooterOk(file, e)
    ensures file[e..e + 4] == FOOTER_SIGNATURE
    ensures file[e + 4] == file[e + 5] == file[e + 6] == file[e + 7] == 0
    ensures file[e + 8] == file[e + 10] && file[e + 9] == file[e + 11] && (file[e + 8] != 0xff || file[e + 9] != 0xff)
    ensures U32At(file, e + 16) + U32At(file, e + 12) == e
  {
  }

  lemma MagicOfRow(file: seq<Byte>, p: nat)
    requires IsCentralRecord(file, p)
    ensures file[p..p + 4] == [0x50, 0x4b, 1, 2]
  {
    var magic := file[p..p + 4];
    assert magic == [file[p], file[p + 1], file[p + 2], file[p + 3]];
  }

  lemma DirectoryMeans(file: seq<Byte>, e: nat)
    requires FooterOk(file, e) && AcceptsCentral(file, CentralStart(file, e), Count(file, e), e) && Count(file, e) > 0
    ensures var p := CentralStart(file, e); p + 46 <= |file| && file[p..p + 4] == [0x50, 0x4b, 1, 2]
  {
    hide OnlySignature, IsCentralRecord;
    var start := CentralStart(file, e);
    assert IsCentralRecord(file, RecordStarts(file, start, Count(file, e))[0]);
    FirstRowMeans(file, start);
  }

  lemma FirstRowMeans(file: seq<Byte>, p: nat)
    ensures IsCentralRecord(file, p) ==> p + 46 <= |file| && file[p..p + 4] == [0x50, 0x4b, 1, 2]
  {
    if IsCentralRecord(file, p) { MagicOfRow(file, p); }
  }

  /** Whatever else an accepted file is, it is a ZIP32 archive on one disk, with a directory that meets the footer. */
  lemma AcceptedIsZip32(file: seq<Byte>, e: nat)
    requires Accepts(file) && IsLastFooter(file, e)
    ensures e + 22 <= |file| && file[e..e + 4] == FOOTER_SIGNATURE
    ensures file[e + 4] == file[e + 5] == file[e + 6] == file[e + 7] == 0
    ensures file[e + 8] == file[e + 10] && file[e + 9] == file[e + 11] && (file[e + 8] != 0xff || file[e + 9] != 0xff)
    ensures U32At(file, e + 16) + U32At(file, e + 12) == e
    ensures U16At(file, e + 10) > 0 ==>
              var p := U32At(file, e + 16); p + 46 <= |file| && file[p..p + 4] == [0x50, 0x4b, 1, 2]
  {
    hide Accepts, U16At, U32At, AcceptsCentral, FooterOk;
    AcceptedHasDirectory(file, e);
    FooterMeans(file, e);
    if Count(file, e) > 0 { DirectoryMeans(file, e); }
  }
}
