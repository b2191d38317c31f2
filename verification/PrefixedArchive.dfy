/**
 * The smallest signed archive with a byte in front of its first local record. It is read without an error, and what is
 * hashed for it has a local offset that is not where its record stands.
 */
module PrefixedArchive {
  import opened Bytes
  import opened Wrappers
  import opened IndexOrder
  import opened SignedArchive
  import opened UnsignedHash
  import opened EmittedArchive

  // A prefix at 0, a kept local record of one byte at 1, the signature's at 2, the two central rows at 46 and 92, and
  // the footer at 152. All fields that are not named here are zero.

  function ByteAt(i: nat): Byte {
    match i
    case 2 => 0x50 case 3 => 0x4b case 4 => 3 case 5 => 4 case 28 => 14
    case 46 => 0x50 case 47 => 0x4b case 48 => 1 case 49 => 2 case 88 => 1
    case 92 => 0x50 case 93 => 0x4b case 94 => 1 case 95 => 2 case 120 => 14 case 134 => 2
    case 152 => 0x50 case 153 => 0x4b case 154 => 5 case 155 => 6
    case 160 => 2 case 162 => 2 case 164 => 106 case 168 => 46
    case _ => if 32 <= i < 46 then SIGNATURE_PATH[i - 32] else if 138 <= i < 152 then SIGNATURE_PATH[i - 138] else 0
  }

  function File(): (s: seq<Byte>)
    ensures |s| == 174 && forall i | 0 <= i < 174 :: s[i] == ByteAt(i)
  {
    seq(174, i requires 0 <= i => ByteAt(i))
  }

  lemma FooterIsLast()
    ensures IsLastFooter(File(), 152) && FooterOk(File(), 152)
    ensures Count(File(), 152) == 2 && CentralStart(File(), 152) == 46
  {
    hide File;
    assert File()[152..156] == FOOTER_SIGNATURE;
  }

  lemma ZeroField(p: nat)
    requires p + 4 <= 174 && ByteAt(p) == ByteAt(p + 1) == ByteAt(p + 2) == ByteAt(p + 3) == 0
    ensures U16At(File(), p) == U16At(File(), p + 2) == U32At(File(), p) == 0
  {
    hide File;
  }

  /** The fields of a row that the signature's layout fixes are zero. */
  lemma PlainRow(p: nat)
    requires p == 46 || p == 92
    ensures U32At(File(), p) == CENTRAL_SIGNATURE
    ensures U16At(File(), p + 8) == U16At(File(), p + 10) == U16At(File(), p + 30) == U16At(File(), p + 32) == 0
    ensures U32At(File(), p + 20) == U32At(File(), p + 24) == U32At(File(), p + 38) == 0
  {
    hide File;
    ZeroField(p + 8);
    ZeroField(p + 20);
    ZeroField(p + 24);
    ZeroField(p + 30);
    ZeroField(p + 38);
  }

  lemma RowsDiffer()
    ensures U16At(File(), 74) == 0 && U32At(File(), 88) == 1
    ensures U16At(File(), 120) == 14 && U32At(File(), 134) == 2
  {
    hide File;
  }

  lemma RowsAreThere()
    ensures IsCentralRecord(File(), 46) && IsCentralRecord(File(), 92)
    ensures RowAt(File(), 46) == CentralRow(46, 1, 46, 0, 0, 0, 0, 0) && RowAt(File(), 92) == CentralRow(92, 2, 60, 0, 0, 0, 0, 0)
  {
    hide File, ByteAt, U16At, U32At;
    PlainRow(46);
    PlainRow(92);
    RowsDiffer();
  }

  lemma SecondIsSignature()
    ensures !NamesSignature(File(), 46) && NamesSignature(File(), 92)
    ensures SignatureHeaderOk(File(), CentralRow(92, 2, 60, 0, 0, 0, 0, 0))
  {
    hide File;
    assert File()[138..152] == SIGNATURE_PATH;
    assert File()[32..46] == SIGNATURE_PATH;
  }

  lemma StartsAreThere()
    ensures Starts(File(), 152) == [46, 92, 152]
  {
    hide File, ByteAt;
    FooterIsLast();
    RowsAreThere();
    assert RecordStarts(File(), 46, 0) == [46];
    assert RecordStarts(File(), 46, 1) == [46, 92];
  }

  const READ: Archive := Archive([CentralRecord(CentralRow(46, 1, 46, 0, 0, 0, 0, 0), 1, -1),
                                  CentralRecord(CentralRow(92, 2, 60, 0, 0, 0, 0, 0), 44, 0)], 1, 1, 152, 174)

  lemma TwoInOrder(records: seq<CentralRecord>)
    requires |records| == 2 && records[0].row.localOffset < records[1].row.localOffset
    ensures InLocalOrder(records, [0, 1], 2)
  {
    var order := [0, 1];
    assert order[0] == 0 && order[1] == 1 && 0 in order && 1 in order;
  }

  lemma TwoTile(records: seq<CentralRecord>, centralStart: nat)
    requires |records| == 2 && InLocalOrder(records, [0, 1], 2)
    requires records[0].row.localOffset + records[0].fileEntrySize == records[1].row.localOffset
    requires records[1].row.localOffset + records[1].fileEntrySize == centralStart
    ensures SizesTile(records, [0, 1], centralStart)
  {
    hide InLocalOrder;
  }

  lemma SizesAndShifts()
    ensures SizesTile(READ.records, [0, 1], 46) && ShiftsPack(READ.records, [0, 1], 1)
  {
    hide InLocalOrder, SizesTile;
    TwoInOrder(READ.records);
    TwoTile(READ.records, 46);
  }

  lemma SignatureIsOk()
    ensures SignatureOk(File(), 152, 1)
  {
    hide File, ByteAt, SignatureHeaderOk, NamesSignature, FooterOk, U16At, U32At;
    FooterIsLast();
    RowsAreThere();
    SecondIsSignature();
    StartsAreThere();
    RowsDiffer();
    assert OnlySignature(File(), [46, 92, 152], 2, Some(1));
    assert AcceptsCentral(File(), 46, 2, 152);
  }

  lemma ItIsRead()
    ensures Describes(READ, File(), [0, 1])
  {
    hide File, ByteAt, SizesTile, ShiftsPack, SignatureOk, IsLastFooter, FooterOk, RowAt;
    FooterIsLast();
    RowsAreThere();
    StartsAreThere();
    SizesAndShifts();
    SignatureIsOk();
  }

  /** The kept row number `i` points elsewhere than to its record in what is hashed. */
  ghost predicate Misplaced(file: seq<Byte>, a: Archive, i: nat) {
    && Emittable(file, a) && i < |a.records| && 0 <= NewPosition(file, a, i)
    && NewPosition(file, a, i) + CENTRAL_FIXED <= |EmittedBytes(file, a)|
    && RowAt(EmittedBytes(file, a), NewPosition(file, a, i)).localOffset != EmittedOffset(a, i)
  }

  lemma PrefixMisplaces(file: seq<Byte>, a: Archive, order: seq<nat>, i: nat)
    requires Describes(a, file, order) && i < |a.records| && i != a.signatureIndex && a.startOfLocalHeaders != 0
    ensures Misplaced(file, a, i)
  {
    hide Describes, Emittable, EmittedBytes, RowAt;
    OffsetsAreAbsolute(file, a, order, i);
  }

  /** The archive is read, and its kept row, patched to offset 0, does not point to its record, which is byte 1. */
  lemma PrefixIsMisplaced()
    ensures Describes(READ, File(), [0, 1]) && Misplaced(File(), READ, 0)
  {
    hide Describes, Misplaced, File;
    ItIsRead();
    PrefixMisplaces(File(), READ, [0, 1], 0);
  }
}
