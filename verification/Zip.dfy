/**
 * The hand-written ZIP of the diagnostics bundle (aisense-core, diagnostics.rs): stored files, their
 * local headers, the central directory and the end record (PKWARE APPNOTE 4.3.7, 4.3.12, 4.3.16).
 */
module Zip {
  import opened Prelude
  import Crc32
  import Calendar

  /** Names and contents are UTF-8 text, kept here as the bytes that are stored. */
  datatype File = File(name: seq<byte>, content: seq<byte>)

  const U16 := 0x1_0000
  const U32 := 0x1_0000_0000

  const LOCAL_SIGNATURE := 0x0403_4b50
  const CENTRAL_SIGNATURE := 0x0201_4b50
  const END_SIGNATURE := 0x0605_4b50

  // ---- Little-endian fields; the casts keep the low bits ----

  function Put16(v: nat): (bytes: seq<byte>)
    ensures |bytes| == 2
  {
    [v % 256, v / 256 % 256]
  }

  function Put32(v: nat): (bytes: seq<byte>)
    ensures |bytes| == 4
  {
    [v % 256, v / 256 % 256, v / 65_536 % 256, v / 16_777_216 % 256]
  }

  function Bits(data: seq<byte>): seq<bv8> {
    seq(|data|, i requires 0 <= i < |data| => data[i] as bv8)
  }

  function CrcOf(data: seq<byte>): nat {
    Crc32.Crc(Bits(data)) as nat
  }

  // ---- The records ----

  /** Version, flags (UTF-8 names), method (stored), time and date. */
  function Head(stamp: Calendar.DosStamp): (bytes: seq<byte>)
    requires stamp.time >= 0 && stamp.date >= 0
    ensures |bytes| == 10
  {
    Put16(20) + Put16(0x0800) + Put16(0) + Put16(stamp.time) + Put16(stamp.date)
  }

  function Local(f: File, stamp: Calendar.DosStamp): seq<byte>
    requires stamp.time >= 0 && stamp.date >= 0
  {
    Put32(LOCAL_SIGNATURE) + (Head(stamp) + (Put32(CrcOf(f.content)) + (Put32(|f.content|) + (Put32(|f.content|)
      + (Put16(|f.name|) + (Put16(0) + (f.name + f.content)))))))
  }

  /** Comment, disk and attributes. */
  function CentralTail(): (bytes: seq<byte>)
    ensures |bytes| == 12
  {
    Put16(0) + Put16(0) + Put16(0) + Put16(0) + Put32(0)
  }

  function Central(f: File, stamp: Calendar.DosStamp, offset: nat): seq<byte>
    requires stamp.time >= 0 && stamp.date >= 0
  {
    Put32(CENTRAL_SIGNATURE)
      + (Put16(20) + (Head(stamp) + (Put32(CrcOf(f.content)) + (Put32(|f.content|) + (Put32(|f.content|)
      + (Put16(|f.name|) + (CentralTail() + (Put32(offset) + f.name))))))))
  }

  function EndRecord(count: nat, size: nat, offset: nat): (bytes: seq<byte>)
    ensures |bytes| == 22
  {
    Put32(END_SIGNATURE) + (Put16(0)
        + (Put16(0) + (Put16(count) + (Put16(count) + (Put32(size) + (Put32(offset) + Put16(0)))))))
  }

  function Locals(files: seq<File>, stamp: Calendar.DosStamp): seq<byte>
    requires stamp.time >= 0 && stamp.date >= 0
  {
    if files == [] then [] else Local(files[0], stamp) + Locals(files[1..], stamp)
  }

  function Centrals(files: seq<File>, stamp: Calendar.DosStamp, offset: nat): seq<byte>
    requires stamp.time >= 0 && stamp.date >= 0
    decreases |files|
  {
    if files == [] then []
    else Central(files[0], stamp, offset) + Centrals(files[1..], stamp, offset + |Local(files[0], stamp)|)
  }

  function Zipped(files: seq<File>, stamp: Calendar.DosStamp): seq<byte>
    requires stamp.time >= 0 && stamp.date >= 0
  {
    var locals, centrals := Locals(files, stamp), Centrals(files, stamp, 0);
    locals + (centrals + EndRecord(|files|, |centrals|, |locals|))
  }

  // ---- The writer ----

  lemma StampIsNatural(ms: int)
    ensures Calendar.DosDateTime(ms).time >= 0 && Calendar.DosDateTime(ms).date >= 0
  {
    Calendar.DosDateRoundTrips(ms);
  }

  lemma {:induction false} LocalsSnoc(files: seq<File>, f: File, stamp: Calendar.DosStamp)
    requires stamp.time >= 0 && stamp.date >= 0
    ensures Locals(files + [f], stamp) == Locals(files, stamp) + Local(f, stamp)
  {
    hide Local;
    if files == [] {
      assert [] + [f] == [f] && [f][1..] == [];
      assert Locals([f], stamp) == Local(f, stamp) + Locals([], stamp);
    } else {
      assert (files + [f])[0] == files[0] && (files + [f])[1..] == files[1..] + [f];
      LocalsSnoc(files[1..], f, stamp);
      Associative(Local(files[0], stamp), Locals(files[1..], stamp), Local(f, stamp));
    }
  }

  lemma {:induction false} CentralsSnoc(files: seq<File>, f: File, stamp: Calendar.DosStamp, offset: nat)
    requires stamp.time >= 0 && stamp.date >= 0
    ensures Centrals(files + [f], stamp, offset)
            == Centrals(files, stamp, offset) + Central(f, stamp, offset + |Locals(files, stamp)|)
    decreases |files|
  {
    hide Local, Central;
    if files == [] {
      assert [] + [f] == [f] && [f][1..] == [];
      assert Centrals([f], stamp, offset) == Central(f, stamp, offset)
          + Centrals([], stamp, offset + |Local(f, stamp)|);
    } else {
      var next := offset + |Local(files[0], stamp)|;
      assert (files + [f])[0] == files[0] && (files + [f])[1..] == files[1..] + [f];
      CentralsSnoc(files[1..], f, stamp, next);
      Associative(Central(files[0], stamp, offset), Centrals(files[1..], stamp, next),
                  Central(f, stamp, next + |Locals(files[1..], stamp)|));
    }
  }

  /** One pass over the files grows both buffers; the directory follows, and the end record closes. */
  method ToZip(files: seq<File>, ms: int) returns (out: seq<byte>)
    ensures Calendar.DosDateTime(ms).time >= 0 && Calendar.DosDateTime(ms).date >= 0
    ensures out == Zipped(files, Calendar.DosDateTime(ms))
  {
    hide Local, Central, Calendar.DosDateTime, EndRecord;
    StampIsNatural(ms);
    var stamp := Calendar.DosDateTime(ms);
    out := [];
    var central: seq<byte> := [];
    for i := 0 to |files|
      invariant out == Locals(files[..i], stamp)
      invariant central == Centrals(files[..i], stamp, 0)
    {
      var f := files[i];
      assert files[..i + 1] == files[..i] + [f];
      LocalsSnoc(files[..i], f, stamp);
      CentralsSnoc(files[..i], f, stamp, 0);
      var offset := |out|;
      out := WriteLocal(out, f, stamp);
      central := WriteCentral(central, f, stamp, offset);
    }
    assert files[..|files|] == files;
    var centralOffset, centralSize := |out|, |central|;
    out := out + (central + EndRecord(|files|, centralSize, centralOffset));
  }

  /** The checksum comes from the table. */
  method Checksum(data: seq<byte>) returns (crc: nat)
    ensures crc == CrcOf(data) == Crc32.Crc(Bits(data)) as nat
  {
    var c := Crc32.TableCrc(Bits(data));
    return c as nat;
  }

  method WriteLocal(out: seq<byte>, f: File, stamp: Calendar.DosStamp) returns (longer: seq<byte>)
    requires stamp.time >= 0 && stamp.date >= 0
    ensures longer == out + Local(f, stamp)
  {
    hide CrcOf, Put16, Put32, Head;
    var crc := Checksum(f.content);
    longer := out + (Put32(LOCAL_SIGNATURE) + (Head(stamp) + (Put32(crc) + (Put32(|f.content|) + (Put32(|f.content|)
      + (Put16(|f.name|) + (Put16(0) + (f.name + f.content))))))));
  }

  method WriteCentral(central: seq<byte>, f: File, stamp: Calendar.DosStamp, offset: nat) returns (longer: seq<byte>)
    requires stamp.time >= 0 && stamp.date >= 0
    ensures longer == central + Central(f, stamp, offset)
  {
    hide CrcOf, Put16, Put32, Head, CentralTail;
    var crc := Checksum(f.content);
    longer := central + (Put32(CENTRAL_SIGNATURE)
      + (Put16(20) + (Head(stamp) + (Put32(crc) + (Put32(|f.content|) + (Put32(|f.content|)
      + (Put16(|f.name|) + (CentralTail() + (Put32(offset) + f.name)))))))));
  }

  // ---- The reader: through the end record and the central directory ----

  function Le16(a: nat, b: nat): nat { a + 256 * b }

  function Le32(a: nat, b: nat, c: nat, d: nat): nat { a + 256 * b + 65_536 * c + 16_777_216 * d }

  function U16At(bytes: seq<byte>, at: nat): nat
    requires at + 2 <= |bytes|
  {
    Le16(bytes[at], bytes[at + 1])
  }

  function U32At(bytes: seq<byte>, at: nat): nat
    requires at + 4 <= |bytes|
  {
    Le32(bytes[at], bytes[at + 1], bytes[at + 2], bytes[at + 3])
  }

  /** The local part of an entry: its header must be where the directory says. */
  function ContentAt(bytes: seq<byte>, offset: nat, size: nat): Option<seq<byte>> {
    if offset + 30 > |bytes| || U32At(bytes, offset) != LOCAL_SIGNATURE then None
    else
      var at := offset + 30 + U16At(bytes, offset + 26) + U16At(bytes, offset + 28);
      if at + size > |bytes| then None else Some(bytes[at..at + size])
  }

  /** The directory entry at `at`, checked against its checksum. */
  function Entry(bytes: seq<byte>, at: nat): Option<File> {
    if at + 46 > |bytes| || U32At(bytes, at) != CENTRAL_SIGNATURE || at + 46 + U16At(bytes, at + 28) > |bytes| then None
    else
      match ContentAt(bytes, U32At(bytes, at + 42), U32At(bytes, at + 24))
      case None => None
      case Some(content) =>
        if CrcOf(content) != U32At(bytes, at + 16) then None
        else Some(File(bytes[at + 46..at + 46 + U16At(bytes, at + 28)], content))
  }

  /** `count` directory entries from `at` on; `None` where the reader would stop with an error. */
  function Entries(bytes: seq<byte>, at: nat, count: nat): Option<seq<File>>
    decreases count
  {
    if count == 0 then Some([])
    else match Entry(bytes, at)
      case None => None
      case Some(file) =>
        match Entries(bytes, at + 46 + |file.name|, count - 1)
        case None => None
        case Some(rest) => Some([file] + rest)
  }

  function Unzip(bytes: seq<byte>): Option<seq<File>> {
    if |bytes| < 22 || U32At(bytes, |bytes| - 22) != END_SIGNATURE then None
    else Entries(bytes, U32At(bytes, |bytes| - 22 + 16), U16At(bytes, |bytes| - 22 + 10))
  }

  // ---- Finding a record inside the file ----

  ghost predicate Has(bytes: seq<byte>, at: int, piece: seq<byte>) {
    0 <= at && at + |piece| <= |bytes| && bytes[at..at + |piece|] == piece
  }

  lemma HasParts(bytes: seq<byte>, at: int, a: seq<byte>, b: seq<byte>)
    requires Has(bytes, at, a + b)
    ensures Has(bytes, at, a) && Has(bytes, at + |a|, b)
  {
    assert (a + b)[..|a|] == a && (a + b)[|a|..] == b;
  }

  lemma Digits16(v: nat)
    ensures Le16(v % 256, v / 256 % 256) == v % U16
  {
    assert v == 256 * (v / 256) + v % 256;
    assert v / 256 == 256 * (v / 256 / 256) + v / 256 % 256;
    assert v / 256 / 256 == v / U16;
  }

  lemma Digits32(v: nat)
    ensures Le32(v % 256, v / 256 % 256, v / 65_536 % 256, v / 16_777_216 % 256) == v % U32
  {
    var high := v / U16;
    Digits16(v);
    Digits16(high);
    assert high / 256 == v / 16_777_216;
    assert v == U16 * high + v % U16 && high == U16 * (high / U16) + high % U16;
    assert high / U16 == v / U32;
  }

  lemma Has16(bytes: seq<byte>, at: nat, v: nat)
    requires Has(bytes, at, Put16(v))
    ensures at + 2 <= |bytes| && U16At(bytes, at) == v % U16
  {
    hide Le16;
    Digits16(v);
    var piece := bytes[at..at + 2];
    assert piece[0] == bytes[at] && piece[1] == bytes[at + 1];
  }

  lemma Has32(bytes: seq<byte>, at: nat, v: nat)
    requires Has(bytes, at, Put32(v))
    ensures at + 4 <= |bytes| && U32At(bytes, at) == v % U32
  {
    hide Le32;
    Digits32(v);
    var piece := bytes[at..at + 4];
    assert piece[0] == bytes[at] && piece[1] == bytes[at + 1] && piece[2] == bytes[at + 2] && piece[3] == bytes[at + 3];
  }

  lemma LocalIsFound(bytes: seq<byte>, at: nat, f: File, stamp: Calendar.DosStamp)
    requires stamp.time >= 0 && stamp.date >= 0 && |f.name| < U16
    requires Has(bytes, at, Local(f, stamp))
    ensures ContentAt(bytes, at, |f.content|) == Some(f.content)
  {
    hide Put16, Put32, Head, CrcOf, U16At, U32At, Has;
    var size := Put32(|f.content|);
    var l7 := f.name + f.content;
    var l6 := Put16(0) + l7;
    var l5 := Put16(|f.name|) + l6;
    var l3 := size + (size + l5);
    var l2 := Put32(CrcOf(f.content)) + l3;
    HasParts(bytes, at, Put32(LOCAL_SIGNATURE), Head(stamp) + l2);
    HasParts(bytes, at + 4, Head(stamp), l2);
    HasParts(bytes, at + 14, Put32(CrcOf(f.content)), l3);
    HasParts(bytes, at + 18, size, size + l5);
    HasParts(bytes, at + 22, size, l5);
    HasParts(bytes, at + 26, Put16(|f.name|), l6);
    HasParts(bytes, at + 28, Put16(0), l7);
    HasParts(bytes, at + 30, f.name, f.content);
    Has32(bytes, at, LOCAL_SIGNATURE);
    Has16(bytes, at + 26, |f.name|);
    Has16(bytes, at + 28, 0);
    HasBounds(bytes, at + 30 + |f.name|, f.content);
  }

  lemma HasBounds(bytes: seq<byte>, at: nat, piece: seq<byte>)
    requires Has(bytes, at, piece)
    ensures at + |piece| <= |bytes| && bytes[at..at + |piece|] == piece
  {
  }

  ghost predicate CentralFields(bytes: seq<byte>, at: nat, f: File, offset: nat) {
    && at + 46 + |f.name| <= |bytes|
    && U32At(bytes, at) == CENTRAL_SIGNATURE
    && U32At(bytes, at + 16) == CrcOf(f.content)
    && U32At(bytes, at + 24) == |f.content|
    && U16At(bytes, at + 28) == |f.name|
    && U32At(bytes, at + 42) == offset
    && bytes[at + 46..at + 46 + |f.name|] == f.name
  }

  lemma CrcFits(data: seq<byte>)
    ensures CrcOf(data) < U32
  {
  }

  ghost predicate CentralPieces(bytes: seq<byte>, at: nat, f: File, offset: nat) {
    && Has(bytes, at, Put32(CENTRAL_SIGNATURE))
    && Has(bytes, at + 16, Put32(CrcOf(f.content)))
    && Has(bytes, at + 24, Put32(|f.content|))
    && Has(bytes, at + 28, Put16(|f.name|))
    && Has(bytes, at + 42, Put32(offset))
    && Has(bytes, at + 46, f.name)
  }

  lemma CentralPiecesAreThere(bytes: seq<byte>, at: nat, f: File, stamp: Calendar.DosStamp, offset: nat)
    requires stamp.time >= 0 && stamp.date >= 0
    requires Has(bytes, at, Central(f, stamp, offset))
    ensures CentralPieces(bytes, at, f, offset)
  {
    hide Put16, Put32, Head, CentralTail, CrcOf, Has;
    var size := Put32(|f.content|);
    var c8 := Put32(offset) + f.name;
    var c7 := CentralTail() + c8;
    var c6 := Put16(|f.name|) + c7;
    var c5 := size + c6;
    var c4 := size + c5;
    var c3 := Put32(CrcOf(f.content)) + c4;
    var c2 := Head(stamp) + c3;
    HasParts(bytes, at, Put32(CENTRAL_SIGNATURE), Put16(20) + c2);
    HasParts(bytes, at + 4, Put16(20), c2);
    HasParts(bytes, at + 6, Head(stamp), c3);
    HasParts(bytes, at + 16, Put32(CrcOf(f.content)), c4);
    HasParts(bytes, at + 20, size, c5);
    HasParts(bytes, at + 24, size, c6);
    HasParts(bytes, at + 28, Put16(|f.name|), c7);
    HasParts(bytes, at + 30, CentralTail(), c8);
    HasParts(bytes, at + 42, Put32(offset), f.name);
  }

  lemma CentralIsFound(bytes: seq<byte>, at: nat, f: File, stamp: Calendar.DosStamp, offset: nat)
    requires stamp.time >= 0 && stamp.date >= 0
    requires |f.name| < U16 && |f.content| < U32 && offset < U32
    requires Has(bytes, at, Central(f, stamp, offset))
    ensures CentralFields(bytes, at, f, offset)
  {
    hide Put16, Put32, Central, CrcOf, U16At, U32At, Has;
    CentralPiecesAreThere(bytes, at, f, stamp, offset);
    CrcFits(f.content);
    Has32(bytes, at, CENTRAL_SIGNATURE);
    Has32(bytes, at + 16, CrcOf(f.content));
    Has32(bytes, at + 24, |f.content|);
    Has16(bytes, at + 28, |f.name|);
    Has32(bytes, at + 42, offset);
    HasBounds(bytes, at + 46, f.name);
  }

  // ---- Round trip ----

  ghost predicate Fits(files: seq<File>, stamp: Calendar.DosStamp)
    requires stamp.time >= 0 && stamp.date >= 0
  {
    && |files| < U16 && |Locals(files, stamp)| < U32
    && forall k :: 0 <= k < |files| ==> |files[k].name| < U16
  }

  lemma LocalLength(f: File, stamp: Calendar.DosStamp)
    requires stamp.time >= 0 && stamp.date >= 0
    ensures |Local(f, stamp)| == 30 + |f.name| + |f.content|
  {
    hide Put16, Put32, Head, CrcOf;
  }

  lemma CentralLength(f: File, stamp: Calendar.DosStamp, offset: nat)
    requires stamp.time >= 0 && stamp.date >= 0
    ensures |Central(f, stamp, offset)| == 46 + |f.name|
  {
    hide Put16, Put32, Head, CrcOf, CentralTail;
  }

  lemma EntryIsFound(bytes: seq<byte>, at: nat, f: File, stamp: Calendar.DosStamp, offset: nat)
    requires stamp.time >= 0 && stamp.date >= 0 && |f.name| < U16 && offset + |Local(f, stamp)| < U32
    requires Has(bytes, at, Central(f, stamp, offset)) && Has(bytes, offset, Local(f, stamp))
    ensures Entry(bytes, at) == Some(f)
  {
    hide Local, Central, Has, CrcOf, U16At, U32At, ContentAt;
    LocalLength(f, stamp);
    CentralIsFound(bytes, at, f, stamp, offset);
    LocalIsFound(bytes, offset, f, stamp);
  }

  lemma {:induction false} EntriesAreFound(bytes: seq<byte>, at: nat, files: seq<File>, stamp: Calendar.DosStamp,
                                           offset: nat)
    requires stamp.time >= 0 && stamp.date >= 0
    requires forall k :: 0 <= k < |files| ==> |files[k].name| < U16
    requires offset + |Locals(files, stamp)| < U32
    requires Has(bytes, at, Centrals(files, stamp, offset)) && Has(bytes, offset, Locals(files, stamp))
    ensures Entries(bytes, at, |files|) == Some(files)
    decreases |files|
  {
    hide *;
    if files == [] {
      NoEntries(bytes, at);
    } else {
      var f, rest := files[0], files[1..];
      var next := offset + |Local(f, stamp)|;
      FirstRecords(files, stamp, offset);
      LocalLength(f, stamp);
      CentralLength(f, stamp, offset);
      HasParts(bytes, at, Central(f, stamp, offset), Centrals(rest, stamp, next));
      HasParts(bytes, offset, Local(f, stamp), Locals(rest, stamp));
      EntryIsFound(bytes, at, f, stamp, offset);
      EntriesAreFound(bytes, at + 46 + |f.name|, rest, stamp, next);
      FirstEntry(bytes, at, |files|, f, rest);
      assert [f] + rest == files;
    }
  }

  lemma NoEntries(bytes: seq<byte>, at: nat)
    ensures Entries(bytes, at, 0) == Some([])
  {
  }

  lemma FirstRecords(files: seq<File>, stamp: Calendar.DosStamp, offset: nat)
    requires stamp.time >= 0 && stamp.date >= 0 && files != []
    ensures Locals(files, stamp) == Local(files[0], stamp) + Locals(files[1..], stamp)
    ensures Centrals(files, stamp, offset)
            == Central(files[0], stamp, offset) + Centrals(files[1..], stamp, offset + |Local(files[0], stamp)|)
  {
    hide Local, Central;
  }

  lemma FirstEntry(bytes: seq<byte>, at: nat, count: nat, f: File, rest: seq<File>)
    requires count > 0 && Entry(bytes, at) == Some(f) && Entries(bytes, at + 46 + |f.name|, count - 1) == Some(rest)
    ensures Entries(bytes, at, count) == Some([f] + rest)
  {
    hide Entry;
  }

  lemma EndIsFound(bytes: seq<byte>, at: nat, count: nat, size: nat, offset: nat)
    requires Has(bytes, at, EndRecord(count, size, offset))
    ensures at + 22 <= |bytes| && U32At(bytes, at) == END_SIGNATURE
    ensures U16At(bytes, at + 10) == count % U16 && U32At(bytes, at + 16) == offset % U32
  {
    hide Put16, Put32, U16At, U32At, Has;
    var e6 := Put32(offset) + Put16(0);
    var e5 := Put32(size) + e6;
    var e4 := Put16(count) + e5;
    var e3 := Put16(count) + e4;
    var e2 := Put16(0) + e3;
    HasParts(bytes, at, Put32(END_SIGNATURE), Put16(0) + e2);
    HasParts(bytes, at + 4, Put16(0), e2);
    HasParts(bytes, at + 6, Put16(0), e3);
    HasParts(bytes, at + 8, Put16(count), e4);
    HasParts(bytes, at + 10, Put16(count), e5);
    HasParts(bytes, at + 12, Put32(size), e6);
    HasParts(bytes, at + 16, Put32(offset), Put16(0));
    Has32(bytes, at, END_SIGNATURE);
    Has16(bytes, at + 10, count);
    Has32(bytes, at + 16, offset);
    HasBounds(bytes, at + 20, Put16(0));
  }

  /** Reading the archive back yields the same names and contents, in order. */
  lemma ZipRoundTrip(files: seq<File>, stamp: Calendar.DosStamp)
    requires stamp.time >= 0 && stamp.date >= 0 && Fits(files, stamp)
    ensures Unzip(Zipped(files, stamp)) == Some(files)
  {
    hide Entries, Locals, Centrals, EndRecord, U16At, U32At;
    var locals, centrals := Locals(files, stamp), Centrals(files, stamp, 0);
    var end := EndRecord(|files|, |centrals|, |locals|);
    var bytes := Zipped(files, stamp);
    assert Has(bytes, 0, bytes);
    HasParts(bytes, 0, locals, centrals + end);
    HasParts(bytes, |locals|, centrals, end);
    EndIsFound(bytes, |locals| + |centrals|, |files|, |centrals|, |locals|);
    EntriesAreFound(bytes, |locals|, files, stamp, 0);
  }

  // ---- The fields bound what can be read back ----

  ghost predicate FieldsHold(files: seq<File>) {
    |files| < U16 && forall k :: 0 <= k < |files| ==> |files[k].name| < U16 && |files[k].content| < U32
  }

  lemma {:induction false} EntriesAreBounded(bytes: seq<byte>, at: nat, count: nat)
    ensures Entries(bytes, at, count).Some? ==>
              var files := Entries(bytes, at, count).value;
              |files| == count && forall k :: 0 <= k < |files| ==> |files[k].name| < U16 && |files[k].content| < U32
    decreases count
  {
    hide Entry;
    if count > 0 && Entries(bytes, at, count).Some? {
      EntryIsBounded(bytes, at);
      EntriesAreBounded(bytes, at + 46 + |Entry(bytes, at).value.name|, count - 1);
    }
  }

  lemma EntryIsBounded(bytes: seq<byte>, at: nat)
    ensures Entry(bytes, at).Some? ==> |Entry(bytes, at).value.name| < U16 && |Entry(bytes, at).value.content| < U32
  {
    hide CrcOf;
  }

  /** The counts and sizes have to fit their fields: nothing larger is ever read back. */
  lemma RoundTripNeedsTheFields(files: seq<File>, stamp: Calendar.DosStamp)
    requires stamp.time >= 0 && stamp.date >= 0
    requires Unzip(Zipped(files, stamp)) == Some(files)
    ensures FieldsHold(files)
  {
    hide Entries, Locals, Centrals, EndRecord;
    var bytes := Zipped(files, stamp);
    EntriesAreBounded(bytes, U32At(bytes, |bytes| - 22 + 16), U16At(bytes, |bytes| - 22 + 10));
  }

  /** Count and directory offset are read back as they were exactly when both fit their fields. */
  lemma EndFieldsReadBackIff(files: seq<File>, stamp: Calendar.DosStamp)
    requires stamp.time >= 0 && stamp.date >= 0
    ensures var bytes, locals := Zipped(files, stamp), |Locals(files, stamp)|;
            && |bytes| >= 22
            && (U16At(bytes, |bytes| - 22 + 10) == |files| && U32At(bytes, |bytes| - 22 + 16) == locals
                <==> |files| < U16 && locals < U32)
  {
    hide Locals, Centrals, EndRecord, U16At, U32At;
    var locals, centrals := Locals(files, stamp), Centrals(files, stamp, 0);
    var end := EndRecord(|files|, |centrals|, |locals|);
    var bytes := Zipped(files, stamp);
    assert Has(bytes, 0, bytes);
    HasParts(bytes, 0, locals, centrals + end);
    HasParts(bytes, |locals|, centrals, end);
    EndIsFound(bytes, |locals| + |centrals|, |files|, |centrals|, |locals|);
  }

  // ---- Every field of every header ----

  /** Version 2.0, names in UTF-8, stored; then time and date. */
  ghost predicate HeadFields(bytes: seq<byte>, at: nat, stamp: Calendar.DosStamp) {
    && at + 10 <= |bytes|
    && U16At(bytes, at) == 20 && U16At(bytes, at + 2) == 0x0800 && U16At(bytes, at + 4) == 0
    && U16At(bytes, at + 6) == stamp.time && U16At(bytes, at + 8) == stamp.date
  }

  /** Checksum, size twice (nothing is compressed) and the name's length. */
  ghost predicate SizeFields(bytes: seq<byte>, at: nat, f: File) {
    && at + 14 <= |bytes|
    && U32At(bytes, at) == CrcOf(f.content)
    && U32At(bytes, at + 4) == |f.content| && U32At(bytes, at + 8) == |f.content|
    && U16At(bytes, at + 12) == |f.name|
  }

  ghost predicate StampFits(stamp: Calendar.DosStamp) {
    0 <= stamp.time < U16 && 0 <= stamp.date < U16
  }

  lemma HeadIsRead(bytes: seq<byte>, at: nat, stamp: Calendar.DosStamp)
    requires StampFits(stamp) && Has(bytes, at, Head(stamp))
    ensures HeadFields(bytes, at, stamp)
  {
    hide Put16, U16At, Has;
    var a, b, c, d, e := Put16(20), Put16(0x0800), Put16(0), Put16(stamp.time), Put16(stamp.date);
    assert Head(stamp) == a + (b + (c + (d + e)));
    HasParts(bytes, at, a, b + (c + (d + e)));
    HasParts(bytes, at + 2, b, c + (d + e));
    HasParts(bytes, at + 4, c, d + e);
    HasParts(bytes, at + 6, d, e);
    Has16(bytes, at, 20);
    Has16(bytes, at + 2, 0x0800);
    Has16(bytes, at + 4, 0);
    Has16(bytes, at + 6, stamp.time);
    Has16(bytes, at + 8, stamp.date);
  }

  lemma SizesAreRead(bytes: seq<byte>, at: nat, f: File)
    requires |f.name| < U16 && |f.content| < U32
    requires Has(bytes, at, Put32(CrcOf(f.content))) && Has(bytes, at + 4, Put32(|f.content|))
    requires Has(bytes, at + 8, Put32(|f.content|)) && Has(bytes, at + 12, Put16(|f.name|))
    ensures SizeFields(bytes, at, f)
  {
    hide Put16, Put32, U16At, U32At, Has, CrcOf;
    CrcFits(f.content);
    Has32(bytes, at, CrcOf(f.content));
    Has32(bytes, at + 4, |f.content|);
    Has32(bytes, at + 8, |f.content|);
    Has16(bytes, at + 12, |f.name|);
  }

  /** A local header, field by field, then the name and the content. */
  lemma LocalLayout(bytes: seq<byte>, at: nat, f: File, stamp: Calendar.DosStamp)
    requires StampFits(stamp) && |f.name| < U16 && |f.content| < U32 && Has(bytes, at, Local(f, stamp))
    ensures at + 30 + |f.name| + |f.content| <= |bytes| && U32At(bytes, at) == LOCAL_SIGNATURE
    ensures HeadFields(bytes, at + 4, stamp) && SizeFields(bytes, at + 14, f) && U16At(bytes, at + 28) == 0
    ensures bytes[at + 30..at + 30 + |f.name|] == f.name
    ensures bytes[at + 30 + |f.name|..at + 30 + |f.name| + |f.content|] == f.content
  {
    hide Put16, Put32, Head, CrcOf, U16At, U32At, Has, HeadFields, SizeFields;
    var size := Put32(|f.content|);
    var l7 := f.name + f.content;
    var l6 := Put16(0) + l7;
    var l5 := Put16(|f.name|) + l6;
    var l3 := size + (size + l5);
    var l2 := Put32(CrcOf(f.content)) + l3;
    HasParts(bytes, at, Put32(LOCAL_SIGNATURE), Head(stamp) + l2);
    HasParts(bytes, at + 4, Head(stamp), l2);
    HasParts(bytes, at + 14, Put32(CrcOf(f.content)), l3);
    HasParts(bytes, at + 18, size, size + l5);
    HasParts(bytes, at + 22, size, l5);
    HasParts(bytes, at + 26, Put16(|f.name|), l6);
    HasParts(bytes, at + 28, Put16(0), l7);
    HasParts(bytes, at + 30, f.name, f.content);
    hide Local;
    Has32(bytes, at, LOCAL_SIGNATURE);
    HeadIsRead(bytes, at + 4, stamp);
    SizesAreRead(bytes, at + 14, f);
    Has16(bytes, at + 28, 0);
    HasBounds(bytes, at + 30, f.name);
    HasBounds(bytes, at + 30 + |f.name|, f.content);
  }

  /** A directory record, field by field: no comment, one disk, no attributes, and where the local header is. */
  lemma CentralLayout(bytes: seq<byte>, at: nat, f: File, stamp: Calendar.DosStamp, offset: nat)
    requires StampFits(stamp) && |f.name| < U16 && |f.content| < U32 && offset < U32
    requires Has(bytes, at, Central(f, stamp, offset))
    ensures at + 46 + |f.name| <= |bytes| && U32At(bytes, at) == CENTRAL_SIGNATURE && U16At(bytes, at + 4) == 20
    ensures HeadFields(bytes, at + 6, stamp) && SizeFields(bytes, at + 16, f)
    ensures U16At(bytes, at + 30) == 0 && U16At(bytes, at + 32) == 0 && U16At(bytes, at + 34) == 0
    ensures U16At(bytes, at + 36) == 0 && U32At(bytes, at + 38) == 0 && U32At(bytes, at + 42) == offset
    ensures bytes[at + 46..at + 46 + |f.name|] == f.name
  {
    hide Put16, Put32, Head, CentralTail, CrcOf, U16At, U32At, Has, HeadFields, SizeFields;
    var size := Put32(|f.content|);
    var c8 := Put32(offset) + f.name;
    var c7 := CentralTail() + c8;
    var c6 := Put16(|f.name|) + c7;
    var c5 := size + c6;
    var c4 := size + c5;
    var c3 := Put32(CrcOf(f.content)) + c4;
    var c2 := Head(stamp) + c3;
    HasParts(bytes, at, Put32(CENTRAL_SIGNATURE), Put16(20) + c2);
    HasParts(bytes, at + 4, Put16(20), c2);
    HasParts(bytes, at + 6, Head(stamp), c3);
    HasParts(bytes, at + 16, Put32(CrcOf(f.content)), c4);
    HasParts(bytes, at + 20, size, c5);
    HasParts(bytes, at + 24, size, c6);
    HasParts(bytes, at + 28, Put16(|f.name|), c7);
    HasParts(bytes, at + 30, CentralTail(), c8);
    HasParts(bytes, at + 42, Put32(offset), f.name);
    hide Central;
    Has32(bytes, at, CENTRAL_SIGNATURE);
    Has16(bytes, at + 4, 20);
    HeadIsRead(bytes, at + 6, stamp);
    SizesAreRead(bytes, at + 16, f);
    TailIsRead(bytes, at + 30);
    Has32(bytes, at + 42, offset);
    HasBounds(bytes, at + 46, f.name);
  }

  lemma TailIsRead(bytes: seq<byte>, at: nat)
    requires Has(bytes, at, CentralTail())
    ensures at + 12 <= |bytes| && U16At(bytes, at) == 0 && U16At(bytes, at + 2) == 0
    ensures U16At(bytes, at + 4) == 0 && U16At(bytes, at + 6) == 0 && U32At(bytes, at + 8) == 0
  {
    var none := Put16(0);
    assert CentralTail() == none + (none + (none + (none + Put32(0))));
    hide Put16, Put32, U16At, U32At, Has, CentralTail;
    HasParts(bytes, at, none, none + (none + (none + Put32(0))));
    HasParts(bytes, at + 2, none, none + (none + Put32(0)));
    HasParts(bytes, at + 4, none, none + Put32(0));
    HasParts(bytes, at + 6, none, Put32(0));
    Has16(bytes, at, 0);
    Has16(bytes, at + 2, 0);
    Has16(bytes, at + 4, 0);
    Has16(bytes, at + 6, 0);
    Has32(bytes, at + 8, 0);
  }

  lemma {:induction false} LocalsConcat(a: seq<File>, b: seq<File>, stamp: Calendar.DosStamp)
    requires stamp.time >= 0 && stamp.date >= 0
    ensures Locals(a + b, stamp) == Locals(a, stamp) + Locals(b, stamp)
  {
    hide Local;
    if a == [] {
      assert a + b == b;
    } else {
      assert (a + b)[0] == a[0] && (a + b)[1..] == a[1..] + b;
      LocalsConcat(a[1..], b, stamp);
      Associative(Local(a[0], stamp), Locals(a[1..], stamp), Locals(b, stamp));
    }
  }

  lemma {:induction false} CentralsConcat(a: seq<File>, b: seq<File>, stamp: Calendar.DosStamp, offset: nat)
    requires stamp.time >= 0 && stamp.date >= 0
    ensures Centrals(a + b, stamp, offset)
            == Centrals(a, stamp, offset) + Centrals(b, stamp, offset + |Locals(a, stamp)|)
    decreases |a|
  {
    hide Local, Central;
    if a == [] {
      assert a + b == b;
    } else {
      var next := offset + |Local(a[0], stamp)|;
      assert (a + b)[0] == a[0] && (a + b)[1..] == a[1..] + b;
      CentralsConcat(a[1..], b, stamp, next);
      Associative(Central(a[0], stamp, offset), Centrals(a[1..], stamp, next),
                  Centrals(b, stamp, next + |Locals(a[1..], stamp)|));
    }
  }

  /** Where the records of file `k` are: behind those of the files before it. */
  lemma RecordsOf(files: seq<File>, stamp: Calendar.DosStamp, k: nat)
    requires stamp.time >= 0 && stamp.date >= 0 && k < |files|
    ensures var bytes, before := Zipped(files, stamp), files[..k];
            && Has(bytes, |Locals(before, stamp)|, Local(files[k], stamp))
            && Has(bytes, |Locals(files, stamp)| + |Centrals(before, stamp, 0)|,
                   Central(files[k], stamp, |Locals(before, stamp)|))
  {
    hide Local, Central, EndRecord, Locals, Centrals;
    var before, rest, bytes := files[..k], files[k..], Zipped(files, stamp);
    var at := |Locals(before, stamp)|;
    assert files == before + rest && rest[0] == files[k];
    LocalsConcat(before, rest, stamp);
    CentralsConcat(before, rest, stamp, 0);
    FirstRecords(rest, stamp, at);
    var end := EndRecord(|files|, |Centrals(files, stamp, 0)|, |Locals(files, stamp)|);
    assert Has(bytes, 0, bytes);
    hide Has;
    HasParts(bytes, 0, Locals(files, stamp), Centrals(files, stamp, 0) + end);
    HasParts(bytes, |Locals(files, stamp)|, Centrals(files, stamp, 0), end);
    HasParts(bytes, 0, Locals(before, stamp), Locals(rest, stamp));
    HasParts(bytes, at, Local(files[k], stamp), Locals(rest[1..], stamp));
    HasParts(bytes, |Locals(files, stamp)|, Centrals(before, stamp, 0), Centrals(rest, stamp, at));
    HasParts(bytes, |Locals(files, stamp)| + |Centrals(before, stamp, 0)|, Central(files[k], stamp, at),
             Centrals(rest[1..], stamp, at + |Local(files[k], stamp)|));
  }

  /** Both headers of every file are stamped with the archive's date and time of day, to two seconds. */
  lemma EveryFileIsStamped(files: seq<File>, ms: int, k: nat)
    requires Calendar.DosDateTime(ms).time >= 0 && Calendar.DosDateTime(ms).date >= 0
    requires Fits(files, Calendar.DosDateTime(ms)) && k < |files| && 1980 <= Calendar.CivilDate(ms).year <= 2107
    ensures var stamp := Calendar.DosDateTime(ms);
            var bytes := Zipped(files, stamp);
            var local := |Locals(files[..k], stamp)|;
            var central := |Locals(files, stamp)| + |Centrals(files[..k], stamp, 0)|;
            && local + 30 <= |bytes| && IsStamp(bytes, local + 10, ms)
            && central + 46 <= |bytes| && IsStamp(bytes, central + 12, ms)
  {
    var stamp := Calendar.DosDateTime(ms);
    hide Calendar.DosDateTime, Calendar.CivilDate, Locals, Centrals, Zipped, Has, HeadFields, SizeFields, U32At;
    Calendar.DosDateRoundTrips(ms);
    Calendar.DosTimeRoundTrips(ms);
    RecordsOf(files, stamp, k);
    SizesFit(files, stamp, k);
    var local := |Locals(files[..k], stamp)|;
    var central := |Locals(files, stamp)| + |Centrals(files[..k], stamp, 0)|;
    LocalLayout(Zipped(files, stamp), local, files[k], stamp);
    CentralLayout(Zipped(files, stamp), central, files[k], stamp, local);
    StampIsRead(Zipped(files, stamp), local + 4, ms);
    StampIsRead(Zipped(files, stamp), central + 6, ms);
  }

  lemma SizesFit(files: seq<File>, stamp: Calendar.DosStamp, k: nat)
    requires stamp.time >= 0 && stamp.date >= 0 && Fits(files, stamp) && k < |files|
    ensures |files[k].name| < U16 && |files[k].content| < U32 && |Locals(files[..k], stamp)| < U32
  {
    hide Local, Locals;
    assert files == files[..k] + files[k..] && files[k..][0] == files[k];
    LocalsConcat(files[..k], files[k..], stamp);
    FirstRecords(files[k..], stamp, 0);
    LocalLength(files[k], stamp);
  }

  /** Time, then date: of this instant, the time of day to two seconds. */
  ghost predicate IsStamp(bytes: seq<byte>, at: nat, ms: int)
    requires at + 4 <= |bytes|
  {
    var secs := ms % Calendar.DAY_MS / 1000;
    && Calendar.SecondsOfDos(U16At(bytes, at)) == secs - secs % 2
    && Calendar.DateOfDos(U16At(bytes, at + 2)) == Calendar.CivilDate(ms)
  }

  lemma StampIsRead(bytes: seq<byte>, at: nat, ms: int)
    requires HeadFields(bytes, at, Calendar.DosDateTime(ms)) && 1980 <= Calendar.CivilDate(ms).year <= 2107
    ensures IsStamp(bytes, at + 6, ms)
  {
    hide Calendar.DosDateTime, Calendar.CivilDate, U16At, Calendar.SecondsOfDos, Calendar.DateOfDos;
    Calendar.DosDateRoundTrips(ms);
    Calendar.DosTimeRoundTrips(ms);
  }

  /** The end record, field by field: one disk, the directory's count twice, its size and place, no comment. */
  lemma EndLayout(files: seq<File>, stamp: Calendar.DosStamp)
    requires stamp.time >= 0 && stamp.date >= 0 && |files| < U16
    requires |Locals(files, stamp)| < U32 && |Centrals(files, stamp, 0)| < U32
    ensures var bytes, at := Zipped(files, stamp), |Locals(files, stamp)| + |Centrals(files, stamp, 0)|;
            && |bytes| == at + 22 && U32At(bytes, at) == END_SIGNATURE
            && U16At(bytes, at + 4) == 0 && U16At(bytes, at + 6) == 0
            && U16At(bytes, at + 8) == |files| && U16At(bytes, at + 10) == |files|
            && U32At(bytes, at + 12) == |Centrals(files, stamp, 0)|
            && U32At(bytes, at + 16) == |Locals(files, stamp)| && U16At(bytes, at + 20) == 0
  {
    hide *;
    EndIsThere(files, stamp);
    EndFields(Zipped(files, stamp), |Locals(files, stamp)| + |Centrals(files, stamp, 0)|,
              |files|, |Centrals(files, stamp, 0)|, |Locals(files, stamp)|);
  }

  lemma EndIsThere(files: seq<File>, stamp: Calendar.DosStamp)
    requires stamp.time >= 0 && stamp.date >= 0
    ensures var bytes, at := Zipped(files, stamp), |Locals(files, stamp)| + |Centrals(files, stamp, 0)|;
            && |bytes| == at + 22
            && Has(bytes, at, EndRecord(|files|, |Centrals(files, stamp, 0)|, |Locals(files, stamp)|))
  {
    hide Locals, Centrals, EndRecord;
    var locals, centrals := Locals(files, stamp), Centrals(files, stamp, 0);
    var bytes, end := Zipped(files, stamp), EndRecord(|files|, |centrals|, |locals|);
    assert Has(bytes, 0, bytes);
    hide Has;
    HasParts(bytes, 0, locals, centrals + end);
    HasParts(bytes, |locals|, centrals, end);
  }

  lemma EndFields(bytes: seq<byte>, at: nat, files: nat, centrals: nat, locals: nat)
    requires Has(bytes, at, EndRecord(files, centrals, locals)) && files < U16 && centrals < U32 && locals < U32
    ensures at + 22 <= |bytes| && U32At(bytes, at) == END_SIGNATURE
    ensures U16At(bytes, at + 4) == 0 && U16At(bytes, at + 6) == 0
    ensures U16At(bytes, at + 8) == files && U16At(bytes, at + 10) == files
    ensures U32At(bytes, at + 12) == centrals && U32At(bytes, at + 16) == locals && U16At(bytes, at + 20) == 0
  {
    hide U16At, U32At, Put16, Put32, Has;
    var count, size, offset, none := Put16(files), Put32(centrals), Put32(locals), Put16(0);
    var e4 := count + (size + (offset + none));
    HasParts(bytes, at, Put32(END_SIGNATURE), none + (none + (count + e4)));
    HasParts(bytes, at + 4, none, none + (count + e4));
    HasParts(bytes, at + 6, none, count + e4);
    HasParts(bytes, at + 8, count, e4);
    HasParts(bytes, at + 10, count, size + (offset + none));
    HasParts(bytes, at + 12, size, offset + none);
    HasParts(bytes, at + 16, offset, none);
    hide EndRecord;
    Has32(bytes, at, END_SIGNATURE);
    Has16(bytes, at + 4, 0);
    Has16(bytes, at + 6, 0);
    Has16(bytes, at + 8, files);
    Has16(bytes, at + 10, files);
    Has32(bytes, at + 12, centrals);
    Has32(bytes, at + 16, locals);
    Has16(bytes, at + 20, 0);
  }

  /** Fields are little-endian: the records begin with the letters PK and their kind. */
  lemma RecordsBeginWithPK()
    ensures Put32(LOCAL_SIGNATURE) == [0x50, 0x4b, 3, 4]
    ensures Put32(CENTRAL_SIGNATURE) == [0x50, 0x4b, 1, 2]
    ensures Put32(END_SIGNATURE) == [0x50, 0x4b, 5, 6]
    ensures Put16(0x1234) == [0x34, 0x12]
  {
  }
}
