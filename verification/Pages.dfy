/** Bucket pages in the two files: what `flush` writes, `load` reads back. */
module Pages {
  import opened Buffers
  import opened Options
  import opened Storage
  import opened TableModel

  /** The value that stands for "no overflow bucket". */
  const NO_OVERFLOW: uint64 := TWO_64 - 1

  const BUCKET_METADATA_SIZE := 16

  type Rec = (string, Record)

  // ---- Records -----------------------------------------------------------------------------

  predicate Int64(v: int) {
    -(TWO_64 / 2) <= v < TWO_64 / 2
  }

  /** A record as the program holds it: byte strings, and 64-bit timestamps. */
  predicate RecordOk(r: Rec) {
    && |r.0| < TWO_64 && (forall i | 0 <= i < |r.0| :: r.0[i] as int < 256)
    && Int64(r.1.created) && Int64(r.1.expiration) && |r.1.value.raw| < TWO_64
  }

  function Chars(s: string): (b: seq<Byte>)
    requires forall i | 0 <= i < |s| :: s[i] as int < 256
    ensures |b| == |s|
  {
    seq(|s|, i requires 0 <= i < |s| && s[i] as int < 256 => s[i] as int)
  }

  function FromChars(b: seq<Byte>): string {
    seq(|b|, i requires 0 <= i < |b| => b[i] as char)
  }

  lemma CharsRoundTrip(s: string)
    requires forall i | 0 <= i < |s| :: s[i] as int < 256
    ensures FromChars(Chars(s)) == s
  {
  }

  /** An integer in order `order`, whatever the host. */
  function Word(order: Endian, v: uint64): (s: seq<Byte>)
    ensures |s| == 8
  {
    Encoded(order, order, v)
  }

  function EncodeKey(order: Endian, r: Rec): (s: seq<Byte>)
    requires RecordOk(r)
    ensures |s| == 8 + |r.0|
  {
    Word(order, |r.0|) + Chars(r.0)
  }

  function EncodeStamps(order: Endian, r: Rec): (s: seq<Byte>)
    requires RecordOk(r)
    ensures |s| == 17
  {
    [r.1.value.valueType] + Word(order, ToUnsigned(r.1.created)) + Word(order, ToUnsigned(r.1.expiration))
  }

  function EncodeRaw(order: Endian, r: Rec): (s: seq<Byte>)
    requires RecordOk(r)
    ensures |s| == 8 + |r.1.value.raw|
  {
    Word(order, |r.1.value.raw|) + r.1.value.raw
  }

  /** Key length, key, value type, creation time, expiration time, value length, value. */
  function EncodeRecord(order: Endian, r: Rec): (s: seq<Byte>)
    requires RecordOk(r)
    ensures |s| == 33 + |r.0| + |r.1.value.raw|
  {
    EncodeKey(order, r) + EncodeStamps(order, r) + EncodeRaw(order, r)
  }

  function EncodeRecords(order: Endian, rs: seq<Rec>): seq<Byte>
    requires forall i | 0 <= i < |rs| :: RecordOk(rs[i])
  {
    if rs == [] then [] else EncodeRecord(order, rs[0]) + EncodeRecords(order, rs[1..])
  }

  /** `serialize`. */
  method Serialize(r: Rec, buffer: Buffer)
    requires buffer.Valid() && RecordOk(r) && buffer.index + |EncodeRecord(buffer.order, r)| <= buffer.stop
    modifies buffer`index, buffer.bytes
    ensures buffer.Valid() && buffer.Written() == old(buffer.Written()) + EncodeRecord(buffer.order, r)
    ensures buffer.index == old(buffer.index) + |EncodeRecord(buffer.order, r)|
  {
    hide Word, Chars, EncodeKey, EncodeStamps, EncodeRaw;
    SerializeKey(r, buffer);
    SerializeStamps(r, buffer);
    SerializeRaw(r, buffer);
  }

  method SerializeKey(r: Rec, buffer: Buffer)
    requires buffer.Valid() && RecordOk(r) && buffer.index + 8 + |r.0| <= buffer.stop
    modifies buffer`index, buffer.bytes
    ensures buffer.Valid() && buffer.Written() == old(buffer.Written()) + EncodeKey(buffer.order, r)
    ensures buffer.index == old(buffer.index) + 8 + |r.0|
  {
    hide Word, Chars;
    PutWord(buffer, |r.0|);
    var ok := buffer.PutBytes(Chars(r.0));
  }

  method SerializeStamps(r: Rec, buffer: Buffer)
    requires buffer.Valid() && RecordOk(r) && buffer.index + 17 <= buffer.stop
    modifies buffer`index, buffer.bytes
    ensures buffer.Valid() && buffer.Written() == old(buffer.Written()) + EncodeStamps(buffer.order, r)
    ensures buffer.index == old(buffer.index) + 17
  {
    hide Word, Chars;
    var ok := buffer.PutBytes([r.1.value.valueType]);
    PutWord(buffer, ToUnsigned(r.1.created));
    PutWord(buffer, ToUnsigned(r.1.expiration));
  }

  method SerializeRaw(r: Rec, buffer: Buffer)
    requires buffer.Valid() && RecordOk(r) && buffer.index + 8 + |r.1.value.raw| <= buffer.stop
    modifies buffer`index, buffer.bytes
    ensures buffer.Valid() && buffer.Written() == old(buffer.Written()) + EncodeRaw(buffer.order, r)
    ensures buffer.index == old(buffer.index) + 8 + |r.1.value.raw|
  {
    hide Word, Chars;
    PutWord(buffer, |r.1.value.raw|);
    var ok := buffer.PutBytes(r.1.value.raw);
  }

  method PutWord(buffer: Buffer, v: uint64)
    requires buffer.Valid() && buffer.index + 8 <= buffer.stop
    modifies buffer`index, buffer.bytes
    ensures buffer.Valid() && buffer.index == old(buffer.index) + 8
    ensures buffer.Written() == old(buffer.Written()) + Word(buffer.order, v)
  {
    var ok := buffer.PutUint64(v);
    EncodedAnyHost(buffer.host, buffer.order, buffer.order, v);
  }

  // ---- Reading back ------------------------------------------------------------------------

  method GetWord(buffer: Buffer, ghost v: uint64, ghost rest: seq<Byte>) returns (w: uint64)
    requires buffer.Valid() && buffer.Left() == Word(buffer.order, v) + rest
    modifies buffer`index
    ensures buffer.Valid() && w == v && buffer.Left() == rest
  {
    EncodedAnyHost(buffer.order, buffer.host, buffer.order, v);
    var left := buffer.GetUint64();
    w := left.value;
  }

  method GetSome(buffer: Buffer, count: nat, ghost data: seq<Byte>, ghost rest: seq<Byte>) returns (got: seq<Byte>)
    requires buffer.Valid() && buffer.Left() == data + rest && |data| == count
    modifies buffer`index
    ensures buffer.Valid() && got == data && buffer.Left() == rest
  {
    var left := buffer.GetBytes(count);
    got := left.value;
  }

  /** `deserialize` on a buffer that holds an encoded record: it is the record, and what follows is left. */
  method Deserialize(buffer: Buffer, ghost r: Rec, ghost rest: seq<Byte>) returns (got: Rec)
    requires buffer.Valid() && RecordOk(r) && buffer.Left() == EncodeRecord(buffer.order, r) + rest
    modifies buffer`index
    ensures buffer.Valid() && got == r && buffer.Left() == rest
  {
    hide Word, Chars, EncodeKey, EncodeStamps, EncodeRaw;
    ghost var raw := EncodeRaw(buffer.order, r) + rest;
    ghost var stamps := EncodeStamps(buffer.order, r) + raw;
    assert buffer.Left() == EncodeKey(buffer.order, r) + stamps;
    var key := DeserializeKey(buffer, r, stamps);
    var valueType, created, expiration := DeserializeStamps(buffer, r, raw);
    var value := DeserializeRaw(buffer, r, rest);
    got := (key, Record(Value(valueType, value), created, expiration));
  }

  method DeserializeKey(buffer: Buffer, ghost r: Rec, ghost rest: seq<Byte>) returns (key: string)
    requires buffer.Valid() && RecordOk(r) && buffer.Left() == EncodeKey(buffer.order, r) + rest
    modifies buffer`index
    ensures buffer.Valid() && key == r.0 && buffer.Left() == rest
  {
    hide Word, Chars;
    assert buffer.Left() == Word(buffer.order, |r.0|) + (Chars(r.0) + rest);
    var keySize := GetWord(buffer, |r.0|, Chars(r.0) + rest);
    var chars := GetSome(buffer, keySize, Chars(r.0), rest);
    CharsRoundTrip(r.0);
    key := FromChars(chars);
  }

  method DeserializeStamps(buffer: Buffer, ghost r: Rec, ghost rest: seq<Byte>)
    returns (valueType: Byte, created: int, expiration: int)
    requires buffer.Valid() && RecordOk(r) && buffer.Left() == EncodeStamps(buffer.order, r) + rest
    modifies buffer`index
    ensures buffer.Valid() && valueType == r.1.value.valueType && created == r.1.created && expiration == r.1.expiration
    ensures buffer.Left() == rest
  {
    hide Word;
    ghost var c, e := ToUnsigned(r.1.created), ToUnsigned(r.1.expiration);
    assert buffer.Left() == [r.1.value.valueType] + (Word(buffer.order, c) + (Word(buffer.order, e) + rest));
    var b := GetSome(buffer, 1, [r.1.value.valueType], Word(buffer.order, c) + (Word(buffer.order, e) + rest));
    valueType := b[0];
    var w := GetWord(buffer, c, Word(buffer.order, e) + rest);
    created := ToSigned(w);
    w := GetWord(buffer, e, rest);
    expiration := ToSigned(w);
  }

  method DeserializeRaw(buffer: Buffer, ghost r: Rec, ghost rest: seq<Byte>) returns (raw: seq<Byte>)
    requires buffer.Valid() && RecordOk(r) && buffer.Left() == EncodeRaw(buffer.order, r) + rest
    modifies buffer`index
    ensures buffer.Valid() && raw == r.1.value.raw && buffer.Left() == rest
  {
    hide Word;
    assert buffer.Left() == Word(buffer.order, |r.1.value.raw|) + (r.1.value.raw + rest);
    var valueSize := GetWord(buffer, |r.1.value.raw|, r.1.value.raw + rest);
    raw := GetSome(buffer, valueSize, r.1.value.raw, rest);
  }

  // ---- Pages -------------------------------------------------------------------------------

  /** The records of a page fit the encoded record size that the table was made with. */
  ghost predicate Fit(order: Endian, rs: seq<Rec>, recordSize: nat) {
    forall i | 0 <= i < |rs| :: RecordOk(rs[i]) && |EncodeRecord(order, rs[i])| <= recordSize
  }

  predicate OverflowOk(overflow: Option<nat>) {
    overflow.Some? ==> overflow.value < NO_OVERFLOW
  }

  function OverflowWord(overflow: Option<nat>): uint64
    requires OverflowOk(overflow)
  {
    if overflow.Some? then overflow.value else NO_OVERFLOW
  }

  function EncodePage(order: Endian, overflow: Option<nat>, rs: seq<Rec>): seq<Byte>
    requires OverflowOk(overflow) && |rs| < TWO_64 && forall i | 0 <= i < |rs| :: RecordOk(rs[i])
  {
    Word(order, OverflowWord(overflow)) + Word(order, |rs|) + EncodeRecords(order, rs)
  }

  lemma {:induction false} RecordsFit(order: Endian, rs: seq<Rec>, recordSize: nat)
    requires Fit(order, rs, recordSize)
    ensures |EncodeRecords(order, rs)| <= Room(recordSize, |rs|)
  {
    if rs != [] {
      RecordsFit(order, rs[1..], recordSize);
    }
  }

  lemma {:induction false} EncodeOneMore(order: Endian, rs: seq<Rec>, i: nat)
    requires i < |rs| && forall j | 0 <= j < |rs| :: RecordOk(rs[j])
    ensures EncodeRecords(order, rs[..i + 1]) == EncodeRecords(order, rs[..i]) + EncodeRecord(order, rs[i])
    ensures EncodeRecords(order, rs[i..]) == EncodeRecord(order, rs[i]) + EncodeRecords(order, rs[i + 1..])
  {
    hide EncodeRecord, RecordOk;
    assert rs[i..][0] == rs[i] && rs[i..][1..] == rs[i + 1..];
    if i == 0 {
      assert rs[..1] == [rs[0]] && rs[..1][1..] == [] && rs[..0] == [];
    } else {
      EncodeOneMore(order, rs[1..], i - 1);
      assert rs[..i + 1][1..] == rs[1..][..i] && rs[..i][1..] == rs[1..][..i - 1];
    }
  }

  /** The part of `flush` that writes a page. */
  method FlushPage(host: Endian, order: Endian, overflow: Option<nat>, records: seq<Rec>, recordSize: nat) returns (page: seq<Byte>)
    requires OverflowOk(overflow) && Fit(order, records, recordSize)
    requires BUCKET_METADATA_SIZE + Room(recordSize, |records|) < TWO_64 && |records| < TWO_64
    ensures page == EncodePage(order, overflow, records)
  {
    hide Word, EncodeRecord, EncodeRecords, RecordOk;
    RecordsFit(order, records, recordSize);
    var buffer := new Buffer(host, order, BUCKET_METADATA_SIZE + Room(recordSize, |records|));
    PutWord(buffer, OverflowWord(overflow));
    PutWord(buffer, |records|);
    SerializeAll(records, buffer);
    buffer.SwitchMode();
    page := buffer.bytes[buffer.index..buffer.stop];
  }

  method SerializeAll(records: seq<Rec>, buffer: Buffer)
    requires buffer.Valid() && forall i | 0 <= i < |records| :: RecordOk(records[i])
    requires buffer.index + |EncodeRecords(buffer.order, records)| <= buffer.stop
    modifies buffer`index, buffer.bytes
    ensures buffer.Valid() && buffer.Written() == old(buffer.Written()) + EncodeRecords(buffer.order, records)
  {
    hide EncodeRecord, EncodeRecords, RecordOk;
    ghost var head := buffer.Written();
    NoneEncoded(buffer.order, records);
    var i := 0;
    while i < |records|
      invariant i <= |records| && buffer.Valid()
      invariant buffer.Written() == head + EncodeRecords(buffer.order, records[..i])
      invariant buffer.index + |EncodeRecords(buffer.order, records[i..])| <= buffer.stop
    {
      EncodeOneMore(buffer.order, records, i);
      Serialize(records[i], buffer);
      i := i + 1;
    }
    assert records[..|records|] == records;
  }

  lemma NoneEncoded(order: Endian, rs: seq<Rec>)
    requires forall i | 0 <= i < |rs| :: RecordOk(rs[i])
    ensures EncodeRecords(order, rs[..0]) == [] && EncodeRecords(order, rs[|rs|..]) == []
    ensures rs[0..] == rs
  {
  }

  /** `fread` at an offset: fewer bytes than asked for at the end of the file. */
  function ReadAt(file: seq<Byte>, offset: nat, count: nat): seq<Byte> {
    if offset >= |file| then []
    else if offset + count <= |file| then file[offset..offset + count]
    else file[offset..]
  }

  /** A page lies in the file at an offset; anything may follow. */
  ghost predicate PageAt(file: seq<Byte>, offset: nat, order: Endian, overflow: Option<nat>, rs: seq<Rec>)
    requires OverflowOk(overflow) && |rs| < TWO_64 && forall i | 0 <= i < |rs| :: RecordOk(rs[i])
  {
    && offset + |EncodePage(order, overflow, rs)| <= |file|
    && file[offset..offset + |EncodePage(order, overflow, rs)|] == EncodePage(order, overflow, rs)
  }

  /** A buffer filled from the file and switched to reading. */
  method Filled(host: Endian, order: Endian, file: seq<Byte>, offset: nat, count: uint64) returns (buffer: Buffer)
    ensures fresh(buffer) && fresh(buffer.bytes) && buffer.Valid() && buffer.host == host && buffer.order == order
    ensures buffer.Left() == ReadAt(file, offset, count)
  {
    buffer := new Buffer(host, order, count);
    var data := ReadAt(file, offset, count);
    forall i | 0 <= i < |data| {
      buffer.bytes[i] := data[i];
    }
    buffer.index := |data|;
    assert buffer.Written() == data;
    buffer.SwitchMode();
  }

  /** The part of `load` that reads a page: the same records in order and the same overflow bucket, on
      any host, whatever lies behind the page in its slot. */
  method LoadPage(host: Endian, order: Endian, file: seq<Byte>, offset: nat, recordSize: nat,
                  ghost overflow: Option<nat>, ghost rs: seq<Rec>)
    returns (overflowIndex: Option<nat>, records: seq<Rec>)
    requires OverflowOk(overflow) && |rs| < TWO_64 && Fit(order, rs, recordSize) && Room(recordSize, |rs|) < TWO_64
    requires PageAt(file, offset, order, overflow, rs)
    ensures overflowIndex == overflow && records == rs
  {
    hide Word, EncodeRecord, EncodeRecords, EncodePage, RecordOk, PageAt, ReadAt;
    RecordsFit(order, rs, recordSize);
    ghost var rest := PageParts(file, offset, order, overflow, rs, recordSize);
    var metabuf := Filled(host, order, file, offset, BUCKET_METADATA_SIZE);
    assert metabuf.Left() == Word(order, OverflowWord(overflow)) + (Word(order, |rs|) + []);
    var index := GetWord(metabuf, OverflowWord(overflow), Word(order, |rs|) + []);
    var count := GetWord(metabuf, |rs|, []);
    var buffer := Filled(host, order, file, offset + BUCKET_METADATA_SIZE, Room(recordSize, count));
    records := DeserializeAll(buffer, count, rs, rest);
    overflowIndex := if index == NO_OVERFLOW then None else Some(index);
  }

  method DeserializeAll(buffer: Buffer, count: nat, ghost rs: seq<Rec>, ghost rest: seq<Byte>) returns (records: seq<Rec>)
    requires buffer.Valid() && count == |rs| && forall i | 0 <= i < |rs| :: RecordOk(rs[i])
    requires buffer.Left() == EncodeRecords(buffer.order, rs) + rest
    modifies buffer`index
    ensures records == rs
  {
    hide EncodeRecord, EncodeRecords, RecordOk;
    records := [];
    var i := 0;
    NoneEncoded(buffer.order, rs);
    while i < count
      invariant i <= count && buffer.Valid() && records == rs[..i]
      invariant buffer.Left() == EncodeRecords(buffer.order, rs[i..]) + rest
    {
      EncodeOneMore(buffer.order, rs, i);
      ghost var after := EncodeRecords(buffer.order, rs[i + 1..]) + rest;
      assert buffer.Left() == EncodeRecord(buffer.order, rs[i]) + after;
      var r := Deserialize(buffer, rs[i], after);
      records := records + [r];
      i := i + 1;
    }
  }

  /** What the two reads of `load` see. */
  lemma PageParts(file: seq<Byte>, offset: nat, order: Endian, overflow: Option<nat>, rs: seq<Rec>, recordSize: nat)
    returns (rest: seq<Byte>)
    requires OverflowOk(overflow) && |rs| < TWO_64 && Fit(order, rs, recordSize)
    requires PageAt(file, offset, order, overflow, rs) && |EncodeRecords(order, rs)| <= Room(recordSize, |rs|)
    ensures ReadAt(file, offset, 16) == Word(order, OverflowWord(overflow)) + Word(order, |rs|)
    ensures ReadAt(file, offset + 16, Room(recordSize, |rs|)) == EncodeRecords(order, rs) + rest
  {
    hide Word, EncodeRecords;
    var page, body := EncodePage(order, overflow, rs), EncodeRecords(order, rs);
    var head := Word(order, OverflowWord(overflow)) + Word(order, |rs|);
    assert page == head + body && |page| == 16 + |body|;
    assert file[offset..offset + 16] == page[..16] == head;
    assert file[offset + 16..offset + 16 + |body|] == page[16..] == body;
    var seen := ReadAt(file, offset + 16, Room(recordSize, |rs|));
    if |body| > 0 {
      assert seen[..|body|] == file[offset + 16..offset + 16 + |body|];
    }
    rest := seen[|body|..];
  }

  // ---- Slots -------------------------------------------------------------------------------

  /** `to_file_offset`. */
  function FileOffset(capacity: nat, recordSize: nat, bucketIndex: nat): nat {
    Room(BUCKET_METADATA_SIZE + Room(recordSize, capacity), bucketIndex)
  }

  /** The slots lie one behind the other, each with room for the two words of a bucket and all its records. */
  lemma OffsetIs(capacity: nat, recordSize: nat, bucketIndex: nat)
    ensures FileOffset(capacity, recordSize, bucketIndex) == bucketIndex * (16 + capacity * recordSize)
  {
    RoomIsProduct(recordSize, capacity);
    RoomIsProduct(BUCKET_METADATA_SIZE + Room(recordSize, capacity), bucketIndex);
  }

  /** Writing at an offset; a gap behind the end of the file is filled with zeros. */
  function WriteAt(file: seq<Byte>, offset: nat, data: seq<Byte>): seq<Byte> {
    var padded := if offset <= |file| then file[..offset] else file + seq(offset - |file|, _ => 0);
    padded + data + (if offset + |data| <= |file| then file[offset + |data|..] else [])
  }

  lemma PageInSlot(order: Endian, overflow: Option<nat>, rs: seq<Rec>, capacity: nat, recordSize: nat, i: nat)
    requires OverflowOk(overflow) && |rs| < TWO_64 && Fit(order, rs, recordSize) && |rs| <= capacity
    ensures FileOffset(capacity, recordSize, i) + |EncodePage(order, overflow, rs)| <= FileOffset(capacity, recordSize, i + 1)
  {
    RecordsFit(order, rs, recordSize);
    RoomAtLeast(recordSize, capacity, |rs|);
  }

  /** Writing the page of one bucket stores it and leaves every other bucket's page in place: the file is a
      map from slots to pages. */
  lemma SlotsAreApart(file: seq<Byte>, order: Endian, capacity: nat, recordSize: nat,
                      i: nat, overflow: Option<nat>, rs: seq<Rec>, j: nat, overflow': Option<nat>, rs': seq<Rec>)
    requires OverflowOk(overflow) && |rs| < TWO_64 && Fit(order, rs, recordSize) && |rs| <= capacity
    requires OverflowOk(overflow') && |rs'| < TWO_64 && Fit(order, rs', recordSize) && |rs'| <= capacity
    ensures var written := WriteAt(file, FileOffset(capacity, recordSize, i), EncodePage(order, overflow, rs));
      && PageAt(written, FileOffset(capacity, recordSize, i), order, overflow, rs)
      && (i != j && PageAt(file, FileOffset(capacity, recordSize, j), order, overflow', rs') ==>
            PageAt(written, FileOffset(capacity, recordSize, j), order, overflow', rs'))
  {
    hide EncodePage, EncodeRecord, RecordOk, WriteAt, Room;
    var p, q := EncodePage(order, overflow, rs), EncodePage(order, overflow', rs');
    var a, b := FileOffset(capacity, recordSize, i), FileOffset(capacity, recordSize, j);
    PageInSlot(order, overflow, rs, capacity, recordSize, i);
    PageInSlot(order, overflow', rs', capacity, recordSize, j);
    WriteIsThere(file, a, p);
    if i < j {
      RoomAtLeast(BUCKET_METADATA_SIZE + Room(recordSize, capacity), j, i + 1);
      WriteElsewhere(file, a, p, b, |q|);
    } else if j < i {
      RoomAtLeast(BUCKET_METADATA_SIZE + Room(recordSize, capacity), i, j + 1);
      WriteElsewhere(file, a, p, b, |q|);
    }
  }

  lemma WriteIsThere(file: seq<Byte>, offset: nat, data: seq<Byte>)
    ensures var w := WriteAt(file, offset, data); offset + |data| <= |w| && w[offset..offset + |data|] == data
  {
  }

  lemma WriteElsewhere(file: seq<Byte>, offset: nat, data: seq<Byte>, at: nat, n: nat)
    requires offset + |data| <= at || at + n <= offset
    ensures var w := WriteAt(file, offset, data);
      at + n <= |file| ==> at + n <= |w| && w[at..at + n] == file[at..at + n]
  {
    var w := WriteAt(file, offset, data);
    if at + n <= |file| {
      forall k | at <= k < at + n
        ensures k < |w| && w[k] == file[k]
      {
      }
    }
  }

  /** The table metadata goes behind the last primary bucket, and the file is cut after it: the pages of
      all primary buckets stay. */
  lemma MetadataKeepsPages(file: seq<Byte>, order: Endian, capacity: nat, recordSize: nat, count: nat, meta: seq<Byte>,
                           j: nat, overflow: Option<nat>, rs: seq<Rec>)
    requires OverflowOk(overflow) && |rs| < TWO_64 && Fit(order, rs, recordSize) && |rs| <= capacity && j < count
    requires PageAt(file, FileOffset(capacity, recordSize, j), order, overflow, rs)
    ensures var end := FileOffset(capacity, recordSize, count);
      && end + |meta| <= |WriteAt(file, end, meta)|
      && PageAt(WriteAt(file, end, meta)[..end + |meta|], FileOffset(capacity, recordSize, j), order, overflow, rs)
  {
    hide EncodePage, EncodeRecord, RecordOk;
    var q := EncodePage(order, overflow, rs);
    var end, b := FileOffset(capacity, recordSize, count), FileOffset(capacity, recordSize, j);
    PageInSlot(order, overflow, rs, capacity, recordSize, j);
    RoomAtLeast(BUCKET_METADATA_SIZE + Room(recordSize, capacity), count, j + 1);
    WriteIsThere(file, end, meta);
    WriteElsewhere(file, end, meta, b, |q|);
  }
}
