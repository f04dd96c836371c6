/**
 The `VersionEdit` record format (src/db/version_edit.cpp, src/db/version_edit.h).

 An encoded edit is a list of fields, each a tag followed by the items its tag calls for.
 `EncodeTo` and `DecodeFrom` are the source's loops; `EncodedEdit` and `Decoded` say what they compute.
 */
module EditCodec {
  import opened Common
  import opened Coding

  const NUM_LEVELS := 7

  const LOG_NUMBER: uint32 := 0
  const NEXT_FILE_NUMBER: uint32 := 1
  const LAST_SEQUENCE: uint32 := 2
  const COMPACT_POINTER: uint32 := 3
  const DELETED_FILE: uint32 := 4
  const NEW_FILE: uint32 := 5

  /** A `FileMate` with its keys as the byte strings they are stored as. */
  datatype NewFile = NewFile(level: uint32, num: uint64, size: uint64, smallest: seq<byte>, largest: seq<byte>)

  /** `deleted` lists the `std::set` of (level, number) pairs in its iteration order. */
  datatype VersionEdit = VersionEdit(
    log: Option<uint64>, next: Option<uint64>, sequence: Option<uint64>,
    pointers: seq<(uint32, seq<byte>)>, deleted: seq<(uint32, uint64)>, added: seq<NewFile>)

  const EMPTY_EDIT := VersionEdit(None, None, None, [], [], [])

  // ---------------------------------------------------------------- the set of deleted files

  predicate PairLt(a: (uint32, uint64), b: (uint32, uint64)) {
    a.0 < b.0 || (a.0 == b.0 && a.1 < b.1)
  }

  ghost predicate Ascending(s: seq<(uint32, uint64)>) {
    forall i, j :: 0 <= i < j < |s| ==> PairLt(s[i], s[j])
  }

  /** `std::set::insert`. */
  function InsertPair(s: seq<(uint32, uint64)>, x: (uint32, uint64)): seq<(uint32, uint64)> {
    if s == [] then [x]
    else if PairLt(x, s[0]) then [x] + s
    else if x == s[0] then s
    else [s[0]] + InsertPair(s[1..], x)
  }

  lemma {:induction false} InsertPairCorrect(s: seq<(uint32, uint64)>, x: (uint32, uint64))
    requires Ascending(s)
    ensures Ascending(InsertPair(s, x))
    ensures forall y :: y in InsertPair(s, x) <==> y in s || y == x
  {
    if s != [] && !PairLt(x, s[0]) && x != s[0] {
      InsertPairCorrect(s[1..], x);
      var r := InsertPair(s[1..], x);
      assert s == [s[0]] + s[1..];
      forall i | 0 <= i < |r| ensures PairLt(s[0], r[i]) {
        assert r[i] in r;
      }
    }
  }

  lemma {:induction false} InsertPairLast(s: seq<(uint32, uint64)>, x: (uint32, uint64))
    requires Ascending(s + [x])
    ensures InsertPair(s, x) == s + [x]
  {
    if s != [] {
      assert (s + [x])[0] == s[0] && (s + [x])[|s|] == x;
      assert PairLt(s[0], x);
      assert (s + [x])[1..] == s[1..] + [x];
      InsertPairLast(s[1..], x);
    }
  }

  // ---------------------------------------------------------------- items and fields

  datatype Item = Level | Number | Key

  datatype Datum = Num(n: uint64) | Str(s: seq<byte>)

  datatype Field = Field(tag: uint32, data: seq<Datum>)

  /** What `DecodeFrom` reads after a tag; tag 3, which `EncodeTo` writes, is not among the cases. */
  function Schema(tag: uint32): Option<seq<Item>> {
    if tag <= LAST_SEQUENCE then Some([Number])
    else if tag == DELETED_FILE then Some([Level, Number])
    else if tag == NEW_FILE then Some([Level, Number, Number, Key, Key])
    else None
  }

  function DatumBytes(d: Datum): seq<byte> {
    match d
    case Num(n) => Varint(n)
    case Str(s) => LengthPrefixed(s)
  }

  function DataBytes(data: seq<Datum>): seq<byte> {
    if data == [] then [] else DatumBytes(data[0]) + DataBytes(data[1..])
  }

  function FieldBytes(f: Field): seq<byte> {
    Varint(f.tag) + DataBytes(f.data)
  }

  function FieldsBytes(fields: seq<Field>): seq<byte> {
    if fields == [] then [] else FieldBytes(fields[0]) + FieldsBytes(fields[1..])
  }

  /** `GetLevel`, `GetVarint64` and `GetInternalKey`. */
  function ParseItem(item: Item, s: seq<byte>): (r: Option<(Datum, seq<byte>)>)
    ensures r.Some? ==> |r.value.1| < |s|
  {
    match item
    case Level =>
      (match GetVarint32(s)
       case None => None
       case Some((v, rest)) => if v < NUM_LEVELS then Some((Num(v), rest)) else None)
    case Number =>
      (match GetVarint64(s)
       case None => None
       case Some((v, rest)) => Some((Num(v), rest)))
    case Key =>
      (match GetLengthPrefixed(s)
       case None => None
       case Some((k, rest)) => if k != [] then Some((Str(k), rest)) else None)
  }

  function ParseItems(items: seq<Item>, s: seq<byte>): (r: Option<(seq<Datum>, seq<byte>)>)
    ensures r.Some? ==> |r.value.1| <= |s|
  {
    if items == [] then Some(([], s))
    else
      match ParseItem(items[0], s)
      case None => None
      case Some((d, rest)) =>
        match ParseItems(items[1..], rest)
        case None => None
        case Some((data, end)) => Some(([d] + data, end))
  }

  /** One field, if the input starts with a known tag and all of its items. */
  function ParseField(s: seq<byte>): (r: Option<(Field, seq<byte>)>)
    ensures r.Some? ==> |r.value.1| < |s|
    ensures r.Some? ==> FieldShape(r.value.0)
  {
    match GetVarint32(s)
    case None => None
    case Some((tag, rest)) =>
      match Schema(tag)
      case None => None
      case Some(items) =>
        match ParseItems(items, rest)
        case None => None
        case Some((data, end)) =>
          ParsedShape(items, rest);
          Some((Field(tag, data), end))
  }

  predicate ItemFits(item: Item, d: Datum) {
    match item
    case Level => d.Num? && d.n < NUM_LEVELS
    case Number => d.Num?
    case Key => d.Str? && d.s != []
  }

  predicate ItemsFit(items: seq<Item>, data: seq<Datum>) {
    |items| == |data| && forall i :: 0 <= i < |items| ==> ItemFits(items[i], data[i])
  }

  /** A field that `DecodeFrom` can have read. */
  predicate FieldShape(f: Field) {
    Schema(f.tag).Some? && ItemsFit(Schema(f.tag).value, f.data)
  }

  lemma {:induction false} ParsedShape(items: seq<Item>, s: seq<byte>)
    requires ParseItems(items, s).Some?
    ensures ItemsFit(items, ParseItems(items, s).value.0)
  {
    if items != [] {
      ParsedShape(items[1..], ParseItem(items[0], s).value.1);
    }
  }

  predicate Shaped(fields: seq<Field>) {
    forall f :: f in fields ==> FieldShape(f)
  }

  function NewFileOf(data: seq<Datum>): NewFile
    requires ItemsFit([Level, Number, Number, Key, Key], data)
  {
    NewFile(data[0].n, data[1].n, data[2].n, data[3].s, data[4].s)
  }

  function ApplyField(e: VersionEdit, f: Field): VersionEdit
    requires FieldShape(f)
  {
    if f.tag == LOG_NUMBER then e.(log := Some(f.data[0].n))
    else if f.tag == NEXT_FILE_NUMBER then e.(next := Some(f.data[0].n))
    else if f.tag == LAST_SEQUENCE then e.(sequence := Some(f.data[0].n))
    else if f.tag == DELETED_FILE then e.(deleted := InsertPair(e.deleted, (f.data[0].n, f.data[1].n)))
    else e.(added := e.added + [NewFileOf(f.data)])
  }

  function ApplyAll(e: VersionEdit, fields: seq<Field>): VersionEdit
    requires Shaped(fields)
    decreases fields
  {
    if fields == [] then e else ApplyAll(ApplyField(e, fields[0]), fields[1..])
  }

  // ---------------------------------------------------------------- what is encoded and decoded

  function OptionField(tag: uint32, v: Option<uint64>): seq<Field> {
    if v.Some? then [Field(tag, [Num(v.value)])] else []
  }

  function PointerField(p: (uint32, seq<byte>)): Field { Field(COMPACT_POINTER, [Num(p.0), Str(p.1)]) }

  function DeletedField(d: (uint32, uint64)): Field { Field(DELETED_FILE, [Num(d.0), Num(d.1)]) }

  function AddedField(f: NewFile): Field {
    Field(NEW_FILE, [Num(f.level), Num(f.num), Num(f.size), Str(f.smallest), Str(f.largest)])
  }

  function Map<T, U>(f: T -> U, s: seq<T>): (r: seq<U>)
    ensures |r| == |s| && forall i :: 0 <= i < |s| ==> r[i] == f(s[i])
  {
    if s == [] then [] else [f(s[0])] + Map(f, s[1..])
  }

  function HeaderFields(e: VersionEdit): seq<Field> {
    OptionField(LOG_NUMBER, e.log) + OptionField(NEXT_FILE_NUMBER, e.next) + OptionField(LAST_SEQUENCE, e.sequence)
  }

  function Fields(e: VersionEdit): seq<Field> {
    HeaderFields(e) + Map(PointerField, e.pointers) + Map(DeletedField, e.deleted) + Map(AddedField, e.added)
  }

  function EncodedEdit(e: VersionEdit): seq<byte> {
    FieldsBytes(Fields(e))
  }

  /** `DecodeFrom` from a partial edit: `None` is the Corruption state. */
  function Decoded(e: VersionEdit, input: seq<byte>): Option<VersionEdit>
    decreases |input|
  {
    if GetVarint32(input).None? then (if input == [] then Some(e) else None)
    else
      match ParseField(input)
      case None => None
      case Some((f, rest)) => Decoded(ApplyField(e, f), rest)
  }

  /** No decoded field sets a compact pointer. */
  lemma {:induction false} DecodedPointers(e: VersionEdit, input: seq<byte>)
    ensures Decoded(e, input).Some? ==> Decoded(e, input).value.pointers == e.pointers
    decreases |input|
  {
    if GetVarint32(input).Some? && ParseField(input).Some? {
      var (f, rest) := ParseField(input).value;
      DecodedPointers(ApplyField(e, f), rest);
    }
  }

  // ---------------------------------------------------------------- round trip

  predicate DatumFits32(d: Datum) {
    d.Str? ==> |d.s| < UINT32_LIMIT
  }

  lemma ItemRoundTrip(item: Item, d: Datum, rest: seq<byte>)
    requires ItemFits(item, d) && DatumFits32(d)
    ensures ParseItem(item, DatumBytes(d) + rest) == Some((d, rest))
  {
    match item
    case Level => Varint32RoundTrip(d.n, rest);
    case Number => Varint64RoundTrip(d.n, rest);
    case Key => LengthPrefixedRoundTrip(d.s, rest);
  }

  lemma {:induction false} ItemsRoundTrip(items: seq<Item>, data: seq<Datum>, rest: seq<byte>)
    requires ItemsFit(items, data) && forall d :: d in data ==> DatumFits32(d)
    ensures ParseItems(items, DataBytes(data) + rest) == Some((data, rest))
  {
    if items == [] {
      assert DataBytes(data) + rest == rest;
    } else {
      hide ParseItem, DatumBytes, ItemFits, DatumFits32;
      var tail := DataBytes(data[1..]) + rest;
      Concat3(DatumBytes(data[0]), DataBytes(data[1..]), rest);
      ItemRoundTrip(items[0], data[0], tail);
      ItemsRoundTrip(items[1..], data[1..], rest);
      assert data == [data[0]] + data[1..];
    }
  }

  lemma FieldRoundTrip(f: Field, rest: seq<byte>)
    requires FieldShape(f) && forall d :: d in f.data ==> DatumFits32(d)
    ensures ParseField(FieldBytes(f) + rest) == Some((f, rest))
  {
    var tail := DataBytes(f.data) + rest;
    assert FieldBytes(f) + rest == Varint(f.tag) + tail;
    Varint32RoundTrip(f.tag, tail);
    ItemsRoundTrip(Schema(f.tag).value, f.data, rest);
  }

  ghost predicate FieldsFit32(fields: seq<Field>) {
    forall f, d :: f in fields && d in f.data ==> DatumFits32(d)
  }

  /** Well-formed fields are read back one by one, whatever follows them. */
  lemma {:induction false} DecodeFields(e: VersionEdit, fields: seq<Field>, rest: seq<byte>)
    requires FieldsFit32(fields) && Shaped(fields)
    ensures Decoded(e, FieldsBytes(fields) + rest) == Decoded(ApplyAll(e, fields), rest)
    decreases fields
  {
    if fields == [] {
      assert FieldsBytes(fields) + rest == rest;
    } else {
      var tail := FieldsBytes(fields[1..]) + rest;
      assert FieldsBytes(fields) + rest == FieldBytes(fields[0]) + tail;
      FieldRoundTrip(fields[0], tail);
      DecodeFields(ApplyField(e, fields[0]), fields[1..], rest);
    }
  }

  lemma {:induction false} FieldsBytesConcat(a: seq<Field>, b: seq<Field>)
    ensures FieldsBytes(a + b) == FieldsBytes(a) + FieldsBytes(b)
  {
    if a == [] {
      assert a + b == b;
    } else {
      assert (a + b)[1..] == a[1..] + b;
      FieldsBytesConcat(a[1..], b);
    }
  }

  lemma {:induction false} ApplyAllConcat(e: VersionEdit, a: seq<Field>, b: seq<Field>)
    requires Shaped(a) && Shaped(b)
    ensures Shaped(a + b)
    ensures ApplyAll(e, a + b) == ApplyAll(ApplyAll(e, a), b)
    decreases a
  {
    if a == [] {
      assert a + b == b;
    } else {
      assert (a + b)[0] == a[0] && (a + b)[1..] == a[1..] + b;
      ApplyAllConcat(ApplyField(e, a[0]), a[1..], b);
    }
  }

  /** Encoded sizes fit the 32-bit lengths of the format. */
  ghost predicate Sizes32(e: VersionEdit) {
    && (forall p :: p in e.pointers ==> |p.1| < UINT32_LIMIT)
    && (forall f :: f in e.added ==> |f.smallest| < UINT32_LIMIT && |f.largest| < UINT32_LIMIT)
  }

  /** What `DecodeFrom` insists on: known levels, nonempty keys and no compact pointers. */
  ghost predicate Decodable(e: VersionEdit) {
    && e.pointers == []
    && (forall d :: d in e.deleted ==> d.0 < NUM_LEVELS)
    && (forall f :: f in e.added ==> f.level < NUM_LEVELS && f.smallest != [] && f.largest != [])
  }

  /** One field put in front of fields that are known to apply. */
  lemma ApplyFront(e: VersionEdit, f: Field, rest: seq<Field>)
    requires FieldShape(f) && Shaped(rest)
    ensures Shaped([f] + rest)
    ensures ApplyAll(e, [f] + rest) == ApplyAll(ApplyField(e, f), rest)
  {
    assert ([f] + rest)[1..] == rest;
  }

  lemma {:induction false} ApplyDeleted(e: VersionEdit, deleted: seq<(uint32, uint64)>)
    requires Ascending(e.deleted + deleted) && forall d :: d in deleted ==> d.0 < NUM_LEVELS
    ensures Shaped(Map(DeletedField, deleted))
    ensures ApplyAll(e, Map(DeletedField, deleted)) == e.(deleted := e.deleted + deleted)
    decreases deleted
  {
    if deleted == [] {
      assert e.deleted + deleted == e.deleted;
    } else {
      var d, rest := deleted[0], deleted[1..];
      assert e.deleted + deleted == e.deleted + [d] + rest;
      assert Ascending(e.deleted + [d]) by {
        assert e.deleted + [d] == (e.deleted + deleted)[..|e.deleted| + 1];
      }
      InsertPairLast(e.deleted, d);
      assert FieldShape(DeletedField(d));
      ApplyDeleted(e.(deleted := e.deleted + [d]), rest);
      ApplyFront(e, DeletedField(d), Map(DeletedField, rest));
    }
  }

  lemma {:induction false} ApplyAdded(e: VersionEdit, added: seq<NewFile>)
    requires forall f :: f in added ==> f.level < NUM_LEVELS && f.smallest != [] && f.largest != []
    ensures Shaped(Map(AddedField, added))
    ensures ApplyAll(e, Map(AddedField, added)) == e.(added := e.added + added)
    decreases added
  {
    if added == [] {
      assert e.added + added == e.added;
    } else {
      var n, rest := added[0], added[1..];
      assert e.added + added == e.added + [n] + rest;
      assert FieldShape(AddedField(n));
      ApplyAdded(e.(added := e.added + [n]), rest);
      ApplyFront(e, AddedField(n), Map(AddedField, rest));
    }
  }

  lemma ApplyOption(e: VersionEdit, tag: uint32, v: Option<uint64>)
    requires tag <= LAST_SEQUENCE
    ensures Shaped(OptionField(tag, v))
    ensures ApplyAll(e, OptionField(tag, v)) ==
            if v.None? then e
            else if tag == LOG_NUMBER then e.(log := v)
            else if tag == NEXT_FILE_NUMBER then e.(next := v)
            else e.(sequence := v)
  {
    if v.Some? {
      var f := Field(tag, [Num(v.value)]);
      ApplyFront(e, f, []);
      assert [f] + [] == [f];
    }
  }

  lemma ApplyHeader(e: VersionEdit)
    ensures Shaped(HeaderFields(e))
    ensures ApplyAll(EMPTY_EDIT, HeaderFields(e)) == EMPTY_EDIT.(log := e.log, next := e.next, sequence := e.sequence)
  {
    var l, n, s := OptionField(LOG_NUMBER, e.log), OptionField(NEXT_FILE_NUMBER, e.next),
      OptionField(LAST_SEQUENCE, e.sequence);
    var e1 := EMPTY_EDIT.(log := e.log);
    var e2 := e1.(next := e.next);
    ApplyOption(EMPTY_EDIT, LOG_NUMBER, e.log);
    ApplyOption(e1, NEXT_FILE_NUMBER, e.next);
    ApplyOption(e2, LAST_SEQUENCE, e.sequence);
    ApplyAllConcat(EMPTY_EDIT, l, n);
    ApplyAllConcat(EMPTY_EDIT, l + n, s);
  }

  lemma ApplyFiles(e: VersionEdit, start: VersionEdit)
    requires Decodable(e) && Ascending(e.deleted) && start.deleted == [] && start.added == []
    ensures Shaped(Map(DeletedField, e.deleted) + Map(AddedField, e.added))
    ensures ApplyAll(start, Map(DeletedField, e.deleted) + Map(AddedField, e.added))
            == start.(deleted := e.deleted, added := e.added)
  {
    assert [] + e.deleted == e.deleted && [] + e.added == e.added;
    ApplyDeleted(start, e.deleted);
    ApplyAdded(start.(deleted := e.deleted), e.added);
    ApplyAllConcat(start, Map(DeletedField, e.deleted), Map(AddedField, e.added));
  }

  lemma FieldsOfDecodable(e: VersionEdit)
    requires Decodable(e) && Ascending(e.deleted)
    ensures Shaped(Fields(e))
    ensures ApplyAll(EMPTY_EDIT, Fields(e)) == e
  {
    var header := HeaderFields(e);
    var files := Map(DeletedField, e.deleted) + Map(AddedField, e.added);
    ApplyHeader(e);
    ApplyFiles(e, EMPTY_EDIT.(log := e.log, next := e.next, sequence := e.sequence));
    ApplyAllConcat(EMPTY_EDIT, header, files);
    NoPointers(header, Map(PointerField, e.pointers), Map(DeletedField, e.deleted), Map(AddedField, e.added));
  }

  lemma NoPointers(h: seq<Field>, p: seq<Field>, d: seq<Field>, a: seq<Field>)
    requires |p| == 0
    ensures h + p + d + a == h + (d + a)
  {
  }

  /** Only compact pointers and new files hold strings. */
  lemma StringField(e: VersionEdit, f: Field, d: Datum)
    requires Sizes32(e) && f in Fields(e) && d in f.data && d.Str?
    ensures DatumFits32(d)
  {
    if f in Map(PointerField, e.pointers) {
      var i :| 0 <= i < |e.pointers| && f == PointerField(e.pointers[i]);
    } else if f in Map(AddedField, e.added) {
      var i :| 0 <= i < |e.added| && f == AddedField(e.added[i]);
    }
  }

  lemma Fit32(e: VersionEdit)
    requires Sizes32(e)
    ensures FieldsFit32(Fields(e))
  {
    forall f, d | f in Fields(e) && d in f.data ensures DatumFits32(d) {
      if d.Str? {
        StringField(e, f, d);
      }
    }
  }

  /** A field the decoder has no case for, or whose items it rejects, spoils the whole record. */
  lemma BadField(e: VersionEdit, f: Field, items: seq<Item>, rest: seq<byte>)
    requires |items| == |f.data| && forall d :: d in f.data ==> DatumFits32(d)
    requires f.tag == COMPACT_POINTER || Schema(f.tag) == Some(items)
    requires f.tag != COMPACT_POINTER ==> exists i :: 0 <= i < |items| && !ItemFits(items[i], f.data[i])
    requires forall i :: 0 <= i < |items| ==> TypeFits(items[i], f.data[i])
    ensures Decoded(e, FieldBytes(f) + rest) == None
  {
    var tail := DataBytes(f.data) + rest;
    assert FieldBytes(f) + rest == Varint(f.tag) + tail;
    Varint32RoundTrip(f.tag, tail);
    if f.tag != COMPACT_POINTER {
      BadItems(items, f.data, rest);
    }
  }

  /** The datum has the kind the item expects, though not necessarily a value the decoder takes. */
  predicate TypeFits(item: Item, d: Datum) {
    match item
    case Level => d.Num? && d.n < UINT32_LIMIT
    case Number => d.Num?
    case Key => d.Str?
  }

  lemma {:induction false} BadItems(items: seq<Item>, data: seq<Datum>, rest: seq<byte>)
    requires |items| == |data| && forall d :: d in data ==> DatumFits32(d)
    requires exists i :: 0 <= i < |items| && !ItemFits(items[i], data[i])
    requires forall i :: 0 <= i < |items| ==> TypeFits(items[i], data[i])
    ensures ParseItems(items, DataBytes(data) + rest) == None
  {
    var tail := DataBytes(data[1..]) + rest;
    assert DataBytes(data) + rest == DatumBytes(data[0]) + tail;
    if ItemFits(items[0], data[0]) {
      ItemRoundTrip(items[0], data[0], tail);
      var i :| 0 <= i < |items| && !ItemFits(items[i], data[i]);
      assert items[1..][i - 1] == items[i] && data[1..][i - 1] == data[i];
      BadItems(items[1..], data[1..], rest);
    } else if items[0] == Level {
      Varint32RoundTrip(data[0].n, tail);
    } else {
      LengthPrefixedRoundTrip(data[0].s, tail);
    }
  }

  /** The first field that is not well formed makes decoding fail. */
  lemma {:induction false} DecodeFails(e: VersionEdit, fields: seq<Field>)
    requires FieldsFit32(fields) && exists f :: f in fields && !FieldShape(f)
    requires forall f :: f in fields ==> Encodable(f)
    ensures Decoded(e, FieldsBytes(fields)) == None
    decreases fields
  {
    var f, tail := fields[0], FieldsBytes(fields[1..]);
    if FieldShape(f) {
      FieldRoundTrip(f, tail);
      var g :| g in fields && !FieldShape(g);
      assert g in fields[1..];
      DecodeFails(ApplyField(e, f), fields[1..]);
    } else {
      assert f in fields;
      BadFieldFront(e, f, tail);
    }
  }

  lemma BadFieldFront(e: VersionEdit, f: Field, rest: seq<byte>)
    requires Encodable(f) && !FieldShape(f) && forall d :: d in f.data ==> DatumFits32(d)
    ensures Decoded(e, FieldBytes(f) + rest) == None
  {
    if f.tag != COMPACT_POINTER {
      assert Schema(f.tag) == Some(ItemsOf(f.tag));
      assert !ItemsFit(ItemsOf(f.tag), f.data);
    }
    BadField(e, f, ItemsOf(f.tag), rest);
  }

  function ItemsOf(tag: uint32): seq<Item> {
    if tag == COMPACT_POINTER then [Level, Key] else if Schema(tag).Some? then Schema(tag).value else []
  }

  predicate Encodable(f: Field) {
    && f.tag <= NEW_FILE
    && |ItemsOf(f.tag)| == |f.data|
    && forall i :: 0 <= i < |f.data| ==> TypeFits(ItemsOf(f.tag)[i], f.data[i])
  }

  /**
   For every edit: decoding its encoding gives the edit back if and only if it has no compact
   pointers, levels below 7 and nonempty keys; otherwise decoding reports corruption.
   */
  lemma EditRoundTrip(e: VersionEdit)
    requires Sizes32(e) && Ascending(e.deleted)
    ensures Decoded(EMPTY_EDIT, EncodedEdit(e)) == if Decodable(e) then Some(e) else None
  {
    Fit32(e);
    var fields := Fields(e);
    assert EncodedEdit(e) + [] == EncodedEdit(e);
    if Decodable(e) {
      FieldsOfDecodable(e);
      DecodeFields(EMPTY_EDIT, fields, []);
    } else {
      AllEncodable(e);
      var bad := BadFieldOf(e);
      DecodeFails(EMPTY_EDIT, fields);
    }
  }

  /** An edit with one compact pointer, say the key 7 on level 1, cannot be decoded. */
  lemma PointerExample()
    ensures Decoded(EMPTY_EDIT, EncodedEdit(EMPTY_EDIT.(pointers := [(1, [7])]))) == None
  {
    EditRoundTrip(EMPTY_EDIT.(pointers := [(1, [7])]));
  }

  ghost predicate EncodableAll(fields: seq<Field>) {
    forall i :: 0 <= i < |fields| ==> Encodable(fields[i])
  }

  lemma EncodableConcat(a: seq<Field>, b: seq<Field>)
    requires EncodableAll(a) && EncodableAll(b)
    ensures EncodableAll(a + b)
  {
  }

  lemma AllEncodable(e: VersionEdit)
    ensures forall f :: f in Fields(e) ==> Encodable(f)
  {
    assert EncodableAll(HeaderFields(e));
    assert EncodableAll(Map(PointerField, e.pointers));
    assert EncodableAll(Map(DeletedField, e.deleted));
    forall i | 0 <= i < |e.added| ensures Encodable(Map(AddedField, e.added)[i]) {
      AddedEncodable(e.added[i]);
    }
    EncodableConcat(HeaderFields(e), Map(PointerField, e.pointers));
    EncodableConcat(HeaderFields(e) + Map(PointerField, e.pointers), Map(DeletedField, e.deleted));
    EncodableConcat(HeaderFields(e) + Map(PointerField, e.pointers) + Map(DeletedField, e.deleted),
                    Map(AddedField, e.added));
  }

  lemma AddedEncodable(n: NewFile)
    ensures Encodable(AddedField(n))
    ensures FieldShape(AddedField(n)) <==> n.level < NUM_LEVELS && n.smallest != [] && n.largest != []
  {
    var f := AddedField(n);
    assert f.data[0] == Num(n.level) && f.data[1] == Num(n.num) && f.data[2] == Num(n.size);
    assert f.data[3] == Str(n.smallest) && f.data[4] == Str(n.largest);
    assert ItemsOf(f.tag) == [Level, Number, Number, Key, Key];
  }

  lemma BadFieldOf(e: VersionEdit) returns (f: Field)
    requires !Decodable(e)
    ensures f in Fields(e) && !FieldShape(f)
  {
    if e.pointers != [] {
      f := PointerField(e.pointers[0]);
      assert f in Map(PointerField, e.pointers) by { assert Map(PointerField, e.pointers)[0] == f; }
    } else if d :| d in e.deleted && d.0 >= NUM_LEVELS {
      f := DeletedField(d);
      assert f.data[0] == Num(d.0);
      var i :| 0 <= i < |e.deleted| && e.deleted[i] == d;
      assert Map(DeletedField, e.deleted)[i] == f;
    } else {
      var n :| n in e.added && !(n.level < NUM_LEVELS && n.smallest != [] && n.largest != []);
      f := AddedField(n);
      var i :| 0 <= i < |e.added| && e.added[i] == n;
      assert Map(AddedField, e.added)[i] == f;
      AddedEncodable(n);
    }
  }

  // ---------------------------------------------------------------- every byte is consumed

  lemma {:induction false} ScanPrefix(s: seq<byte>, k: nat)
    requires Scan(s, k).Some?
    ensures var used := |s| - |Scan(s, k).value.1|;
            Scan(s[..used], k) == Some((Scan(s, k).value.0, []))
  {
    var used := |s| - |Scan(s, k).value.1|;
    if s[0] >= 128 {
      ScanPrefix(s[1..], k - 1);
      assert s[..used][1..] == s[1..][..used - 1];
    }
  }

  /** A varint reads the same from the bytes it took, whatever follows them. */
  lemma ScanLocal(s: seq<byte>, k: nat, more: seq<byte>)
    requires Scan(s, k).Some?
    ensures var (v, rest) := Scan(s, k).value;
            var used := |s| - |rest|;
            s == s[..used] + rest && Scan(s[..used] + more, k) == Some((v, more))
  {
    var used := |s| - |Scan(s, k).value.1|;
    ScanPrefix(s, k);
    ScanExtends(s[..used], k, more);
    assert [] + more == more;
  }

  lemma PrefixedLocal(s: seq<byte>, more: seq<byte>)
    requires GetLengthPrefixed(s).Some?
    ensures var (str, rest) := GetLengthPrefixed(s).value;
            var used := |s| - |rest|;
            s == s[..used] + rest && GetLengthPrefixed(s[..used] + more) == Some((str, more))
  {
    hide Scan, GetLengthPrefixed;
    PrefixedParts(s);
    var (v, body) := Scan(s, 5).value;
    var (str, rest) := GetLengthPrefixed(s).value;
    var head := s[..|s| - |body|];
    ScanLocal(s, 5, str + more);
    Cut(s, head, str, rest, more);
    PrefixedFrom(head + (str + more), v, str, more);
  }

  lemma PrefixedParts(s: seq<byte>)
    requires GetLengthPrefixed(s).Some?
    ensures Scan(s, 5).Some?
    ensures var (v, body), (str, rest) := Scan(s, 5).value, GetLengthPrefixed(s).value;
            body == str + rest && v % UINT32_LIMIT == |str|
  {
    hide Scan;
  }

  lemma PrefixedFrom(s: seq<byte>, v: nat, str: seq<byte>, more: seq<byte>)
    requires Scan(s, 5) == Some((v, str + more)) && v % UINT32_LIMIT == |str|
    ensures GetLengthPrefixed(s) == Some((str, more))
  {
    assert (str + more)[..|str|] == str && (str + more)[|str|..] == more;
  }

  /** An item looks only at the bytes it consumes. */
  lemma ItemLocal(item: Item, s: seq<byte>, more: seq<byte>)
    requires ParseItem(item, s).Some?
    ensures var (d, rest) := ParseItem(item, s).value;
            var used := |s| - |rest|;
            s == s[..used] + rest && ParseItem(item, s[..used] + more) == Some((d, more))
  {
    match item
    case Level => ScanLocal(s, 5, more);
    case Number => ScanLocal(s, 10, more);
    case Key => PrefixedLocal(s, more);
  }

  lemma {:induction false} ItemsLocal(items: seq<Item>, s: seq<byte>, more: seq<byte>)
    requires ParseItems(items, s).Some?
    ensures var (data, end) := ParseItems(items, s).value;
            var used := |s| - |end|;
            s == s[..used] + end && ParseItems(items, s[..used] + more) == Some((data, more))
  {
    if items == [] {
      assert s[..0] + more == more;
    } else {
      var (d, rest) := ParseItem(items[0], s).value;
      var (data, end) := ParseItems(items[1..], rest).value;
      var a, b := s[..|s| - |rest|], rest[..|rest| - |end|];
      ItemLocal(items[0], s, b + more);
      ItemsLocal(items[1..], rest, more);
      Cut(s, a, b, end, more);
    }
  }

  lemma Cut(s: seq<byte>, a: seq<byte>, b: seq<byte>, end: seq<byte>, more: seq<byte>)
    requires s == a + (b + end)
    ensures s[..|s| - |end|] + more == a + (b + more)
    ensures s == s[..|s| - |end|] + end
  {
  }

  /** A field looks only at the bytes it takes. */
  lemma FieldLocal(s: seq<byte>, more: seq<byte>)
    requires ParseField(s).Some?
    ensures var (f, rest) := ParseField(s).value;
            s == s[..|s| - |rest|] + rest && ParseField(s[..|s| - |rest|] + more) == Some((f, more))
  {
    hide ParseItems, GetVarint32;
    FieldParts(s);
    var (tag, body) := GetVarint32(s).value;
    var items := Schema(tag).value;
    var (data, end) := ParseItems(items, body).value;
    var head, chunk := s[..|s| - |body|], body[..|body| - |end|];
    ItemsLocal(items, body, more);
    TagLocal(s, chunk + more);
    Cut(s, head, chunk, end, more);
    FieldFrom(head + (chunk + more), tag, chunk + more, data, more);
  }

  lemma FieldParts(s: seq<byte>)
    requires ParseField(s).Some?
    ensures GetVarint32(s).Some?
    ensures var (tag, body) := GetVarint32(s).value;
            && Schema(tag).Some? && ParseItems(Schema(tag).value, body).Some?
            && ParseField(s) == Some((Field(tag, ParseItems(Schema(tag).value, body).value.0),
                                      ParseItems(Schema(tag).value, body).value.1))
  {
  }

  lemma TagLocal(s: seq<byte>, more: seq<byte>)
    requires GetVarint32(s).Some?
    ensures var (tag, body) := GetVarint32(s).value;
            s == s[..|s| - |body|] + body && GetVarint32(s[..|s| - |body|] + more) == Some((tag, more))
  {
    ScanLocal(s, 5, more);
  }

  lemma FieldFrom(s: seq<byte>, tag: uint32, body: seq<byte>, data: seq<Datum>, end: seq<byte>)
    requires GetVarint32(s) == Some((tag, body)) && Schema(tag).Some?
             && ParseItems(Schema(tag).value, body) == Some((data, end))
    ensures ParseField(s) == Some((Field(tag, data), end))
  {
  }

  /** A field in front of a string is read from the longer string too. */
  lemma FieldExtends(s: seq<byte>, more: seq<byte>)
    requires ParseField(s).Some?
    ensures ParseField(s + more) == Some((ParseField(s).value.0, ParseField(s).value.1 + more))
  {
    var rest := ParseField(s).value.1;
    FieldLocal(s, rest + more);
    Concat3(s[..|s| - |rest|], rest, more);
  }

  /** Fields as an edit has them: those that can be decoded, and compact pointers. */
  predicate Writable(fields: seq<Field>) {
    forall f :: f in fields ==> f.tag == COMPACT_POINTER || FieldShape(f)
  }

  lemma PointerStops(f: Field, rest: seq<byte>)
    requires f.tag == COMPACT_POINTER
    ensures ParseField(FieldBytes(f) + rest) == None
  {
    var tail := DataBytes(f.data) + rest;
    assert FieldBytes(f) + rest == Varint(f.tag) + tail;
    Varint32RoundTrip(f.tag, tail);
  }

  /** A front of encoded fields that decodes ends between two fields and holds no compact pointer. */
  lemma {:induction false} DecodableFront(e: VersionEdit, fields: seq<Field>, a: seq<byte>, b: seq<byte>)
    returns (k: nat)
    requires Writable(fields) && FieldsFit32(fields) && FieldsBytes(fields) == a + b && Decoded(e, a).Some?
    ensures k <= |fields| && a == FieldsBytes(fields[..k]) && b == FieldsBytes(fields[k..]) && Shaped(fields[..k])
    decreases fields
  {
    if a == [] {
      k := 0;
      assert a + b == b && fields[0..] == fields;
    } else {
      DecodedNext(e, a);
      hide Decoded, ParseField, ApplyField, FieldBytes, GetVarint32, FieldShape;
      var (f, rest) := ParseField(a).value;
      var tail := FieldsBytes(fields[1..]);
      FieldExtends(a, b);
      assert fields[0] in fields;
      if fields[0].tag == COMPACT_POINTER {
        PointerStops(fields[0], tail);
      }
      FieldRoundTrip(fields[0], tail);
      assert fields[0] == f && tail == rest + b;
      var n := DecodableFront(ApplyField(e, f), fields[1..], rest, b);
      k := n + 1;
      SameFront(a, b, FieldBytes(f), rest);
      FrontLonger(fields, n);
    }
  }

  lemma FrontLonger(fields: seq<Field>, n: nat)
    requires fields != [] && n < |fields|
    ensures FieldsBytes(fields[..n + 1]) == FieldBytes(fields[0]) + FieldsBytes(fields[1..][..n])
    ensures fields[n + 1..] == fields[1..][n..]
    ensures Shaped(fields[1..][..n]) && FieldShape(fields[0]) ==> Shaped(fields[..n + 1])
  {
    assert fields[..n + 1][1..] == fields[1..][..n];
    assert fields[..n + 1] == [fields[0]] + fields[1..][..n];
  }

  lemma DecodedNext(e: VersionEdit, a: seq<byte>)
    requires a != [] && Decoded(e, a).Some?
    ensures ParseField(a).Some? && FieldShape(ParseField(a).value.0)
    ensures Decoded(e, a) == Decoded(ApplyField(e, ParseField(a).value.0), ParseField(a).value.1)
  {
    hide ParseField, ApplyField;
  }

  lemma SameFront(a: seq<byte>, b: seq<byte>, head: seq<byte>, rest: seq<byte>)
    requires a + b == head + (rest + b)
    ensures a == head + rest
  {
    assert (a + b)[..|a|] == a && (head + rest + b)[..|head + rest|] == head + rest;
    Concat3(head, rest, b);
  }

  function Flatten(chunks: seq<seq<byte>>): seq<byte> {
    if chunks == [] then [] else chunks[0] + Flatten(chunks[1..])
  }

  /** For every byte string: decoding succeeds only if the whole string is a run of complete fields. */
  lemma {:induction false} DecodeConsumesAll(e: VersionEdit, input: seq<byte>)
    returns (chunks: seq<seq<byte>>, fields: seq<Field>)
    requires Decoded(e, input).Some?
    ensures Flatten(chunks) == input && |chunks| == |fields| && Shaped(fields)
    ensures forall i :: 0 <= i < |chunks| ==> ParseField(chunks[i]) == Some((fields[i], []))
    ensures Decoded(e, input) == Some(ApplyAll(e, fields))
    decreases |input|
  {
    if GetVarint32(input).None? {
      chunks, fields := [], [];
    } else {
      var (f, rest) := ParseField(input).value;
      FieldLocal(input, []);
      assert input[..|input| - |rest|] + [] == input[..|input| - |rest|];
      var cs, fs := DecodeConsumesAll(ApplyField(e, f), rest);
      chunks, fields := [input[..|input| - |rest|]] + cs, [f] + fs;
      ApplyFront(e, f, fs);
      assert chunks[1..] == cs;
    }
  }

  // ---------------------------------------------------------------- the loops of version_edit.cpp

  lemma FrontItem(d: Datum, rest: seq<Datum>)
    ensures DataBytes([d] + rest) == DatumBytes(d) + DataBytes(rest)
  {
    assert ([d] + rest)[1..] == rest;
  }

  lemma TwoItems(a: Datum, b: Datum)
    ensures DataBytes([a, b]) == DatumBytes(a) + DatumBytes(b)
  {
    FrontItem(b, []);
    FrontItem(a, [b]);
    assert [b] + [] == [b] && [a] + [b] == [a, b] && DataBytes([]) == [];
  }

  lemma OptionFieldBytes(tag: uint32, v: Option<uint64>)
    ensures FieldsBytes(OptionField(tag, v)) == if v.Some? then Varint(tag) + Varint(v.value) else []
  {
    if v.Some? {
      var f := Field(tag, [Num(v.value)]);
      assert [f][1..] == [] && f.data[1..] == [];
      assert DataBytes(f.data) == Varint(v.value) + [];
      assert FieldsBytes([f]) == FieldBytes(f) + [];
    }
  }

  lemma AppendField<T>(done: seq<Field>, f: T -> Field, s: seq<T>, i: nat)
    requires i < |s|
    ensures FieldsBytes(done + Map(f, s[..i + 1])) == FieldsBytes(done + Map(f, s[..i])) + FieldBytes(f(s[i]))
  {
    var before, last := done + Map(f, s[..i]), [f(s[i])];
    assert Map(f, s[..i + 1]) == Map(f, s[..i]) + last;
    assert done + Map(f, s[..i + 1]) == before + last;
    FieldsBytesConcat(before, last);
    assert last[1..] == [] && FieldsBytes(last) == FieldBytes(f(s[i])) + [];
  }

  lemma PutPointer(out: seq<byte>, p: (uint32, seq<byte>))
    ensures out + Varint(COMPACT_POINTER) + Varint(p.0) + LengthPrefixed(p.1) == out + FieldBytes(PointerField(p))
  {
    TwoItems(Num(p.0), Str(p.1));
  }

  lemma PutDeleted(out: seq<byte>, d: (uint32, uint64))
    ensures out + Varint(DELETED_FILE) + Varint(d.0) + Varint(d.1) == out + FieldBytes(DeletedField(d))
  {
    TwoItems(Num(d.0), Num(d.1));
  }

  lemma PutAdded(out: seq<byte>, f: NewFile)
    ensures out + Varint(NEW_FILE) + Varint(f.level) + Varint(f.num) + Varint(f.size)
            + LengthPrefixed(f.smallest) + LengthPrefixed(f.largest) == out + FieldBytes(AddedField(f))
  {
    hide Varint, LengthPrefixed;
    TwoItems(Str(f.smallest), Str(f.largest));
    FrontItem(Num(f.size), [Str(f.smallest), Str(f.largest)]);
    FrontItem(Num(f.num), [Num(f.size), Str(f.smallest), Str(f.largest)]);
    FrontItem(Num(f.level), [Num(f.num), Num(f.size), Str(f.smallest), Str(f.largest)]);
  }

  lemma LastAppended<T>(dst: seq<byte>, done: seq<Field>, f: T -> Field, s: seq<T>, i: nat)
    requires i < |s|
    ensures dst + FieldsBytes(done + Map(f, s[..i])) + FieldBytes(f(s[i]))
            == dst + FieldsBytes(done + Map(f, s[..i + 1]))
  {
    AppendField(done, f, s, i);
  }

  /** `if (has_x) { PutVarint32(dst, tag); PutVarint64(dst, x); }` */
  method PutScalar(dst: seq<byte>, tag: uint32, v: Option<uint64>) returns (out: seq<byte>)
    ensures out == dst + FieldsBytes(OptionField(tag, v))
  {
    out := dst;
    if v.Some? {
      out := out + Varint(tag);
      out := out + Varint(v.value);
    }
    OptionFieldBytes(tag, v);
  }

  /** The scalar fields, then compact pointers, deleted files and new files. */
  method EncodeTo(e: VersionEdit, dst: seq<byte>) returns (out: seq<byte>)
    ensures out == dst + EncodedEdit(e)
  {
    out := EncodeScalars(e, dst);
    out := EncodePointers(e, dst, HeaderFields(e), out);
    out := EncodeFiles(e, dst, HeaderFields(e) + Map(PointerField, e.pointers), out);
  }

  method EncodeScalars(e: VersionEdit, dst: seq<byte>) returns (out: seq<byte>)
    ensures out == dst + FieldsBytes(HeaderFields(e))
  {
    out := PutScalar(dst, LOG_NUMBER, e.log);
    out := PutScalar(out, NEXT_FILE_NUMBER, e.next);
    out := PutScalar(out, LAST_SEQUENCE, e.sequence);
    ThreeParts(dst, OptionField(LOG_NUMBER, e.log), OptionField(NEXT_FILE_NUMBER, e.next),
               OptionField(LAST_SEQUENCE, e.sequence));
  }

  lemma ThreeParts(dst: seq<byte>, a: seq<Field>, b: seq<Field>, c: seq<Field>)
    ensures dst + FieldsBytes(a) + FieldsBytes(b) + FieldsBytes(c) == dst + FieldsBytes(a + b + c)
  {
    FieldsBytesConcat(a, b);
    FieldsBytesConcat(a + b, c);
    Concat4(dst, FieldsBytes(a), FieldsBytes(b), FieldsBytes(c));
  }

  method EncodePointers(e: VersionEdit, ghost dst: seq<byte>, ghost done: seq<Field>, start: seq<byte>)
    returns (out: seq<byte>)
    requires start == dst + FieldsBytes(done)
    ensures out == dst + FieldsBytes(done + Map(PointerField, e.pointers))
  {
    out := start;
    assert done + Map(PointerField, e.pointers[..0]) == done;
    for i := 0 to |e.pointers|
      invariant out == dst + FieldsBytes(done + Map(PointerField, e.pointers[..i]))
    {
      PutPointer(out, e.pointers[i]);
      LastAppended(dst, done, PointerField, e.pointers, i);
      out := out + Varint(COMPACT_POINTER) + Varint(e.pointers[i].0) + LengthPrefixed(e.pointers[i].1);
    }
    assert e.pointers[..|e.pointers|] == e.pointers;
  }

  method EncodeFiles(e: VersionEdit, ghost dst: seq<byte>, ghost done: seq<Field>, start: seq<byte>)
    returns (out: seq<byte>)
    requires start == dst + FieldsBytes(done)
    ensures out == dst + FieldsBytes(done + Map(DeletedField, e.deleted) + Map(AddedField, e.added))
  {
    out := start;
    assert done + Map(DeletedField, e.deleted[..0]) == done;
    for i := 0 to |e.deleted|
      invariant out == dst + FieldsBytes(done + Map(DeletedField, e.deleted[..i]))
    {
      PutDeleted(out, e.deleted[i]);
      LastAppended(dst, done, DeletedField, e.deleted, i);
      out := out + Varint(DELETED_FILE) + Varint(e.deleted[i].0) + Varint(e.deleted[i].1);
    }
    assert e.deleted[..|e.deleted|] == e.deleted;
    ghost var before := done + Map(DeletedField, e.deleted);
    assert before + Map(AddedField, e.added[..0]) == before;
    for i := 0 to |e.added|
      invariant out == dst + FieldsBytes(before + Map(AddedField, e.added[..i]))
    {
      var f := e.added[i];
      PutAdded(out, f);
      LastAppended(dst, before, AddedField, e.added, i);
      out := out + Varint(NEW_FILE) + Varint(f.level) + Varint(f.num) + Varint(f.size)
             + LengthPrefixed(f.smallest) + LengthPrefixed(f.largest);
    }
    assert e.added[..|e.added|] == e.added;
  }

  /** The `&&` chain of reads that follows a tag: left to right, up to the first failure. */
  method ReadItems(items: seq<Item>, input: seq<byte>) returns (r: Option<(seq<Datum>, seq<byte>)>)
    ensures r == ParseItems(items, input)
  {
    var rest, data: seq<Datum> := input, [];
    assert items[0..] == items && forall tail: seq<Datum> :: [] + tail == tail;
    for i := 0 to |items|
      invariant ParseItems(items, input) ==
                match ParseItems(items[i..], rest)
                case None => None
                case Some((tail, end)) => Some((data + tail, end))
    {
      assert items[i..][1..] == items[i + 1..];
      match ParseItem(items[i], rest) {
        case None => return None;
        case Some((d, next)) =>
          assert forall tail: seq<Datum> :: data + ([d] + tail) == (data + [d]) + tail;
          rest, data := next, data + [d];
      }
    }
    assert items[|items|..] == [] && data + [] == data;
    r := Some((data, rest));
  }

  method DecodeFrom(src: seq<byte>) returns (state: State, e: VersionEdit)
    ensures state == if Decoded(EMPTY_EDIT, src).Some? then Ok else Corruption
    ensures state == Ok ==> Some(e) == Decoded(EMPTY_EDIT, src)
  {
    e := EMPTY_EDIT;
    var input, failed := src, false;
    while !failed && GetVarint32(input).Some?
      invariant failed ==> Decoded(EMPTY_EDIT, src) == None
      invariant !failed ==> Decoded(EMPTY_EDIT, src) == Decoded(e, input)
      decreases |input|, !failed
    {
      var (tag, rest) := GetVarint32(input).value;
      var schema := Schema(tag);
      if schema.None? {
        failed := true;
      } else {
        var items := ReadItems(schema.value, rest);
        if items.None? {
          failed := true;
        } else {
          ParsedShape(schema.value, rest);
          e, input := ApplyField(e, Field(tag, items.value.0)), items.value.1;
        }
      }
    }
    state := if failed || input != [] then Corruption else Ok;
  }
}
