/**
  The `Reader` of `src/reading.rs`: it decodes the preamble of a dBASE III
  table (header, field descriptors, terminator) once, then yields one record
  per call until the header's record count is reached.

  The functions in this module are the specification: what a sequence of
  reads from the byte source produces and where it leaves the read position.
  The class `Reader` holds the state the Rust struct holds and its methods
  are proved against those functions.
 */
module Reading {
  import opened Collaborators

  /** `Record`: column name to decoded value. */
  type Record = map<string, FieldValue>

  const DELETION_FLAG_NAME: string := "DeletionFlag"

  /** `RecordFieldInfo::new_deletion_flag`: the one-byte pseudo-column that
      precedes every record on disk. */
  const DELETION_FLAG: FieldInfo := FieldInfo(DELETION_FLAG_NAME, 'C', 1)

  /** Number of on-disk descriptors between the header and the first record
      (the division truncates, as the Rust `/` on `usize` does). */
  function NumFields(header: Header): (n: nat)
    requires header.offsetToFirstRecord >= HEADER_SIZE
    ensures n * FIELD_INFO_SIZE <= header.offsetToFirstRecord - HEADER_SIZE < (n + 1) * FIELD_INFO_SIZE
  {
    (header.offsetToFirstRecord - HEADER_SIZE) / FIELD_INFO_SIZE
  }

  /** The first `n` descriptors read one after the other from `pos`; the first
      descriptor that fails ends the reading with its error. */
  function FieldsInfo(codec: Codec, bytes: seq<bv8>, pos: nat, n: nat): (s: Step<seq<FieldInfo>>)
    requires pos <= |bytes|
    ensures s.next <= |bytes|
    ensures s.result.Ok? ==> |s.result.value| == n
  {
    if n == 0 then Step(Ok([]), pos)
    else
      var prev := FieldsInfo(codec, bytes, pos, n - 1);
      if prev.result.Err? then prev
      else
        var info := ReadFieldInfo(codec, bytes, prev.next);
        if info.result.Err? then Step(Err(info.result.error), info.next)
        else Step(Ok(prev.result.value + [info.result.value]), info.next)
  }

  /** What `Reader::new` keeps besides the source: the header, the descriptor
      table and the position of the first record. */
  datatype Preamble = Preamble(header: Header, fieldsInfo: seq<FieldInfo>, pos: nat)

  /** `Reader::new`: header, then the deletion flag and the on-disk
      descriptors, then the terminator byte. */
  function ParsePreamble(codec: Codec, bytes: seq<bv8>): (r: Result<Preamble>)
    ensures r.Ok? ==> r.value.pos <= |bytes|
  {
    var h := ReadHeader(codec, bytes, 0);
    if h.result.Err? then Err(h.result.error)
    else
      var header := h.result.value;
      if header.offsetToFirstRecord < HEADER_SIZE then
        Err(OffsetBeforeFieldTable(header.offsetToFirstRecord))
      else
        var fields := FieldsInfo(codec, bytes, h.next, NumFields(header));
        if fields.result.Err? then Err(fields.result.error)
        else
          var t := ReadU8(bytes, fields.next);
          if t.result.Err? then Err(t.result.error)
          else if t.result.value != TERMINATOR then Err(UnexpectedTerminator(t.result.value))
          else Ok(Preamble(header, [DELETION_FLAG] + fields.result.value, t.next))
  }

  /** One record: a value is read for every descriptor in table order, and
      every value except the deletion flag's is inserted under its column
      name (a later column of the same name overwrites an earlier one). The
      first value that fails to decode ends the record with its error. */
  function AssembleRecord(codec: Codec, bytes: seq<bv8>, pos: nat, fields: seq<FieldInfo>): (s: Step<Record>)
    requires pos <= |bytes|
    ensures pos <= s.next <= |bytes|
  {
    if fields == [] then Step(Ok(map[]), pos)
    else
      var prev := AssembleRecord(codec, bytes, pos, fields[..|fields| - 1]);
      if prev.result.Err? then prev
      else
        var info := fields[|fields| - 1];
        var v := ReadValue(codec, bytes, prev.next, info);
        if v.result.Err? then Step(Err(v.result.error), v.next)
        else if info.name != DELETION_FLAG_NAME then
          Step(Ok(prev.result.value[info.name := v.result.value]), v.next)
        else Step(Ok(prev.result.value), v.next)
  }

  /** The mutable part of a reader: the read position and `current_record`. */
  datatype Cursor = Cursor(pos: nat, currentRecord: nat)

  /** What one call of `next` yields and the cursor it leaves. */
  datatype Yield = Yield(item: Option<Result<Record>>, cursor: Cursor)

  /** `Iterator::next` for `Reader`. */
  function NextItem(codec: Codec, bytes: seq<bv8>, header: Header, fields: seq<FieldInfo>, c: Cursor): (y: Yield)
    requires c.pos <= |bytes|
    ensures y.cursor.pos <= |bytes|
    // end of sequence once the declared count is reached, and it changes nothing
    ensures y.item.None? <==> c.currentRecord >= header.numRecords
    ensures y.item.None? ==> y.cursor == c
    // a record advances the counter by one, never past the declared count
    ensures y.item.Some? && y.item.value.Ok? ==>
              y.cursor.currentRecord == c.currentRecord + 1 <= header.numRecords
    // a failure leaves the counter where it was
    ensures y.item.Some? && y.item.value.Err? ==> y.cursor.currentRecord == c.currentRecord
  {
    if c.currentRecord >= header.numRecords then Yield(None, c)
    else
      var s := AssembleRecord(codec, bytes, c.pos, fields);
      if s.result.Err? then Yield(Some(Err(s.result.error)), Cursor(s.next, c.currentRecord))
      else Yield(Some(Ok(s.result.value)), Cursor(s.next, c.currentRecord + 1))
  }

  /** `records` in front of a collected result; an error stays the error. */
  function Prepend(records: seq<Record>, r: Result<seq<Record>>): Result<seq<Record>>
  {
    match r
    case Ok(rest) => Ok(records + rest)
    case Err(e) => Err(e)
  }

  /** `Reader::read`: every item of the iterator, in order, up to the first error. */
  function Collect(codec: Codec, bytes: seq<bv8>, header: Header, fields: seq<FieldInfo>, c: Cursor): (r: Result<seq<Record>>)
    requires c.pos <= |bytes|
    // a successful read holds one record per remaining declared record
    ensures r.Ok? ==>
              |r.value| == if c.currentRecord < header.numRecords then header.numRecords - c.currentRecord else 0
    decreases header.numRecords - c.currentRecord
  {
    var y := NextItem(codec, bytes, header, fields, c);
    match y.item
    case None => Ok([])
    case Some(Err(e)) => Err(e)
    case Some(Ok(record)) => Prepend([record], Collect(codec, bytes, header, fields, y.cursor))
  }

  /** Once `fields[..k]` failed, reading the remaining descriptors changes nothing. */
  lemma {:induction false} AssembleErrorSticks(codec: Codec, bytes: seq<bv8>, pos: nat, fields: seq<FieldInfo>, k: nat)
    requires pos <= |bytes| && k <= |fields|
    requires AssembleRecord(codec, bytes, pos, fields[..k]).result.Err?
    ensures AssembleRecord(codec, bytes, pos, fields) == AssembleRecord(codec, bytes, pos, fields[..k])
    decreases |fields|
  {
    if k < |fields| {
      var init := fields[..|fields| - 1];
      assert init[..k] == fields[..k];
      AssembleErrorSticks(codec, bytes, pos, init, k);
    } else {
      assert fields[..k] == fields;
    }
  }

  /** Once the `k`-th descriptor failed, later descriptors are not read. */
  lemma {:induction false} FieldsInfoErrorSticks(codec: Codec, bytes: seq<bv8>, pos: nat, k: nat, n: nat)
    requires pos <= |bytes| && k <= n
    requires FieldsInfo(codec, bytes, pos, k).result.Err?
    ensures FieldsInfo(codec, bytes, pos, n) == FieldsInfo(codec, bytes, pos, k)
    decreases n
  {
    if k < n {
      FieldsInfoErrorSticks(codec, bytes, pos, k, n - 1);
    }
  }

  /**
    The reader. `bytes` is the content of the byte source and `pos` how much of
    it has been consumed; the header and the descriptor table are fixed at
    construction (they are `const`), only `pos` and `currentRecord` change.
   */
  class Reader {
    const codec: Codec
    const bytes: seq<bv8>
    const header: Header
    const fieldsInfo: seq<FieldInfo>
    var pos: nat
    var currentRecord: nat

    ghost predicate Valid()
      reads this
    {
      && pos <= |bytes|
      && currentRecord <= header.numRecords
      && header.offsetToFirstRecord >= HEADER_SIZE
      && |fieldsInfo| == NumFields(header) + 1
      && fieldsInfo[0] == DELETION_FLAG
    }

    function State(): Cursor
      reads this
    {
      Cursor(pos, currentRecord)
    }

    constructor FromPreamble(codec: Codec, bytes: seq<bv8>, p: Preamble)
      requires p.pos <= |bytes|
      requires p.header.offsetToFirstRecord >= HEADER_SIZE
      requires |p.fieldsInfo| == NumFields(p.header) + 1 && p.fieldsInfo[0] == DELETION_FLAG
      ensures Valid()
      ensures this.codec == codec && this.bytes == bytes
      ensures header == p.header && fieldsInfo == p.fieldsInfo && pos == p.pos
      ensures currentRecord == 0
    {
      this.codec := codec;
      this.bytes := bytes;
      header := p.header;
      fieldsInfo := p.fieldsInfo;
      pos := p.pos;
      currentRecord := 0;
    }

    /** `Reader::new`. */
    static method New(codec: Codec, bytes: seq<bv8>) returns (r: Result<Reader>)
      ensures r.Ok? <==> ParsePreamble(codec, bytes).Ok?
      ensures r.Err? ==> r.error == ParsePreamble(codec, bytes).error
      ensures r.Ok? ==>
                var p := ParsePreamble(codec, bytes).value;
                && fresh(r.value) && r.value.Valid()
                && r.value.codec == codec && r.value.bytes == bytes
                && r.value.header == p.header && r.value.fieldsInfo == p.fieldsInfo
                && r.value.pos == p.pos && r.value.currentRecord == 0
    {
      var h := ReadHeader(codec, bytes, 0);
      if h.result.Err? {
        return Err(h.result.error);
      }
      var header := h.result.value;
      if header.offsetToFirstRecord < HEADER_SIZE {
        return Err(OffsetBeforeFieldTable(header.offsetToFirstRecord));
      }
      var numFields := NumFields(header);
      var fieldsInfo := [DELETION_FLAG];
      var pos := h.next;
      var i := 0;
      assert fieldsInfo[1..] == [];
      while i < numFields
        invariant 0 <= i <= numFields
        invariant |fieldsInfo| >= 1 && fieldsInfo[0] == DELETION_FLAG
        invariant FieldsInfo(codec, bytes, h.next, i) == Step(Ok(fieldsInfo[1..]), pos)
      {
        var info := ReadFieldInfo(codec, bytes, pos);
        if info.result.Err? {
          assert FieldsInfo(codec, bytes, h.next, i + 1).result.Err?;
          FieldsInfoErrorSticks(codec, bytes, h.next, i + 1, numFields);
          return Err(info.result.error);
        }
        assert (fieldsInfo + [info.result.value])[1..] == fieldsInfo[1..] + [info.result.value];
        fieldsInfo := fieldsInfo + [info.result.value];
        pos := info.next;
        i := i + 1;
      }
      var t := ReadU8(bytes, pos);
      if t.result.Err? {
        return Err(t.result.error);
      }
      if t.result.value != TERMINATOR {
        return Err(UnexpectedTerminator(t.result.value));
      }
      assert [DELETION_FLAG] + fieldsInfo[1..] == fieldsInfo;
      var reader := new Reader.FromPreamble(codec, bytes, Preamble(header, fieldsInfo, t.next));
      return Ok(reader);
    }

    /** `Iterator::next`. */
    method Next() returns (item: Option<Result<Record>>)
      requires Valid()
      modifies this
      ensures Valid()
      ensures Yield(item, State()) == NextItem(codec, bytes, header, fieldsInfo, old(State()))
    {
      if currentRecord >= header.numRecords {
        return None;
      }
      ghost var start := pos;
      var record: Record := map[];
      var i := 0;
      while i < |fieldsInfo|
        invariant 0 <= i <= |fieldsInfo|
        invariant currentRecord == old(currentRecord)
        invariant AssembleRecord(codec, bytes, start, fieldsInfo[..i]) == Step(Ok(record), pos)
        invariant pos <= |bytes|
      {
        var info := fieldsInfo[i];
        var value := ReadValue(codec, bytes, pos, info);
        assert fieldsInfo[..i + 1][..i] == fieldsInfo[..i];
        pos := value.next;
        if value.result.Err? {
          AssembleErrorSticks(codec, bytes, start, fieldsInfo, i + 1);
          return Some(Err(value.result.error));
        }
        if info.name != DELETION_FLAG_NAME {
          record := record[info.name := value.result.value];
        }
        i := i + 1;
      }
      assert fieldsInfo[..i] == fieldsInfo;
      currentRecord := currentRecord + 1;
      return Some(Ok(record));
    }

    /** `Reader::read`: collects the items of `next` until end of sequence,
        stopping at the first error. */
    method Read() returns (r: Result<seq<Record>>)
      requires Valid()
      modifies this
      ensures Valid()
      ensures r == Collect(codec, bytes, header, fieldsInfo, old(State()))
    {
      var records: seq<Record> := [];
      ghost var all := Collect(codec, bytes, header, fieldsInfo, State());
      assert all.Ok? ==> [] + all.value == all.value;
      while true
        invariant Valid()
        invariant Collect(codec, bytes, header, fieldsInfo, old(State()))
                  == Prepend(records, Collect(codec, bytes, header, fieldsInfo, State()))
        decreases header.numRecords - currentRecord
      {
        ghost var before := State();
        var item := Next();
        match item
        case None =>
          assert records + [] == records;
          return Ok(records);
        case Some(Err(e)) =>
          return Err(e);
        case Some(Ok(record)) =>
          assert Collect(codec, bytes, header, fieldsInfo, before)
                 == Prepend([record], Collect(codec, bytes, header, fieldsInfo, State()));
          PrependTwice(records, [record], Collect(codec, bytes, header, fieldsInfo, State()));
          records := records + [record];
      }
    }
  }

  lemma PrependTwice(a: seq<Record>, b: seq<Record>, r: Result<seq<Record>>)
    ensures Prepend(a, Prepend(b, r)) == Prepend(a + b, r)
  {
    if r.Ok? {
      assert a + (b + r.value) == (a + b) + r.value;
    }
  }
}
