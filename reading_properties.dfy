/**
  What the reader promises, stated against byte layouts defined independently
  of the step-by-step functions of `Reading`: where each descriptor and each
  value lies in the source, which names a record has and which value each
  name holds, and what the eager read collects.
 */
module ReadingProperties {
  import opened Collaborators
  import opened Reading

  // ---------------------------------------------------------------------
  // Descriptor table
  // ---------------------------------------------------------------------

  /** The bytes of the `i`-th descriptor of a table that starts at `pos`. */
  function DescriptorBytes(bytes: seq<bv8>, pos: nat, i: nat): seq<bv8>
    requires pos + i * FIELD_INFO_SIZE + FIELD_INFO_SIZE <= |bytes|
  {
    bytes[pos + i * FIELD_INFO_SIZE .. pos + i * FIELD_INFO_SIZE + FIELD_INFO_SIZE]
  }

  lemma SlotInside(pos: nat, i: nat, n: nat, len: nat)
    requires i < n && pos + n * FIELD_INFO_SIZE <= len
    ensures pos + i * FIELD_INFO_SIZE + FIELD_INFO_SIZE <= len
  {
    assert (i + 1) * FIELD_INFO_SIZE <= n * FIELD_INFO_SIZE;
  }

  /** `n` whole descriptors follow `pos` and each of them decodes. */
  ghost predicate DescriptorsDecode(codec: Codec, bytes: seq<bv8>, pos: nat, n: nat)
  {
    && pos + n * FIELD_INFO_SIZE <= |bytes|
    && forall i | 0 <= i < n ::
         && pos + i * FIELD_INFO_SIZE + FIELD_INFO_SIZE <= |bytes|
         && codec.fieldInfo(DescriptorBytes(bytes, pos, i)).Ok?
  }

  /** Reading `n` descriptors succeeds exactly when `n` whole descriptors
      follow and each decodes; it then consumes `n` descriptor sizes and
      returns the decoded descriptors in file order. */
  lemma {:induction false} FieldsInfoLayout(codec: Codec, bytes: seq<bv8>, pos: nat, n: nat)
    requires pos <= |bytes|
    ensures var s := FieldsInfo(codec, bytes, pos, n);
            && (s.result.Ok? <==> DescriptorsDecode(codec, bytes, pos, n))
            && (s.result.Ok? ==> s.next == pos + n * FIELD_INFO_SIZE)
            && (s.result.Ok? ==>
                  forall i | 0 <= i < n ::
                    && pos + i * FIELD_INFO_SIZE + FIELD_INFO_SIZE <= |bytes|
                    && codec.fieldInfo(DescriptorBytes(bytes, pos, i)) == Ok(s.result.value[i]))
  {
    if n > 0 {
      FieldsInfoLayout(codec, bytes, pos, n - 1);
      var prev := FieldsInfo(codec, bytes, pos, n - 1);
      var start := pos + (n - 1) * FIELD_INFO_SIZE;
      assert start + FIELD_INFO_SIZE == pos + n * FIELD_INFO_SIZE;
      if DescriptorsDecode(codec, bytes, pos, n) {
        assert DescriptorsDecode(codec, bytes, pos, n - 1);
        SlotInside(pos, n - 1, n, |bytes|);
        assert codec.fieldInfo(DescriptorBytes(bytes, pos, n - 1)).Ok?;
      }
      if prev.result.Ok? {
        var info := ReadFieldInfo(codec, bytes, prev.next);
        if start + FIELD_INFO_SIZE <= |bytes| {
          assert info.result == codec.fieldInfo(DescriptorBytes(bytes, pos, n - 1));
        }
      }
    }
  }

  // ---------------------------------------------------------------------
  // Preamble
  // ---------------------------------------------------------------------

  /** Position of the terminator byte for a given header. */
  function TerminatorPos(header: Header): nat
    requires header.offsetToFirstRecord >= HEADER_SIZE
  {
    HEADER_SIZE + NumFields(header) * FIELD_INFO_SIZE
  }

  /** The header decodes, its offset leaves room for the header itself, every
      descriptor it implies decodes, and '\r' follows the last of them. */
  ghost predicate WellFormedPreamble(codec: Codec, bytes: seq<bv8>)
  {
    && HEADER_SIZE <= |bytes|
    && codec.header(bytes[..HEADER_SIZE]).Ok?
    && var header := codec.header(bytes[..HEADER_SIZE]).value;
       && header.offsetToFirstRecord >= HEADER_SIZE
       && DescriptorsDecode(codec, bytes, HEADER_SIZE, NumFields(header))
       && TerminatorPos(header) < |bytes|
       && bytes[TerminatorPos(header)] == TERMINATOR
  }

  /** Construction succeeds exactly on a well-formed preamble. */
  lemma PreambleSucceedsIffWellFormed(codec: Codec, bytes: seq<bv8>)
    ensures ParsePreamble(codec, bytes).Ok? <==> WellFormedPreamble(codec, bytes)
  {
    var h := ReadHeader(codec, bytes, 0);
    if h.result.Ok? && h.result.value.offsetToFirstRecord >= HEADER_SIZE {
      assert bytes[0..HEADER_SIZE] == bytes[..HEADER_SIZE];
      FieldsInfoLayout(codec, bytes, HEADER_SIZE, NumFields(h.result.value));
    }
  }

  /** After a successful construction the table holds the deletion flag and
      then one descriptor per on-disk slot, the header is the decoded one and
      the position is just past the '\r' terminator. */
  lemma PreambleShape(codec: Codec, bytes: seq<bv8>)
    requires ParsePreamble(codec, bytes).Ok?
    ensures var p := ParsePreamble(codec, bytes).value;
            && HEADER_SIZE <= |bytes|
            && codec.header(bytes[..HEADER_SIZE]) == Ok(p.header)
            && p.header.offsetToFirstRecord >= HEADER_SIZE
            && |p.fieldsInfo| == NumFields(p.header) + 1
            && p.fieldsInfo[0] == DELETION_FLAG
            && p.pos == TerminatorPos(p.header) + 1
            && bytes[p.pos - 1] == TERMINATOR
            && forall i | 0 <= i < NumFields(p.header) ::
                 && HEADER_SIZE + i * FIELD_INFO_SIZE + FIELD_INFO_SIZE <= |bytes|
                 && codec.fieldInfo(DescriptorBytes(bytes, HEADER_SIZE, i)) == Ok(p.fieldsInfo[i + 1])
  {
    var h := ReadHeader(codec, bytes, 0);
    assert bytes[0..HEADER_SIZE] == bytes[..HEADER_SIZE];
    FieldsInfoLayout(codec, bytes, HEADER_SIZE, NumFields(h.result.value));
  }

  /** Everything before the terminator is well formed but the terminator is
      not '\r': construction fails with that byte. */
  lemma BadTerminatorFails(codec: Codec, bytes: seq<bv8>)
    requires HEADER_SIZE <= |bytes| && codec.header(bytes[..HEADER_SIZE]).Ok?
    requires codec.header(bytes[..HEADER_SIZE]).value.offsetToFirstRecord >= HEADER_SIZE
    requires var header := codec.header(bytes[..HEADER_SIZE]).value;
             && DescriptorsDecode(codec, bytes, HEADER_SIZE, NumFields(header))
             && TerminatorPos(header) < |bytes|
             && bytes[TerminatorPos(header)] != TERMINATOR
    ensures var header := codec.header(bytes[..HEADER_SIZE]).value;
            ParsePreamble(codec, bytes) == Err(UnexpectedTerminator(bytes[TerminatorPos(header)]))
  {
    assert bytes[0..HEADER_SIZE] == bytes[..HEADER_SIZE];
    FieldsInfoLayout(codec, bytes, HEADER_SIZE, NumFields(codec.header(bytes[..HEADER_SIZE]).value));
  }

  // ---------------------------------------------------------------------
  // Record assembly
  // ---------------------------------------------------------------------

  /** Total width of a run of columns. */
  function Width(fields: seq<FieldInfo>): nat
  {
    if fields == [] then 0 else Width(fields[..|fields| - 1]) + fields[|fields| - 1].length
  }

  /** The bytes of column `i` of a record that starts at `pos`. */
  function ValueBytes(bytes: seq<bv8>, pos: nat, fields: seq<FieldInfo>, i: nat): seq<bv8>
    requires i < |fields| && pos + Width(fields[..i]) + fields[i].length <= |bytes|
  {
    bytes[pos + Width(fields[..i]) .. pos + Width(fields[..i]) + fields[i].length]
  }

  /** Every column of the record lies inside the source and decodes. */
  ghost predicate ValuesDecode(codec: Codec, bytes: seq<bv8>, pos: nat, fields: seq<FieldInfo>)
  {
    forall i | 0 <= i < |fields| ::
      && pos + Width(fields[..i]) + fields[i].length <= |bytes|
      && codec.value(fields[i], ValueBytes(bytes, pos, fields, i)).Ok?
  }

  /** Columns before the last one lie where they lie without the last one. */
  lemma ValueBytesOfInit(bytes: seq<bv8>, pos: nat, fields: seq<FieldInfo>, i: nat)
    requires i < |fields| - 1
    requires pos + Width(fields[..i]) + fields[i].length <= |bytes|
    ensures var init := fields[..|fields| - 1];
            && init[..i] == fields[..i] && init[i] == fields[i]
            && ValueBytes(bytes, pos, init, i) == ValueBytes(bytes, pos, fields, i)
  {
  }

  /** Every column decodes exactly when every column but the last decodes and
      the last one, right after them, does too. */
  lemma ValuesDecodeSnoc(codec: Codec, bytes: seq<bv8>, pos: nat, fields: seq<FieldInfo>)
    requires fields != []
    ensures var init := fields[..|fields| - 1];
            var last := fields[|fields| - 1];
            var start := pos + Width(init);
            ValuesDecode(codec, bytes, pos, fields) <==>
              && ValuesDecode(codec, bytes, pos, init)
              && start + last.length <= |bytes|
              && codec.value(last, bytes[start..start + last.length]).Ok?
  {
    var n := |fields|;
    var init := fields[..n - 1];
    var last := fields[n - 1];
    var start := pos + Width(init);
    if ValuesDecode(codec, bytes, pos, fields) {
      forall i | 0 <= i < n - 1
        ensures && pos + Width(init[..i]) + init[i].length <= |bytes|
                && codec.value(init[i], ValueBytes(bytes, pos, init, i)).Ok?
      {
        ValueBytesOfInit(bytes, pos, fields, i);
      }
      assert ValueBytes(bytes, pos, fields, n - 1) == bytes[start..start + last.length];
    }
    if && ValuesDecode(codec, bytes, pos, init)
       && start + last.length <= |bytes|
       && codec.value(last, bytes[start..start + last.length]).Ok?
    {
      forall i | 0 <= i < n
        ensures && pos + Width(fields[..i]) + fields[i].length <= |bytes|
                && codec.value(fields[i], ValueBytes(bytes, pos, fields, i)).Ok?
      {
        if i < n - 1 {
          assert init[..i] == fields[..i] && init[i] == fields[i];
          ValueBytesOfInit(bytes, pos, fields, i);
        } else {
          assert fields[..i] == init;
        }
      }
    }
  }

  /** A record is assembled exactly when every column decodes; it then
      consumes the record's whole width. */
  lemma {:induction false} AssembleLayout(codec: Codec, bytes: seq<bv8>, pos: nat, fields: seq<FieldInfo>)
    requires pos <= |bytes|
    ensures var s := AssembleRecord(codec, bytes, pos, fields);
            && (s.result.Ok? <==> ValuesDecode(codec, bytes, pos, fields))
            && (s.result.Ok? ==> s.next == pos + Width(fields))
    decreases |fields|
  {
    if fields != [] {
      var init := fields[..|fields| - 1];
      AssembleLayout(codec, bytes, pos, init);
      ValuesDecodeSnoc(codec, bytes, pos, fields);
    }
  }

  /** Names of the real columns (everything but the deletion flag). */
  ghost function ColumnNames(fields: seq<FieldInfo>): set<string>
  {
    set i | 0 <= i < |fields| && fields[i].name != DELETION_FLAG_NAME :: fields[i].name
  }

  lemma ColumnNamesSnoc(fields: seq<FieldInfo>)
    requires fields != []
    ensures var last := fields[|fields| - 1];
            ColumnNames(fields)
            == ColumnNames(fields[..|fields| - 1]) + (if last.name != DELETION_FLAG_NAME then {last.name} else {})
  {
  }

  /** A record's keys are exactly the names of the real columns; the deletion
      flag is never one of them. */
  lemma {:induction false} RecordKeys(codec: Codec, bytes: seq<bv8>, pos: nat, fields: seq<FieldInfo>)
    requires pos <= |bytes|
    ensures var s := AssembleRecord(codec, bytes, pos, fields);
            s.result.Ok? ==>
              && s.result.value.Keys == ColumnNames(fields)
              && DELETION_FLAG_NAME !in s.result.value
    decreases |fields|
  {
    if fields != [] {
      RecordKeys(codec, bytes, pos, fields[..|fields| - 1]);
      ColumnNamesSnoc(fields);
    }
  }

  /** No column after `i` has the name of column `i`. */
  ghost predicate LastWithName(fields: seq<FieldInfo>, i: nat)
    requires i < |fields|
  {
    forall j | i < j < |fields| :: fields[j].name != fields[i].name
  }

  /** A record that reads one more column keeps every other name's value. */
  lemma OtherNamesKept(codec: Codec, bytes: seq<bv8>, pos: nat, fields: seq<FieldInfo>, name: string)
    requires pos <= |bytes| && fields != [] && fields[|fields| - 1].name != name
    requires AssembleRecord(codec, bytes, pos, fields).result.Ok?
    ensures var prev := AssembleRecord(codec, bytes, pos, fields[..|fields| - 1]).result;
            var record := AssembleRecord(codec, bytes, pos, fields).result.value;
            && prev.Ok?
            && (name in prev.value ==> name in record && record[name] == prev.value[name])
  {
  }

  /** The last column's name holds the value decoded from its bytes. */
  lemma LastColumnValue(codec: Codec, bytes: seq<bv8>, pos: nat, fields: seq<FieldInfo>)
    requires pos <= |bytes| && fields != [] && fields[|fields| - 1].name != DELETION_FLAG_NAME
    requires AssembleRecord(codec, bytes, pos, fields).result.Ok?
    ensures var i := |fields| - 1;
            var record := AssembleRecord(codec, bytes, pos, fields).result.value;
            && pos + Width(fields[..i]) + fields[i].length <= |bytes|
            && fields[i].name in record
            && codec.value(fields[i], ValueBytes(bytes, pos, fields, i)) == Ok(record[fields[i].name])
  {
    var i := |fields| - 1;
    var init := fields[..i];
    AssembleLayout(codec, bytes, pos, init);
    var prev := AssembleRecord(codec, bytes, pos, init);
    var v := ReadValue(codec, bytes, prev.next, fields[i]);
    assert v.result == codec.value(fields[i], ValueBytes(bytes, pos, fields, i));
  }

  /** The name of column `i`, when no later column has it, holds the value
      decoded from the bytes of column `i` (last write wins). */
  lemma {:induction false} LastColumnWins(codec: Codec, bytes: seq<bv8>, pos: nat, fields: seq<FieldInfo>, i: nat)
    requires pos <= |bytes| && i < |fields|
    requires fields[i].name != DELETION_FLAG_NAME && LastWithName(fields, i)
    requires AssembleRecord(codec, bytes, pos, fields).result.Ok?
    ensures pos + Width(fields[..i]) + fields[i].length <= |bytes|
    ensures var record := AssembleRecord(codec, bytes, pos, fields).result.value;
            && fields[i].name in record
            && codec.value(fields[i], ValueBytes(bytes, pos, fields, i)) == Ok(record[fields[i].name])
    decreases |fields|
  {
    var n := |fields|;
    if i < n - 1 {
      var init := fields[..n - 1];
      assert init[..i] == fields[..i] && init[i] == fields[i];
      assert LastWithName(init, i);
      OtherNamesKept(codec, bytes, pos, fields, fields[i].name);
      LastColumnWins(codec, bytes, pos, init, i);
      ValueBytesOfInit(bytes, pos, fields, i);
    } else {
      LastColumnValue(codec, bytes, pos, fields);
    }
  }

  // ---------------------------------------------------------------------
  // Iteration and the eager read
  // ---------------------------------------------------------------------

  /** The cursor after `k` calls of `next` from `c`. */
  function After(codec: Codec, bytes: seq<bv8>, header: Header, fields: seq<FieldInfo>, c: Cursor, k: nat): (d: Cursor)
    requires c.pos <= |bytes|
    ensures d.pos <= |bytes|
    decreases k
  {
    if k == 0 then c
    else After(codec, bytes, header, fields, NextItem(codec, bytes, header, fields, c).cursor, k - 1)
  }

  /** The item of the call of `next` that follows `k` earlier calls. */
  function ItemAt(codec: Codec, bytes: seq<bv8>, header: Header, fields: seq<FieldInfo>, c: Cursor, k: nat): Option<Result<Record>>
    requires c.pos <= |bytes|
  {
    NextItem(codec, bytes, header, fields, After(codec, bytes, header, fields, c, k)).item
  }

  /** When the eager read succeeds it holds, in order, the records of the
      next `numRecords - currentRecord` calls, and the call after them is the
      end of the sequence. */
  lemma {:induction false} CollectYieldsEveryRecord(codec: Codec, bytes: seq<bv8>, header: Header, fields: seq<FieldInfo>, c: Cursor)
    requires c.pos <= |bytes| && c.currentRecord <= header.numRecords
    ensures var r := Collect(codec, bytes, header, fields, c);
            r.Ok? ==>
              && |r.value| == header.numRecords - c.currentRecord
              && (forall i | 0 <= i < |r.value| :: ItemAt(codec, bytes, header, fields, c, i) == Some(Ok(r.value[i])))
              && ItemAt(codec, bytes, header, fields, c, |r.value|).None?
    decreases header.numRecords - c.currentRecord
  {
    var y := NextItem(codec, bytes, header, fields, c);
    var r := Collect(codec, bytes, header, fields, c);
    if y.item.Some? && y.item.value.Ok? && r.Ok? {
      CollectYieldsEveryRecord(codec, bytes, header, fields, y.cursor);
      var rest := Collect(codec, bytes, header, fields, y.cursor).value;
      assert r.value == [y.item.value.value] + rest;
      forall i | 0 <= i < |r.value|
        ensures ItemAt(codec, bytes, header, fields, c, i) == Some(Ok(r.value[i]))
      {
        if i > 0 {
          assert ItemAt(codec, bytes, header, fields, c, i) == ItemAt(codec, bytes, header, fields, y.cursor, i - 1);
        }
      }
      assert ItemAt(codec, bytes, header, fields, c, |r.value|) == ItemAt(codec, bytes, header, fields, y.cursor, |rest|);
    }
  }

  /** The calls before the `k`-th all yield records and the `k`-th yields `e`. */
  ghost predicate FirstErrorAt(codec: Codec, bytes: seq<bv8>, header: Header, fields: seq<FieldInfo>, c: Cursor, k: nat, e: Error)
    requires c.pos <= |bytes|
  {
    && (forall j | 0 <= j < k ::
          ItemAt(codec, bytes, header, fields, c, j).Some? && ItemAt(codec, bytes, header, fields, c, j).value.Ok?)
    && ItemAt(codec, bytes, header, fields, c, k) == Some(Err(e))
  }

  /** When the eager read fails, its error is the first error `next` yields. */
  lemma {:induction false} CollectFailsWithFirstError(codec: Codec, bytes: seq<bv8>, header: Header, fields: seq<FieldInfo>, c: Cursor)
    requires c.pos <= |bytes|
    ensures var r := Collect(codec, bytes, header, fields, c);
            r.Err? ==> exists k: nat :: FirstErrorAt(codec, bytes, header, fields, c, k, r.error)
    decreases header.numRecords - c.currentRecord
  {
    var y := NextItem(codec, bytes, header, fields, c);
    var r := Collect(codec, bytes, header, fields, c);
    if r.Err? {
      if y.item.Some? && y.item.value.Err? {
        assert FirstErrorAt(codec, bytes, header, fields, c, 0, r.error);
      } else {
        CollectFailsWithFirstError(codec, bytes, header, fields, y.cursor);
        var k: nat :| FirstErrorAt(codec, bytes, header, fields, y.cursor, k, r.error);
        assert ItemAt(codec, bytes, header, fields, c, 0) == y.item;
        forall j | 0 <= j < k + 1
          ensures ItemAt(codec, bytes, header, fields, c, j).Some?
          ensures ItemAt(codec, bytes, header, fields, c, j).value.Ok?
        {
          if j > 0 {
            assert ItemAt(codec, bytes, header, fields, c, j) == ItemAt(codec, bytes, header, fields, y.cursor, j - 1);
          }
        }
        assert ItemAt(codec, bytes, header, fields, c, k + 1) == ItemAt(codec, bytes, header, fields, y.cursor, k);
        assert FirstErrorAt(codec, bytes, header, fields, c, k + 1, r.error);
      }
    }
  }

  /** Conversely, a first error yielded by `next` is the eager read's error. */
  lemma {:induction false} FirstErrorFailsCollect(codec: Codec, bytes: seq<bv8>, header: Header, fields: seq<FieldInfo>, c: Cursor, k: nat, e: Error)
    requires c.pos <= |bytes|
    requires FirstErrorAt(codec, bytes, header, fields, c, k, e)
    ensures Collect(codec, bytes, header, fields, c) == Err(e)
    decreases k
  {
    if k > 0 {
      var y := NextItem(codec, bytes, header, fields, c);
      assert ItemAt(codec, bytes, header, fields, c, 0) == y.item;
      forall j | 0 <= j <= k - 1
        ensures ItemAt(codec, bytes, header, fields, c, j + 1) == ItemAt(codec, bytes, header, fields, y.cursor, j)
      {
      }
      FirstErrorFailsCollect(codec, bytes, header, fields, y.cursor, k - 1, e);
    }
  }

  /** A table with one record and one character column "NAME" of width 10:
      the eager read yields the single record { "NAME": value }. */
  lemma SingleNameColumn(codec: Codec, bytes: seq<bv8>, pos: nat, header: Header, value: FieldValue)
    requires header.numRecords == 1 && pos + 11 <= |bytes|
    requires codec.value(DELETION_FLAG, bytes[pos..pos + 1]).Ok?
    requires codec.value(FieldInfo("NAME", 'C', 10), bytes[pos + 1..pos + 11]) == Ok(value)
    ensures Collect(codec, bytes, header, [DELETION_FLAG, FieldInfo("NAME", 'C', 10)], Cursor(pos, 0))
            == Ok([map["NAME" := value]])
  {
    var fields := [DELETION_FLAG, FieldInfo("NAME", 'C', 10)];
    assert fields[..1] == [DELETION_FLAG];
    assert [DELETION_FLAG][..0] == [];
    var flag := ReadValue(codec, bytes, pos, DELETION_FLAG);
    assert flag.next == pos + 1 && flag.result.Ok?;
    var empty: Record := map[];
    assert AssembleRecord(codec, bytes, pos, []) == Step(Ok(empty), pos);
    var first := AssembleRecord(codec, bytes, pos, [DELETION_FLAG]);
    assert first.result.Ok?;
    assert first.next == pos + 1;
    assert first.result.value == empty;
    assert AssembleRecord(codec, bytes, pos, fields) == Step(Ok(map["NAME" := value]), pos + 11);
    var y := NextItem(codec, bytes, header, fields, Cursor(pos, 0));
    assert y.cursor == Cursor(pos + 11, 1);
    assert Collect(codec, bytes, header, fields, y.cursor) == Ok([]);
    assert y.item == Some(Ok(map["NAME" := value]));
    assert [map["NAME" := value]] + [] == [map["NAME" := value]];
  }
}
