# dBASE table reader

A model of the `Reader` of the `dbase` crate (`src/reading.rs`), which
decodes a dBASE III `.dbf` table from a byte source in two stages:

- **Construction** (`Reader::new`). It reads the fixed-size header. It then
  works out the number of on-disk field descriptors from
  `offset_to_first_record` and builds the descriptor table: first the
  synthetic one-byte `DeletionFlag` column, then one descriptor per column.
  Last, it reads the byte after the table, which must be `'\r'` (0x0D).
- **Iteration** (`Iterator::next`). While `current_record` is below the
  header's `num_records`, each call reads one value per descriptor, in
  table order. It inserts every value except the deletion flag's into a
  name-to-value map, increments the counter and yields the record. A
  value that fails to decode is yielded as an error and the counter stays.
  Once the count is reached, every call yields end of sequence.
- **Eager read** (`Reader::read`) collects the iterator into a vector and
  stops at the first error.

The byte source is a `seq<bv8>` with a read position. The three decoders
the reader calls (`Header::read_from`, `RecordFieldInfo::read_from`,
`FieldValue::read_from`) are function values in a `Codec`. Each one is
handed exactly the bytes it consumes: `HEADER_SIZE` bytes, `FIELD_INFO_SIZE`
bytes, or the descriptor's length. A short source gives `UnexpectedEof`.
`HEADER_SIZE` and `FIELD_INFO_SIZE` are positive constants whose values the
model does not fix.

Files:

- `collaborators.dfy` (module `Collaborators`): the error type, the header
  and descriptor records, the decoders and the byte-source reads.
- `reading.dfy` (module `Reading`): the step-by-step specification
  (`FieldsInfo`, `ParsePreamble`, `AssembleRecord`, `NextItem`, `Collect`)
  and the class `Reader`. Its fields are `codec`, `bytes`, `header`,
  `fieldsInfo`, `pos` and `currentRecord`. The header and the descriptor
  table are `const`, so no method can change them after construction.
  `New`, `Next` and `Read` are methods with the source's loops. Each is
  proved equal to the corresponding specification function.
- `reading_properties.dfy` (module `ReadingProperties`): byte layouts
  defined independently of the step functions, and the lemmas that connect
  the two.

Where the model departs from the code, or settles what the code leaves open:

- A bad terminator byte makes `Reader::new` panic. The model returns
  `Err(UnexpectedTerminator(b))` instead.
- `offset_to_first_record < Header::SIZE` is not checked. The subtraction
  at `src/reading.rs:40` then underflows, which panics in a debug build.
  The model returns `Err(OffsetBeforeFieldTable(offset))`.
- The descriptor count is a truncating division. A remainder is silently
  ignored.
- Records drop the deletion flag by NAME, not by position. A real column
  named `DeletionFlag` is dropped as well.

## Model

| member | source | states |
|---|---|---|
| Collaborators.ReadHeader | src/reading.rs:39 | `Header::read_from` decodes exactly `HEADER_SIZE` bytes; on success the position advances by that size |
| Collaborators.ReadFieldInfo | src/reading.rs:45 | `RecordFieldInfo::read_from` decodes exactly `FIELD_INFO_SIZE` bytes; on success the position advances by that size |
| Collaborators.ReadValue | src/reading.rs:95 | `FieldValue::read_from` consumes the descriptor's length, or what is left of the source when that is shorter |
| Collaborators.ReadU8 | src/reading.rs:50 | `read_u8` succeeds exactly when a byte remains; it then returns that byte and advances by one |
| Reading.NumFields | src/reading.rs:40 | the on-disk descriptor count is the truncating quotient: `n` whole descriptors fit between the header and the first record and `n + 1` do not |
| Reading.FieldsInfo | src/reading.rs:44-48 | reading `n` descriptors one after the other yields exactly `n` of them and stays inside the source |
| Reading.ParsePreamble | src/reading.rs:38-61 | construction, as a function of the bytes: header, then deletion flag plus descriptors, then the `'\r'` check; the position it leaves lies inside the source |
| Reading.AssembleRecord | src/reading.rs:93-103 | assembling one record only moves the read position forward and stays inside the source |
| Reading.NextItem | src/reading.rs:89-107 | `next` yields end of sequence exactly when `current_record >= num_records`, and then changes nothing (so end of sequence repeats); a record raises the counter by exactly one and never beyond `num_records`; an error leaves the counter unchanged |
| Reading.Collect | src/reading.rs:75-82 | `read` as a function of the reader's state: pulls `next` until end of sequence or the first error; a successful read holds exactly one record per declared record not yet read |
| Reading.AssembleErrorSticks | src/reading.rs:95-96 | once a value fails, the record's outcome is that failure: later descriptors are not read |
| Reading.FieldsInfoErrorSticks | src/reading.rs:44-45 | once a descriptor fails, construction's outcome is that failure: later descriptors are not read |
| Reading.Reader.FromPreamble | src/reading.rs:55-60 | a new reader holds the decoded header, the descriptor table and the position after the terminator, with `current_record == 0` |
| Reading.Reader.New | src/reading.rs:38-61 | `Reader::new` succeeds exactly when `ParsePreamble` does and otherwise returns the same error; a new reader has exactly the parsed header, table and position, and `current_record == 0` |
| Reading.Reader.Next | src/reading.rs:89-107 | `next` yields what `NextItem` yields for the old position and counter and leaves the cursor `NextItem` gives; header and table are unchanged |
| Reading.Reader.Read | src/reading.rs:75-82 | `read` returns `Collect` of the reader's state: the records in iteration order, or the first error |
| ReadingProperties.FieldsInfoLayout | src/reading.rs:40-48 | reading `n` descriptors succeeds if and only if `n` whole descriptor slots follow and each decodes; it then consumes `n * FIELD_INFO_SIZE` bytes, and entry `i` is the decoding of slot `i` |
| ReadingProperties.PreambleSucceedsIffWellFormed | src/reading.rs:38-61 | construction succeeds if and only if the header decodes, its offset is at least `HEADER_SIZE`, every implied descriptor decodes, and the byte after the last descriptor is `'\r'` |
| ReadingProperties.PreambleShape | src/reading.rs:40-60 | after a successful construction the table has `(offset - HEADER_SIZE) / FIELD_INFO_SIZE + 1` entries, entry 0 is the deletion flag, entry `i + 1` is descriptor slot `i`, the header is the decoded one, and the position is just past a `'\r'` byte |
| ReadingProperties.BadTerminatorFails | src/reading.rs:50-53 | when header and descriptors are sound but the byte after them is not `'\r'`, construction fails with `UnexpectedTerminator` carrying that byte |
| ReadingProperties.AssembleLayout | src/reading.rs:94-98 | a record is assembled if and only if every column lies inside the source at its offset (the sum of earlier widths) and decodes; it then consumes the sum of all widths |
| ReadingProperties.RecordKeys | src/reading.rs:93-102 | a yielded record's keys are exactly the names of the non-deletion-flag columns, and `"DeletionFlag"` is never a key |
| ReadingProperties.OtherNamesKept | src/reading.rs:100-102 | inserting one more column keeps the value of every other name |
| ReadingProperties.LastColumnValue | src/reading.rs:95-102 | the last column's name holds the value decoded from that column's bytes |
| ReadingProperties.LastColumnWins | src/reading.rs:100-102 | with duplicate names, a name holds the value decoded from the bytes of the last column of that name |
| ReadingProperties.CollectYieldsEveryRecord | src/reading.rs:75-82 | a successful `read` returns exactly `num_records - current_record` records; record `i` is the item of the `(i+1)`-th `next` call, and the call after the last record is end of sequence |
| ReadingProperties.CollectFailsWithFirstError | src/reading.rs:77-78 | a failing `read` returns the error of the first `next` call that yields one, after calls that all yielded records |
| ReadingProperties.FirstErrorFailsCollect | src/reading.rs:77-78 | conversely, when the first error among the `next` calls is `e`, `read` fails with `e` |
| ReadingProperties.SingleNameColumn | src/reading.rs:89-105 | one record with a 10-byte column `NAME`: `read` yields exactly `[{ "NAME": value }]`, with no deletion-flag key |

## Left out

- `read(path)` and `File::open` (`src/reading.rs:118-122`): file-system I/O.
- The decoders' internals and the per-type field layouts. The dBASE
  `FieldValue` variants are an abstract type, and the decoders are
  arbitrary functions over the bytes they are given.
- `RecordFieldInfo::new_deletion_flag` is a constant named `DeletionFlag`,
  of type `'C'` and one byte wide. The other fields of the Rust descriptor
  (displacement, decimal count) are not modelled.
- Partial reads before a decoder fails. The model lets a failing decoder
  consume its whole slice, and a short source consume the rest of the
  source. This fixes the position after an error. The iterator is not
  fused, so a caller that calls `next` again after an error decodes from
  that position: the choice also decides every item after the error.
- `HashMap` hashing and iteration order: a record is a `map<string, FieldValue>`.
- `Vec::with_capacity` and `HashMap::with_capacity` hints: capacity is not
  observable.
- Process aborts. The terminator panic and the debug-build underflow panic
  are failure outcomes. Release-build wrap-around of the subtraction at
  line 40 is not modelled.
- Ownership: `read(self)` consumes the reader in Rust. The model's
  `Reader.Read` modifies the reader instead.
- Determinism: it holds because every operation is a Dafny function of the
  bytes; no separate lemma states it.
- The relation between the declared record size and the sum of the column
  widths: the reader never checks it.
