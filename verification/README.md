# xdb memtable skip list and write-ahead log, in Dafny

This project models the two sequential cores of the xdb key-value store and
proves properties of each.

- **The memtable's multi-version skip list** (`memtable/memtable.go`):
  - Nodes hold `(key, value, timestamp)`. They are ordered by key ascending, then timestamp descending.
  - A head sentinel has `MAX_LEVEL = 16` forward pointers.
  - `findGreaterOrEqual` walks the levels top-down and records each level's predecessor.
  - `Insert` rejects a duplicate version and splices a new node in after those predecessors.
  - `Find` searches with timestamp `MaxInt64`, which reaches the newest version of a key.
- **The write-ahead log writer** (`wal/wal.go`):
  - `Append` stamps each log with a sequence number.
  - `serializeLog` computes the record's CRC-32C (Castagnoli) checksum.
  - The write loop frames each record as `[u32 length LE][u32 checksum LE][data]` and appends it to the active log file.
  - Once the active file holds more than 50 bytes, the writer rolls over to a fresh file named `xdb/wal-<seq>.log`.

## Layout

- `skiplist_spec.dfy` (module `SkipSpec`) is the pure specification of the skip list. It contains:
  - Go's string order `StrLess`, which is lexicographic on code points. For valid text this is the same order as Go's byte-wise comparison of the UTF-8 encodings.
  - The entry order `Before`/`Precedes`, which is the test on line 94.
  - `Sorted` sequences of entries, the insertion position `InsertPos` and the newest-version lookup `Lookup`.
  - The level structure of a skip list, described by its nodes' heights. `NextPos(hs, p, l)` is the next position after `p` whose node is linked on level `l`.
  - Because a level's chain is defined as the nodes of height greater than `l`, taken in level-0 order, each level is by construction a subsequence of the level below it.
- `arena.dfy` (module `Arena`) holds the nodes as an index arena:
  - Node 0 is the head and `-1` is nil.
  - `next[n]` holds node n's forward pointers.
  - The ghost `order` lists the nodes in level-0 order, and `heights` gives each node's level count.
  - The representation invariant is `ListInv`. Its pointer part is `Linked`: every pointer `next[node at p][l]` is the node at `NextPos(heights, p, l)`.
  - `Splice` is the second half of `Insert` on this state. It is proved to restore `ListInv` with the new entry inserted in order.
- `memtable.dfy` (module `Memtable`) has `randomLevel` and the class `SkipList`.
  - `SkipList`'s fields are the arena. Its methods are proved against the ghost `contents: seq<Entry>`.
- `wal.dfy` (module `Wal`) has the following parts:
  - CRC-32C, defined bit by bit in its reflected form and pinned to the standard check value.
  - The record framing and a parser for it.
  - `logName`.
  - The file system as a value `Disk`:
    - `files`: each log file's bytes, keyed by the number in its name.
    - `current`: the active file.
    - `size`: the writer's `size` field.
    - `created`: the files passed to `os.Create`, in order.
  - The class `WalWriter`, whose methods are proved against `Replay`. `Replay` is the disk state after the write loop has written a sequence of records.

Files are keyed by the number in their name, not by the name string. `LogNameInjective` proves that two numbers give the same name exactly when they are equal.

## Model

| member | source | states |
|---|---|---|
| SkipSpec.StrLess | memtable/memtable.go:94 | definition of Go's `<` on strings; StrLessIrreflexive, StrLessTransitive, StrLessTotal and StrLessAsymmetric state that it is a strict total order |
| SkipSpec.StrLessIrreflexive | memtable/memtable.go:94 | no string is below itself in Go's string order |
| SkipSpec.StrLessTransitive | memtable/memtable.go:94 | Go's string order is transitive |
| SkipSpec.StrLessTotal | memtable/memtable.go:94 | any two strings are equal or one is below the other |
| SkipSpec.StrLessAsymmetric | memtable/memtable.go:94 | a string below another is not also above it |
| SkipSpec.Before | memtable/memtable.go:94 | definition of the scan's test (key below, or same key with a larger timestamp); PrecedesTransitive and PrecedesTotal state that it is a strict total order on (key, timestamp) |
| SkipSpec.PrecedesTransitive | memtable/memtable.go:94 | the node order (key ascending, then timestamp descending) is transitive |
| SkipSpec.PrecedesTotal | memtable/memtable.go:94 | two entries either carry the same (key, timestamp) or exactly one precedes the other |
| SkipSpec.InsertPos | memtable/memtable.go:87-105 | every entry before the result is ordered before (key, ts), and the entry at the result is not |
| SkipSpec.InsertPosSplit | memtable/memtable.go:94-97 | in a sorted list, no entry from the insertion position on is ordered before (key, ts), so the scan's test splits the list in two |
| SkipSpec.HasVersionAtInsertPos | memtable/memtable.go:48-51 | in a sorted list, (key, ts) is present iff the node at its insertion position carries exactly that key and timestamp, which is Insert's duplicate test |
| SkipSpec.SortedInsert | memtable/memtable.go:61-64 | inserting a fresh (key, ts) at its insertion position keeps the list strictly sorted |
| SkipSpec.FirstWithKey | memtable/memtable.go:67-74 | the result is the first entry with the key, or None exactly when no entry has it |
| SkipSpec.LookupNewest | memtable/memtable.go:67-74 | in a sorted list, Lookup is None iff the key is absent; otherwise it is the value of the version with the largest timestamp |
| SkipSpec.LookupAtInsertPos | memtable/memtable.go:69-71 | the node at the insertion position of (key, MaxInt64) has the key iff the key is present, and it is then Lookup's entry |
| SkipSpec.NextPos | memtable/memtable.go:93-97 | the next node linked on level l after position p: every node strictly between them is shorter than l + 1 |
| SkipSpec.NextPosUnique | memtable/memtable.go:93-97 | the position characterised that way is unique |
| SkipSpec.NextPosAfterInsert | memtable/memtable.go:58-64 | after a node of height h is inserted at position k, each level's successor is unchanged, shifted past k, or becomes k exactly on the levels below h |
| SkipSpec.NextPosPastInsert | memtable/memtable.go:61-64 | successors of nodes after the insertion point only shift by one |
| SkipSpec.NextPosBeforeInsert | memtable/memtable.go:61-64 | successors that lie before the insertion point are unchanged |
| SkipSpec.NextPosAcrossInsert | memtable/memtable.go:61-64 | a link that spans the insertion point is redirected to the new node on its levels, and the new node inherits the old successor |
| Arena.LastBelow | memtable/memtable.go:92-102 | the last position before k whose node is linked on level l (or the head): every position between it and k is shorter |
| Arena.LastBelowUnique | memtable/memtable.go:92-102 | that predecessor is unique |
| Arena.LevelZeroNext | memtable/memtable.go:58 | every node has a level-0 pointer, so on level 0 the predecessor of k is k - 1 and its successor is k |
| Arena.LinkOf | memtable/memtable.go:93-96 | in a linked arena, `next[c][cl]` is the node at the level-cl successor position |
| Arena.NodeAtInjective | memtable/memtable.go:36-41 | distinct list positions hold distinct nodes |
| Arena.LinkedAfterSplice | memtable/memtable.go:61-64 | after the splice every pointer of every node (old and new) is the node at its level's successor in the new order |
| Arena.SpliceNewLink | memtable/memtable.go:62 | the new node's pointer on each of its levels is its successor on that level |
| Arena.SpliceOldLink | memtable/memtable.go:62-63 | every old node's pointer is its successor in the new order, and the predecessors now point at the new node |
| Arena.InvAfterSplice | memtable/memtable.go:54-64 | the splice restores the whole representation invariant, sorted contents included |
| Arena.EntriesAfterInsert | memtable/memtable.go:54-59 | the node appended to the arena spells the new entry at position k, and every other position still spells its old entry |
| Arena.SpliceLinks | memtable/memtable.go:58-64 | the loop gives the new node level+1 pointers, each copied from its predecessor's pointer, and points each predecessor on levels 0..level at it; no other pointer changes |
| Arena.PredecessorsLinked | memtable/memtable.go:62-63 | each recorded predecessor is a node with a pointer on the level it was recorded for |
| Arena.Splice | memtable/memtable.go:54-64 | adding and splicing the node yields a valid skip list whose contents are the old ones with the entry inserted at its position; the node appended to the arena holds the new key, value and timestamp and has exactly level+1 pointers; every old node keeps its key, value, timestamp and number of pointers |
| Memtable.LeadingTrue | memtable/memtable.go:81 | the number of successful draws before the first failure: all draws before it succeed, and the one at it fails |
| Memtable.DrawnLevel | memtable/memtable.go:79-85 | definition of the level a run of draws yields under a cap; RandomLevel and RandomLevelCapped are proved to compute it |
| Memtable.RandomLevel | memtable/memtable.go:79-85 | the loop as written returns the drawn level: one plus the number of leading successes, capped at MAX_LEVEL, in 1..16 |
| Memtable.RandomLevelCapped | memtable/memtable.go:79-85 | the corrected draw: in 1..15, and one plus the leading successes capped at MAX_LEVEL - 1 |
| Memtable.SkipList.constructor | memtable/memtable.go:13-20 | New gives an empty list whose head has exactly 16 forward pointers, all nil |
| Memtable.SkipList.RandomLevelReachesMax | memtable/memtable.go:81 | when every draw succeeds the level is MAX_LEVEL, which equals the head's pointer count: the splice loop's first index is one past the head's last pointer |
| Memtable.SkipList.NodeBefore | memtable/memtable.go:94 | definition of line 94's test on a node; NodeBeforeAt states that it holds exactly before the insertion position |
| Memtable.SkipList.NodeBeforeAt | memtable/memtable.go:94 | the scan's test on a node holds exactly for positions before the insertion position |
| Memtable.SkipList.LevelZeroStop | memtable/memtable.go:92-97 | on level 0 the scan stops right before the insertion position |
| Memtable.SkipList.ScanStops | memtable/memtable.go:94-101 | a scan that stops on level cl stops at that level's predecessor; on level 0 its next node is at the insertion position |
| Memtable.SkipList.ScanStep | memtable/memtable.go:93-96 | the pointer read is the level successor, and the test on it holds iff it lies before the insertion position |
| Memtable.SkipList.AdvanceOnLevel | memtable/memtable.go:93-97 | the inner loop moves right only over nodes ordered before (key, ts) and stops at that level's last one, never moving left |
| Memtable.SkipList.FindGreaterOrEqual | memtable/memtable.go:87-105 | the result is the first node not ordered before (key, ts), or nil; `prev[l]` is the last node before it on each level l |
| Memtable.SkipList.Find | memtable/memtable.go:67-74 | returns (value, true) iff some entry has the key, the value being the newest version's; otherwise ("", false); changes nothing |
| Memtable.SkipList.LinkNewNode | memtable/memtable.go:54-64 | the list stays valid, contents gain exactly the entry at its position, and the new node holds (key, value, ts) with level+1 pointers; the old nodes keep their key, value, timestamp and number of pointers |
| Memtable.SkipList.Insert | memtable/memtable.go:43-65 | inserts iff (key, ts) is absent, adding exactly that entry in order; the new node holds (key, value, ts) with a tower of the drawn level + 1 pointers; old nodes keep their key, value, timestamp and number of pointers, so every tower survives later inserts; a duplicate changes nothing |
| Wal.Crc32c | wal/wal.go:31 | definition of the CRC-32C checksum (reflected polynomial 0x82F63B78, preset and final complement); Crc32cCheckValue pins it to the standard check value |
| Wal.Crc32cCheckValue | wal/wal.go:31 | the checksum of "123456789" is 0xE3069283, the CRC-32C check value |
| Wal.CrcUpdateAppend | wal/wal.go:97 | feeding the register a + b gives the same register as feeding a and then b: the checksum does not depend on how the data is split across writes |
| Wal.Serialize | wal/wal.go:94-106 | definition of serializeLog; SerializeRoundTrip states that the record reads back as its content's length, that content's CRC-32C and the content, whatever its number |
| Wal.SerializeRoundTrip | wal/wal.go:94-106 | reading the framed, serialised log gives back the content's length, a checksum equal to the CRC-32C of the content read, and the content, then what followed |
| Wal.Records | wal/wal.go:83-106 | definition: the records n Appends queue. RecordsSnoc and WalWriter.Append state what one more Append adds, and SerializeRoundTrip states what each record reads back as |
| Wal.RecordsSnoc | wal/wal.go:83-91 | one more append adds exactly one record at the end, numbered after the others |
| Wal.Header | wal/wal.go:140-142 | definition of the 8-byte header (length modulo 2^32, then checksum, little-endian); ParseEncode states that it reads back |
| Wal.U32LE | wal/wal.go:141-142 | PutUint32 writes exactly 4 bytes |
| Wal.U32RoundTrip | wal/wal.go:141-142 | reading back four little-endian bytes gives the number written |
| Wal.U32RoundTripBytes | wal/wal.go:141-142 | every 4 bytes are the encoding of the number read from them |
| Wal.Encode | wal/wal.go:140-150 | a record's bytes are 8 + len(data) long |
| Wal.ParseFrame | wal/wal.go:140-149 | a parsed frame consumes at least one byte |
| Wal.ParseEncode | wal/wal.go:140-149 | reading one frame from an encoded record gives back its length, checksum and data, and leaves what followed it |
| Wal.ParseEncodeAll | wal/wal.go:140-149 | parsing the concatenated encodings of records gives back their frames, in order |
| Wal.ParseLogConcat | wal/wal.go:144-147 | two byte strings that read as whole records read, one after the other, as the first's records and then the second's: appending whole records to a file keeps it readable |
| Wal.ParseLogSnoc | wal/wal.go:144-147 | a file that reads as whole records still does after one record's encoding is appended, with that record's frame last |
| Wal.EncodeAllCons | wal/wal.go:140-149 | the encodings of records start with the first record's encoding |
| Wal.Digits | wal/wal.go:62 | the decimal digits of n are non-empty, with exactly one digit iff n < 10 |
| Wal.DigitsInjective | wal/wal.go:62 | different numbers have different decimal forms |
| Wal.LogName | wal/wal.go:60-63 | definition of `xdb/wal-%d.log`; LogNameInjective states that different numbers name different files |
| Wal.LogNameInjective | wal/wal.go:60-63 | two numbers give the same log file name iff they are equal |
| Wal.Rollover | wal/wal.go:49-58 | the named file becomes empty and active, size restarts at 0, the file joins the creation list, and no other file changes |
| Wal.Open | wal/wal.go:35-46 | the writer starts with one empty file, wal-1, active, with size 0 |
| Wal.WriteRecord | wal/wal.go:133-152 | definition of writeRawRecord on the file state; WriteRecordEffect states its effect and WriteRecordKeepsInv the invariant it keeps |
| Wal.WriteBytes | wal/wal.go:144-150 | definition of the two buffered writes and the size update; WriteRecordEffect states the effect |
| Wal.WriteRecordEffect | wal/wal.go:133-152 | a write rotates to logName(r.seq) iff size > 50; the active file grows by exactly the 8-byte header and the data; size tracks the active file's length; no other file changes; the file held at most 50 bytes before the record |
| Wal.WriteRecordKeepsInv | wal/wal.go:133-152 | a write keeps the disk invariant (closed files exceed 50 bytes, size is the active file's length, names increase) and appends the record's encoding to the files read in creation order |
| Wal.WriteRecordKeepsParse | wal/wal.go:133-152 | a write keeps every log file readable as whole records: a rollover starts an empty file, and the record is appended whole |
| Wal.ReplayFilesParse | wal/wal.go:108-118 | after the write loop has written any records, each log file on its own reads as a sequence of whole records |
| Wal.RotateKeepsInv | wal/wal.go:134-138 | a rotating write keeps the invariant: the file it closes exceeds 50 bytes |
| Wal.RotateConcat | wal/wal.go:134-138 | a rotating write appends the encoding to the files read in creation order |
| Wal.GrowKeepsInv | wal/wal.go:144-150 | a write without rotation keeps the invariant |
| Wal.GrowConcat | wal/wal.go:144-150 | a write without rotation appends the encoding to the files read in creation order |
| Wal.Replay | wal/wal.go:108-118 | definition of the file state after the write loop has written a sequence of records, one at a time; ReplayKeepsInv, ReplayKeepsAllRecords and ReplayRecoverable state what it holds |
| Wal.ReplayKeepsInv | wal/wal.go:108-118 | writing records numbered from 1 in order keeps the invariant, and the files read in creation order are exactly their encodings in that order |
| Wal.ReplayKeepsAllRecords | wal/wal.go:108-118 | the same for the records Append makes: nothing is lost or reordered |
| Wal.ReplayRecoverable | wal/wal.go:94-152 | parsing the log files in creation order gives back each appended content with its length and CRC-32C, in Append order |
| Wal.ReplayFilesWhole | wal/wal.go:94-152 | for the records Append makes, every file created reads on its own as a sequence of whole records |
| Wal.ZeroStartLosesFirstRecord | wal/wal.go:18-39 | as written (numbers start at 0), a first record over 42 bytes is lost: file 1 is created twice and holds only the second record |
| Wal.AppendKeepsInv | wal/wal.go:83-91 | Append keeps the writer invariant: the new record joins the end of the queue and the disk is untouched |
| Wal.WriteKeepsInv | wal/wal.go:108-118 | writing the oldest queued record keeps the writer invariant with one more record written |
| Wal.WalWriter.RolloverTo | wal/wal.go:49-58 | the writer's file state becomes Rollover of the old one; the rest is unchanged |
| Wal.WalWriter.constructor | wal/wal.go:35-46 | a valid writer with nothing appended, nothing queued and the Open file state |
| Wal.WalWriter.Append | wal/wal.go:77-92 | stamps the current number, which then goes up by exactly 1; queues exactly one serialised record at the tail; the files are untouched |
| Wal.WalWriter.WriteRawRecord | wal/wal.go:133-152 | the file state becomes WriteRecord of the old one: rotation iff size > 50, then header and data appended, size grown by 8 + len(data) |
| Wal.WalWriter.ProcessOne | wal/wal.go:108-124 | the oldest queued record (FIFO) is removed and written; the writer stays valid |
| Wal.WalWriter.Recoverable | wal/wal.go:108-152 | once the queue is drained, the files read in creation order parse to the appended contents, in order, each with its CRC-32C; every closed file exceeds 50 bytes; and every file on its own reads as a sequence of whole records |

## Left out

- Concurrency is not modelled:
  - the skip list's mutex, and `Find` taking no lock;
  - the WAL writer's mutex, the goroutine started by `NewWalWriter`, and the `select` in `writeLoop`.
- `recordChn` is a FIFO field `queue`, and `writeLoop` is the step method `ProcessOne`, run once per queued record.
  - The channels are never created in the Go code, so there `Append` would block. The model does not reproduce this.
- `Close` and the `closeChn` branch of `writeLoop`, which only flushes and stops, are not modelled.
- Not modelled: `bufio` buffering, `Flush` and `f.Sync` (`flushAndSync`). The bytes written count as in the file immediately, and flush plus sync changes no contents.
- The errors of `os.Create` and `Write`, and the panics on them, are not modelled. Every write succeeds.
- `rand.Float64() < p` is not modelled. `randomLevel`'s draws are a parameter `coins: seq<bool>`, and no probabilities are modelled.
- Memtable.SkipList.Insert: the panic on a duplicate `(key, timestamp)` becomes a `false` result, and no state changes.
- Memtable.SkipList.Insert: draws its level with the corrected cap of 15 (see Findings), not 16.
- Wal.WalWriter.constructor: numbers records from 1, the number the first file is named after, not from 0 (see Findings).
- Sequence numbers and lengths are unbounded naturals:
  - Wrap-around of the `int64` counters `seq` and `size` is not modelled, because it needs 2^63 appends.
  - Negative numbers cannot occur here.
  - The length field is written modulo 2^32, as `uint32(len(r.data))` does. Round trips are stated for data shorter than 2^32 bytes.
- Files are keyed by the number in their name. This relies on `LogNameInjective`. The `xdb/` directory must exist, which is not modelled.
- Go's `hash/crc32` table-driven algorithm is not modelled. CRC-32C is defined bit by bit instead, with the same polynomial and conditioning. Only the standard check value is proved about it, not equality with Go's implementation.
- Keys and values are `seq<char>`. Go's byte-wise string comparison is modelled as lexicographic order on characters, which agrees with it on valid UTF-8.
- `FindRange`, the unused tombstone `ValueType` constants and WAL recovery are absent from the source. The parser `ParseLog` only states what a recovery would read.
- HTTP handlers, the server singleton and `time.Now` timestamps (`server/handler.go`, `cmd/web/web.go`) are not part of this model.
- Only the core's behaviour is modelled, not pointer identity:
  - The skip list's nodes are arena indices rather than heap objects.
  - The predecessors slice has the 16 entries `findGreaterOrEqual` fills. Go allocates 17, and the extra one only matters at level 16, which the corrected level draw excludes.

## Findings

| source | as written | input that shows it | evidently intended | confidence | as-written member | corrected member |
|---|---|---|---|---|---|---|
| memtable/memtable.go:79-85 | `randomLevel` stops growing at `MAX_LEVEL`, so it returns 16 when every draw succeeds. `Insert` then reads `prev[16]`, which `findGreaterOrEqual` never sets (it is nil), and the new node's pointer 16 would go past the head's 16 slots. | 15 successful draws in a row, so level = 16 (probability 2^-15) | levels 1..15, the pointers the head has | not executed | Memtable.SkipList.RandomLevelReachesMax | Memtable.RandomLevelCapped |
| wal/wal.go:18-39 | `seq` starts at its zero value 0, but the first file is `logName(firstSeq)` = `xdb/wal-1.log`. Record 1 rolls over to `logName(1)`, the file already in use, which `os.Create` truncates, so record 0 is lost. | two appends, the first with more than 42 bytes of content | records numbered from `firstSeq`, so every rollover creates a new file and no record is lost | not executed | Wal.ZeroStartLosesFirstRecord | Wal.ReplayRecoverable |
