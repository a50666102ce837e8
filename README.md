# spiDB record store and Conway cell, in Dafny

This project models two small pieces of the SpiNNaker graph front end's
example code.

**The spiDB key/value record store.** The store is an append-only log of
records in a flat region of 32-bit words. A record is an info word, then the
key bytes, then the value bytes, each padded with zero bytes to whole words.
The info word packs, from the most significant end, a 4-bit key type, a 12-bit
key size, a 4-bit value type and a 12-bit value size. Three pieces of C code
use the format:

- the leaf core's `key_value_commands_put` appends one record at the caller's
  cursor and reports the bytes written (module `KeyValueCommands`, method
  `Put`);
- the leaf core's `key_value_commands_pull` scans from a start address until it
  reads an all-zero info word and returns a *copy* of the oldest record whose
  key matches (method `KeyValueCommands.Pull`);
- the cluster slave's `pull` scans up to a published word count and returns a
  *pointer* into the region (module `ClusterSlavePull`, method `BoundedPull`).
  It uses `arr_equals` for the key comparison. Both readers share it as
  method `ArrEquals` of module `MemoryUtils`, as the leaf shares
  `memory_utils_arr_equals`.

The shared format lives in module `RecordFormat`:
- A word is a datatype of its four bytes in memory order, least significant
  first. `Value` gives the number a word denotes.
- `KeyType`, `KeySize`, `ValueType` and `ValueSize` are the four header fields.
- `Pack` is how `append` lays bytes into words.
- `RegionBytes` reads bytes back out of words.
- `Encode` and `Layout` give the words of one record and of a whole log.
- `Stored(mem, a, e)` says the words `e` lie in `mem` from address `a`.

Each scan is modelled twice:
- An imperative method mirrors the C loop over an `array` of words.
- A recursive function (`SentinelScan`, `BoundedScan`) is built from a
  one-header step function (`SentinelStep`, `BoundedStep`).

The method's postcondition says it returns exactly what the function returns.
Lemmas then relate the function to the log of records that was written:
- The answer is the value of the oldest matching record (`FirstMatch`).
- For the slave, the pointer points at that record's value bytes in place.
- Nothing after the sentinel, and nothing at or beyond the published end, is
  read.
- A skipped record's payload is never looked at.
- A record put after a log is found by a later pull unless an older record
  already answers its key.

The two readers differ, and each is modelled as written:
- The slave's `pull` takes the query's key type and key size from bits 15-12
  and 11-0 of its `k_info` argument. Those are the positions of the *value*
  fields in a stored header.
- The slave's `pull` has no sentinel check and no zero-size skip.

A scan that would read a word beyond the modelled region yields `Overrun`. In
C that read is undefined behaviour.

**The Conway cell** (module `ConwaysCell`) keeps its state and the alive and
dead tallies as fields of class `Cell`:
- `ReadInputBuffer` makes eight attempts to take a payload from the received
  buffer, which is modelled as a sequence, and tallies the payloads.
- `NextState` applies the birth/survival rule.
- `SendState` resets the tallies and sends the state, which is appended to a
  sequence of sent payloads.

`NextState` is proved against `LifeRule`, the standard B3/S23 rule written
independently of the code's three sequential `if`s.

Some descriptions of the store mention an info-word encoder that rejects
fields wider than their bit width, and a `RegionFull` error when the region
lacks room. The code has neither, and the model follows the code:
- The writer takes a caller-built info word.
- The room for a record is a precondition of `Put`.

## Model

| member | source | states |
|---|---|---|
| RecordFormat.Value | examples/spiDB/core_cluster_slave/pull.h:31 | a word denotes a number below 2^32 |
| RecordFormat.KeyType | examples/spiDB/core_cluster_slave/pull.h:35 | the key type (bits 31-28) is below 16 |
| RecordFormat.KeySize | examples/spiDB/core_cluster_slave/pull.h:36 | the key size (bits 27-16) is below 4096 |
| RecordFormat.ValueType | examples/spiDB/core_cluster_slave/pull.h:38 | the value type (bits 15-12) is below 16 |
| RecordFormat.ValueSize | examples/spiDB/core_cluster_slave/pull.h:39 | the value size (bits 11-0) is below 4096 |
| RecordFormat.InfoFields | examples/spiDB/core_cluster_slave/pull.h:35-39 | every word decodes, and its value is key type·2^28 + key size·2^16 + value type·2^12 + value size: the four masks tile the word |
| RecordFormat.SentinelFields | examples/spiDB/c_code/key_value/key_value_core_leaf/key_value_commands.h:19-23 | a word is the all-zero sentinel exactly when all four of its fields are zero |
| RecordFormat.Words | examples/spiDB/c_code/key_value/key_value_core_leaf/key_value_commands.h:37-38 | `(size+3) >> 2` words hold the payload: 4·words ≥ size and 4·words < size + 4 |
| RecordFormat.MultipleOf4 | examples/spiDB/c_code/key_value/key_value_core_leaf/key_value_commands.h:79-81 | the size rounded up is a multiple of 4, at least the size and less than size + 4 |
| RecordFormat.Pack | examples/spiDB/c_code/key_value/key_value_core_leaf/key_value_commands.h:75-77 | bytes appended as words take exactly `(n+3) >> 2` words |
| RecordFormat.RegionBytes | examples/spiDB/c_code/key_value/key_value_core_leaf/key_value_commands.h:45-55 | reading n bytes from a word address yields n bytes |
| RecordFormat.PackedAt | examples/spiDB/c_code/key_value/key_value_core_leaf/key_value_commands.h:75-77 | bytes appended at an address read back unchanged from it, within `(n+3) >> 2` words; the padding is never read |
| RecordFormat.PackWordBytesOf | examples/spiDB/c_code/key_value/key_value_core_leaf/key_value_commands.h:75 | appending the four bytes of the info word writes exactly that word |
| RecordFormat.RegionBytesSuffix | examples/spiDB/c_code/key_value/key_value_core_leaf/key_value_commands.h:51-55 | reading bytes from an address looks at no word before it |
| RecordFormat.StoredKept | examples/spiDB/core_cluster_slave/pull.h:20-22 | words written before a point stay written when nothing before that point changes |
| RecordFormat.DecodeEncoded | examples/spiDB/c_code/key_value/key_value_core_leaf/key_value_commands.h:45-55 | a record written at address a reads back as itself: its info word at a, its key bytes from a+1, its value bytes from a+1+key words, and it spans 1 + key words + value words |
| RecordFormat.LayoutAppend | examples/spiDB/c_code/key_value/key_value_core_leaf/key_value_commands.h:75-77 | appending a record to a log appends its words to the log's words |
| RecordFormat.RecordAt | examples/spiDB/c_code/key_value/key_value_core_leaf/key_value_commands.h:37-49 | record i of a stored log lies at the log's base plus the words of the records before it |
| RecordFormat.FirstMatch | examples/spiDB/c_code/key_value/key_value_core_leaf/key_value_commands.h:40-58 | the index found is of a record whose key type, key size and key bytes all match and no earlier record matches; none found means no record matches |
| RecordFormat.FirstMatchAppend | examples/spiDB/c_code/key_value/key_value_core_leaf/key_value_commands.h:23-58 | adding a record at the end never changes an existing first match; otherwise the new record is the first match exactly when it matches |
| MemoryUtils.ArrEquals | examples/spiDB/core_cluster_slave/pull.h:5-11 | true exactly when the first n bytes agree (so true for n = 0); when false, the bytes before the reported index agree and the bytes at it differ: it stops at the first mismatch |
| ClusterSlavePull.BoundedStep | examples/spiDB/core_cluster_slave/pull.h:31-61 | every header visited moves the cursor forward by at least one word, so the scan terminates |
| ClusterSlavePull.BoundedPull | examples/spiDB/core_cluster_slave/pull.h:13-69 | the loop returns exactly the bounded scan from the start to start + total words, with the query's type and size taken from bits 15-12 and 11-0 of `k_info` |
| ClusterSlavePull.BoundedScanWalksRecords | examples/spiDB/core_cluster_slave/pull.h:27-68 | over a stored log whose published end is the end of its last record, the scan equals the record-by-record answer |
| ClusterSlavePull.EntryAnswerFirst | examples/spiDB/core_cluster_slave/pull.h:49-61 | the record-by-record answer points at the value of the first matching record, at base + its offset + 1 + its key words, with the header's value size and type; NULL when none matches |
| ClusterSlavePull.BoundedScanFindsFirst | examples/spiDB/core_cluster_slave/pull.h:27-68 | over such a log the slave's scan returns a pointer to the value of the oldest matching record with its size and type, or NULL when none matches |
| ClusterSlavePull.EntryPointsAtValue | examples/spiDB/core_cluster_slave/pull.h:52-57 | the returned pointer is into the region, not a copy: the value bytes of the first matching record lie there in place |
| ClusterSlavePull.BoundedIgnoresUnpublished | examples/spiDB/core_cluster_slave/pull.h:20-27 | over a stored log of consistent records whose published end is the end of its last record, changing any word at or beyond that end leaves the answer unchanged |
| ClusterSlavePull.BoundedSkipIgnoresPayload | examples/spiDB/core_cluster_slave/pull.h:41-47 | a record whose key type or key size differs from the query is skipped by exactly key words + value words after its header: the scan from it is the scan from header + 1 + key words + value words, whatever those words hold |
| ClusterSlavePull.BoundedSuffix | examples/spiDB/core_cluster_slave/pull.h:27-66 | the scan from a cursor never reads a word before the cursor |
| KeyValueCommands.SentinelStep | examples/spiDB/c_code/key_value/key_value_core_leaf/key_value_commands.h:23-61 | every header visited moves the cursor forward by at least one word, so the scan terminates |
| KeyValueCommands.Pull | examples/spiDB/c_code/key_value/key_value_core_leaf/key_value_commands.h:9-65 | NULL when the query's info word is 0 or the key pointer is NULL; otherwise the loop returns exactly the sentinel scan from the start address |
| KeyValueCommands.Append | examples/spiDB/c_code/key_value/key_value_core_leaf/key_value_commands.h:75-77 | the bytes are written as padded words at the cursor, every other word is unchanged, and the cursor moves on by `(n+3) >> 2` words |
| KeyValueCommands.Put | examples/spiDB/c_code/key_value/key_value_core_leaf/key_value_commands.h:67-82 | with a zero key or value size or a NULL buffer it writes nothing and returns 0; otherwise it writes info, key and value in that order as one encoded record, changes no other word, advances the cursor past it and returns 4 + MULTIPLE_OF_4(key size) + MULTIPLE_OF_4(value size), four times the words written |
| KeyValueCommands.RecordWritten | examples/spiDB/c_code/key_value/key_value_core_leaf/key_value_commands.h:75-77 | the three appends together write the encoded record |
| KeyValueCommands.PutExtendsLog | examples/spiDB/c_code/key_value/key_value_core_leaf/key_value_commands.h:67-82 | a record put right after a stored log, before a zero word, leaves the log, the record and the sentinel stored |
| KeyValueCommands.SentinelScanRecord | examples/spiDB/c_code/key_value/key_value_core_leaf/key_value_commands.h:40-58 | at a stored well-formed record the scan returns a copy of its value, size and type when it matches, and otherwise moves on to the next header |
| KeyValueCommands.SentinelScanWalksRecords | examples/spiDB/c_code/key_value/key_value_core_leaf/key_value_commands.h:23-64 | over a stored log of well-formed records ended by the zero word, the scan equals the record-by-record answer |
| KeyValueCommands.CopyAnswerFirst | examples/spiDB/c_code/key_value/key_value_core_leaf/key_value_commands.h:45-58 | the record-by-record answer is a copy of the value, size and type of the first matching record, or NULL when none matches |
| KeyValueCommands.SentinelScanFindsFirst | examples/spiDB/c_code/key_value/key_value_core_leaf/key_value_commands.h:23-64 | over such a log the leaf's pull returns a copy of the oldest matching record's value with the header's value size and type, or NULL when none matches; later duplicates are never reached |
| KeyValueCommands.SentinelIgnoresAfterEnd | examples/spiDB/c_code/key_value/key_value_core_leaf/key_value_commands.h:23 | over a stored log of well-formed records ended by the zero word, changing any word after that zero word leaves the answer unchanged |
| KeyValueCommands.ZeroSizeSkipsOneWord | examples/spiDB/c_code/key_value/key_value_core_leaf/key_value_commands.h:25-35 | a non-zero header that declares a zero key or value size is skipped by exactly one word, with no payload skip |
| KeyValueCommands.SentinelSkipIgnoresPayload | examples/spiDB/c_code/key_value/key_value_core_leaf/key_value_commands.h:40-43 | a record whose key type or key size differs from the query is skipped by exactly key words + value words after its header: the scan from it is the scan from header + 1 + key words + value words, whatever those words hold |
| KeyValueCommands.SentinelSuffix | examples/spiDB/c_code/key_value/key_value_core_leaf/key_value_commands.h:23-62 | the scan from an address never reads a word before it |
| KeyValueCommands.PutThenPull | examples/spiDB/c_code/key_value/key_value_core_leaf/key_value_commands.h:9-82 | after a record is put at the end of a log and followed by the zero word, pulling its key returns its value, size and type, unless an older record already answers that key, whose value is returned instead |
| ConwaysCell.LifeRule | spinnaker_graph_front_end/examples/Conways/q_partitionable/conways_cell.c:217-235 | an alive cell with at most 1 alive neighbour dies, with 2 or 3 stays alive, with 4 or more dies; any other state becomes ALIVE with exactly 3 and is otherwise kept |
| ConwaysCell.LifeRuleIsStandard | spinnaker_graph_front_end/examples/Conways/q_partitionable/conways_cell.c:217-235 | on DEAD and ALIVE the rule stays within those two states and gives ALIVE exactly on a birth (3) or a survival (alive and 2) |
| ConwaysCell.CountBound | spinnaker_graph_front_end/examples/Conways/q_partitionable/conways_cell.c:180-196 | the DEAD and ALIVE payloads among some payloads number at most the payloads |
| ConwaysCell.Taken | spinnaker_graph_front_end/examples/Conways/q_partitionable/conways_cell.c:180-182 | a call takes at most 8 payloads, and fewer than 8 only when the buffer runs out |
| ConwaysCell.Cell.constructor | spinnaker_graph_front_end/examples/Conways/q_partitionable/conways_cell.c:298-308 | the state is the initial state and the two tallies are the neighbours' alive and dead counts loaded for tick 0; nothing has been sent |
| ConwaysCell.Cell.NextState | spinnaker_graph_front_end/examples/Conways/q_partitionable/conways_cell.c:217-235 | the new state is the rule applied to the old state and the alive tally; nothing else changes |
| ConwaysCell.Cell.ReadInputBuffer | spinnaker_graph_front_end/examples/Conways/q_partitionable/conways_cell.c:174-200 | the up to 8 payloads read leave the buffer, each DEAD payload adds 1 to the dead tally and each ALIVE payload 1 to the alive tally, other payloads and failed reads change neither, so alive + dead grows by at most 8 |
| ConwaysCell.Cell.SendState | spinnaker_graph_front_end/examples/Conways/q_partitionable/conways_cell.c:202-215 | both tallies are 0 and the state is sent once, unchanged |

## Left out

- Helpers whose code is not part of this model are taken as follows:
  - `try`, `append`, `MULTIPLE_OF_4` and the `k_*_from_info`/`v_*_from_info` helpers are not part of this model.
  - `try(c)` is taken as "return 0 or NULL unless `c` holds".
  - `append` is taken as writing the bytes into words from the cursor, least significant byte first, padding the last word with zero bytes, and advancing the cursor by `(n+3) >> 2` words. That agrees with the byte count `key_value_commands_put` returns.
  - `MULTIPLE_OF_4(s)` is taken as `4 * ((s+3) >> 2)`.
  - The leaf's field helpers are taken to use the masks of `pull.h`.
- `memory_utils_arr_equals`, which the leaf's pull calls, is not part of this model. It is taken to be `arr_equals` of `pull.h`.
- Byte order: bytes inside a word are taken least significant first, as on the little-endian ARM cores the store runs on.
- Memory: the region is the only memory modelled.
  - A read beyond it yields `Overrun`.
  - A write beyond it is excluded by `Put`'s precondition, since the C code does not check room.
- ClusterSlavePull.BoundedStep: a matching header whose key words run past the modelled region yields `Overrun`, although `arr_equals` could stop at an early mismatch before reaching the end.
- Allocation and copying: `sark_alloc` and `sark_mem_cpy` are not modelled as memory operations.
  - The leaf's result is a value holding a copy of the bytes.
  - The slave's result holds the word address of the value in the region.
- `reader.start_addr` and `*reader.size_words_addr` of the slave are parameters. Another core publishes the size; that is concurrency and is not modelled.
- The Conway cell's plumbing is left out, since it is hardware and scheduling code: `initialize` beyond loading the state and the two tallies (which the constructor models, with the loaded values as parameters), recording, `update`, `c_main`, `do_safety_check`, interrupt masking, logging and the multicast key.
  - The circular buffer is the sequence `input`.
  - The multicast send is an append to `sent`.
  - `send_state` retries until the send succeeds; the model sends once.
- ConwaysCell.Cell: `my_state` is declared `uint32_t *` but is used as a 32-bit value; it is modelled as an unbounded natural number.
- ConwaysCell.Cell.ReadInputBuffer: the tallies are C `int`s; their overflow after 2^31 increments is not modelled.
