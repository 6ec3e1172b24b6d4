# Sensor gateway core in Dafny

This project models the sequential core of a sensor-monitoring gateway written in C. In the real program:

- A connection manager pushes sensor readings into a **shared buffer**.
- Two consumer stages read every reading exactly once: the **data manager** (stage 1) and the **storage manager** (stage 2).
- The storage manager retires a reading once both stages have seen it.
- A reading with sensor id 0 is the end-of-stream marker.
- The data manager keeps a **sensor registry** in a generic doubly-linked list. Each sensor has a five-slot circular buffer of temperatures. The data manager raises "too hot" and "too cold" alerts on the average of the non-zero slots.
- Every component logs through a **pipe**: writers send NUL-terminated messages, and a logging process splits the byte stream on NUL and truncates each message.

The Dafny modules follow the source files:

| module | file | models |
|---|---|---|
| `Base` | base.dfy | `Option` (a pointer that may be NULL), `Reverse` |
| `Config` | config.dfy | the constants of config.h and the sensor reading record |
| `DpList` | dplist.dfy | lib/dplist.c as operations on a sequence; the copy callback is the identity |
| `SharedBuffer` | sbuffer.dfy | sbuffer.c as a queue of (reading, two-bit stage mask) nodes; a call that would wait is `Blocked` |
| `Pipeline` | pipeline.dfy | runs of buffer calls, with a history; ordering and exactly-once guarantees |
| `DataMgr` | datamgr.dfy | datamgr.c: map parsing, lookup, the running-average update, the threshold rule |
| `LogPipe` | logpipe.dfy | main.c's log framing: `write_to_log_process` and the reader loop of `run_logging_process` |
| `Gateway` | gateway.dfy | main.c's argument check |

Other modelling choices:

- Temperatures are `real`, an idealisation of C doubles.
- Ids are 16-bit (`U16`).
- Pipe bytes are `Byte` values 0..255.
- Blocking is modelled as "not enabled": `Read` and `Remove` return `Blocked`, and a run containing such a call has no outcome (`Pipeline.Run` is `None`).
- The map file is taken as its already-parsed sequence of `(room, sensor)` pairs, or `None` when it cannot be opened.
- The command-line port and connection count are taken as already-converted integers.
- Whether locking the pipe mutex, writing on the pipe and unlocking succeed are parameters.

## Model

| member | source | states |
|---|---|---|
| DpList.Create | lib/dplist.c:31-43 | a new list is live and has size 0 |
| DpList.Size | lib/dplist.c:139-155 | -1 exactly for a NULL handle, otherwise the number of elements |
| DpList.GetReferenceAt | lib/dplist.c:209-237 | NULL exactly for a NULL or empty list; otherwise the node at the index clamped to [0, size-1] |
| DpList.GetElementAt | lib/dplist.c:158-188 | NULL exactly for a NULL or empty list; otherwise the element at the index clamped to [0, size-1] |
| DpList.InsertAt | lib/dplist.c:64-107 | a NULL list stays NULL; otherwise the size grows by one, the new element sits at clamp(index, 0, size), and the old elements keep their order around it |
| DpList.RemoveAt | lib/dplist.c:109-137 | NULL and empty lists come back unchanged; otherwise exactly the element at clamp(index, 0, size-1) is gone and the size drops by one |
| DpList.RemoveUndoesInsert | lib/dplist.c:64-137 | removing at the index just used to insert gives back the original list, for every handle and index |
| DpList.GetIndexOf | lib/dplist.c:190-207 | -1 when no element compares equal (or the list is NULL), otherwise the smallest index whose element compares equal |
| DpList.Free | lib/dplist.c:45-62 | the handle ends NULL; with free_element set, the element callback sees every element once, last to first; a NULL handle frees nothing |
| SharedBuffer.Init | sbuffer.c:30-41 | success, and the new buffer is empty |
| SharedBuffer.Insert | sbuffer.c:66-89 | a NULL buffer fails; otherwise the reading becomes the new tail with mask 0, and every earlier node, mask included, is unchanged |
| SharedBuffer.Read | sbuffer.c:91-121 | blocks exactly when the queue is empty or the head is not the marker and already carries this stage's bit; NO_DATA exactly when the marker is at the head, with nothing changed; on success it returns the head's reading, sets exactly this stage's bit, and touches nothing else |
| SharedBuffer.Remove | sbuffer.c:123-142 | enabled exactly when the head exists and both stages have marked it; pops exactly the head, returns its reading, and reports NO_DATA exactly when the queue is left empty |
| SharedBuffer.IsEmpty | sbuffer.c:144-151 | true exactly for a NULL buffer or one without nodes |
| SharedBuffer.Free | sbuffer.c:43-64 | the handle ends NULL; failure exactly for a NULL handle |
| SharedBuffer.InsertAfterFree | sbuffer.c:43-89 | a freed handle reads as empty, and an insert into it fails and leaves it NULL |
| SharedBuffer.FullMaskMeansEveryStage | sbuffer.c:126 | the mask equals 3 exactly when both stage bits are set |
| SharedBuffer.MasksOnlyGrow | sbuffer.c:66-142 | no call clears a bit of a node that stays queued, and nodes leave only from the head |
| SharedBuffer.EndMarkerReadsRepeat | sbuffer.c:100-105 | after a NO_DATA read, every further read by either stage answers NO_DATA again on the same queue; the marker's mask is unchanged |
| SharedBuffer.UnmarkedEndMarkerStays | sbuffer.c:126-128 | an end marker at the head with no bits set can never be removed |
| Pipeline.StartInv | sbuffer.c:30-41 | the fresh buffer with an empty history satisfies the buffer invariant |
| Pipeline.ProducePreservesInv | sbuffer.c:66-89 | an insert keeps the invariant: retired readings followed by queued readings equal the inserted ones, only the head carries bits, and the marker is never marked |
| Pipeline.ConsumePreservesInv | sbuffer.c:91-121 | an enabled read keeps the invariant; what each stage has been handed is the retired readings plus, perhaps, the head |
| Pipeline.RetirePreservesInv | sbuffer.c:123-142 | an enabled remove keeps the invariant; the popped head had been handed to both stages |
| Pipeline.NextPreservesInv | sbuffer.c:66-142 | every enabled buffer call keeps the invariant |
| Pipeline.RunPreservesInv | sbuffer.c:66-142 | every run without a blocked call keeps the invariant |
| Pipeline.RunOrder | sbuffer.c:78-136 | in every run from a fresh buffer: readings are retired in insertion order; no end marker is retired; each stage is handed a prefix of the inserted readings, each once and in order; everything retired was handed to both stages |
| Pipeline.DrainSeesPrefix | sbuffer.c:100-105 | whenever a stage's read answers NO_DATA, the head is the first id-0 reading ever inserted and is unmarked, and that stage has been handed exactly the readings inserted before it, in order |
| Pipeline.EarlyIdZeroEndsStage | sbuffer.c:100-105 | a reading with id 0 inserted before reading 7 makes the aggregator's read answer NO_DATA before reading 7 has been handed out |
| Pipeline.DrainSeesEverything | sbuffer.c:100-105 | when the end marker was inserted last and a stage's read answers NO_DATA, the queue holds only the unmarked marker, and that stage has been handed every other inserted reading, in order |
| DataMgr.InsertPairs | datamgr.c:58-64 | inserting each pair's zeroed record at index 0 leaves the records in reverse input order, in front of the previous contents |
| DataMgr.ParseSensorMap | datamgr.c:50-68 | -1 and the list untouched when the file cannot be opened; otherwise 0, and k pairs give k more records, the i-th being pair k-1-i with index 0 and all slots zero; slot indices stay in range |
| DataMgr.ElementCompare | datamgr.c:200-204 | zero exactly when the two sensor ids are equal, negative exactly when the first id is smaller |
| DataMgr.FindSensor | datamgr.c:71-72 | -1 exactly when no record has the id, otherwise the front-most record with that id |
| DataMgr.LastPairWins | datamgr.c:58-72 | when a sensor id occurs in several map pairs, lookup finds the record of the pair parsed last, with its room |
| DataMgr.Update | datamgr.c:81-84 | the reading goes into slot current_idx and every other slot is unchanged; the index advances by one and wraps at RUN_AVG_LENGTH; last_modified becomes the reading's timestamp; ids unchanged |
| DataMgr.NonZero | datamgr.c:93-98 | the kept slots are all non-zero, and there are none exactly when every slot is zero |
| DataMgr.SumValidReadings | datamgr.c:90-98 | the loop's sum and count are the total and number of the non-zero slots |
| DataMgr.RunningAverage | datamgr.c:93-102 | there is no average exactly when every slot is zero |
| DataMgr.FirstSlotOnly | datamgr.c:93-102 | one non-zero slot averages to that slot's value |
| DataMgr.CheckSensorLimits | datamgr.c:89-114 | at most one alert; none when every slot is zero; too hot exactly when the average exceeds SET_MAX_TEMP, too cold exactly when it is below SET_MIN_TEMP, and nothing exactly when it lies in [10, 20] |
| DataMgr.AverageWithinBounds | datamgr.c:93-102 | the average lies within any bounds that hold for every non-zero slot |
| DataMgr.AllHotGivesTooHot | datamgr.c:105-108 | if some slot is non-zero and every non-zero slot exceeds SET_MAX_TEMP, a too-hot alert is raised |
| DataMgr.AllColdGivesTooCold | datamgr.c:109-112 | if some slot is non-zero and every non-zero slot is below SET_MIN_TEMP, a too-cold alert is raised |
| DataMgr.AllWithinGivesNoAlert | datamgr.c:105-113 | if every non-zero slot lies within the thresholds, no alert is raised |
| DataMgr.ProcessSensorData | datamgr.c:70-87 | an unknown id logs the invalid-id message and changes nothing; a known id updates only the front-most record with that id and logs what the threshold rule gives for it; the record count and the slot-index range are kept |
| DataMgr.ProcessAll | datamgr.c:32-42 | the registry's size and slot-index range are kept, and there are never more messages than readings |
| DataMgr.ProcessAllSnoc | datamgr.c:32-42 | the loop is the in-order fold of process_sensor_data: one more reading is processed on the registry the earlier readings left, and its messages, at most one, follow theirs |
| DataMgr.FirstReadingLog | datamgr.c:58-86 | a mapped sensor's first reading lands in slot 0 with zeros elsewhere, and the threshold rule runs on that record |
| DataMgr.HotOnFirstReading | datamgr.c:70-108 | for every map, a first reading above SET_MAX_TEMP for the last pair with its id is reported too hot, with the reading as the average |
| DataMgr.ColdOnFirstReading | datamgr.c:70-112 | for every map, a non-zero first reading below SET_MIN_TEMP for the last pair with its id is reported too cold, with the reading as the average |
| DataMgr.ZeroFirstReadingIgnored | datamgr.c:93-100 | a first reading of exactly 0.0 raises no alert, because a zero slot counts as unwritten |
| DataMgr.HotFromFirstReading | datamgr.c:70-114 | a freshly mapped sensor sent 25 degrees is reported too hot with average 25 |
| DataMgr.UnknownSensorChangesNothing | datamgr.c:74-79 | a reading from a sensor absent from the map is logged as invalid, and the registry is unchanged |
| LogPipe.StrLen | main.c:198 | the length is the position of the first NUL, and no NUL precedes it |
| LogPipe.WriteToLog | main.c:187-210 | success exactly when the message is non-NULL and the lock, the write and the unlock all succeed, ERR_FILE_IO otherwise; nothing is written for a NULL message, a failed lock or a refused write; otherwise exactly the bytes before the first NUL are written, then one NUL, even when the unlock then fails |
| LogPipe.Truncate | main.c:149-151 | keeps all of a message of at most 299 bytes, and exactly the first 299 bytes of a longer one |
| LogPipe.Pending | main.c:142-152 | the bytes held after the last NUL contain no NUL |
| LogPipe.OneEntryPerNul | main.c:142-148 | exactly one entry per NUL byte received |
| LogPipe.UnterminatedTailDropped | main.c:142-152 | bytes after the final NUL add no entry; they only extend the pending fragment |
| LogPipe.AppendFrame | main.c:198 | one framed message after a complete entry adds exactly that message's truncation as the next entry |
| LogPipe.DeframeStream | main.c:142-151 | reading a stream of framed NUL-free messages gives those messages, truncated, in order, with nothing pending |
| LogPipe.RoundTrip | main.c:142-151 | NUL-free messages of at most 299 bytes come back unchanged after framing and reading |
| LogPipe.Decompose | main.c:142-152 | every byte stream is framed NUL-free messages plus an unterminated tail, and its entries are exactly those messages, truncated |
| LogPipe.RunLoggingProcess | main.c:124-161 | the read loop emits one entry per NUL, numbered from 0 up by one, each holding the truncated bytes since the previous NUL |
| Gateway.CheckArguments | main.c:27-38 | proceeds exactly when argc is 3, the port is at least 1024 and max connections is positive; a wrong count is reported before invalid values |
| Gateway.ExitStatus | main.c:27-38 | the argument check stops main with -1 exactly when it does not proceed |
| Gateway.MainStopsEarly | main.c:27-38 | main's argument check stops it with -1 exactly when argc is not 3, the port is below 1024 or max connections is not positive; otherwise the check passes the given port and connection count on |

## Left out

- The mutex and the condition variables of sbuffer.c (sbuffer.c:26-28) are not modelled, nor are any wake-ups or thread interleavings. A run is one order of calls, and a call that would wait is simply not enabled.
- sbuffer_remove never broadcasts `dataAvailable`. A stage waiting on a head it has already marked is woken only by a later insert. This is a liveness concern of the threads, outside the sequential model.
- Allocation failure is not modelled: malloc always succeeds in dpl_create, dpl_insert_at_index, sbuffer_init and sbuffer_insert. This includes the early return without unlocking at sbuffer.c:71.
- connmgr.c is not part of this model. It handles TCP accept and receive, timeouts and per-client threads. The only thing taken from it is the end marker it inserts once its clients finish (connmgr.c:62-64), given as `Config.END_MARKER`. A client's readings are inserted with whatever id the client sent (connmgr.c:85-114), id 0 included. The buffer runs therefore allow id-0 readings anywhere. `Pipeline.DrainSeesPrefix` covers that case, and `Pipeline.EarlyIdZeroEndsStage` shows a stage stopping early.
- sensor_db.c is not modelled beyond its part as stage 2 of the buffer. It does file output and `%.2f` formatting.
- main.c's process plumbing is not modelled: pipe, fork, wait, fopen, setvbuf, pthread_create and join. atoi is left out too; the port and connection count arrive as integers.
- main's later -1 returns are not modelled. They come after the argument check: a failed create_log_process (main.c:41-44), a failed sbuffer_init (main.c:49-53), failed parameter mallocs (main.c:60-68) and a failed pthread_create (main.c:93-101). `Gateway` models only the argument check.
- ctime timestamps in log lines are left out. A log entry is its sequence number and its text.
- IEEE double rounding is left out (temperatures are reals), and so is the `%.1f` alert text (alerts are constructors carrying the id and the average).
- The datamgr query accessors (datamgr.c:120-187) are left out. They read a global list that data_manager never assigns, and they dereference a clamped or NULL element for unknown ids.
- The fscanf parsing of the map file (datamgr.c:51-58) is left out. The input is the sequence of pairs it would read.
- dpl_get_element_at_reference is not part of the modelled list interface. References are node positions in this model.
- The insert_copy and free_element flags only choose whether callbacks run. The copy callback is the identity. The free callback is visible only as the sequence `DpList.Free` returns.
- sbuffer.h:32 documents sbuffer_remove as non-blocking with NO_DATA on an empty buffer. The code blocks until the head is fully processed, and the model follows the code.
- parse_sensor_map never writes last_modified (datamgr.c:54-63), so the model has it absent (`None`) until the first reading.
- config.h declares the registry record with a field `current_index`, while datamgr.c uses `current_idx`. The model follows datamgr.c.
- A genuine reading of exactly 0.0 degrees is indistinguishable from an unwritten slot, as in the source. The model keeps that behaviour.
- LogPipe.WriteToLog: a successful write is modelled as all or nothing. The source counts any positive byte count as success, and a partial write on the pipe is not modelled. The mutex outcomes are parameters: a failed lock returns ERR_FILE_IO without writing (main.c:193-196), and a failed unlock returns ERR_FILE_IO after the frame is already on the pipe (main.c:205-207). The unlock failure cannot happen for a default mutex the thread owns.
- LogPipe.RunLoggingProcess: entries are numbered with unbounded naturals. log_sequence is a C `int` (main.c:22), and its overflow after 2^31 - 1 entries is not modelled.
- SharedBuffer.Read and SharedBuffer.Remove take the queue rather than the handle, because the source dereferences the buffer without a NULL check.
