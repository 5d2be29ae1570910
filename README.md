# Babble server core, modelled in Dafny

Babble is a multi-client messaging server: clients log in under an
identifier, publish short messages, follow each other and ask for a
timeline or a follow count. This project models the sequential core of
its serving pipeline:

- **Client directory** (`registration.dfy`, module `Registration`): the
  fixed-capacity array `registration_table` of client-bundle references
  with its live count `nb_registered_clients`. The class
  `RegistrationTable` keeps the array and the count. Its invariant
  `Valid()` says the count is within capacity, every live slot holds a
  bundle and live keys are pairwise distinct. Lookup is a linear scan
  that keeps the last match. Insert rejects a duplicate key or a full
  table with -1 and otherwise appends. Remove swap-deletes the first match:
  the last live entry moves into the freed slot.
- **Command parsing** (`parsing.dfy`, module `Parsing`): `parse_command`
  as a pure function. It maps a command kind to its payload rule: bounded by
  the identifier size for LOGIN and FOLLOW, by the message size for PUBLISH,
  empty for TIMELINE, FOLLOW_COUNT and RDV. Every other kind is rejected.
- **Answer framing** (`answering.dfy`, module `Answering`):
  `answer_command` as a method with the source's two loops. It sends
  nothing, or one NUL-terminated message, or a count frame holding the
  true size followed by the last `BABBLE_TIMELINE_MAX` list elements.
  The transport `write_to_client` is a frame log. A write fails once the
  connection has taken `accepted` frames; since the method stops at the
  first failed write, this covers every failure pattern. The two inputs on
  which the code follows a NULL list pointer are modelled as a
  `NullDereference` outcome: a single answer without a node
  (`babble_server.c:146`), and a skip loop that runs past the end of the
  list (`babble_server.c:171`). The closing `assert` is modelled as an
  `AssertionFailed` outcome.
- **Command buffer** (`command_buffer.dfy`, module `CommandBuffer`): the
  bounded array `buf[MAX_NB_CMD]` with its `count`, as the class
  `SyncBuffer`. The semaphore guarantees become preconditions: a free
  slot before a put, a resident command before a get.

`babble_types.dfy` (module `BabbleTypes`) holds the shared data model:
client keys, command kinds, commands and answers, and the compile-time
bounds `Limits`.

A producer/consumer handoff is normally first-in-first-out. This code
puts and gets at the same top index (`babble_server.c:216-218`,
`253-254`), so the buffer is a stack. The model follows the code, and
`LastInFirstOut` proves the stack order.

The bounds `MAX_CLIENT`, `BABBLE_ID_SIZE`, `BABBLE_SIZE` and
`BABBLE_TIMELINE_MAX` are defined in headers that are not part of this
model. They are therefore parameters: the table's capacity and the
fields of `Limits`. `MAX_NB_CMD` is 10, as `babble_server.c:23` defines
it.

## Model

| member | source | states |
|---|---|---|
| `Registration.RegistrationTable.Init` | babble_registration.c:11-17 | the table starts with zero live entries and every slot NULL |
| `Registration.LastMatch` | babble_registration.c:25-29 | the index the non-breaking scan ends on: -1 exactly when no live bundle has the key, otherwise a live bundle with the key and no later live bundle has it (the last match) |
| `Registration.LookupIn` | babble_registration.c:19-32 | the value lookup returns: null exactly when no live bundle has the key, otherwise a live bundle with that key |
| `Registration.RegistrationTable.Lookup` | babble_registration.c:19-32 | the loop returns the bundle at the last-match index, or null when no live bundle has the key; it only reads the table |
| `Registration.RegistrationTable.Insert` | babble_registration.c:34-52 | a registered key or a full table gives -1 with table and count unchanged; otherwise `cl` lands at index old count, the count grows by one, no other slot changes, and a lookup of `cl.key` then returns `cl`; the invariant (count within capacity, distinct keys) is kept |
| `Registration.FirstMatch` | babble_registration.c:60-64 | the index where the breaking scan stops: no earlier live bundle has the key, and it is below the count exactly when some live bundle has the key |
| `Registration.RegistrationTable.Remove` | babble_registration.c:55-80 | an absent key gives null with nothing changed; otherwise the first bundle with the key is returned, the count drops by one, the former last live entry fills the vacated slot, no other slot changes, the live multiset loses exactly that bundle, the key is no longer registered and the invariant is kept |
| `Registration.LookupIsFirstMatch` | babble_registration.c:25-64 | with distinct keys, the last-match and first-match scans stop at the same index, so the bundle lookup returns is the one remove takes |
| `Registration.SwapDeleteMultiset` | babble_registration.c:73-76 | swap-delete shortens the live entries by one and removes exactly the entry at the deleted index from their multiset |
| `Registration.SwapDeleteKeepsDistinct` | babble_registration.c:73-76 | swap-delete keeps every live slot filled and the keys distinct, and the removed key no longer occurs |
| `Parsing.ParseCommand` | babble_server.c:35-81 | status is 0 or -1; the kind and answer flag are those the lexer gives, the answer is reset to size -1 with no list, the key and socket are untouched, and a failed parse leaves the payload as it was |
| `Parsing.ParseAcceptsExactly` | babble_server.c:47-78 | parsing succeeds exactly for LOGIN and FOLLOW with a payload extractable under the identifier bound, PUBLISH with one extractable under the message bound, and TIMELINE, FOLLOW_COUNT and RDV; every other kind returns -1 |
| `Parsing.ParsedPayloadFits` | babble_server.c:48-74 | an accepted LOGIN or FOLLOW carries the payload extracted under the identifier bound, PUBLISH the one under the message bound, the other accepted kinds an empty payload; with a bound-respecting lexer the payload fits its kind's bound |
| `Answering.UnframeWire` | babble_server.c:145-146 | a message frame is strlen+1 bytes (the string up to its first NUL, then a NUL), and reading it up to the NUL gives back that prefix, which is the whole message when it has no embedded NUL |
| `Answering.AnswerCommand` | babble_server.c:128-188 | the frames written are the planned ones up to the first failed write; a failed write returns -1 with nothing written after it; when every write succeeds, the run crashes exactly when a node it dereferences is missing, aborts on the closing assertion exactly when a set answer's list length differs from its declared size, and returns 0 otherwise |
| `Answering.AnswerSingle` | babble_server.c:143-153 | the single-answer branch meets the same outcome statement: a crash with nothing written when there is no node, -1 when the write fails, otherwise the one frame and 0 |
| `Answering.AnswerSet` | babble_server.c:156-187 | the set branch meets the same outcome statement: the count frame, a crash when the skip loop runs off the list, the kept elements in order up to the first failed write, then the assertion on the count |
| `Answering.PlannedSet` | babble_server.c:156-184 | a set answer's plan is the count frame alone when more elements must be skipped than the list holds, and otherwise the count frame followed by the frames of the elements from the skip point on |
| `Answering.UnfilledAnswerCrashes` | babble_server.c:43-45 | an unrecognised kind fails to parse; any parsed command keeps an answer of size -1 with no list, so if it reaches answer_command with an answer expected and that answer unchanged, nothing is planned and the run dereferences NULL |
| `Answering.NothingSent` | babble_server.c:130-141 | no frame is planned when the client expects no answer or the answer size is -2 |
| `Answering.SingleFrame` | babble_server.c:143-153 | a size -1 answer is exactly one frame to the command's client, holding the first node's message with its NUL (strlen+1 bytes) |
| `Answering.SetFrames` | babble_server.c:156-184 | a set answer's first frame is the declared size; then the first max(0, size - max) elements are skipped and the rest are sent in list order |
| `Answering.TruncatedToDisplayMax` | babble_server.c:163-186 | when the list length equals the size, the count frame carries the untruncated size and exactly min(size, max) message frames follow, the last min(size, max) elements in order |
| `CommandBuffer.SyncBuffer.Init` | babble_server.c:200-210 | a new buffer has MAX_NB_CMD slots and count 0 |
| `CommandBuffer.SyncBuffer.Put` | babble_server.c:212-246 | with a free slot, the count grows by one, `cmd` is written in slot old count only, and the count stays within 0..MAX_NB_CMD |
| `CommandBuffer.SyncBuffer.Get` | babble_server.c:248-260 | with a resident command, the top one (slot count-1) is returned, the count drops by one and the slots are untouched |
| `CommandBuffer.PutThenGet` | babble_server.c:212-260 | a get right after `put(cmd)` returns `cmd` and restores the previous count and contents |
| `CommandBuffer.LastInFirstOut` | babble_server.c:216-254 | after putting `first` then `second`, two gets return `second` then `first`: the buffer is a stack |

## Left out

- Locks and semaphores (the reader/writer lock of the table, the buffer's mutex and semaphores, the connection limiter): concurrency is not modelled. Each operation runs alone, and the semaphore guarantees are preconditions of `Put` and `Get`.
- The duplicate-check/insert race (`babble_registration.c:37` against `44`) is a concurrency defect of the source. The write lock it leaves held on the full-table path (`babble_registration.c:45-47`) is another. Neither is visible in, or claimed by, a sequential model.
- `communicationT`, `executorT` and `main` (thread bodies, socket I/O, option parsing, thread creation). They are outside the core. This includes the shared `&newsockfd` handoff and the index arithmetic of the `pthread_create` calls.
- `process_command`: it only routes to business-logic handlers whose code is not part of this model.
- `str_clean`, `str_to_command` and `str_to_payload` are abstracted as the `Lexed` record, which holds their verdicts on a line. `write_to_client` is abstracted as the frame log with a failure point. `network_recv` is not part of this model.
- `Parsing.ParseCommand`: on a failed payload extraction the payload is kept as it was, because what `str_to_payload` leaves in the buffer on failure is not known.
- `Answering.AnswerCommand`: the answer list is a sequence, and a list node is a position in it. Freeing nodes is not modelled. The source also does not free the rest of the list on its error paths (`babble_server.c:158-160`, `176-178`), nor on the no-answer path, where it frees only the first node (`babble_server.c:132-134`).
- A command whose kind the lexer did not recognise is still queued after its parse fails (`babble_server.c:319-324`), and `process_command` rejects it without touching the answer (`babble_server.c:107-109`). If its client expects an answer and `notify_parse_error` (`babble_server.c:321`, not part of this model) leaves the answer as parsed, `executorT` reaches the NULL dereference (`babble_server.c:361`); `UnfilledAnswerCrashes` shows that such a parsed command is in the crashing case. A LOGIN, PUBLISH or FOLLOW whose payload extraction failed keeps its kind and goes to its handler (`babble_server.c:89-97`), whose effect on the answer is not part of this model.
- The list elements are C strings. `Wire` writes each one up to its first NUL, as `strlen` measures it. The round trip back to the whole element holds for elements without an embedded NUL.
- The command buffer stores command values, while the C buffer stores `command_t` pointers. The two agree because the buffer never changes a command it holds; the copy the TODO at `babble_server.c:217` asks for is not modelled.
- The count frame carries the integer value of the size, not its byte encoding.
- `syncBuffer_init` on a failed allocation prints a message and then uses the null pointer. The model's constructor always allocates.
- Logging with `printf` and `fprintf`.
