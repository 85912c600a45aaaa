# Todo lists over replicated documents — a Dafny model

The app keeps each todo list in a replicated document: an append-only log of
signed entries, each with a key, an author, a timestamp and a reference to
some content. The content lives in a blob store that may not hold it yet. One
entry under the key `metadata/todo_list_name` holds the list's name. Each todo
is an entry under `todo/<id>` whose content is the todo's postcard encoding,
zero-padded to 2048 bytes. The list the user sees comes from last-write-wins
per key. Tombstoned todos (`is_delete`) are dropped, and content that cannot
be fetched yields a "Missing Content" placeholder. An invitation ticket (a
gossip topic plus peers) is shared as lowercase, unpadded base-32 text.

`tasks.rs` is a second, unfinished variant of the same idea. It stores tasks
keyed by UUID in an in-memory list that mirrors the document and is kept
sorted by creation time, and archived tasks leave that list.

Modules:

- `Results`, `Wire` and `Utf8`: option and result types, bytes, 64-bit
  integers, UTF-8 validity, and Rust `String`s as UTF-8 byte strings.
- `Postcard`: the part of the postcard format the records use. This covers
  LEB128 varints, `bool`, length-prefixed bytes and strings, fixed arrays,
  and `to_slice` into a zeroed buffer. Each piece has a decode-after-encode
  lemma.
- `Base32`: base 32 with the upper-case alphabet of section 6 of RFC 4648,
  without padding. Decoding is proved to invert encoding.
- `Sorting`: `sort_by_key` as a stable insertion sort. The sort is proved to
  sort, to permute, to be stable, and to keep distinct identities distinct.
- `DocStore`: the document store as this layer sees it. It covers entries,
  documents, content fetch, prefix queries, and the `Store`
  class with `create_doc` and `set_bytes`.
- `TodoRecord`: the todo record, its 2048-byte encoding, the keys, and the
  label guards.
- `TodoProjection`: the last-write-wins fold, turning entries into todos, and
  the collect step of the listing.
- `Todos`: the list names, and the `TodoList` class, which stands for the
  source's `Todos`. It models creating and opening a list, add, toggle,
  delete, update and the listing.
- `Tickets`: the ticket's bytes and its text form.
- `TaskList`: the task record, the `InnerTasks` list class and the `Tasks`
  command class.

## Model

| member | source | states |
|---|---|---|
| TodoRecord.AsBytes | src-tauri/src/todos.rs:49-58 | It succeeds exactly when the encoding fits 2048 bytes, and otherwise fails with the buffer-full error. The buffer is exactly 2048 bytes, zero after the encoding, and decodes back to the todo (`as_vec` gives the same bytes). |
| TodoRecord.FromBytesEncoding | src-tauri/src/todos.rs:44-47 | `from_bytes` reads the todo back from its encoding and ignores whatever follows it, such as the zero padding. |
| TodoRecord.MissingTodo | src-tauri/src/todos.rs:60-68 | The placeholder has the label "Missing Content", created 0, is neither done nor deleted, and keeps the id it was asked for. |
| TodoRecord.TodoRoundTrip | src-tauri/src/todos.rs:44-53 | Decoding the encoding of a todo, with anything following it, yields the todo and exactly what followed. |
| TodoRecord.TodoKey | src-tauri/src/todos.rs:269-282 | The key of a todo is `todo/` followed by its id. It is valid UTF-8 and the id is recovered by stripping the prefix. |
| TodoRecord.KeySchema | src-tauri/src/todos.rs:16-19 | Two ids share a key exactly when they are equal. The list-name key never lies under the todo prefix. |
| TodoRecord.LabelGuardsDiffer | src-tauri/src/todos.rs:192-229 | `update` refuses a label of exactly 2000 bytes that `add` accepts. Every label `update` accepts, `add` accepts. |
| TodoRecord.AcceptedTodoFits | src-tauri/src/todos.rs:21-24 | A label that passes the guard, with an id of at most 33 bytes, always fits the 2048-byte buffer. |
| TodoRecord.AcceptedLabelCanOverflow | src-tauri/src/todos.rs:192-207 | A 2000-byte label passes the guard but overflows the buffer when the id has at least 34 bytes and the timestamp is at least 2^63. |
| TodoProjection.Latest | src-tauri/src/todos.rs:240-256 | The scan keeps, for every key, an entry that carries that key and comes from the scan. |
| TodoProjection.FirstNewestUnique | src-tauri/src/todos.rs:247-255 | A key has at most one first-newest entry, so the fold's winner is determined. |
| TodoProjection.LatestCoversKeys | src-tauri/src/todos.rs:244-256 | Every key that occurs in the scan has a kept entry. |
| TodoProjection.LatestIsFirstNewest | src-tauri/src/todos.rs:247-255 | In `Latest`, the fold of `Step` over the entries, the kept entry is the first entry with the greatest timestamp under its key: strict `>` replaces, and ties keep the earlier entry. |
| TodoProjection.LatestDomain | src-tauri/src/todos.rs:244-256 | A key has a kept entry exactly when some entry carries it. |
| TodoProjection.StrictlyNewestWins | src-tauri/src/todos.rs:247-255 | An entry strictly newer than all others under its key wins, wherever it sits in the scan. |
| TodoProjection.NewerWriteWins | src-tauri/src/todos.rs:247-255 | Appending a strictly newer entry makes it the winner of its key. Every other key keeps its winner. |
| TodoProjection.KeepFirstNewest | src-tauri/src/todos.rs:247-252 | An entry that is not strictly newer leaves the first-newest entry of its key in place. |
| TodoProjection.ReplaceFirstNewest | src-tauri/src/todos.rs:250-252 | A strictly newer entry becomes the first-newest entry of its key. |
| TodoProjection.NewKeyFirstNewest | src-tauri/src/todos.rs:253-255 | The first entry under a new key is the first-newest entry for it. |
| TodoProjection.StepAt | src-tauri/src/todos.rs:247-255 | What one scan step keeps under a key depends only on what was kept under that key before. |
| TodoProjection.LatestUnderPrefix | src-tauri/src/todos.rs:232-239 | Querying by the todo prefix does not change the winner of any key under that prefix. |
| TodoProjection.TodoFromEntry | src-tauri/src/todos.rs:297-303 | A key that is not UTF-8 is an error. Available content is decoded. Unavailable content gives the "Missing Content" placeholder, whose id is the key with the prefix stripped. |
| TodoProjection.ReadBackWritten | src-tauri/src/todos.rs:284-303 | An entry written for a todo, with its content available, reads back as that todo. |
| TodoProjection.GetTodo | src-tauri/src/todos.rs:289-295 | There is no entry exactly when no entry carries the todo's key. Any other result, success or error, is the resolution of the first-newest entry under that key. |
| TodoProjection.CollectOutcome | src-tauri/src/todos.rs:259-264 | `Collect`, the loop over the resolved winners, succeeds exactly when every winner resolves. Otherwise it fails with the error of the first one that does not. |
| TodoProjection.CollectStep | src-tauri/src/todos.rs:259-264 | One loop step: an error ends the listing, a tombstone is skipped, and a live todo is appended. |
| TodoProjection.CollectPrefixErr | src-tauri/src/todos.rs:260 | An error in the visited prefix is the outcome of the whole listing. |
| TodoProjection.CollectLive | src-tauri/src/todos.rs:259-264 | A successful listing holds only live todos, each resolved from some entry. It holds every live todo that was resolved. |
| Todos.ListNameSpec | src-tauri/src/todos.rs:117-135 | `ListName` (`get_list_name_from_doc`) reports the missing-name error exactly when no entry carries the list-name key. Otherwise it reads the first-newest such entry. Its content is the name when the blob store holds it and it is UTF-8. Unavailable content is an error, and so is content that is not UTF-8. A name it returns is always such content. |
| Todos.ListNames | src-tauri/src/todos.rs:90-115 | It succeeds exactly when every document's name is readable, giving the names in order. |
| Todos.ListNamesFirstError | src-tauri/src/todos.rs:109-113 | A failed listing reports the error of the first document whose name is not readable, and every earlier document's name is readable. |
| Todos.ListNamesSnoc | src-tauri/src/todos.rs:109-113 | Listing one more document appends its name, or fails with its error. |
| Todos.ListNamesPrefixErr | src-tauri/src/todos.rs:110-112 | A failing prefix of the documents makes the whole listing fail with the same error. |
| Todos.NameStable | src-tauri/src/todos.rs:132-134 | A readable name stays the same when more content arrives. |
| Todos.NamesStable | src-tauri/src/todos.rs:99-115 | A successful listing of names is unchanged by more content. |
| Todos.CreatedDocName | src-tauri/src/todos.rs:147-149 | A new document holding only a UTF-8 name entry is named by it. |
| Todos.CreatedListIsNamed | src-tauri/src/todos.rs:142-151 | After a list is created, the names are the old ones followed by the new name. |
| Todos.ListingStep | src-tauri/src/todos.rs:109-113 | One step of the document loop: an error decides the outcome, and a name extends the listing. |
| Todos.NextName | src-tauri/src/todos.rs:109-113 | Reading the next document's name either fails with the error that becomes the listing's outcome, or extends the names read so far by that name. |
| Todos.GetTodoListsDocs | src-tauri/src/todos.rs:99-115 | Every document is paired with its name, in listing order. The first unreadable name is returned as the error. |
| Todos.GetTodoListsNames | src-tauri/src/todos.rs:90-96 | The result is the names of all documents, in order, or the first error. |
| Todos.IndexOf | src-tauri/src/todos.rs:144-154 | The position found holds the name and is the first such position. There is none exactly when the name is absent. |
| Todos.TodoList.CreateNew | src-tauri/src/todos.rs:142-151 | An unreadable name is an error, and a duplicate name is refused with nothing written. Otherwise it appends a document holding one name entry, after which the names read as the old ones plus the new name. |
| Todos.TodoList.OpenExisting | src-tauri/src/todos.rs:152-160 | It opens the first document in listing order with that name, and refuses an unknown name. It writes nothing. |
| Todos.TodoList.Create | src-tauri/src/todos.rs:138-175 | An unreadable name is an error. A new list with a taken name is refused. Otherwise the new list gets one name entry, and the names become the old ones plus the new name. Opening an unknown name is refused, and opening a known name selects the first document with that name. The opened list's name reads back as the requested name. An error or an open writes nothing. |
| Todos.TodoList.InsertTodoBytes | src-tauri/src/todos.rs:269-282 | It appends one entry under `todo/<id>` to this list's document and stores the content. |
| Todos.TodoList.UpdateTodo | src-tauri/src/todos.rs:284-287 | It writes the encoded todo when it fits. Otherwise it reports buffer-full and changes nothing. |
| Todos.TodoList.Add | src-tauri/src/todos.rs:192-208 | A label over 2000 bytes is refused. Otherwise, when the encoding fits 2048 bytes, it writes a new, not-done, not-deleted todo created at `now`. When the encoding does not fit, the result is buffer-full and nothing is written. |
| Todos.TodoList.ToggleDone | src-tauri/src/todos.rs:210-214 | When the encoding fits 2048 bytes, it rewrites the current todo with only `done` flipped, appending one entry and adding exactly its content to the blob store. Otherwise the result is buffer-full and nothing is written. A missing or unresolvable entry is an error and writes nothing. |
| Todos.TodoList.Delete | src-tauri/src/todos.rs:216-220 | When the encoding fits 2048 bytes, it rewrites the current todo as a tombstone, appending one entry and adding exactly its content to the blob store. Otherwise the result is buffer-full and nothing is written. A missing or unresolvable entry is an error and writes nothing. |
| Todos.TodoList.Update | src-tauri/src/todos.rs:222-229 | A label of 2000 bytes or more is refused. Otherwise a missing or unresolvable entry is an error and writes nothing. When the encoding fits 2048 bytes, it rewrites the current todo with only the label replaced, appending one entry and adding exactly its content to the blob store. Otherwise the result is buffer-full and nothing is written. |
| Todos.TodoList.GetTodos | src-tauri/src/todos.rs:231-267 | The result is the last-write-wins winners under the todo prefix, resolved in the map's visiting order, with tombstones dropped. They are sorted by creation time, so the result is sorted and holds no tombstone. |
| Todos.SortLive | src-tauri/src/todos.rs:265 | Sorting live todos orders them by creation time, permutes them and keeps them live. |
| Todos.LatestEntries | src-tauri/src/todos.rs:240-256 | The scan loop computes the last-write-wins fold. |
| Todos.Winners | src-tauri/src/todos.rs:257 | `values()` visits every key of the map exactly once. |
| Todos.PrefixWinners | src-tauri/src/todos.rs:232-256 | Every winner of the prefix query carries a key under the prefix. |
| Todos.ResolveAll | src-tauri/src/todos.rs:258-264 | The resolve loop computes the collect step of the listing. |
| Todos.KeyIndex | src-tauri/src/todos.rs:257 | Every key of the map is visited at some position. |
| Todos.ValuesUnderPrefix | src-tauri/src/todos.rs:257 | The visited winners lie under the todo prefix. |
| Todos.ListingSucceeds | src-tauri/src/todos.rs:257-264 | For any visiting order, the listing succeeds exactly when every winner resolves. |
| Todos.ListingHasLive | src-tauri/src/todos.rs:257-264 | For any visiting order, a successful listing holds every live winner's todo. |
| Todos.ListingOnlyLive | src-tauri/src/todos.rs:257-264 | For any visiting order, every listed todo is live and comes from some winner. |
| Todos.WriteThenGet | src-tauri/src/todos.rs:284-295 | A todo written with the newest timestamp under its key reads back as that todo. |
| Todos.WrittenWinsListing | src-tauri/src/todos.rs:231-264 | The newest write is the winner under its key in the prefix listing and resolves to the todo. |
| Todos.ListedAfterWrite | src-tauri/src/todos.rs:231-267 | A live todo written with the newest timestamp under its key is in every successful listing. |
| Tickets.TakePeers | src-tauri/src/todos.rs:306-315 | It reads exactly the number of peers asked for. |
| Tickets.ToBytes | src-tauri/src/todos.rs:317-319 | The bytes are the topic's 32 raw bytes, then the peer count as a varint, then the peers. |
| Tickets.FromBytes | src-tauri/src/todos.rs:311-315 | A decoded topic is 32 bytes, and any failure is a deserialization error. |
| Tickets.PeersRoundTrip | src-tauri/src/todos.rs:306-319 | The peers decode back from their encoding. |
| Tickets.BytesRoundTripTicket | src-tauri/src/todos.rs:311-319 | A ticket's bytes, with anything after them, decode to the ticket. |
| Tickets.Display | src-tauri/src/todos.rs:323-330 | The text uses only lowercase letters and the digits `2`-`7`. |
| Tickets.FromStr | src-tauri/src/todos.rs:333-341 | A parsed ticket has a 32-byte topic, and it is what the bytes read, whose unpadded base-32 encoding is exactly the uppercased text. A length no encoding can have is refused as a decode error. So is a character outside the alphabet after uppercasing. |
| Tickets.UppercaseLowercase | src-tauri/src/todos.rs:327-337 | Uppercasing undoes the lowercasing of base-32 text. |
| Tickets.CaseMapping | src-tauri/src/todos.rs:327-337 | `Lowercase` (`make_ascii_lowercase`) leaves no `A`-`Z`, and `Uppercase` (`to_ascii_uppercase`) leaves no `a`-`z`. Uppercasing forgets an earlier lowercasing, and lowercasing an earlier uppercasing. |
| Tickets.FromStrIgnoresCase | src-tauri/src/todos.rs:336-340 | The parse does not depend on the case of its input. |
| Tickets.TextRoundTrip | src-tauri/src/todos.rs:323-341 | Parsing a ticket's text gives the ticket back. |
| Base32.Encode | src-tauri/src/todos.rs:326 | The text uses only alphabet symbols, and its length is the bit count rounded up to whole 5-bit symbols. |
| Base32.Decode | src-tauri/src/todos.rs:337 | A length no encoding can have is refused, and so is a non-alphabet symbol. A result holds the whole octets of the text. |
| Base32.DecodeEncode | src-tauri/src/todos.rs:323-341 | Decoding the encoding gives back the bytes. |
| Base32.EncodeDecode | src-tauri/src/todos.rs:337 | Text that decodes is the encoding of its result. So non-zero filler bits are refused, and no two texts decode to the same bytes. |
| Base32.DecodeAcceptsOnlyEncodings | src-tauri/src/todos.rs:326-337 | The decoder accepts a text exactly when the encoder produces it for some bytes. |
| Utf8.Utf8Verdicts | src-tauri/src/todos.rs:133 | `IsUtf8` stands for the check `String::from_utf8` makes. It accepts a two-byte character. It refuses a lone continuation byte, an overlong encoding, an encoded surrogate and a truncated character. |
| Utf8.Utf8Concat | src-tauri/src/todos.rs:298 | `IsUtf8` is closed under concatenation, so a key built from the ASCII prefix and a UTF-8 id passes the key check. |
| Postcard.VarintRoundTrip | src-tauri/src/todos.rs:44-53 | A 64-bit integer decodes back from its varint, followed by anything. |
| Postcard.BytesRoundTrip | src-tauri/src/tasks.rs:31-40 | A byte buffer decodes back from its length-prefixed form. |
| Postcard.StrRoundTrip | src-tauri/src/todos.rs:44-53 | A string decodes back from its length-prefixed form. |
| Postcard.BoolRoundTrip | src-tauri/src/todos.rs:44-53 | A `bool` decodes back from its byte. |
| Postcard.ToSlice | src-tauri/src/todos.rs:50-51 | It succeeds exactly when the encoding fits, giving the encoding and then zeros up to the buffer size. |
| Postcard.TakeFixed | src-tauri/src/todos.rs:308 | A fixed array is its raw bytes, and it needs that many bytes. |
| Postcard.VarintLength | src-tauri/src/todos.rs:22-24 | A value below 128^k takes at most k varint bytes. |
| Postcard.VarintLowerBound | src-tauri/src/todos.rs:22-24 | A value of at least 128^k takes more than k varint bytes. |
| Sorting.SortBySortsAndPermutes | src-tauri/src/tasks.rs:210 | `sort_by_key` yields a sorted permutation. |
| Sorting.SortByStable | src-tauri/src/todos.rs:265 | Elements with equal keys keep their relative order. |
| Sorting.SortBySorted | src-tauri/src/tasks.rs:210 | Sorting an already-sorted list changes nothing. |
| Sorting.SortByDistinct | src-tauri/src/tasks.rs:210 | Sorting keeps distinct identities distinct. |
| DocStore.WithPrefix | src-tauri/src/todos.rs:232-239 | A prefix query yields exactly the entries under the prefix. |
| DocStore.PrefixPositionsSpec | src-tauri/src/todos.rs:232-239 | A prefix query keeps log order. Its entries are the log's entries at strictly increasing positions (`PrefixPositions`), and every entry under the prefix is one of them. |
| DocStore.Store.CreateDoc | src-tauri/src/todos.rs:147 | It appends one empty document, whose id is its position. |
| DocStore.Store.SetBytes | src-tauri/src/todos.rs:274-280 | It appends one entry to the document and stores its content. Nothing else changes. |
| TaskList.AsBytes | src-tauri/src/tasks.rs:36-40 | It succeeds exactly when the encoding fits 2048 bytes, giving a zero-padded buffer that decodes back to the task. |
| TaskList.FromBytesEncoding | src-tauri/src/tasks.rs:31-34 | `from_bytes` reads the task back from its encoding and ignores whatever follows it. |
| TaskList.TaskRoundTrip | src-tauri/src/tasks.rs:31-40 | A task with a 16-byte id decodes back from its encoding. |
| TaskList.MissingTask | src-tauri/src/tasks.rs:42-49 | The placeholder has description "Missing Content", created 0, is neither done nor archived, and has the nil id. |
| TaskList.AcceptedTaskFits | src-tauri/src/tasks.rs:27-28 | Every task whose description passes the guard fits the buffer. |
| TaskList.FirstKeyIndex | src-tauri/src/tasks.rs:198 | The index found is the first whose key matches. There is none exactly when no key matches. |
| TaskList.FindMember | src-tauri/src/tasks.rs:214-219 | With one pair per key, the pair found under a key is the one member of the list carrying it. |
| TaskList.UpsertRemove | src-tauri/src/tasks.rs:199-200 | Removing a pair keeps the keys distinct and leaves exactly the other pairs. |
| TaskList.UpsertReplace | src-tauri/src/tasks.rs:202 | Replacing a pair keeps the keys distinct and the other pairs in place. |
| TaskList.UpsertAppend | src-tauri/src/tasks.rs:204-207 | Appending under a new key keeps the keys distinct. |
| TaskList.UpsertFacts | src-tauri/src/tasks.rs:198-208 | After `Upsert` (the map update of `insert_task`), the key holds the new pair, or nothing when the task is archived. All other pairs stay, and keys stay distinct. |
| TaskList.InsertedWellFormed | src-tauri/src/tasks.rs:197-212 | After insertion the list is sorted, has one pair per key, holds no archived task, and holds what the upsert holds. |
| TaskList.InsertedSpec | src-tauri/src/tasks.rs:197-212 | After `Inserted` (upsert, then the stable sort by creation time), the key holds the new pair, or nothing when archived. Every other key keeps its pair. |
| TaskList.UpsertLength | src-tauri/src/tasks.rs:197-212 | Inserting under a held key keeps the length for a live task and shortens it by one for an archived task. |
| TaskList.ToggledRecord | src-tauri/src/tasks.rs:171-178 | The toggled record reads back with `done` flipped. Applying it replaces that pair, keeps the length, and leaves every other key's pair as it was. |
| TaskList.DeletedRecord | src-tauri/src/tasks.rs:180-187 | The archived record reads back archived. Applying it removes the key, shortens the list by one, and leaves every other key's pair as it was. |
| TaskList.InnerTasks.Position | src-tauri/src/tasks.rs:198 | The search loop finds the first index whose key matches. |
| TaskList.InnerTasks.InsertTask | src-tauri/src/tasks.rs:197-212 | The new list is the upsert, sorted by creation time. |
| TaskList.InnerTasks.GetTask | src-tauri/src/tasks.rs:214-219 | It fails exactly when no pair has the key, with the no-task error. Otherwise it returns a pair from the list carrying the key. |
| TaskList.Tasks.UpdateTask | src-tauri/src/tasks.rs:160-169 | It writes the task's bytes under the key, or reports buffer-full and changes nothing. |
| TaskList.Tasks.NewTask | src-tauri/src/tasks.rs:142-158 | A description over 2000 bytes is refused. Otherwise a live, not-done task is written under its UUID, and the record reads back as the task. |
| TaskList.Tasks.ToggleDone | src-tauri/src/tasks.rs:171-178 | It rewrites the found task under its record key with `done` flipped when the encoding fits 2048 bytes. It fails with buffer-full otherwise, or with no-task when the task is absent, and then changes nothing. |
| TaskList.Tasks.Delete | src-tauri/src/tasks.rs:180-187 | It rewrites the found task under its record key as archived when the encoding fits 2048 bytes. It fails with buffer-full otherwise, or with no-task when the task is absent, and then changes nothing. |

## Left out

- `TodosType::Join` and the ticket's import are left out. They rely on `DocTicket` and `import_doc`, whose workings are part of the node and outside this code.
- `Todos::name`, `ticket()` (the document share) and `doc_subscribe` are left out. They forward to the node or its event stream.
- Two parts of `Tasks::new` are left out: the loop that loads the replica's entries, and the background loop that applies incoming updates. Both are asynchronous and hold a lock across awaits. The update step of that loop is `InnerTasks.InsertTask`.
- `Tasks::list`, `save` and `InnerTasks::save` are left out. They only copy out the list or hand the document to the store.
- The clock (`SystemTime::now`), `Uuid::new_v4`, `iroh.create_author()` and the store's timestamps are parameters (`now`, `id`, `author`, `stamp`).
- `DocStore.Store.CreateDoc`: the model places a new document last in `list_docs` order, and its id is that position. The source's order is whatever the store lists. So the claims that the names after creating a list are "the old ones followed by the new name" (`Todos.CreatedListIsNamed`, `Todos.TodoList.CreateNew`, `Todos.TodoList.Create`) rest on this choice. Other listing orders are not modelled.
- The store's own errors (RPC and I/O) are not modelled. Every store call succeeds.
- The store query with `latest: true` keeps the newest entry per author and key. The model scans the whole log instead. The fold that follows still picks an entry with the newest timestamp for each key, but among entries tied at that timestamp it may pick a different one.
- `Todos.ListName`: the source takes the first entry of the name query's stream, which holds the newest entry of each author in an order the store does not fix. The model takes the newest entry over all authors, keeping the earliest of those tied. This is the same choice the listing makes, and it agrees with the source whenever a single author has written the name.
- `PeerSource` is kept as opaque length-prefixed bytes, and `TopicId` as 32 raw bytes.
- `Todos.TodoList.GetTodos`: which error is reported, and the order of todos with equal creation times, depend on the hash map's iteration order. The model makes that order an explicit ghost output, and proves only facts that hold for every order.
- `tasks.rs` does not compile as written, so the model fills each gap the closest way the code allows:
  - The `HashMap` field is the list of `(record id, task)` pairs that the methods actually use.
  - `missing_task` gets the nil UUID as its id.
  - The task built by `new_task` gets the fresh UUID as its id.
  - `get_task` looks up the pair whose record key is the UUID's bytes.
- `TaskList.InnerTasks.InsertTask`: the source wraps the result in a `Result` that is always `Ok`, so the model returns nothing.
- `Tickets.FromStr`: for text that is not ASCII, the kind of decode error reported can differ from the library's.
- `Todos.TodoList.Update`: its guard refuses a label of exactly 2000 bytes, while `add` accepts one and the error text says 2000 is allowed. The model keeps the code's behaviour; `TodoRecord.LabelGuardsDiffer` states the difference.
- `main.rs`, the node setup and the byte-handler files are not part of this model.
