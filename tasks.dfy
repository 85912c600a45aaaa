/**
 * The task list of `tasks.rs`: a task record and its fixed-size binary form,
 * the in-memory list of `(record id, task)` pairs kept sorted by creation
 * time, and the operations that write tasks to the list's document.
 */
module TaskList {
  import opened Results
  import opened Wire
  import opened Utf8
  import opened Postcard
  import opened DocStore
  import opened Sorting

  /** Size of the buffer a task is written into. */
  const MAX_TASK_SIZE: nat := 2 * 1024
  /** Most bytes a task description may have. */
  const MAX_DESCRIPTION_LEN: nat := 2 * 1000
  /** Bytes in a UUID. */
  const UUID_LEN: nat := 16
  /** The nil UUID, all zero bits. */
  const NIL_UUID: Bytes := [0, 0, 0, 0, 0, 0, 0, 0, 0, 0, 0, 0, 0, 0, 0, 0]
  /** Description of the placeholder for a task whose content is not available: the ASCII bytes of `Missing Content`. */
  const MISSING_DESCRIPTION: Str := AsciiStr("Missing Content")

  /** Fields in declaration order, which is also their order on the wire; `id` holds the 16 bytes of a UUID. */
  datatype Task = Task(id: Bytes, description: Str, created: u64, done: bool, archived: bool)

  /** A `RecordIdentifier`: who wrote the entry and under which key. */
  datatype RecordId = RecordId(author: AuthorId, key: Bytes)

  datatype TaskError =
    | DescriptionTooLong
    | SerializeBufferFull
    | DeserializeFailed
    | NoTask

  /** The postcard encoding of a task; a UUID is written as a 16-byte buffer. */
  function Encode(t: Task): Bytes {
    EncBytes(t.id) + EncStr(t.description) + Varint(t.created as nat) + EncBool(t.done) + EncBool(t.archived)
  }

  /** Reads a task from the front of `s`; a UUID buffer of any length but 16 is refused. */
  function TakeTask(s: Bytes): Option<(Task, Bytes)> {
    match TakeBytes(s)
    case None => None
    case Some((id, s1)) =>
      if |id| != UUID_LEN then None
      else match TakeStr(s1)
        case None => None
        case Some((description, s2)) =>
          match TakeVarint(s2)
          case None => None
          case Some((created, s3)) =>
            match TakeBool(s3)
            case None => None
            case Some((done, s4)) =>
              match TakeBool(s4)
              case None => None
              case Some((archived, s5)) => Some((Task(id, description, created, done, archived), s5))
  }

  /** `TakeTask` reads the five fields in order. */
  lemma TakeTaskFields(s: Bytes, t: Task, s1: Bytes, s2: Bytes, s3: Bytes, s4: Bytes, s5: Bytes)
    requires |t.id| == UUID_LEN
    requires TakeBytes(s) == Some((t.id, s1))
    requires TakeStr(s1) == Some((t.description, s2))
    requires TakeVarint(s2) == Some((t.created, s3))
    requires TakeBool(s3) == Some((t.done, s4))
    requires TakeBool(s4) == Some((t.archived, s5))
    ensures TakeTask(s) == Some((t, s5))
  {
  }

  /** The encoding followed by `rest`, regrouped field by field. */
  lemma TaskLayout(t: Task, rest: Bytes)
    ensures Encode(t) + rest
      == EncBytes(t.id) + (EncStr(t.description) + (Varint(t.created as nat) + (EncBool(t.done) + (EncBool(t.archived) + rest))))
  {
    Regroup(EncBytes(t.id), EncStr(t.description), Varint(t.created as nat), EncBool(t.done), EncBool(t.archived), rest);
  }

  /** Decoding the encoding of a task with a 16-byte id, followed by anything, gives the task and what followed. */
  lemma TaskRoundTrip(t: Task, rest: Bytes)
    requires |t.id| == UUID_LEN && |t.description| < 0x1_0000_0000_0000_0000
    ensures TakeTask(Encode(t) + rest) == Some((t, rest))
  {
    var s4 := EncBool(t.archived) + rest;
    var s3 := EncBool(t.done) + s4;
    var s2 := Varint(t.created as nat) + s3;
    var s1 := EncStr(t.description) + s2;
    TaskLayout(t, rest);
    BytesRoundTrip(t.id, s1);
    StrRoundTrip(t.description, s2);
    VarintRoundTrip(t.created, s3);
    BoolRoundTrip(t.done, s4);
    BoolRoundTrip(t.archived, rest);
    TakeTaskFields(Encode(t) + rest, t, s1, s2, s3, s4, rest);
  }

  /** `Task::from_bytes`: decodes the front of the buffer and ignores the rest. */
  function FromBytes(b: Bytes): Result<Task, TaskError> {
    match TakeTask(b)
    case None => Err(DeserializeFailed)
    case Some((t, _)) => Ok(t)
  }

  /** Reading a task from its encoding, whatever bytes follow it, gives the task. */
  lemma FromBytesEncoding(t: Task, rest: Bytes)
    requires |t.id| == UUID_LEN && |t.description| < 0x1_0000_0000_0000_0000
    ensures FromBytes(Encode(t) + rest) == Ok(t)
  {
    TaskRoundTrip(t, rest);
  }

  /**
   * `Task::as_bytes`: the encoding written into a zeroed 2048-byte buffer;
   * it fails rather than truncates when it does not fit.
   */
  function AsBytes(t: Task): (r: Result<Bytes, TaskError>)
    ensures r.Ok? <==> |Encode(t)| <= MAX_TASK_SIZE
    ensures r.Err? ==> r.error == SerializeBufferFull
    ensures r.Ok? ==> |r.value| == MAX_TASK_SIZE
    ensures r.Ok? ==> forall i :: |Encode(t)| <= i < MAX_TASK_SIZE ==> r.value[i] == 0
    ensures r.Ok? && |t.id| == UUID_LEN ==> FromBytes(r.value) == Ok(t)
  {
    match ToSlice(Encode(t), MAX_TASK_SIZE)
    case None => Err(SerializeBufferFull)
    case Some(buf) =>
      assert buf == Encode(t) + buf[|Encode(t)|..];
      assert |t.id| == UUID_LEN ==> FromBytes(buf) == Ok(t) by {
        if |t.id| == UUID_LEN {
          TaskRoundTrip(t, buf[|Encode(t)|..]);
        }
      }
      Ok(buf)
  }

  /** `Task::missing_task`: the placeholder for a task whose content cannot be fetched. */
  function MissingTask(): (t: Task)
    ensures t.description == MISSING_DESCRIPTION && t.created == 0 && !t.done && !t.archived
    ensures t.id == NIL_UUID
  {
    Task(NIL_UUID, MISSING_DESCRIPTION, 0, false, false)
  }

  /** The guard of `new_task`: it refuses a description of more than 2000 bytes. */
  predicate AcceptsDescription(description: Str) {
    !(|description| > MAX_DESCRIPTION_LEN)
  }

  /** Any task whose description passes the guard fits the buffer, whatever its timestamp and flags. */
  lemma AcceptedTaskFits(t: Task)
    requires |t.id| == UUID_LEN && AcceptsDescription(t.description)
    ensures AsBytes(t).Ok?
  {
    VarintLength(|t.id|, 1);
    VarintLength(|t.description|, 2);
    VarintOfU64Fits(t.created);
  }

  /** The sort key of `insert_task`. */
  function Created(p: (RecordId, Task)): int {
    p.1.created as int
  }

  /** The identity `insert_task` compares: the key of the record id. */
  function KeyOf(p: (RecordId, Task)): Bytes {
    p.0.key
  }

  /** What the list promises between operations: one pair per key, and no archived task. */
  predicate WellFormed(ts: seq<(RecordId, Task)>) {
    DistinctBy(ts, KeyOf) && forall i :: 0 <= i < |ts| ==> !ts[i].1.archived
  }

  /** `iter().position(..)`: the first index whose key is `key`. */
  function FirstKeyIndex(ts: seq<(RecordId, Task)>, key: Bytes): (r: Option<nat>)
    ensures r.None? <==> forall j :: 0 <= j < |ts| ==> ts[j].0.key != key
    ensures r.Some? ==> r.value < |ts| && ts[r.value].0.key == key
                        && forall j :: 0 <= j < r.value ==> ts[j].0.key != key
  {
    if ts == [] then None
    else if ts[0].0.key == key then Some(0)
    else match FirstKeyIndex(ts[1..], key)
      case None => None
      case Some(i) => Some(i + 1)
  }

  /** The pair stored under `key`, if any. */
  function Find(ts: seq<(RecordId, Task)>, key: Bytes): Option<(RecordId, Task)> {
    match FirstKeyIndex(ts, key)
    case None => None
    case Some(i) => Some(ts[i])
  }

  /** With one pair per key, the pair found under a key is the one member of the list carrying it. */
  lemma FindMember(ts: seq<(RecordId, Task)>, key: Bytes, p: (RecordId, Task))
    requires DistinctBy(ts, KeyOf)
    ensures Find(ts, key) == Some(p) <==> p in ts && p.0.key == key
  {
    if p in ts && p.0.key == key {
      var k :| 0 <= k < |ts| && ts[k] == p;
      var i := FirstKeyIndex(ts, key).value;
      assert KeyOf(ts[i]) == KeyOf(ts[k]);
    }
  }

  /** The list `insert_task` builds before sorting it. */
  function Upsert(ts: seq<(RecordId, Task)>, id: RecordId, task: Task): seq<(RecordId, Task)> {
    match FirstKeyIndex(ts, id.key)
    case Some(i) => if task.archived then ts[..i] + ts[i + 1..] else ts[i := (id, task)]
    case None => if task.archived then ts else ts + [(id, task)]
  }

  /** Removing the pair at `i`, the only one under its key, keeps the keys distinct and leaves exactly the other pairs. */
  lemma UpsertRemove(ts: seq<(RecordId, Task)>, i: nat)
    requires DistinctBy(ts, KeyOf) && i < |ts|
    ensures DistinctBy(ts[..i] + ts[i + 1..], KeyOf)
    ensures forall p :: p in ts[..i] + ts[i + 1..] <==> p in ts && p.0.key != ts[i].0.key
  {
    var u := ts[..i] + ts[i + 1..];
    assert forall a :: 0 <= a < |u| ==> u[a] == ts[if a < i then a else a + 1];
    forall p | p in ts && p.0.key != ts[i].0.key ensures p in u {
      var k :| 0 <= k < |ts| && ts[k] == p;
      assert p == u[if k < i then k else k - 1];
    }
    forall p | p in u ensures p in ts && p.0.key != ts[i].0.key {
      var k :| 0 <= k < |u| && u[k] == p;
      assert KeyOf(ts[if k < i then k else k + 1]) != KeyOf(ts[i]);
    }
  }

  /** Replacing the pair at `i` by one under the same key keeps the keys distinct and the other pairs in place. */
  lemma UpsertReplace(ts: seq<(RecordId, Task)>, i: nat, q: (RecordId, Task))
    requires DistinctBy(ts, KeyOf) && i < |ts| && q.0.key == ts[i].0.key
    ensures DistinctBy(ts[i := q], KeyOf)
    ensures forall p :: p in ts[i := q] <==> p == q || (p in ts && p.0.key != q.0.key)
  {
    var u := ts[i := q];
    assert forall a :: 0 <= a < |u| ==> KeyOf(u[a]) == KeyOf(ts[a]);
    assert u[i] == q;
    forall p | p in ts && p.0.key != q.0.key ensures p in u {
      var k :| 0 <= k < |ts| && ts[k] == p;
      assert u[k] == p;
    }
    forall p | p in u && p != q ensures p in ts && p.0.key != q.0.key {
      var k :| 0 <= k < |u| && u[k] == p;
      assert u[k] == ts[k];
      assert KeyOf(ts[k]) != KeyOf(ts[i]);
    }
  }

  /** Appending a pair under a key not yet present keeps the keys distinct. */
  lemma UpsertAppend(ts: seq<(RecordId, Task)>, q: (RecordId, Task))
    requires DistinctBy(ts, KeyOf) && forall j :: 0 <= j < |ts| ==> ts[j].0.key != q.0.key
    ensures DistinctBy(ts + [q], KeyOf)
    ensures forall p :: p in ts + [q] <==> p == q || (p in ts && p.0.key != q.0.key)
  {
    var u := ts + [q];
    forall a, b | 0 <= a < b < |u| ensures KeyOf(u[a]) != KeyOf(u[b]) {
      assert u[a] == ts[a];
    }
    forall p | p in ts ensures p.0.key != q.0.key {
      var k :| 0 <= k < |ts| && ts[k] == p;
    }
  }

  /** Upserting keeps one pair per key; afterwards the key of `id` holds the new pair, or nothing when the task is archived, and every other pair stays. */
  lemma UpsertFacts(ts: seq<(RecordId, Task)>, id: RecordId, task: Task)
    requires DistinctBy(ts, KeyOf)
    ensures DistinctBy(Upsert(ts, id, task), KeyOf)
    ensures task.archived ==> forall p :: p in Upsert(ts, id, task) <==> p in ts && p.0.key != id.key
    ensures !task.archived ==> forall p :: p in Upsert(ts, id, task) <==> p == (id, task) || (p in ts && p.0.key != id.key)
  {
    match FirstKeyIndex(ts, id.key)
    case Some(i) =>
      if task.archived {
        UpsertRemove(ts, i);
      } else {
        UpsertReplace(ts, i, (id, task));
      }
    case None =>
      if !task.archived {
        UpsertAppend(ts, (id, task));
      } else {
        forall p | p in ts ensures p.0.key != id.key {
          var k :| 0 <= k < |ts| && ts[k] == p;
        }
      }
  }

  /** The list after `insert_task`: the upsert, stably sorted by creation time. */
  function Inserted(ts: seq<(RecordId, Task)>, id: RecordId, task: Task): seq<(RecordId, Task)> {
    SortBy(Upsert(ts, id, task), Created)
  }

  /** `insert_task` leaves the list sorted by creation time, one pair per key, with no archived task, holding what the upsert holds. */
  lemma {:induction false} InsertedWellFormed(ts: seq<(RecordId, Task)>, id: RecordId, task: Task)
    requires WellFormed(ts)
    ensures SortedBy(Inserted(ts, id, task), Created)
    ensures WellFormed(Inserted(ts, id, task))
    ensures forall p :: p in Inserted(ts, id, task) <==> p in Upsert(ts, id, task)
  {
    var u := Upsert(ts, id, task);
    var r := Inserted(ts, id, task);
    UpsertFacts(ts, id, task);
    SortBySortsAndPermutes(u, Created);
    SortByDistinct(u, Created, KeyOf);
    forall p ensures p in r <==> p in u {
      assert p in r <==> p in multiset(r);
    }
    forall i | 0 <= i < |r| ensures !r[i].1.archived {
      assert r[i] in u;
      if r[i] != (id, task) {
        var k :| 0 <= k < |ts| && ts[k] == r[i];
      }
    }
  }

  /**
   * Whatever the order of the list, after `insert_task` the key of `id` holds
   * the new pair, or nothing when the task is archived, and every other key
   * holds what it held.
   */
  lemma {:induction false} InsertedSpec(ts: seq<(RecordId, Task)>, id: RecordId, task: Task)
    requires WellFormed(ts)
    ensures SortedBy(Inserted(ts, id, task), Created) && WellFormed(Inserted(ts, id, task))
    ensures Find(Inserted(ts, id, task), id.key) == if task.archived then None else Some((id, task))
    ensures forall k :: k != id.key ==> Find(Inserted(ts, id, task), k) == Find(ts, k)
  {
    var r := Inserted(ts, id, task);
    InsertedWellFormed(ts, id, task);
    UpsertFacts(ts, id, task);
    if task.archived {
      if Find(r, id.key).Some? {
        FindMember(r, id.key, Find(r, id.key).value);
      }
    } else {
      FindMember(r, id.key, (id, task));
    }
    forall k | k != id.key ensures Find(r, k) == Find(ts, k) {
      if Find(ts, k).Some? {
        FindMember(ts, k, Find(ts, k).value);
        FindMember(r, k, Find(ts, k).value);
      } else if Find(r, k).Some? {
        FindMember(r, k, Find(r, k).value);
        FindMember(ts, k, Find(r, k).value);
      }
    }
  }

  /** The in-memory list of a task document. */
  class InnerTasks {
    var tasks: seq<(RecordId, Task)>

    constructor ()
      ensures tasks == []
    {
      tasks := [];
    }

    /** `self.tasks.iter().position(..)` for a record key. */
    method Position(key: Bytes) returns (r: Option<nat>)
      ensures r == FirstKeyIndex(tasks, key)
    {
      var i := 0;
      while i < |tasks|
        invariant 0 <= i <= |tasks|
        invariant forall j :: 0 <= j < i ==> tasks[j].0.key != key
      {
        if tasks[i].0.key == key {
          return Some(i);
        }
        i := i + 1;
      }
      return None;
    }

    /**
     * `insert_task`: an archived task removes the pair under its key, a live
     * one replaces it or is appended; then the list is sorted by creation time.
     */
    method InsertTask(id: RecordId, task: Task)
      modifies this
      ensures tasks == Inserted(old(tasks), id, task)
    {
      var index := Position(id.key);
      if index.Some? {
        if task.archived {
          tasks := tasks[..index.value] + tasks[index.value + 1..];
        } else {
          tasks := tasks[index.value := (id, task)];
        }
      } else if !task.archived {
        tasks := tasks + [(id, task)];
      }
      tasks := SortBy(tasks, Created);
    }

    /** `get_task`: the pair stored under the task's key, or an error when there is none. */
    function GetTask(index: Bytes): (r: Result<(RecordId, Task), TaskError>)
      reads this
      ensures r.Err? <==> forall j :: 0 <= j < |tasks| ==> tasks[j].0.key != index
      ensures r.Err? ==> r.error == NoTask
      ensures r.Ok? ==> r.value in tasks && r.value.0.key == index
    {
      match Find(tasks, index)
      case None => Err(NoTask)
      case Some(p) => Ok(p)
    }
  }

  /** The task list as its commands see it: the in-memory list and the document it mirrors. */
  class Tasks {
    const inner: InnerTasks
    const store: Store
    const doc: nat
    const author: AuthorId

    ghost predicate Valid()
      reads store
    {
      doc < |store.docs|
    }

    constructor (inner: InnerTasks, store: Store, doc: nat, author: AuthorId)
      ensures this.inner == inner && this.store == store && this.doc == doc && this.author == author
    {
      this.inner := inner;
      this.store := store;
      this.doc := doc;
      this.author := author;
    }

    /** `update_task`: writes the task's bytes under `key`, or fails when they do not fit. */
    method UpdateTask(key: Bytes, task: Task, stamp: u64) returns (r: Result<(), TaskError>)
      requires Valid()
      modifies store
      ensures AsBytes(task).Err? ==> r == Err(SerializeBufferFull) && unchanged(store)
      ensures AsBytes(task).Ok? ==>
        && r.Ok?
        && store.docs == old(store.docs)[doc := Document(old(store.docs)[doc].entries + [Entry(key, author, stamp, AsBytes(task).value)])]
        && store.blobs == old(store.blobs) + {AsBytes(task).value}
    {
      var content := AsBytes(task);
      if content.Err? {
        return Err(content.error);
      }
      store.SetBytes(doc, author, key, content.value, stamp);
      return Ok(());
    }

    /**
     * `new_task`: refuses a description over 2000 bytes; otherwise writes a new
     * live, not-done task under the bytes of its fresh UUID. `id` and `now`
     * stand for `Uuid::new_v4()` and the clock.
     */
    method NewTask(description: Str, id: Bytes, now: u64, stamp: u64) returns (r: Result<(), TaskError>)
      requires Valid() && |id| == UUID_LEN
      modifies store
      ensures !AcceptsDescription(description) ==> r == Err(DescriptionTooLong) && unchanged(store)
      ensures AcceptsDescription(description) ==>
        && r.Ok?
        && var t := Task(id, description, now, false, false);
           && AsBytes(t).Ok?
           && store.docs == old(store.docs)[doc := Document(old(store.docs)[doc].entries + [Entry(id, author, stamp, AsBytes(t).value)])]
           && store.blobs == old(store.blobs) + {AsBytes(t).value}
           && FromBytes(AsBytes(t).value) == Ok(t)
    {
      if |description| > MAX_DESCRIPTION_LEN {
        return Err(DescriptionTooLong);
      }
      var t := Task(id, description, now, false, false);
      AcceptedTaskFits(t);
      r := UpdateTask(id, t, stamp);
    }

    /** `toggle_done`: rewrites the task under its record key with `done` flipped and nothing else changed. */
    method ToggleDone(index: Bytes, stamp: u64) returns (r: Result<(), TaskError>)
      requires Valid()
      modifies store
      ensures inner.GetTask(index).Err? ==> r == Err(NoTask) && unchanged(store)
      ensures inner.GetTask(index).Ok? ==>
        var (rid, t) := inner.GetTask(index).value;
        var t' := t.(done := !t.done);
        && (AsBytes(t').Err? ==> r == Err(SerializeBufferFull) && unchanged(store))
        && (AsBytes(t').Ok? ==>
            && r.Ok?
            && store.docs == old(store.docs)[doc := Document(old(store.docs)[doc].entries + [Entry(rid.key, author, stamp, AsBytes(t').value)])]
            && store.blobs == old(store.blobs) + {AsBytes(t').value})
    {
      var found := inner.GetTask(index);
      if found.Err? {
        return Err(found.error);
      }
      var (rid, t) := found.value;
      t := t.(done := !t.done);
      r := UpdateTask(rid.key, t, stamp);
    }

    /** `delete`: rewrites the task under its record key with `archived` set and nothing else changed. */
    method Delete(index: Bytes, stamp: u64) returns (r: Result<(), TaskError>)
      requires Valid()
      modifies store
      ensures inner.GetTask(index).Err? ==> r == Err(NoTask) && unchanged(store)
      ensures inner.GetTask(index).Ok? ==>
        var (rid, t) := inner.GetTask(index).value;
        var t' := t.(archived := true);
        && (AsBytes(t').Err? ==> r == Err(SerializeBufferFull) && unchanged(store))
        && (AsBytes(t').Ok? ==>
            && r.Ok?
            && store.docs == old(store.docs)[doc := Document(old(store.docs)[doc].entries + [Entry(rid.key, author, stamp, AsBytes(t').value)])]
            && store.blobs == old(store.blobs) + {AsBytes(t').value})
    {
      var found := inner.GetTask(index);
      if found.Err? {
        return Err(found.error);
      }
      var (rid, t) := found.value;
      t := t.(archived := true);
      r := UpdateTask(rid.key, t, stamp);
    }
  }

  /** Upserting under a key the list holds keeps its length for a live task and shortens it by one for an archived one. */
  lemma UpsertLength(ts: seq<(RecordId, Task)>, id: RecordId, task: Task)
    requires FirstKeyIndex(ts, id.key).Some?
    ensures |Inserted(ts, id, task)| == if task.archived then |ts| - 1 else |ts|
  {
  }

  /**
   * Flipping `done` on a task the list holds writes a record that reads back
   * as the same task with `done` flipped; applied to a well-formed list, the
   * write keeps the key and replaces only that pair.
   */
  lemma ToggledRecord(ts: seq<(RecordId, Task)>, rid: RecordId, t: Task)
    requires WellFormed(ts) && (rid, t) in ts && |t.id| == UUID_LEN && AsBytes(t.(done := !t.done)).Ok?
    ensures FromBytes(AsBytes(t.(done := !t.done)).value) == Ok(t.(done := !t.done))
    ensures Find(Inserted(ts, rid, t.(done := !t.done)), rid.key) == Some((rid, t.(done := !t.done)))
    ensures |Inserted(ts, rid, t.(done := !t.done))| == |ts|
    ensures forall k :: k != rid.key ==> Find(Inserted(ts, rid, t.(done := !t.done)), k) == Find(ts, k)
  {
    var t' := t.(done := !t.done);
    InsertedSpec(ts, rid, t');
    FindMember(ts, rid.key, (rid, t));
    UpsertLength(ts, rid, t');
  }

  /** Deleting a task the list holds writes an archived record, and applying it drops the task's key from the list. */
  lemma DeletedRecord(ts: seq<(RecordId, Task)>, rid: RecordId, t: Task)
    requires WellFormed(ts) && (rid, t) in ts && |t.id| == UUID_LEN && AsBytes(t.(archived := true)).Ok?
    ensures FromBytes(AsBytes(t.(archived := true)).value) == Ok(t.(archived := true))
    ensures Find(Inserted(ts, rid, t.(archived := true)), rid.key) == None
    ensures |Inserted(ts, rid, t.(archived := true))| == |ts| - 1
    ensures forall k :: k != rid.key ==> Find(Inserted(ts, rid, t.(archived := true)), k) == Find(ts, k)
  {
    var t' := t.(archived := true);
    InsertedSpec(ts, rid, t');
    FindMember(ts, rid.key, (rid, t));
    UpsertLength(ts, rid, t');
  }
}
