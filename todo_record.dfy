/**
 * A todo record, its fixed-size binary form and the keys under which a list
 * document stores its name and its todos.
 */
module TodoRecord {
  import opened Results
  import opened Wire
  import opened Utf8
  import opened Postcard

  /** Entry key of the list's human-readable name: the ASCII bytes of `metadata/todo_list_name`. */
  const TODO_LIST_NAME: Bytes := [0x6d, 0x65, 0x74, 0x61, 0x64, 0x61, 0x74, 0x61, 0x2f, 0x74, 0x6f, 0x64, 0x6f, 0x5f, 0x6c, 0x69, 0x73, 0x74, 0x5f, 0x6e, 0x61, 0x6d, 0x65]
  /** Prefix of the key of every todo entry: the ASCII bytes of `todo/`. */
  const TODO_PREFIX: Bytes := [0x74, 0x6f, 0x64, 0x6f, 0x2f]
  /** Size of the buffer a todo is written into. */
  const MAX_TODO_SIZE: nat := 2 * 1024
  /** Most bytes a todo label may have. */
  const MAX_LABEL_LEN: nat := 2 * 1000
  /** Label of the placeholder shown for a todo whose content is not available. */
  const MISSING_CONTENT: Str := AsciiStr("Missing Content")

  /** Fields in declaration order, which is also their order on the wire; `labelText` is the `label` field. */
  datatype Todo = Todo(labelText: Str, created: u64, done: bool, isDelete: bool, id: Str)

  /** What can go wrong in the list operations. */
  datatype Error =
    | LabelTooLong
    | SerializeBufferFull
    | DeserializeFailed
    | KeyNotUtf8
    | NoEntry
    | NoListName
    | NameUnavailable
    | NameNotUtf8
    | ListExists
    | ListNotFound

  /** The postcard encoding of a todo. */
  function Encode(t: Todo): Bytes {
    EncStr(t.labelText) + Varint(t.created as nat) + EncBool(t.done) + EncBool(t.isDelete) + EncStr(t.id)
  }

  /** Reads a todo from the front of `s`, returning it and the bytes after it. */
  function TakeTodo(s: Bytes): Option<(Todo, Bytes)> {
    match TakeStr(s)
    case None => None
    case Some((labelText, s1)) =>
      match TakeVarint(s1)
      case None => None
      case Some((created, s2)) =>
        match TakeBool(s2)
        case None => None
        case Some((done, s3)) =>
          match TakeBool(s3)
          case None => None
          case Some((isDelete, s4)) =>
            match TakeStr(s4)
            case None => None
            case Some((id, s5)) => Some((Todo(labelText, created, done, isDelete, id), s5))
  }

  /** `TakeTodo` reads the five fields in order. */
  lemma TakeTodoFields(s: Bytes, t: Todo, s1: Bytes, s2: Bytes, s3: Bytes, s4: Bytes, s5: Bytes)
    requires TakeStr(s) == Some((t.labelText, s1))
    requires TakeVarint(s1) == Some((t.created, s2))
    requires TakeBool(s2) == Some((t.done, s3))
    requires TakeBool(s3) == Some((t.isDelete, s4))
    requires TakeStr(s4) == Some((t.id, s5))
    ensures TakeTodo(s) == Some((t, s5))
  {
  }

  /** The encoding followed by `rest`, regrouped field by field. */
  lemma TodoLayout(t: Todo, rest: Bytes)
    ensures Encode(t) + rest
      == EncStr(t.labelText) + (Varint(t.created as nat) + (EncBool(t.done) + (EncBool(t.isDelete) + (EncStr(t.id) + rest))))
  {
    Regroup(EncStr(t.labelText), Varint(t.created as nat), EncBool(t.done), EncBool(t.isDelete), EncStr(t.id), rest);
  }

  /** Decoding the encoding of a todo, followed by anything, gives the todo and what followed. */
  lemma TodoRoundTrip(t: Todo, rest: Bytes)
    requires |t.labelText| < 0x1_0000_0000_0000_0000 && |t.id| < 0x1_0000_0000_0000_0000
    ensures TakeTodo(Encode(t) + rest) == Some((t, rest))
  {
    var s4 := EncStr(t.id) + rest;
    var s3 := EncBool(t.isDelete) + s4;
    var s2 := EncBool(t.done) + s3;
    var s1 := Varint(t.created as nat) + s2;
    TodoLayout(t, rest);
    StrRoundTrip(t.labelText, s1);
    VarintRoundTrip(t.created, s2);
    BoolRoundTrip(t.done, s3);
    BoolRoundTrip(t.isDelete, s4);
    StrRoundTrip(t.id, rest);
    TakeTodoFields(Encode(t) + rest, t, s1, s2, s3, s4, rest);
  }

  /** `Todo::from_bytes`: decodes the front of the buffer and ignores the rest (the padding). */
  function FromBytes(b: Bytes): Result<Todo, Error> {
    match TakeTodo(b)
    case None => Err(DeserializeFailed)
    case Some((t, _)) => Ok(t)
  }

  /** Reading a todo from its encoding, whatever bytes follow it, gives the todo. */
  lemma FromBytesEncoding(t: Todo, rest: Bytes)
    requires |t.labelText| < 0x1_0000_0000_0000_0000 && |t.id| < 0x1_0000_0000_0000_0000
    ensures FromBytes(Encode(t) + rest) == Ok(t)
  {
    TodoRoundTrip(t, rest);
  }

  /**
   * `Todo::as_bytes` (and `as_vec`, the same bytes): the encoding written into a
   * zeroed 2048-byte buffer; it fails rather than truncates when it does not fit.
   */
  function AsBytes(t: Todo): (r: Result<Bytes, Error>)
    ensures r.Ok? <==> |Encode(t)| <= MAX_TODO_SIZE
    ensures r.Err? ==> r.error == SerializeBufferFull
    ensures r.Ok? ==> |r.value| == MAX_TODO_SIZE
    ensures r.Ok? ==> forall i :: |Encode(t)| <= i < MAX_TODO_SIZE ==> r.value[i] == 0
    ensures r.Ok? ==> FromBytes(r.value) == Ok(t)
  {
    match ToSlice(Encode(t), MAX_TODO_SIZE)
    case None => Err(SerializeBufferFull)
    case Some(buf) =>
      assert buf == Encode(t) + buf[|Encode(t)|..];
      TodoRoundTrip(t, buf[|Encode(t)|..]);
      Ok(buf)
  }

  /** `Todo::missing_todo`: the placeholder for a todo whose content cannot be fetched. */
  function MissingTodo(id: Str): (t: Todo)
    ensures t.labelText == MISSING_CONTENT && t.created == 0 && !t.done && !t.isDelete
    ensures t.id == id
  {
    Todo(MISSING_CONTENT, 0, false, false, id)
  }

  /** The entry key of the todo with id `id`. */
  function TodoKey(id: Str): (k: Bytes)
    ensures HasPrefix(TODO_PREFIX, k) && k[|TODO_PREFIX|..] == id
    ensures IsUtf8(k)
  {
    AsciiPrefix(TODO_PREFIX, id);
    TODO_PREFIX + id
  }

  /** Distinct ids have distinct keys, and the list-name entry is never read as a todo. */
  lemma KeySchema(a: Str, b: Str)
    ensures TodoKey(a) == TodoKey(b) <==> a == b
    ensures !HasPrefix(TODO_PREFIX, TODO_LIST_NAME)
  {
    assert TODO_LIST_NAME[0] != TODO_PREFIX[0];
  }

  /** The guard of `add`: a label of up to 2000 bytes is accepted. */
  predicate AddAcceptsLabel(labelText: Str) {
    !(|labelText| > MAX_LABEL_LEN)
  }

  /** The guard of `update`: it refuses a label of 2000 bytes or more. */
  predicate UpdateAcceptsLabel(labelText: Str) {
    !(|labelText| >= MAX_LABEL_LEN)
  }

  /** The two guards disagree exactly on labels of 2000 bytes, which `add` accepts and `update` refuses. */
  lemma LabelGuardsDiffer(labelText: Str)
    ensures AddAcceptsLabel(labelText) && !UpdateAcceptsLabel(labelText) <==> |labelText| == MAX_LABEL_LEN
    ensures UpdateAcceptsLabel(labelText) ==> AddAcceptsLabel(labelText)
  {
  }

  /** A todo with an accepted label and an id of at most 33 bytes always fits the buffer. */
  lemma AcceptedTodoFits(t: Todo)
    requires AddAcceptsLabel(t.labelText) && |t.id| <= 33
    ensures AsBytes(t).Ok?
  {
    VarintLength(|t.labelText|, 2);
    VarintLength(|t.id|, 1);
    VarintOfU64Fits(t.created);
  }

  /** The label guard alone does not make a todo fit: with an id of 34 bytes or more and a timestamp of 2^63 or more, a 2000-byte label overflows the buffer. */
  lemma AcceptedLabelCanOverflow(t: Todo)
    requires |t.labelText| == MAX_LABEL_LEN && |t.id| >= 34 && t.created >= 0x8000_0000_0000_0000
    ensures AddAcceptsLabel(t.labelText) && AsBytes(t) == Err(SerializeBufferFull)
  {
    assert Pow128(1) == 0x80;
    VarintLowerBound(|t.labelText|, 1);
    assert Pow128(9) == 0x8000_0000_0000_0000;
    VarintLowerBound(t.created as nat, 9);
  }
}
