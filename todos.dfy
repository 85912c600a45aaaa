/**
 * A todo list bound to one document of the store: its mutations, the
 * projection that lists its todos, and the registry of list names.
 */
module Todos {
  import opened Results
  import opened Wire
  import opened Utf8
  import opened DocStore
  import opened TodoRecord
  import opened TodoProjection
  import opened Sorting

  /** The sort key of `get_todos`. */
  function Created(t: Todo): int {
    t.created as int
  }

  predicate NoDuplicates(ks: seq<Bytes>) {
    forall a, b :: 0 <= a < b < |ks| ==> ks[a] != ks[b]
  }

  /** The document after `e` is appended to document `d`. */
  ghost function Appended(docs: seq<Document>, d: nat, e: Entry): seq<Document>
    requires d < |docs|
  {
    docs[d := Document(docs[d].entries + [e])]
  }

  /** How to open a list: create one under a new name, or open an existing one by name. */
  datatype TodosType = New(name: Str) | Open(name: Str)

  /** `get_list_name_from_doc`: the content of the newest entry under the list-name key. */
  function ListName(d: Document, blobs: set<Bytes>): Result<Str, Error> {
    var m := Latest(d.entries);
    if TODO_LIST_NAME !in m then Err(NoListName)
    else
      match FetchContent(m[TODO_LIST_NAME], blobs)
      case None => Err(NameUnavailable)
      case Some(b) => if IsUtf8(b) then Ok(b) else Err(NameNotUtf8)
  }

  /**
   * A document without an entry under the list-name key has no name (the
   * listing treats it as fatal); otherwise the name is the available,
   * well-formed content of the newest such entry, the first of the newest
   * when timestamps tie.
   */
  lemma {:induction false} ListNameSpec(d: Document, blobs: set<Bytes>)
    ensures ListName(d, blobs) == Err(NoListName) <==> forall i :: 0 <= i < |d.entries| ==> d.entries[i].key != TODO_LIST_NAME
    ensures ListName(d, blobs).Ok? ==>
      (exists j :: FirstNewest(d.entries, TODO_LIST_NAME, j)
        && d.entries[j].content == ListName(d, blobs).value && ListName(d, blobs).value in blobs)
    ensures forall j :: FirstNewest(d.entries, TODO_LIST_NAME, j) ==>
      ListName(d, blobs) ==
        if d.entries[j].content !in blobs then Err(NameUnavailable)
        else if IsUtf8(d.entries[j].content) then Ok(d.entries[j].content)
        else Err(NameNotUtf8)
  {
    LatestDomain(d.entries, TODO_LIST_NAME);
    if TODO_LIST_NAME in Latest(d.entries) {
      LatestIsFirstNewest(d.entries, TODO_LIST_NAME);
      var w :| FirstNewest(d.entries, TODO_LIST_NAME, w) && Latest(d.entries)[TODO_LIST_NAME] == d.entries[w];
      forall j | FirstNewest(d.entries, TODO_LIST_NAME, j)
        ensures j == w
      {
        FirstNewestUnique(d.entries, TODO_LIST_NAME, j, w);
      }
    }
  }

  /** The names of all documents in order; the first document without a readable name makes it fail with its error. */
  function ListNames(docs: seq<Document>, blobs: set<Bytes>): (r: Result<seq<Str>, Error>)
    ensures r.Ok? <==> forall i :: 0 <= i < |docs| ==> ListName(docs[i], blobs).Ok?
    ensures r.Ok? ==> |r.value| == |docs| && forall i :: 0 <= i < |docs| ==> r.value[i] == ListName(docs[i], blobs).value
  {
    if docs == [] then Ok([])
    else match ListName(docs[0], blobs)
      case Err(e) => Err(e)
      case Ok(n) =>
        assert forall i :: 1 <= i < |docs| ==> docs[i] == docs[1..][i - 1];
        match ListNames(docs[1..], blobs)
        case Err(e) => Err(e)
        case Ok(ns) => Ok([n] + ns)
  }

  /** A failed listing reports the error of the first document whose name is not readable. */
  lemma {:induction false} ListNamesFirstError(docs: seq<Document>, blobs: set<Bytes>)
    requires ListNames(docs, blobs).Err?
    ensures exists i :: 0 <= i < |docs| && ListName(docs[i], blobs) == Err(ListNames(docs, blobs).error)
                        && forall j :: 0 <= j < i ==> ListName(docs[j], blobs).Ok?
  {
    if ListName(docs[0], blobs).Ok? {
      var rest := docs[1..];
      assert ListNames(docs, blobs) == ListNames(rest, blobs);
      ListNamesFirstError(rest, blobs);
      var i :| 0 <= i < |rest| && ListName(rest[i], blobs) == Err(ListNames(rest, blobs).error)
               && forall j :: 0 <= j < i ==> ListName(rest[j], blobs).Ok?;
      assert docs[i + 1] == rest[i];
      forall j | 1 <= j < i + 1
        ensures ListName(docs[j], blobs).Ok?
      {
        assert docs[j] == rest[j - 1];
      }
    }
  }

  /** Listing one more document: its name is appended, or its error is the outcome. */
  lemma {:induction false} ListNamesSnoc(docs: seq<Document>, d: Document, blobs: set<Bytes>)
    requires ListNames(docs, blobs).Ok?
    ensures ListName(d, blobs).Err? ==> ListNames(docs + [d], blobs) == Err(ListName(d, blobs).error)
    ensures ListName(d, blobs).Ok? ==> ListNames(docs + [d], blobs) == Ok(ListNames(docs, blobs).value + [ListName(d, blobs).value])
  {
    var all := docs + [d];
    if docs != [] {
      assert all[0] == docs[0] && all[1..] == docs[1..] + [d];
      var n := ListName(docs[0], blobs).value;
      var ns := ListNames(docs[1..], blobs).value;
      assert ListNames(docs, blobs).value == [n] + ns;
      ListNamesSnoc(docs[1..], d, blobs);
      if ListName(d, blobs).Ok? {
        assert [n] + (ns + [ListName(d, blobs).value]) == ([n] + ns) + [ListName(d, blobs).value];
      }
    } else {
      assert all == [d] && all[1..] == [];
      if ListName(d, blobs).Ok? {
        assert [ListName(d, blobs).value] + [] == [] + [ListName(d, blobs).value];
      }
    }
  }

  /** Once a prefix of the documents fails, the whole listing fails with the same error. */
  lemma {:induction false} ListNamesPrefixErr(docs: seq<Document>, more: seq<Document>, blobs: set<Bytes>)
    requires ListNames(docs, blobs).Err?
    ensures ListNames(docs + more, blobs) == ListNames(docs, blobs)
  {
    var all := docs + more;
    assert all[0] == docs[0];
    var first := ListName(docs[0], blobs);
    if first.Ok? {
      assert all[1..] == docs[1..] + more;
      ListNamesPrefixErr(docs[1..], more, blobs);
      assert ListNames(all[1..], blobs) == ListNames(docs[1..], blobs);
    } else {
      assert ListNames(all, blobs) == Err(first.error);
    }
  }

  /** A name that was readable stays readable, and the same, when more content arrives. */
  lemma {:induction false} NameStable(d: Document, blobs: set<Bytes>, more: set<Bytes>)
    requires ListName(d, blobs).Ok?
    ensures ListName(d, blobs + more) == ListName(d, blobs)
  {
  }

  /** The same for the whole listing. */
  lemma {:induction false} NamesStable(docs: seq<Document>, blobs: set<Bytes>, more: set<Bytes>)
    requires ListNames(docs, blobs).Ok?
    ensures ListNames(docs, blobs + more) == ListNames(docs, blobs)
  {
    if docs != [] {
      NameStable(docs[0], blobs, more);
      assert forall i :: 1 <= i < |docs| ==> docs[i] == docs[1..][i - 1];
      NamesStable(docs[1..], blobs, more);
    }
  }

  /** A fresh document whose only entry is a well-formed name under the list-name key is named by it. */
  lemma {:induction false} CreatedDocName(e: Entry, blobs: set<Bytes>)
    requires e.key == TODO_LIST_NAME && IsUtf8(e.content) && e.content in blobs
    ensures ListName(Document([e]), blobs) == Ok(e.content)
  {
    assert [] + [e] == [e];
    LatestSnoc([], e);
  }

  /** After a list is created under `name`, the names of the documents are the old ones followed by `name`. */
  lemma {:induction false} CreatedListIsNamed(docs: seq<Document>, blobs: set<Bytes>, e: Entry)
    requires ListNames(docs, blobs).Ok?
    requires e.key == TODO_LIST_NAME && IsUtf8(e.content)
    ensures ListNames(docs + [Document([e])], blobs + {e.content}) == Ok(ListNames(docs, blobs).value + [e.content])
  {
    NamesStable(docs, blobs, {e.content});
    CreatedDocName(e, blobs + {e.content});
    ListNamesSnoc(docs, Document([e]), blobs + {e.content});
  }

  /** One step of the listing loop: the next document either extends the names or decides the outcome. */
  lemma {:induction false} ListingStep(all: seq<Document>, i: nat, blobs: set<Bytes>)
    requires i < |all| && ListNames(all[..i], blobs).Ok?
    ensures ListName(all[i], blobs).Err? ==> ListNames(all, blobs) == Err(ListName(all[i], blobs).error)
    ensures ListName(all[i], blobs).Ok? ==>
      ListNames(all[..i + 1], blobs) == Ok(ListNames(all[..i], blobs).value + [ListName(all[i], blobs).value])
  {
    assert all[..i + 1] == all[..i] + [all[i]];
    ListNamesSnoc(all[..i], all[i], blobs);
    if ListName(all[i], blobs).Err? {
      ListNamesPrefixErr(all[..i + 1], all[i + 1..], blobs);
      assert all[..i + 1] + all[i + 1..] == all;
    }
  }

  /** The loop's call of `get_list_name_from_doc` on document `i`, stated by what its result does to the listing. */
  method NextName(all: seq<Document>, i: nat, blobs: set<Bytes>) returns (name: Result<Str, Error>)
    requires i < |all| && ListNames(all[..i], blobs).Ok?
    ensures name.Err? ==> ListNames(all, blobs) == Err(name.error)
    ensures name.Ok? ==> ListNames(all[..i + 1], blobs) == Ok(ListNames(all[..i], blobs).value + [name.value])
  {
    ListingStep(all, i, blobs);
    name := ListName(all[i], blobs);
  }

  /** `get_todo_lists_docs`: every document with its name, in `list_docs` order; the first unreadable name aborts. */
  method GetTodoListsDocs(store: Store) returns (r: Result<seq<(Str, nat)>, Error>)
    ensures ListNames(store.docs, store.blobs).Err? ==> r == Err(ListNames(store.docs, store.blobs).error)
    ensures ListNames(store.docs, store.blobs).Ok? ==>
      && r.Ok? && |r.value| == |store.docs|
      && forall i :: 0 <= i < |r.value| ==> r.value[i] == (ListNames(store.docs, store.blobs).value[i], i)
  {
    var all := store.docs;
    var blobs := store.blobs;
    var names: seq<Str> := [];
    var i := 0;
    assert all[..0] == [];
    while i < |all|
      invariant 0 <= i <= |all| && |names| == i
      invariant ListNames(all[..i], blobs) == Ok(names)
    {
      var name := NextName(all, i, blobs);
      if name.Err? {
        return Err(name.error);
      }
      names := names + [name.value];
      i := i + 1;
    }
    assert all[..i] == all;
    var docs: seq<(Str, nat)> := seq(|names|, j requires 0 <= j < |names| => (names[j], j));
    return Ok(docs);
  }

  /** `get_todo_lists_names`: the names of all documents, in `list_docs` order. */
  method GetTodoListsNames(store: Store) returns (r: Result<seq<Str>, Error>)
    ensures r == ListNames(store.docs, store.blobs)
  {
    var docs := GetTodoListsDocs(store);
    if docs.Err? {
      return Err(docs.error);
    }
    var names := seq(|docs.value|, i requires 0 <= i < |docs.value| => docs.value[i].0);
    assert names == ListNames(store.docs, store.blobs).value;
    r := Ok(names);
  }

  /** First position of `name` in `names`. */
  function IndexOf(names: seq<Str>, name: Str): (r: Option<nat>)
    ensures r.Some? ==> r.value < |names| && names[r.value] == name
    ensures r.Some? ==> forall j :: 0 <= j < r.value ==> names[j] != name
    ensures r.None? ==> name !in names
  {
    if names == [] then None
    else if names[0] == name then Some(0)
    else match IndexOf(names[1..], name)
      case None => None
      case Some(i) => Some(i + 1)
  }

  class TodoList {
    const store: Store
    /** The document of this list, by position in the store. */
    const doc: nat
    const author: AuthorId
    const name: Option<Str>

    ghost predicate Valid()
      reads store
    {
      doc < |store.docs|
    }

    constructor (store: Store, doc: nat, author: AuthorId, name: Option<Str>)
      ensures this.store == store && this.doc == doc && this.author == author && this.name == name
    {
      this.store := store;
      this.doc := doc;
      this.author := author;
      this.name := name;
    }

    /**
     * `Todos::new` with `TodosType::New(name)`: refuses a name some document
     * already has; otherwise creates a document whose only entry is the name
     * under the list-name key, so that reading its name back yields `name`.
     */
    static method CreateNew(name: Str, store: Store, author: AuthorId, stamp: u64) returns (r: Result<TodoList, Error>)
      modifies store
      ensures var names := ListNames(old(store.docs), old(store.blobs));
        && (names.Err? ==> r == Err(names.error))
        && (names.Ok? && name in names.value ==> r == Err(ListExists))
        && (names.Ok? && name !in names.value ==>
             && r.Ok? && r.value.store == store && r.value.author == author
             && r.value.doc == |old(store.docs)| && r.value.name == Some(name)
             && store.docs == old(store.docs) + [Document([Entry(TODO_LIST_NAME, author, stamp, name)])]
             && store.blobs == old(store.blobs) + {name}
             && ListNames(store.docs, store.blobs) == Ok(names.value + [name]))
      ensures r.Err? ==> store.docs == old(store.docs) && store.blobs == old(store.blobs)
      ensures r.Ok? ==> r.value.Valid() && ListName(store.docs[r.value.doc], store.blobs) == Ok(name)
    {
      var names := GetTodoListsNames(store);
      if names.Err? {
        return Err(names.error);
      }
      if IndexOf(names.value, name).Some? {
        return Err(ListExists);
      }
      ghost var before := store.docs;
      var docId := store.CreateDoc();
      store.SetBytes(docId, author, TODO_LIST_NAME, name, stamp);
      ghost var e := Entry(TODO_LIST_NAME, author, stamp, name);
      assert [] + [e] == [e];
      assert store.docs == before + [Document([e])];
      CreatedListIsNamed(before, old(store.blobs), e);
      CreatedDocName(e, store.blobs);
      var list := new TodoList(store, docId, author, Some(name));
      return Ok(list);
    }

    /**
     * `Todos::new` with `TodosType::Open(name)`: the first document, in listing
     * order, whose name is `name`; an unknown name is refused. Nothing is written.
     */
    static method OpenExisting(name: Str, store: Store, author: AuthorId) returns (r: Result<TodoList, Error>)
      ensures var names := ListNames(store.docs, store.blobs);
        && (names.Err? ==> r == Err(names.error))
        && (names.Ok? && name !in names.value ==> r == Err(ListNotFound))
        && (names.Ok? && name in names.value ==>
             && r.Ok? && r.value.store == store && r.value.author == author
             && IndexOf(names.value, name) == Some(r.value.doc) && r.value.name == Some(name))
      ensures r.Ok? ==> r.value.Valid() && ListName(store.docs[r.value.doc], store.blobs) == Ok(name)
    {
      var docs := GetTodoListsDocs(store);
      if docs.Err? {
        return Err(docs.error);
      }
      var names := seq(|docs.value|, i requires 0 <= i < |docs.value| => docs.value[i].0);
      assert names == ListNames(store.docs, store.blobs).value;
      match IndexOf(names, name) {
        case None =>
          return Err(ListNotFound);
        case Some(i) =>
          var list := new TodoList(store, docs.value[i].1, author, Some(name));
          return Ok(list);
      }
    }

    /** `Todos::new` for the two kinds of list it creates or opens here. */
    static method Create(typ: TodosType, store: Store, author: AuthorId, stamp: u64) returns (r: Result<TodoList, Error>)
      modifies store
      ensures r.Ok? ==> r.value.store == store && r.value.author == author && r.value.Valid()
      ensures r.Ok? ==> r.value.name == Some(typ.name) && ListName(store.docs[r.value.doc], store.blobs) == Ok(typ.name)
      ensures r.Err? || typ.Open? ==> store.docs == old(store.docs) && store.blobs == old(store.blobs)
      ensures var names := ListNames(old(store.docs), old(store.blobs));
        && (names.Err? ==> r == Err(names.error))
        && (typ.New? && names.Ok? && typ.name in names.value ==> r == Err(ListExists))
        && (typ.New? && names.Ok? && typ.name !in names.value ==>
             && r.Ok? && r.value.doc == |old(store.docs)|
             && store.docs == old(store.docs) + [Document([Entry(TODO_LIST_NAME, author, stamp, typ.name)])]
             && store.blobs == old(store.blobs) + {typ.name}
             && ListNames(store.docs, store.blobs) == Ok(names.value + [typ.name]))
        && (typ.Open? && names.Ok? && typ.name !in names.value ==> r == Err(ListNotFound))
        && (typ.Open? && names.Ok? && typ.name in names.value ==> r.Ok? && IndexOf(names.value, typ.name) == Some(r.value.doc))
    {
      match typ {
        case New(name) =>
          r := CreateNew(name, store, author, stamp);
        case Open(name) =>
          r := OpenExisting(name, store, author);
      }
    }

    /** `insert_todo_bytes`: writes `content` under the key of todo `id`. */
    method InsertTodoBytes(id: Str, content: Bytes, stamp: u64)
      requires Valid()
      modifies store
      ensures Valid()
      ensures store.docs == Appended(old(store.docs), doc, Entry(TodoKey(id), author, stamp, content))
      ensures store.blobs == old(store.blobs) + {content}
    {
      store.SetBytes(doc, author, TodoKey(id), content, stamp);
    }

    /** `update_todo`: encodes `t` and writes it under the key of todo `id`. */
    method UpdateTodo(id: Str, t: Todo, stamp: u64) returns (r: Result<(), Error>)
      requires Valid()
      modifies store
      ensures Valid()
      ensures r.Ok? <==> AsBytes(t).Ok?
      ensures r.Err? ==> r.error == SerializeBufferFull && store.docs == old(store.docs) && store.blobs == old(store.blobs)
      ensures r.Ok? ==> store.docs == Appended(old(store.docs), doc, Entry(TodoKey(id), author, stamp, AsBytes(t).value))
      ensures r.Ok? ==> store.blobs == old(store.blobs) + {AsBytes(t).value}
    {
      var content := AsBytes(t);
      if content.Err? {
        return Err(content.error);
      }
      InsertTodoBytes(id, content.value, stamp);
      return Ok(());
    }

    /** `add`: refuses a label over 2000 bytes, else writes a new, not done, not deleted todo created at `now`. */
    method Add(id: Str, labelText: Str, now: u64, stamp: u64) returns (r: Result<(), Error>)
      requires Valid()
      modifies store
      ensures Valid()
      ensures !AddAcceptsLabel(labelText) ==> r == Err(LabelTooLong)
      ensures AddAcceptsLabel(labelText) ==> (r.Ok? <==> AsBytes(Todo(labelText, now, false, false, id)).Ok?)
      ensures r.Err? ==> store.docs == old(store.docs) && store.blobs == old(store.blobs)
      ensures r.Ok? ==> var content := AsBytes(Todo(labelText, now, false, false, id)).value;
        store.docs == Appended(old(store.docs), doc, Entry(TodoKey(id), author, stamp, content))
        && store.blobs == old(store.blobs) + {content}
    {
      if |labelText| > MAX_LABEL_LEN {
        return Err(LabelTooLong);
      }
      var t := Todo(labelText, now, false, false, id);
      r := UpdateTodo(id, t, stamp);
    }

    /** `toggle_done`: re-writes the current todo with only `done` flipped. */
    method ToggleDone(id: Str, stamp: u64) returns (r: Result<(), Error>)
      requires Valid()
      modifies store
      ensures Valid()
      ensures var cur := GetTodo(old(store.docs)[doc], old(store.blobs), id);
        && (cur.Err? ==> r == Err(cur.error))
        && (cur.Ok? ==> var t := cur.value.(done := !cur.value.done);
             && (r.Ok? <==> AsBytes(t).Ok?)
             && (r.Ok? ==> store.docs == Appended(old(store.docs), doc, Entry(TodoKey(id), author, stamp, AsBytes(t).value)))
             && (r.Ok? ==> store.blobs == old(store.blobs) + {AsBytes(t).value}))
      ensures r.Err? ==> store.docs == old(store.docs) && store.blobs == old(store.blobs)
    {
      var cur := GetTodo(store.docs[doc], store.blobs, id);
      if cur.Err? {
        return Err(cur.error);
      }
      var t := cur.value.(done := !cur.value.done);
      r := UpdateTodo(id, t, stamp);
    }

    /** `delete`: re-writes the current todo with only `is_delete` set: a tombstone. */
    method Delete(id: Str, stamp: u64) returns (r: Result<(), Error>)
      requires Valid()
      modifies store
      ensures Valid()
      ensures var cur := GetTodo(old(store.docs)[doc], old(store.blobs), id);
        && (cur.Err? ==> r == Err(cur.error))
        && (cur.Ok? ==> var t := cur.value.(isDelete := true);
             && (r.Ok? <==> AsBytes(t).Ok?)
             && (r.Ok? ==> store.docs == Appended(old(store.docs), doc, Entry(TodoKey(id), author, stamp, AsBytes(t).value)))
             && (r.Ok? ==> store.blobs == old(store.blobs) + {AsBytes(t).value}))
      ensures r.Err? ==> store.docs == old(store.docs) && store.blobs == old(store.blobs)
    {
      var cur := GetTodo(store.docs[doc], store.blobs, id);
      if cur.Err? {
        return Err(cur.error);
      }
      var t := cur.value.(isDelete := true);
      r := UpdateTodo(id, t, stamp);
    }

    /** `update`: refuses a label of 2000 bytes or more, else re-writes the current todo with only the label replaced. */
    method Update(id: Str, labelText: Str, stamp: u64) returns (r: Result<(), Error>)
      requires Valid()
      modifies store
      ensures Valid()
      ensures !UpdateAcceptsLabel(labelText) ==> r == Err(LabelTooLong)
      ensures var cur := GetTodo(old(store.docs)[doc], old(store.blobs), id);
        UpdateAcceptsLabel(labelText) ==>
        && (cur.Err? ==> r == Err(cur.error))
        && (cur.Ok? ==> var t := cur.value.(labelText := labelText);
             && (r.Ok? <==> AsBytes(t).Ok?)
             && (r.Ok? ==> store.docs == Appended(old(store.docs), doc, Entry(TodoKey(id), author, stamp, AsBytes(t).value)))
             && (r.Ok? ==> store.blobs == old(store.blobs) + {AsBytes(t).value}))
      ensures r.Err? ==> store.docs == old(store.docs) && store.blobs == old(store.blobs)
    {
      if |labelText| >= MAX_LABEL_LEN {
        return Err(LabelTooLong);
      }
      var cur := GetTodo(store.docs[doc], store.blobs, id);
      if cur.Err? {
        return Err(cur.error);
      }
      var t := cur.value.(labelText := labelText);
      r := UpdateTodo(id, t, stamp);
    }

    /**
     * `get_todos`: the winner of every key under the todo prefix, visited in
     * the hash map's (unspecified) order `keys`, resolved; tombstoned todos
     * dropped; the rest stably sorted by creation time. The first winner that
     * fails to resolve aborts the listing.
     */
    method GetTodos() returns (r: Result<seq<Todo>, Error>, ghost keys: seq<Bytes>)
      requires Valid()
      ensures var m := Latest(WithPrefix(store.docs[doc].entries, TODO_PREFIX));
        && Enumerates(m, keys)
        && var c := Collect(Resolutions(ValuesAt(m, keys), store.blobs));
           && (c.Err? ==> r == Err(c.error))
           && (c.Ok? ==> r == Ok(SortBy(c.value, Created)))
      ensures r.Ok? ==> SortedBy(r.value, Created) && forall i :: 0 <= i < |r.value| ==> !r.value[i].isDelete
    {
      var query := WithPrefix(store.docs[doc].entries, TODO_PREFIX);
      var latest := LatestEntries(query);
      var winners;
      winners, keys := Winners(latest);
      PrefixWinners(store.docs[doc].entries, TODO_PREFIX);
      ValuesUnderPrefix(latest, keys);
      var todos := ResolveAll(winners, store.blobs);
      if todos.Err? {
        return Err(todos.error), keys;
      }
      CollectLive(Resolutions(winners, store.blobs));
      SortLive(todos.value);
      return Ok(SortBy(todos.value, Created)), keys;
    }
  }

  /** Sorting live todos yields them in creation order, all of them and only them, still live. */
  lemma {:induction false} SortLive(todos: seq<Todo>)
    requires forall t :: t in todos ==> !t.isDelete
    ensures SortedBy(SortBy(todos, Created), Created)
    ensures multiset(SortBy(todos, Created)) == multiset(todos)
    ensures forall i :: 0 <= i < |SortBy(todos, Created)| ==> !SortBy(todos, Created)[i].isDelete
  {
    var sorted := SortBy(todos, Created);
    SortBySortsAndPermutes(todos, Created);
    forall j | 0 <= j < |sorted| ensures !sorted[j].isDelete {
      assert sorted[j] in multiset(todos);
    }
  }

  /** The scan of `get_todos` over the entries under the todo prefix: one winner per key. */
  method LatestEntries(query: seq<Entry>) returns (latest: map<Bytes, Entry>)
    ensures latest == Latest(query)
  {
    latest := map[];
    var i := 0;
    while i < |query|
      invariant 0 <= i <= |query|
      invariant latest == Latest(query[..i])
    {
      var e := query[i];
      assert query[..i + 1] == query[..i] + [e];
      LatestSnoc(query[..i], e);
      if e.key in latest {
        if e.timestamp > latest[e.key].timestamp {
          latest := latest[e.key := e];
        }
      } else {
        latest := latest[e.key := e];
      }
      i := i + 1;
    }
    assert query[..i] == query;
  }

  /** `keys` visits every key of `m` exactly once. */
  ghost predicate Enumerates(m: map<Bytes, Entry>, keys: seq<Bytes>) {
    && NoDuplicates(keys)
    && (forall i :: 0 <= i < |keys| ==> keys[i] in m)
    && (forall k :: k in m ==> k in keys)
  }

  /** The entries of `m` under `keys`, in that order. */
  function ValuesAt(m: map<Bytes, Entry>, keys: seq<Bytes>): (ws: seq<Entry>)
    requires forall i :: 0 <= i < |keys| ==> keys[i] in m
    ensures |ws| == |keys| && forall i :: 0 <= i < |keys| ==> ws[i] == m[keys[i]]
  {
    seq(|keys|, i requires 0 <= i < |keys| => m[keys[i]])
  }

  /** `HashMap::values`: every entry of `m` once, in an order the map does not specify. */
  method Winners(m: map<Bytes, Entry>) returns (ws: seq<Entry>, ghost keys: seq<Bytes>)
    ensures Enumerates(m, keys) && ws == ValuesAt(m, keys)
  {
    ws := [];
    keys := [];
    var rest := m.Keys;
    while rest != {}
      invariant rest <= m.Keys && |ws| == |keys|
      invariant forall i :: 0 <= i < |keys| ==> keys[i] in m && keys[i] !in rest && ws[i] == m[keys[i]]
      invariant forall k :: k in m && k !in rest ==> k in keys
      invariant NoDuplicates(keys)
      decreases rest
    {
      var k :| k in rest;
      ws := ws + [m[k]];
      keys := keys + [k];
      rest := rest - {k};
    }
  }

  /** The winners of a scan under a prefix all carry keys under that prefix. */
  lemma {:induction false} PrefixWinners(es: seq<Entry>, p: Bytes)
    ensures forall k :: k in Latest(WithPrefix(es, p)) ==> HasPrefix(p, Latest(WithPrefix(es, p))[k].key)
  {
    var query := WithPrefix(es, p);
    forall k | k in Latest(query) ensures HasPrefix(p, Latest(query)[k].key) {
      var j :| 0 <= j < |query| && query[j] == Latest(query)[k];
    }
  }

  /** The second half of `get_todos`: resolves the winners in the order given, as `Collect` describes. */
  method ResolveAll(ws: seq<Entry>, blobs: set<Bytes>) returns (r: Result<seq<Todo>, Error>)
    requires UnderTodoPrefix(ws)
    ensures r == Collect(Resolutions(ws, blobs))
  {
    ghost var rs := Resolutions(ws, blobs);
    var todos: seq<Todo> := [];
    var i := 0;
    while i < |ws|
      invariant 0 <= i <= |ws|
      invariant Collect(rs[..i]) == Ok(todos)
    {
      var t := TodoFromEntry(ws[i], blobs);
      assert rs[i] == t;
      CollectStep(rs, i);
      if t.Err? {
        CollectPrefixErr(rs, i + 1);
        return Err(t.error);
      }
      if !t.value.isDelete {
        todos := todos + [t.value];
      }
      i := i + 1;
    }
    assert rs[..i] == rs;
    return Ok(todos);
  }

  /** Where `keys` visits key `k`. */
  lemma {:induction false} KeyIndex(m: map<Bytes, Entry>, keys: seq<Bytes>, k: Bytes) returns (i: nat)
    requires Enumerates(m, keys) && k in m
    ensures i < |keys| && keys[i] == k
  {
    i :| 0 <= i < |keys| && keys[i] == k;
  }

  /** The winners of a map whose entries all lie under the todo prefix, in any visiting order. */
  lemma {:induction false} ValuesUnderPrefix(m: map<Bytes, Entry>, keys: seq<Bytes>)
    requires Enumerates(m, keys) && forall k :: k in m ==> HasPrefix(TODO_PREFIX, m[k].key)
    ensures UnderTodoPrefix(ValuesAt(m, keys))
  {
  }

  /**
   * Whatever order the winners are visited in, the listing succeeds exactly
   * when every winner resolves; only which error is reported depends on
   * the order.
   */
  lemma {:induction false} ListingSucceeds(m: map<Bytes, Entry>, keys: seq<Bytes>, blobs: set<Bytes>)
    requires Enumerates(m, keys) && forall k :: k in m ==> HasPrefix(TODO_PREFIX, m[k].key)
    ensures UnderTodoPrefix(ValuesAt(m, keys))
    ensures Collect(Resolutions(ValuesAt(m, keys), blobs)).Ok? <==> forall k :: k in m ==> TodoFromEntry(m[k], blobs).Ok?
  {
    var rs := Resolutions(ValuesAt(m, keys), blobs);
    CollectOutcome(rs);
    if forall i :: 0 <= i < |rs| ==> rs[i].Ok? {
      forall k | k in m ensures TodoFromEntry(m[k], blobs).Ok? {
        var i := KeyIndex(m, keys, k);
        assert rs[i] == TodoFromEntry(m[k], blobs);
      }
    }
  }

  /** Whatever the visiting order, a successful listing holds the todo of every live winner. */
  lemma {:induction false} ListingHasLive(m: map<Bytes, Entry>, keys: seq<Bytes>, blobs: set<Bytes>, k: Bytes)
    requires Enumerates(m, keys) && forall k :: k in m ==> HasPrefix(TODO_PREFIX, m[k].key)
    requires UnderTodoPrefix(ValuesAt(m, keys)) && Collect(Resolutions(ValuesAt(m, keys), blobs)).Ok?
    requires k in m && TodoFromEntry(m[k], blobs).Ok? && !TodoFromEntry(m[k], blobs).value.isDelete
    ensures TodoFromEntry(m[k], blobs).value in Collect(Resolutions(ValuesAt(m, keys), blobs)).value
  {
    var rs := Resolutions(ValuesAt(m, keys), blobs);
    CollectLive(rs);
    var i := KeyIndex(m, keys, k);
    assert rs[i] == TodoFromEntry(m[k], blobs);
  }

  /** Whatever the visiting order, every todo of a successful listing is live and is the todo of some winner. */
  lemma {:induction false} ListingOnlyLive(m: map<Bytes, Entry>, keys: seq<Bytes>, blobs: set<Bytes>, t: Todo)
    requires Enumerates(m, keys) && forall k :: k in m ==> HasPrefix(TODO_PREFIX, m[k].key)
    requires UnderTodoPrefix(ValuesAt(m, keys)) && Collect(Resolutions(ValuesAt(m, keys), blobs)).Ok?
    requires t in Collect(Resolutions(ValuesAt(m, keys), blobs)).value
    ensures !t.isDelete && exists k :: k in m && TodoFromEntry(m[k], blobs) == Ok(t)
  {
    var rs := Resolutions(ValuesAt(m, keys), blobs);
    CollectLive(rs);
    var i :| 0 <= i < |rs| && rs[i] == Ok(t);
    assert TodoFromEntry(m[keys[i]], blobs) == Ok(t);
  }

  /** Reading a todo back after writing it with a timestamp newer than every earlier write under its key yields it. */
  lemma {:induction false} WriteThenGet(es: seq<Entry>, e: Entry, t: Todo, blobs: set<Bytes>)
    requires AsBytes(t).Ok? && e.key == TodoKey(t.id) && e.content == AsBytes(t).value && e.content in blobs
    requires forall i :: 0 <= i < |es| && es[i].key == e.key ==> es[i].timestamp < e.timestamp
    ensures GetTodo(Document(es + [e]), blobs, t.id) == Ok(t)
  {
    NewerWriteWins(es, e);
    ReadBackWritten(t, e, blobs);
  }

  /** The winner under the written todo's key is the write, whichever prefix query finds it. */
  lemma {:induction false} WrittenWinsListing(es: seq<Entry>, e: Entry, t: Todo, blobs: set<Bytes>)
    requires AsBytes(t).Ok? && e.key == TodoKey(t.id) && e.content == AsBytes(t).value && e.content in blobs
    requires forall i :: 0 <= i < |es| && es[i].key == e.key ==> es[i].timestamp < e.timestamp
    ensures var m := Latest(WithPrefix(es + [e], TODO_PREFIX));
      e.key in m && m[e.key] == e && TodoFromEntry(m[e.key], blobs) == Ok(t)
  {
    NewerWriteWins(es, e);
    LatestUnderPrefix(es + [e], TODO_PREFIX, e.key);
    ReadBackWritten(t, e, blobs);
  }

  /**
   * A live todo written with the newest timestamp under its key is in every
   * successful listing of the document; written as a tombstone, its key's
   * winner resolves to a deleted todo, which the listing skips.
   */
  lemma {:induction false} ListedAfterWrite(es: seq<Entry>, e: Entry, t: Todo, blobs: set<Bytes>, m: map<Bytes, Entry>, keys: seq<Bytes>)
    requires AsBytes(t).Ok? && e.key == TodoKey(t.id) && e.content == AsBytes(t).value && e.content in blobs
    requires forall i :: 0 <= i < |es| && es[i].key == e.key ==> es[i].timestamp < e.timestamp
    requires !t.isDelete
    requires m == Latest(WithPrefix(es + [e], TODO_PREFIX)) && Enumerates(m, keys)
    requires UnderTodoPrefix(ValuesAt(m, keys)) && Collect(Resolutions(ValuesAt(m, keys), blobs)).Ok?
    ensures t in Collect(Resolutions(ValuesAt(m, keys), blobs)).value
  {
    WrittenWinsListing(es, e, t, blobs);
    PrefixWinners(es + [e], TODO_PREFIX);
    ListingHasLive(m, keys, blobs, e.key);
  }
}
