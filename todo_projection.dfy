/**
 * How a list document's entry log becomes the list of todos the user sees:
 * last-write-wins per key, content resolution with a placeholder for content
 * that is not available, tombstone exclusion.
 */
module TodoProjection {
  import opened Results
  import opened Wire
  import opened Utf8
  import opened DocStore
  import opened TodoRecord

  /**
   * One step of the `get_todos` scan: the entry replaces the one kept for its
   * key only when there is none or its timestamp is strictly greater.
   */
  function Step(m: map<Bytes, Entry>, e: Entry): map<Bytes, Entry> {
    if e.key in m && e.timestamp <= m[e.key].timestamp then m else m[e.key := e]
  }

  /** The fold of the whole scan: for each key, the entry it keeps. */
  function Latest(es: seq<Entry>): (m: map<Bytes, Entry>)
    ensures forall k :: k in m ==> m[k].key == k && m[k] in es
  {
    if es == [] then map[]
    else
      var init := es[..|es| - 1];
      assert es == init + [es[|es| - 1]];
      Step(Latest(init), es[|es| - 1])
  }

  /** Scanning one more entry is one more step of the fold. */
  lemma LatestSnoc(es: seq<Entry>, e: Entry)
    ensures Latest(es + [e]) == Step(Latest(es), e)
  {
    assert (es + [e])[..|es|] == es;
  }

  /** Every key that occurs in the scan has an entry in the fold. */
  lemma {:induction false} LatestCoversKeys(es: seq<Entry>)
    ensures forall i :: 0 <= i < |es| ==> es[i].key in Latest(es)
  {
    if es != [] {
      var init := es[..|es| - 1];
      LatestCoversKeys(init);
      assert Latest(es) == Step(Latest(init), es[|es| - 1]);
      forall i | 0 <= i < |es| - 1 ensures es[i].key in Latest(es) {
        assert init[i] == es[i];
      }
    }
  }

  /** `es[j]` has key `k`, no entry under `k` is newer, and every earlier one under `k` is strictly older. */
  ghost predicate FirstNewest(es: seq<Entry>, k: Bytes, j: int) {
    && 0 <= j < |es|
    && es[j].key == k
    && (forall i :: 0 <= i < |es| && es[i].key == k ==> es[i].timestamp <= es[j].timestamp)
    && (forall i :: 0 <= i < j && es[i].key == k ==> es[i].timestamp < es[j].timestamp)
  }

  /** A key has at most one first newest entry. */
  lemma FirstNewestUnique(es: seq<Entry>, k: Bytes, j1: int, j2: int)
    requires FirstNewest(es, k, j1) && FirstNewest(es, k, j2)
    ensures j1 == j2
  {
  }

  /** An appended entry that does not beat the first newest entry under `k` leaves it the first newest. */
  lemma {:induction false} KeepFirstNewest(es: seq<Entry>, e: Entry, k: Bytes, j: int)
    requires FirstNewest(es, k, j)
    requires e.key != k || e.timestamp <= es[j].timestamp
    ensures FirstNewest(es + [e], k, j)
  {
    var s := es + [e];
    forall i | 0 <= i < |s| && s[i].key == k ensures s[i].timestamp <= s[j].timestamp {
      if i < |es| {
        assert s[i] == es[i];
      }
    }
  }

  /** An appended entry strictly newer than the first newest entry under its key becomes the first newest. */
  lemma {:induction false} ReplaceFirstNewest(es: seq<Entry>, e: Entry, j: int)
    requires FirstNewest(es, e.key, j) && e.timestamp > es[j].timestamp
    ensures FirstNewest(es + [e], e.key, |es|)
  {
    var s := es + [e];
    forall i | 0 <= i < |s| && s[i].key == e.key
      ensures s[i].timestamp <= e.timestamp
      ensures i < |es| ==> s[i].timestamp < e.timestamp
    {
      if i < |es| {
        assert s[i] == es[i];
      }
    }
  }

  /** The first entry under a key is its first newest entry so far. */
  lemma {:induction false} NewKeyFirstNewest(es: seq<Entry>, e: Entry)
    requires forall i :: 0 <= i < |es| ==> es[i].key != e.key
    ensures FirstNewest(es + [e], e.key, |es|)
  {
    var s := es + [e];
    forall i | 0 <= i < |es| ensures s[i].key != e.key {
      assert s[i] == es[i];
    }
  }

  /** Last-write-wins: the entry kept for a key is the first of its newest entries. */
  lemma {:induction false} LatestIsFirstNewest(es: seq<Entry>, k: Bytes)
    requires k in Latest(es)
    ensures exists j :: FirstNewest(es, k, j) && es[j] == Latest(es)[k]
  {
    var n := |es|;
    var init := es[..n - 1];
    var e := es[n - 1];
    assert es == init + [e];
    var m := Latest(init);
    assert Latest(es) == Step(m, e);
    if k in m {
      LatestIsFirstNewest(init, k);
      var j :| FirstNewest(init, k, j) && init[j] == m[k];
      if e.key == k && e.timestamp > m[k].timestamp {
        ReplaceFirstNewest(init, e, j);
        assert es[n - 1] == Latest(es)[k];
      } else {
        KeepFirstNewest(init, e, k, j);
        assert es[j] == Latest(es)[k];
      }
    } else {
      LatestCoversKeys(init);
      NewKeyFirstNewest(init, e);
      assert es[n - 1] == Latest(es)[k];
    }
  }

  /** A key has an entry in the fold exactly when some entry carries it. */
  lemma {:induction false} LatestDomain(es: seq<Entry>, k: Bytes)
    ensures k in Latest(es) <==> exists i :: 0 <= i < |es| && es[i].key == k
  {
    LatestCoversKeys(es);
    if k in Latest(es) {
      LatestIsFirstNewest(es, k);
    }
  }

  /**
   * The outcome does not depend on scan order when one entry is strictly newer
   * than every other entry under its key: that entry wins.
   */
  lemma {:induction false} StrictlyNewestWins(es: seq<Entry>, j: int)
    requires 0 <= j < |es|
    requires forall i :: 0 <= i < |es| && i != j && es[i].key == es[j].key ==> es[i].timestamp < es[j].timestamp
    ensures es[j].key in Latest(es) && Latest(es)[es[j].key] == es[j]
  {
    LatestCoversKeys(es);
    var k := es[j].key;
    LatestIsFirstNewest(es, k);
    var w :| FirstNewest(es, k, w) && es[w] == Latest(es)[k];
    if w != j {
      assert es[w].timestamp < es[j].timestamp;
    }
  }

  /** Appending an entry newer than every entry under its key makes it the winner; other keys are untouched. */
  lemma {:induction false} NewerWriteWins(es: seq<Entry>, e: Entry)
    requires forall i :: 0 <= i < |es| && es[i].key == e.key ==> es[i].timestamp < e.timestamp
    ensures Latest(es + [e])[e.key] == e
    ensures forall k :: k != e.key ==> (k in Latest(es + [e]) <==> k in Latest(es))
    ensures forall k :: k != e.key && k in Latest(es) ==> Latest(es + [e])[k] == Latest(es)[k]
  {
    var s := es + [e];
    assert s[..|s| - 1] == es;
    if e.key in Latest(es) {
      var w := Latest(es)[e.key];
      assert w in es;
      var i :| 0 <= i < |es| && es[i] == w;
    }
  }

  function Lookup(m: map<Bytes, Entry>, k: Bytes): Option<Entry> {
    if k in m then Some(m[k]) else None
  }

  /** What a step keeps under `k` depends only on what was kept under `k` before. */
  lemma {:induction false} StepAt(m1: map<Bytes, Entry>, m2: map<Bytes, Entry>, e: Entry, k: Bytes)
    requires Lookup(m1, k) == Lookup(m2, k)
    ensures Lookup(Step(m1, e), k) == Lookup(Step(m2, e), k)
  {
  }

  /** Restricting the scan to a key prefix does not change the winner of any key under that prefix. */
  lemma {:induction false} LatestUnderPrefix(es: seq<Entry>, p: Bytes, k: Bytes)
    requires HasPrefix(p, k)
    ensures Lookup(Latest(WithPrefix(es, p)), k) == Lookup(Latest(es), k)
  {
    if es != [] {
      var init := es[..|es| - 1];
      var e := es[|es| - 1];
      LatestUnderPrefix(init, p, k);
      assert Latest(es) == Step(Latest(init), e);
      var fi := WithPrefix(init, p);
      if HasPrefix(p, e.key) {
        var f := fi + [e];
        assert WithPrefix(es, p) == f;
        assert f[..|f| - 1] == fi;
        assert Latest(f) == Step(Latest(fi), e);
        StepAt(Latest(fi), Latest(init), e, k);
      } else {
        assert WithPrefix(es, p) == fi;
        assert e.key != k;
        assert Lookup(Latest(es), k) == Lookup(Latest(init), k);
      }
    }
  }

  /**
   * `todo_from_entry`: the id is the key with the prefix stripped (the key must
   * be UTF-8); fetched content is decoded, and a failed fetch yields the
   * placeholder for that id instead of an error.
   */
  function TodoFromEntry(e: Entry, blobs: set<Bytes>): (r: Result<Todo, Error>)
    requires HasPrefix(TODO_PREFIX, e.key)
    ensures !IsUtf8(e.key) ==> r == Err(KeyNotUtf8)
    ensures IsUtf8(e.key) && e.content !in blobs ==>
      r.Ok? && TodoKey(r.value.id) == e.key && r.value == MissingTodo(r.value.id)
    ensures IsUtf8(e.key) && e.content in blobs ==> r == FromBytes(e.content)
  {
    if !IsUtf8(e.key) then Err(KeyNotUtf8)
    else match FetchContent(e, blobs)
      case Some(b) => FromBytes(b)
      case None =>
        assert e.key == TODO_PREFIX + e.key[|TODO_PREFIX|..];
        AsciiPrefix(TODO_PREFIX, e.key[|TODO_PREFIX|..]);
        Ok(MissingTodo(e.key[|TODO_PREFIX|..]))
  }

  /** Reading back an entry written for todo `t` whose content is available yields `t`. */
  lemma {:induction false} ReadBackWritten(t: Todo, e: Entry, blobs: set<Bytes>)
    requires AsBytes(t).Ok? && e == Entry(TodoKey(t.id), e.author, e.timestamp, AsBytes(t).value)
    requires e.content in blobs
    ensures TodoFromEntry(e, blobs) == Ok(t)
  {
  }

  /** `get_todo`: the winning entry for the todo's key, resolved; an error when the key has no entry. */
  function GetTodo(doc: Document, blobs: set<Bytes>, id: Str): (r: Result<Todo, Error>)
    ensures r == Err(NoEntry) <==> forall i :: 0 <= i < |doc.entries| ==> doc.entries[i].key != TodoKey(id)
    ensures r != Err(NoEntry) ==> exists j :: FirstNewest(doc.entries, TodoKey(id), j) && r == TodoFromEntry(doc.entries[j], blobs)
  {
    var m := Latest(doc.entries);
    var k := TodoKey(id);
    LatestDomain(doc.entries, k);
    if k !in m then Err(NoEntry)
    else
      LatestIsFirstNewest(doc.entries, k);
      assert TodoFromEntry(m[k], blobs) != Err(NoEntry);
      TodoFromEntry(m[k], blobs)
  }

  predicate UnderTodoPrefix(ws: seq<Entry>) {
    forall i :: 0 <= i < |ws| ==> HasPrefix(TODO_PREFIX, ws[i].key)
  }

  /** What each entry of `ws` resolves to, in order. */
  function Resolutions(ws: seq<Entry>, blobs: set<Bytes>): (rs: seq<Result<Todo, Error>>)
    requires UnderTodoPrefix(ws)
    ensures |rs| == |ws| && forall i :: 0 <= i < |ws| ==> rs[i] == TodoFromEntry(ws[i], blobs)
  {
    seq(|ws|, i requires 0 <= i < |ws| => TodoFromEntry(ws[i], blobs))
  }

  /**
   * The second half of `get_todos`, over the resolutions of the winning
   * entries in the order it visits them: tombstoned todos are skipped, and
   * the first entry that failed to resolve aborts the listing with its error.
   */
  function Collect(rs: seq<Result<Todo, Error>>): Result<seq<Todo>, Error> {
    if rs == [] then Ok([])
    else
      match Collect(rs[..|rs| - 1])
      case Err(e) => Err(e)
      case Ok(ts) =>
        match rs[|rs| - 1]
        case Err(e) => Err(e)
        case Ok(t) => if t.isDelete then Ok(ts) else Ok(ts + [t])
  }

  /** The listing succeeds exactly when every entry resolves; otherwise it fails with the error of the first that does not. */
  lemma {:induction false} CollectOutcome(rs: seq<Result<Todo, Error>>)
    ensures Collect(rs).Ok? <==> forall i :: 0 <= i < |rs| ==> rs[i].Ok?
    ensures Collect(rs).Err? ==> exists i :: 0 <= i < |rs| && rs[i] == Err(Collect(rs).error)
                                   && forall j :: 0 <= j < i ==> rs[j].Ok?
  {
    if rs != [] {
      var n := |rs| - 1;
      var init := rs[..n];
      assert forall i :: 0 <= i < n ==> init[i] == rs[i];
      CollectOutcome(init);
      if Collect(init).Err? {
        var i :| 0 <= i < n && init[i] == Err(Collect(init).error) && forall j :: 0 <= j < i ==> init[j].Ok?;
        assert rs[i] == Err(Collect(rs).error);
      }
    }
  }

  /** Visiting one more entry after a successful prefix: its error ends the listing, its live todo is appended. */
  lemma CollectStep(rs: seq<Result<Todo, Error>>, i: nat)
    requires i < |rs| && Collect(rs[..i]).Ok?
    ensures rs[i].Err? ==> Collect(rs[..i + 1]) == Err(rs[i].error)
    ensures rs[i].Ok? && rs[i].value.isDelete ==> Collect(rs[..i + 1]) == Collect(rs[..i])
    ensures rs[i].Ok? && !rs[i].value.isDelete ==> Collect(rs[..i + 1]) == Ok(Collect(rs[..i]).value + [rs[i].value])
  {
    assert rs[..i + 1][..i] == rs[..i];
  }

  /** An error on a prefix of the visiting order is the error of the whole listing. */
  lemma {:induction false} CollectPrefixErr(rs: seq<Result<Todo, Error>>, n: nat)
    requires n <= |rs| && Collect(rs[..n]).Err?
    ensures Collect(rs) == Collect(rs[..n])
    decreases |rs|
  {
    if n < |rs| {
      var m := |rs| - 1;
      assert rs[..m][..n] == rs[..n];
      CollectPrefixErr(rs[..m], n);
    } else {
      assert rs[..n] == rs;
    }
  }

  /**
   * What a successful listing holds: every todo in it is live and is what
   * one of the entries resolved to, and every entry that resolved to a live
   * todo contributes it.
   */
  lemma {:induction false} CollectLive(rs: seq<Result<Todo, Error>>)
    requires Collect(rs).Ok?
    ensures forall t :: t in Collect(rs).value ==> !t.isDelete && Ok(t) in rs
    ensures forall i :: 0 <= i < |rs| && rs[i].Ok? && !rs[i].value.isDelete ==> rs[i].value in Collect(rs).value
    ensures |Collect(rs).value| <= |rs|
  {
    if rs != [] {
      var n := |rs| - 1;
      var init := rs[..n];
      assert forall i :: 0 <= i < n ==> init[i] == rs[i];
      CollectLive(init);
      var ts := Collect(init).value;
      var r := Collect(rs).value;
      assert forall t :: t in ts ==> t in r;
      forall t | t in r ensures !t.isDelete && Ok(t) in rs {
        if t !in ts {
          assert rs[n] == Ok(t);
        } else {
          assert Ok(t) in init;
        }
      }
    }
  }
}
