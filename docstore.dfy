/**
 * The document store the lists live in, seen from this layer: each document is
 * an append-only log of signed entries, and entry contents live in a blob
 * store that may not hold them yet (content not yet replicated). Content
 * hashes are modelled by the content itself, so fetching an entry's content
 * succeeds exactly when that content is present locally.
 */
module DocStore {
  import opened Results
  import opened Wire

  type AuthorId = nat

  /** A signed entry: key, author, timestamp and the content it refers to. */
  datatype Entry = Entry(key: Bytes, author: AuthorId, timestamp: u64, content: Bytes)

  datatype Document = Document(entries: seq<Entry>)

  /** `get_content_bytes`: fails when the content is not in the local blob store. */
  function FetchContent(e: Entry, blobs: set<Bytes>): (r: Option<Bytes>)
    ensures r.Some? <==> e.content in blobs
    ensures r.Some? ==> r.value == e.content
  {
    if e.content in blobs then Some(e.content) else None
  }

  /** A query with `KeyFilter::Prefix`: the entries whose key starts with `p`, in log order. */
  function WithPrefix(es: seq<Entry>, p: Bytes): (r: seq<Entry>)
    ensures |r| <= |es|
    ensures forall i :: 0 <= i < |r| ==> HasPrefix(p, r[i].key)
    ensures forall e :: e in r <==> e in es && HasPrefix(p, e.key)
  {
    if es == [] then []
    else
      var init := WithPrefix(es[..|es| - 1], p);
      var e := es[|es| - 1];
      assert es == es[..|es| - 1] + [e];
      if HasPrefix(p, e.key) then init + [e] else init
  }

  /** The positions in the log of the entries whose key starts with `p`, in log order. */
  ghost function PrefixPositions(es: seq<Entry>, p: Bytes): seq<nat> {
    if es == [] then []
    else
      var pre := PrefixPositions(es[..|es| - 1], p);
      if HasPrefix(p, es[|es| - 1].key) then pre + [|es| - 1] else pre
  }

  /** The `k`-th entry of a prefix query is the log entry at the `k`-th position. */
  lemma {:induction false} PositionsIndex(es: seq<Entry>, p: Bytes)
    ensures |PrefixPositions(es, p)| == |WithPrefix(es, p)|
    ensures forall k :: 0 <= k < |PrefixPositions(es, p)| ==>
      PrefixPositions(es, p)[k] < |es| && WithPrefix(es, p)[k] == es[PrefixPositions(es, p)[k]]
  {
    if es != [] {
      var n := |es| - 1;
      var init, e := es[..n], es[n];
      PositionsIndex(init, p);
      var pre, ri := PrefixPositions(init, p), WithPrefix(init, p);
      var pos, r := PrefixPositions(es, p), WithPrefix(es, p);
      assert r == if HasPrefix(p, e.key) then ri + [e] else ri;
      assert pos == if HasPrefix(p, e.key) then pre + [n] else pre;
      forall k | 0 <= k < |pos|
        ensures pos[k] < |es| && r[k] == es[pos[k]]
      {
        if k < |pre| {
          assert pos[k] == pre[k] && r[k] == ri[k];
          assert es[pre[k]] == init[pre[k]];
        } else {
          assert pos[k] == n && r[k] == e;
        }
      }
    }
  }

  /** The positions of a prefix query are strictly increasing log positions. */
  lemma {:induction false} PositionsIncreasing(es: seq<Entry>, p: Bytes)
    ensures forall k :: 0 <= k < |PrefixPositions(es, p)| ==> PrefixPositions(es, p)[k] < |es|
    ensures forall k, l :: 0 <= k < l < |PrefixPositions(es, p)| ==> PrefixPositions(es, p)[k] < PrefixPositions(es, p)[l]
  {
    if es != [] {
      var n := |es| - 1;
      PositionsIncreasing(es[..n], p);
      var pre, pos := PrefixPositions(es[..n], p), PrefixPositions(es, p);
      assert pos == if HasPrefix(p, es[n].key) then pre + [n] else pre;
      forall k, l | 0 <= k < l < |pos|
        ensures pos[k] < pos[l]
      {
        if l < |pre| {
          assert pos[k] == pre[k] && pos[l] == pre[l];
        } else {
          assert pos[k] == pre[k] && pos[l] == n;
        }
      }
    }
  }

  /** Every log entry under the prefix has its position among the query's positions. */
  lemma {:induction false} PositionsCover(es: seq<Entry>, p: Bytes)
    ensures forall a :: 0 <= a < |es| && HasPrefix(p, es[a].key) ==> a in PrefixPositions(es, p)
  {
    if es != [] {
      var n := |es| - 1;
      var init := es[..n];
      PositionsCover(init, p);
      var pre, pos := PrefixPositions(init, p), PrefixPositions(es, p);
      assert pos == if HasPrefix(p, es[n].key) then pre + [n] else pre;
      forall a | 0 <= a < |es| && HasPrefix(p, es[a].key)
        ensures a in pos
      {
        if a < n {
          assert init[a] == es[a];
        }
      }
    }
  }

  /**
   * A prefix query keeps log order: its entries are the log's entries at
   * strictly increasing positions, and every entry under the prefix is one of them.
   */
  lemma {:induction false} PrefixPositionsSpec(es: seq<Entry>, p: Bytes)
    ensures |PrefixPositions(es, p)| == |WithPrefix(es, p)|
    ensures forall k :: 0 <= k < |PrefixPositions(es, p)| ==>
      PrefixPositions(es, p)[k] < |es| && WithPrefix(es, p)[k] == es[PrefixPositions(es, p)[k]]
    ensures forall k, l :: 0 <= k < l < |PrefixPositions(es, p)| ==> PrefixPositions(es, p)[k] < PrefixPositions(es, p)[l]
    ensures forall a :: 0 <= a < |es| && HasPrefix(p, es[a].key) ==> a in PrefixPositions(es, p)
  {
    PositionsIndex(es, p);
    PositionsIncreasing(es, p);
    PositionsCover(es, p);
  }

  /** The local node: its documents in `list_docs` order, and the blobs it holds. */
  class Store {
    var docs: seq<Document>
    var blobs: set<Bytes>

    constructor ()
      ensures docs == [] && blobs == {}
    {
      docs := [];
      blobs := {};
    }

    /** `create_doc`: a new, empty document; its id is its position. */
    method CreateDoc() returns (id: nat)
      modifies this
      ensures docs == old(docs) + [Document([])] && id == |old(docs)|
      ensures blobs == old(blobs)
    {
      id := |docs|;
      docs := docs + [Document([])];
    }

    /** `set_bytes`: appends an entry to the document and stores its content locally. */
    method SetBytes(doc: nat, author: AuthorId, key: Bytes, content: Bytes, timestamp: u64)
      requires doc < |docs|
      modifies this
      ensures docs == old(docs)[doc := Document(old(docs)[doc].entries + [Entry(key, author, timestamp, content)])]
      ensures blobs == old(blobs) + {content}
    {
      docs := docs[doc := Document(docs[doc].entries + [Entry(key, author, timestamp, content)])];
      blobs := blobs + {content};
    }
  }
}
