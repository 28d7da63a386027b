/** The hosted document collection every service is built on, reduced to an
    in-memory map from document id to record. Creating assigns a fresh id,
    reading a missing id gives `None`, updating a missing id fails, deleting a
    missing id does nothing, and the equality queries filter the listing. The
    listing order (ascending id) stands in for the backing store's own order.
    Callers do depend on that order: `findOneByField` takes the first match
    (and so does `login`), the available order dates are paged in the order
    their days first occur, and the stable sorts keep tied records in
    listing order. The real store promises no such order. */
module DocStore {
  import opened Common

  /** Document ids are opaque tokens chosen by the store. */
  type Id = nat

  /** A record as the services read it back: the stored fields plus the
      document id injected by the read converter. */
  datatype Doc<T> = Doc(id: Id, data: T)

  datatype Store<T> = Store(docs: map<Id, T>, next: Id)

  datatype StoreError = NoSuchDocument

  /** Every stored id was issued before `next`, so `next` is fresh. */
  predicate Valid<T>(s: Store<T>)
  {
    forall k :: k in s.docs ==> k < s.next
  }

  function EmptyStore<T>(): (s: Store<T>)
    ensures Valid(s) && |s.docs| == 0
  {
    Store(map[], 0)
  }

  /** `create`: stores `data` under a fresh id and returns that id. */
  function Create<T>(s: Store<T>, data: T): (r: (Store<T>, Id))
    requires Valid(s)
    ensures Valid(r.0)
    ensures r.1 !in s.docs
    ensures r.1 in r.0.docs && r.0.docs[r.1] == data
    ensures r.0.docs.Keys == s.docs.Keys + {r.1}
    ensures forall k :: k in s.docs ==> r.0.docs[k] == s.docs[k]
  {
    (Store(s.docs[s.next := data], s.next + 1), s.next)
  }

  /** `read`: the record, or `None` when no document has that id. */
  function Read<T>(s: Store<T>, id: Id): Option<T>
  {
    if id in s.docs then Some(s.docs[id]) else None
  }

  /** `update`: rewrites one record with `f` (a partial-field overlay);
      fails when the document does not exist. */
  function Update<T>(s: Store<T>, id: Id, f: T -> T): (r: Result<Store<T>, StoreError>)
    ensures id !in s.docs <==> r.Err?
    ensures r.Ok? ==> r.value.docs.Keys == s.docs.Keys && r.value.next == s.next
    ensures r.Ok? ==> r.value.docs[id] == f(s.docs[id])
    ensures r.Ok? ==> forall k :: k in s.docs && k != id ==> r.value.docs[k] == s.docs[k]
  {
    if id in s.docs then Ok(Store(s.docs[id := f(s.docs[id])], s.next)) else Err(NoSuchDocument)
  }

  /** `delete`: removes the document if it exists; deleting a missing id is
      not an error. */
  function Delete<T>(s: Store<T>, id: Id): (r: Store<T>)
    ensures r.docs.Keys == s.docs.Keys - {id}
    ensures forall k :: k in r.docs ==> r.docs[k] == s.docs[k]
    ensures Valid(s) ==> Valid(r)
  {
    Store(s.docs - {id}, s.next)
  }

  /** The documents whose ids lie in `lo..s.next`, in ascending id order. */
  function ListFrom<T(==)>(s: Store<T>, lo: Id): (r: seq<Doc<T>>)
    ensures forall i :: 0 <= i < |r| ==> r[i].id in s.docs && r[i].data == s.docs[r[i].id] && lo <= r[i].id
    ensures forall k :: k in s.docs && lo <= k < s.next ==> Doc(k, s.docs[k]) in r
    ensures forall i, j :: 0 <= i < j < |r| ==> r[i].id < r[j].id
    decreases s.next - lo
  {
    if lo >= s.next then []
    else if lo in s.docs then [Doc(lo, s.docs[lo])] + ListFrom(s, lo + 1)
    else ListFrom(s, lo + 1)
  }

  /** `list`: every document once. */
  function List<T(==)>(s: Store<T>): (r: seq<Doc<T>>)
    requires Valid(s)
    ensures forall i :: 0 <= i < |r| ==> r[i].id in s.docs && r[i].data == s.docs[r[i].id]
    ensures forall k :: k in s.docs ==> Doc(k, s.docs[k]) in r
    ensures forall i, j :: 0 <= i < j < |r| ==> r[i].id < r[j].id
  {
    ListFrom(s, 0)
  }

  /** The documents of `ds` whose record satisfies `p`, in order. */
  function FilterDocs<T(==)>(ds: seq<Doc<T>>, p: T -> bool): (r: seq<Doc<T>>)
    ensures forall i :: 0 <= i < |r| ==> r[i] in ds && p(r[i].data)
    ensures forall j :: 0 <= j < |ds| && p(ds[j].data) ==> ds[j] in r
  {
    if |ds| == 0 then []
    else if p(ds[0].data) then [ds[0]] + FilterDocs(ds[1..], p)
    else FilterDocs(ds[1..], p)
  }

  /** Documents listed in strictly ascending id order. */
  predicate IdsAscending<T>(ds: seq<Doc<T>>)
  {
    forall i, j :: 0 <= i < j < |ds| ==> ds[i].id < ds[j].id
  }

  /** Putting a document in front of an ascending list whose ids are all
      larger keeps it ascending. */
  lemma AscendingCons<T>(d: Doc<T>, r: seq<Doc<T>>)
    requires IdsAscending(r)
    requires forall i :: 0 <= i < |r| ==> d.id < r[i].id
    ensures IdsAscending([d] + r)
  {
    var c := [d] + r;
    forall i, j | 0 <= i < j < |c|
      ensures c[i].id < c[j].id
    {
      assert c[j] == r[j - 1];
      if i > 0 {
        assert c[i] == r[i - 1];
      }
    }
  }

  lemma {:induction false} FilterDocsAscending<T>(ds: seq<Doc<T>>, p: T -> bool)
    requires IdsAscending(ds)
    ensures IdsAscending(FilterDocs(ds, p))
  {
    if |ds| > 0 {
      var t := ds[1..];
      assert IdsAscending(t) by {
        forall i, j | 0 <= i < j < |t| ensures t[i].id < t[j].id {
          assert t[i] == ds[i + 1] && t[j] == ds[j + 1];
        }
      }
      FilterDocsAscending(t, p);
      var r' := FilterDocs(t, p);
      forall i | 0 <= i < |r'|
        ensures ds[0].id < r'[i].id
      {
        var j :| 0 <= j < |t| && t[j] == r'[i];
        assert t[j] == ds[j + 1];
      }
      if p(ds[0].data) {
        AscendingCons(ds[0], r');
      }
    }
  }

  /** `findByField(field, value)`: the documents whose record satisfies the
      equality test `p`, in listing order. */
  function FindBy<T(==)>(s: Store<T>, p: T -> bool): (r: seq<Doc<T>>)
    requires Valid(s)
    ensures forall i :: 0 <= i < |r| ==> r[i].id in s.docs && r[i].data == s.docs[r[i].id] && p(r[i].data)
    ensures forall k :: k in s.docs && p(s.docs[k]) ==> Doc(k, s.docs[k]) in r
    ensures forall i, j :: 0 <= i < j < |r| ==> r[i].id < r[j].id
  {
    FilterDocsAscending(List(s), p);
    FilterDocs(List(s), p)
  }

  /** `findOneByField(field, value)`: the first match in listing order. */
  function FindOneBy<T(==)>(s: Store<T>, p: T -> bool): (r: Option<Doc<T>>)
    requires Valid(s)
    ensures r.Some? ==> r.value.id in s.docs && r.value.data == s.docs[r.value.id] && p(r.value.data)
    ensures r.Some? ==> forall k :: k in s.docs && p(s.docs[k]) ==> r.value.id <= k
    ensures r.None? <==> forall k :: k in s.docs ==> !p(s.docs[k])
  {
    var matches := FindBy(s, p);
    if |matches| == 0 then None else Some(matches[0])
  }
}
