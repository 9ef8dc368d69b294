/**
 * The in-memory record store that stands in for the Mongo collection, and the
 * two read-only lookups `findBySlug` and `findBySlugHistory`.
 *
 * A query that fails is modelled by a `fault` parameter: `Some(f)` means
 * the store answered with the error `f`.
 */
module SlugStore {
  import opened Wrappers

  /** One entry of the slug history: a slug the record once held, and when it was replaced. */
  datatype HistoryEntry = HistoryEntry(slug: string, createdAt: int)

  /** A persisted record. The slug is `None` once the sparse rule has unset it. */
  datatype StoredRecord = StoredRecord(id: nat, slug: Option<string>, history: seq<HistoryEntry>)

  /** An error reported by the store. */
  datatype StoreFault = StoreFault(reason: string)

  predicate HasSlug(r: StoredRecord, s: string) {
    r.slug == Some(s)
  }

  predicate HasHistorySlug(r: StoredRecord, s: string) {
    exists k :: 0 <= k < |r.history| && r.history[k].slug == s
  }

  /** The index of the first record at or after `from` that satisfies `p`. */
  function FirstWhere(store: seq<StoredRecord>, p: StoredRecord -> bool, from: nat): (r: Option<nat>)
    requires from <= |store|
    ensures r.Some? ==> from <= r.value < |store| && p(store[r.value])
    ensures r.Some? ==> forall j :: from <= j < r.value ==> !p(store[j])
    ensures r.None? ==> forall j :: from <= j < |store| ==> !p(store[j])
    decreases |store| - from
  {
    if from == |store| then None
    else if p(store[from]) then Some(from)
    else FirstWhere(store, p, from + 1)
  }

  /**
   * `findOne` on a predicate: the first matching record in store order, or
   * the fault when the query fails.
   */
  function FindOne(store: seq<StoredRecord>, p: StoredRecord -> bool, fault: Option<StoreFault>): (r: Result<Option<StoredRecord>, StoreFault>)
    ensures fault.Some? ==> r == Failure(fault.value)
    ensures fault.None? ==> r.Success?
    ensures fault.None? && r.value.Some? ==> r.value.value in store && p(r.value.value)
    ensures fault.None? ==> (r.value.None? <==> forall j :: 0 <= j < |store| ==> !p(store[j]))
  {
    if fault.Some? then Failure(fault.value)
    else
      match FirstWhere(store, p, 0)
      case None => Success(None)
      case Some(i) => Success(Some(store[i]))
  }

  /** `findBySlug`: an exact match on the current slug. */
  function FindBySlug(store: seq<StoredRecord>, s: string, fault: Option<StoreFault>): (r: Result<Option<StoredRecord>, StoreFault>)
    ensures fault.Some? ==> r == Failure(fault.value)
    ensures fault.None? ==> r.Success?
    ensures fault.None? && r.value.Some? ==> r.value.value in store && r.value.value.slug == Some(s)
    ensures fault.None? ==> (r.value.Some? <==> exists j :: 0 <= j < |store| && store[j].slug == Some(s))
  {
    FindOne(store, x => HasSlug(x, s), fault)
  }

  /** The second query of `findBySlugHistory`: a record whose history holds the slug. */
  function FindInHistory(store: seq<StoredRecord>, s: string, fault: Option<StoreFault>): (r: Result<Option<StoredRecord>, StoreFault>)
    ensures fault.Some? ==> r == Failure(fault.value)
    ensures fault.None? ==> r.Success?
    ensures fault.None? && r.value.Some? ==> r.value.value in store && HasHistorySlug(r.value.value, s)
    ensures fault.None? ==> (r.value.Some? <==> exists j :: 0 <= j < |store| && HasHistorySlug(store[j], s))
  {
    FindOne(store, x => HasHistorySlug(x, s), fault)
  }

  /**
   * `findBySlugHistory`: the current slug wins. Only when the first query
   * yields no record, because nothing matched or because it failed, does the
   * history query run, and its answer is returned. So an error of the first
   * query is dropped.
   */
  function FindBySlugHistory(store: seq<StoredRecord>, s: string, currentFault: Option<StoreFault>, historyFault: Option<StoreFault>)
    : (r: Result<Option<StoredRecord>, StoreFault>)
    ensures currentFault.None? && (exists j :: 0 <= j < |store| && store[j].slug == Some(s)) ==>
      r.Success? && r.value.Some? && r.value.value in store && r.value.value.slug == Some(s)
    ensures currentFault.None? && (forall j :: 0 <= j < |store| ==> store[j].slug != Some(s)) ==>
      r == FindInHistory(store, s, historyFault)
    ensures currentFault.Some? ==> r == FindInHistory(store, s, historyFault)
    ensures historyFault.None? ==> r.Success?
    ensures r.Success? && r.value.Some? ==> r.value.value in store
    ensures r.Success? && r.value.None? ==>
      forall j :: 0 <= j < |store| ==> !HasHistorySlug(store[j], s) && (currentFault.None? ==> store[j].slug != Some(s))
  {
    var current := FindBySlug(store, s, currentFault);
    if current.Success? && current.value.Some? then current
    else FindInHistory(store, s, historyFault)
  }
}
