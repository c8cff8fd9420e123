/** The sticky filters of the dashboard (`product_list` in products/views.py): six
    string-valued keys, each taken from the request when the request names it, else from
    the filters stored in the session, else empty; the result replaces what was stored. */
module StickyFilters {

  /** A string-to-string dictionary: a request's query parameters or the stored filters. */
  type Params = map<string, string>

  /** The keys of the stored filter dictionary, in the order the view reads them. */
  const FilterKeys: seq<string> := ["q", "status", "min_price", "max_price", "min_stock", "max_stock"]

  /** The effective filters; the empty string means "not set". */
  datatype FilterState = FilterState(
    q: string,
    status: string,
    minPrice: string,
    maxPrice: string,
    minStock: string,
    maxStock: string)

  /** The filters with nothing set, as a fresh session has them. */
  const NoFilters := FilterState("", "", "", "", "", "")

  /** The value a filter holds under its dictionary key; other keys read as empty. */
  function Field(f: FilterState, key: string): string {
    if key == "q" then f.q
    else if key == "status" then f.status
    else if key == "min_price" then f.minPrice
    else if key == "max_price" then f.maxPrice
    else if key == "min_stock" then f.minStock
    else if key == "max_stock" then f.maxStock
    else ""
  }

  /** Python's `d.get(key, "")`. */
  function Lookup(m: Params, key: string): string {
    if key in m then m[key] else ""
  }

  /** One key's effective value: the request's value when the request has the key, even
      when it is empty; otherwise the stored value, defaulting to the empty string. */
  function Pick(incoming: Params, stored: Params, key: string): string {
    if key in incoming then incoming[key] else Lookup(stored, key)
  }

  /** The effective filters of a request. Every key the request carries wins, whatever its
      value; every other key keeps the stored value or is empty. Keys outside the six are
      never consulted. */
  function Resolve(incoming: Params, stored: Params): (f: FilterState)
    ensures forall k | k in FilterKeys && k in incoming :: Field(f, k) == incoming[k]
    ensures forall k | k in FilterKeys && k !in incoming :: Field(f, k) == Lookup(stored, k)
  {
    FilterState(
      Pick(incoming, stored, "q"),
      Pick(incoming, stored, "status"),
      Pick(incoming, stored, "min_price"),
      Pick(incoming, stored, "max_price"),
      Pick(incoming, stored, "min_stock"),
      Pick(incoming, stored, "max_stock"))
  }

  /** The dictionary written back to the session: exactly the six keys, each with its value. */
  function ToMap(f: FilterState): (m: Params)
    ensures m.Keys == set k | k in FilterKeys
    ensures forall k | k in FilterKeys :: m[k] == Field(f, k)
  {
    map["q" := f.q, "status" := f.status, "min_price" := f.minPrice,
        "max_price" := f.maxPrice, "min_stock" := f.minStock, "max_stock" := f.maxStock]
  }

  /** Two filter states agreeing on the six keys are equal. */
  lemma FieldsDetermine(f: FilterState, g: FilterState)
    requires forall k | k in FilterKeys :: Field(f, k) == Field(g, k)
    ensures f == g
  {
    assert Field(f, "q") == Field(g, "q");
    assert Field(f, "status") == Field(g, "status");
    assert Field(f, "min_price") == Field(g, "min_price");
    assert Field(f, "max_price") == Field(g, "max_price");
    assert Field(f, "min_stock") == Field(g, "min_stock");
    assert Field(f, "max_stock") == Field(g, "max_stock");
  }

  /** What was stored is what a request without filter keys reads back. */
  lemma StoredRoundTrip(f: FilterState, incoming: Params)
    requires forall k | k in FilterKeys :: k !in incoming
    ensures Resolve(incoming, ToMap(f)) == f
  {
    FieldsDetermine(Resolve(incoming, ToMap(f)), f);
  }

  /** Resolving again against what was just stored, with the same request, changes nothing. */
  lemma ResolveIdempotent(incoming: Params, stored: Params)
    ensures Resolve(incoming, ToMap(Resolve(incoming, stored))) == Resolve(incoming, stored)
  {
    FieldsDetermine(Resolve(incoming, ToMap(Resolve(incoming, stored))), Resolve(incoming, stored));
  }

  /** A request that names all six keys decides the filters alone: the stored ones are ignored. */
  lemma FullRequestIgnoresStored(incoming: Params, s1: Params, s2: Params)
    requires forall k | k in FilterKeys :: k in incoming
    ensures Resolve(incoming, s1) == Resolve(incoming, s2)
  {
    FieldsDetermine(Resolve(incoming, s1), Resolve(incoming, s2));
  }

  /** With nothing stored, each key is the request's value or empty. */
  lemma FreshSession(incoming: Params)
    ensures forall k | k in FilterKeys :: Field(Resolve(incoming, map[]), k) == Lookup(incoming, k)
  {
  }

  /** Keys only: the values of request parameters outside the six never matter. */
  lemma OtherParamsIgnored(incoming: Params, stored: Params, key: string, value: string)
    requires key !in FilterKeys
    ensures Resolve(incoming[key := value], stored) == Resolve(incoming, stored)
  {
    FieldsDetermine(Resolve(incoming[key := value], stored), Resolve(incoming, stored));
  }

  /** Stored `{q: "a", status: "public"}` and a request carrying only `status=private`:
      the text search stays, the status is overridden. */
  lemma StickyExample()
    ensures Resolve(map["status" := "private"], map["q" := "a", "status" := "public"])
         == FilterState("a", "private", "", "", "", "")
  {
  }

  /** An explicitly empty value clears a stored one: presence, not content, decides. */
  lemma EmptyValueOverrides()
    ensures Resolve(map["q" := ""], map["q" := "lamp"]).q == ""
  {
  }
}
