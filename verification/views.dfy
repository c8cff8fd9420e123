/** The request handlers of products/views.py that carry logic, as pure functions of the
    request, the session and the product collection. The session is passed in and handed
    back as a value; the database is a sequence of products. */
module Views {
  import opened Wrappers
  import opened Decimals
  import opened Catalog
  import opened StickyFilters

  /** The keys of the session the views use: the stored dashboard filters
      (`filters_dashboard`), the theme and the view mode. `None` is an absent key. */
  datatype Session = Session(filters: Option<Params>, theme: Option<string>, viewMode: Option<string>)

  /** `request.session.get("filters_dashboard", {})`. */
  function StoredFilters(s: Session): Params {
    s.filters.GetOr(map[])
  }

  // ---------------------------------------------------------------------------
  // Reading the bounds

  /** A price bound as the database layer reads it: unset when empty, otherwise a decimal
      literal; any other text is refused and is handed back as the failure. */
  function PriceBound(text: string): Result<Option<real>, string> {
    if text == "" then Success(None)
    else match ParseDecimal(text)
      case Some(d) => Success(Some(ToReal(d)))
      case None => Failure(text)
  }

  /** A stock bound as the database layer reads it: unset when empty, otherwise an integer
      literal; any other text is refused. */
  function StockBound(text: string): Result<Option<int>, string> {
    if text == "" then Success(None)
    else match ParseInt(text)
      case Some(n) => Success(Some(n))
      case None => Failure(text)
  }

  /** Every non-empty bound can be read as the number its column expects. */
  predicate BoundsReadable(f: FilterState) {
    && (f.minPrice != "" ==> ParseDecimal(f.minPrice).Some?)
    && (f.maxPrice != "" ==> ParseDecimal(f.maxPrice).Some?)
    && (f.minStock != "" ==> ParseInt(f.minStock).Some?)
    && (f.maxStock != "" ==> ParseInt(f.maxStock).Some?)
  }

  /** The filters with their bounds read as numbers. Text search and status pass through
      untouched, an empty bound is unset, and a bound that cannot be read fails the whole
      request. */
  function ToCriteria(f: FilterState): (r: Result<Criteria, string>)
    ensures r.Success? <==> BoundsReadable(f)
    ensures r.Success? ==> r.value.q == f.q && r.value.status == f.status
    ensures r.Success? ==>
              && (r.value.minPrice.None? <==> f.minPrice == "")
              && (r.value.maxPrice.None? <==> f.maxPrice == "")
              && (r.value.minStock.None? <==> f.minStock == "")
              && (r.value.maxStock.None? <==> f.maxStock == "")
    ensures r.Success? && f.minPrice != "" ==> r.value.minPrice == Some(ToReal(ParseDecimal(f.minPrice).value))
    ensures r.Success? && f.maxPrice != "" ==> r.value.maxPrice == Some(ToReal(ParseDecimal(f.maxPrice).value))
    ensures r.Success? && f.minStock != "" ==> r.value.minStock == Some(ParseInt(f.minStock).value)
    ensures r.Success? && f.maxStock != "" ==> r.value.maxStock == Some(ParseInt(f.maxStock).value)
    ensures r.Failure? ==> r.error in {f.minPrice, f.maxPrice, f.minStock, f.maxStock}
  {
    match (PriceBound(f.minPrice), PriceBound(f.maxPrice), StockBound(f.minStock), StockBound(f.maxStock))
    case (Failure(b), _, _, _) => Failure(b)
    case (_, Failure(b), _, _) => Failure(b)
    case (_, _, Failure(b), _) => Failure(b)
    case (_, _, _, Failure(b)) => Failure(b)
    case (Success(lo), Success(hi), Success(slo), Success(shi)) =>
      Success(Criteria(f.q, f.status, lo, hi, slo, shi))
  }

  // ---------------------------------------------------------------------------
  // The dashboard: product_list

  /** What the dashboard answers: the redirect after clearing, the listing with the effective
      filters, or the server error raised by a bound that cannot be read. */
  datatype DashboardPage =
    | ClearedRedirect
    | Listing(view: ListView, filters: FilterState)
    | BadBound(filters: FilterState, bound: string)

  /** `product_list` for the signed-in `user`. A `clear` parameter drops the stored filters
      and redirects without listing anything. Otherwise the effective filters are resolved,
      written back to the session in full, and the user's own products passing them are
      listed newest first with their statistics. A bound that cannot be read raises inside
      the view; the server answers with an error and does not save the session, so the
      session comes back as it was. */
  function ProductList(get: Params, session: Session, user: UserId, db: seq<Product>)
    : (r: (Session, DashboardPage))
    ensures "clear" in get ==> r.1 == ClearedRedirect && r.0.filters == None
    ensures "clear" !in get ==> !r.1.ClearedRedirect? && r.1.filters == Resolve(get, StoredFilters(session))
    ensures r.1.Listing? ==> r.0.filters == Some(ToMap(r.1.filters))
    ensures r.1.Listing? ==> Resolve(map[], r.0.filters.value) == r.1.filters
    ensures r.1.BadBound? ==> r.0 == session
    ensures r.0.theme == session.theme && r.0.viewMode == session.viewMode
    ensures r.1.BadBound? <==> "clear" !in get && !BoundsReadable(r.1.filters)
    ensures r.1.Listing? ==> forall p | p in r.1.view.products :: p in db && p.owner == Some(user)
    ensures r.1.Listing? ==> NewestFirst(r.1.view.products) && r.1.view.stats == StatsOf(r.1.view.products)
  {
    if "clear" in get then
      (session.(filters := None), ClearedRedirect)
    else
      var f := Resolve(get, StoredFilters(session));
      var written := session.(filters := Some(ToMap(f)));
      StoredRoundTrip(f, map[]);
      match ToCriteria(f)
      case Failure(b) => (session, BadBound(f, b))
      case Success(c) =>
        var view := Query(Plan(OwnedBy(user), c), db);
        assert forall p | p in view.products :: Admits(Plan(OwnedBy(user), c), p) && p in db;
        assert forall p | p in view.products :: p.owner == Some(user) by {
          forall p | p in view.products ensures p.owner == Some(user) {
            PlanMeaning(OwnedBy(user), c, p);
          }
        }
        (written, Listing(view, f))
  }

  /** The dashboard lists exactly the user's own products that match the effective filters,
      each as often as in the collection, and its statistics are those of exactly that set. */
  lemma DashboardContents(get: Params, session: Session, user: UserId, db: seq<Product>)
    requires ProductList(get, session, user, db).1.Listing?
    ensures var page := ProductList(get, session, user, db).1;
            var c := ToCriteria(page.filters).value;
            && (forall p :: p in page.view.products <==> p in db && p.owner == Some(user) && Matches(c, p))
            && multiset(page.view.products) == multiset(Select(db, Plan(OwnedBy(user), c)))
            && page.view.stats == StatsOf(Select(db, Plan(OwnedBy(user), c)))
  {
    var page := ProductList(get, session, user, db).1;
    var c := ToCriteria(page.filters).value;
    forall p ensures p in page.view.products <==> p in db && p.owner == Some(user) && Matches(c, p) {
      PlanMeaning(OwnedBy(user), c, p);
    }
  }

  /** Five products of any one user, three public priced 5, 15 and 25 and two private; nothing
      stored; the request asks for public products from price 10 with an empty search. The
      effective filters are exactly those three values with the rest empty, and the page
      lists the products priced 15 and 25, the newer first. */
  lemma FiveProductScenario(user: UserId)
    ensures var db := ScenarioCatalog(user);
            var get := map["q" := "", "status" := "public", "min_price" := "10"];
            var page := ProductList(get, Session(None, None, None), user, db).1;
            && page.Listing?
            && page.filters == FilterState("", "public", "10", "", "", "")
            && page.view.products == [db[4], db[2]]
  {
    var db := ScenarioCatalog(user);
    var get := map["q" := "", "status" := "public", "min_price" := "10"];
    var c := Criteria("", "public", Some(10.0), None, None, None);
    ScenarioResolve();
    ScenarioFilters();
    ScenarioQuery(user);
    assert StoredFilters(Session(None, None, None)) == map[];
    ListingOf(get, Session(None, None, None), user, db, c);
  }

  /** The page of a dashboard request whose bounds read as `c`. */
  lemma ListingOf(get: Params, session: Session, user: UserId, db: seq<Product>, c: Criteria)
    requires "clear" !in get && ToCriteria(Resolve(get, StoredFilters(session))) == Success(c)
    ensures ProductList(get, session, user, db).1
         == Listing(Query(Plan(OwnedBy(user), c), db), Resolve(get, StoredFilters(session)))
  {
  }

  lemma ScenarioFilters()
    ensures Resolve(map["q" := "", "status" := "public", "min_price" := "10"], map[])
         == FilterState("", "public", "10", "", "", "")
    ensures ToCriteria(FilterState("", "public", "10", "", "", ""))
         == Success(Criteria("", "public", Some(10.0), None, None, None))
  {
    ScenarioResolve();
    ScenarioBound();
  }

  lemma ScenarioResolve()
    ensures "clear" !in map["q" := "", "status" := "public", "min_price" := "10"]
    ensures Resolve(map["q" := "", "status" := "public", "min_price" := "10"], map[])
         == FilterState("", "public", "10", "", "", "")
  {
  }

  lemma ScenarioBound()
    ensures PriceBound("10") == Success(Some(10.0))
  {
    var l := Literal(Unsigned, "10", None);
    assert Render(l) == "10";
    ScanRender(l);
    assert "10" + "" == "10";
    WholeToReal(ValueOf(l));
  }

  lemma ScenarioQuery(user: UserId)
    ensures var c := Criteria("", "public", Some(10.0), None, None, None);
            var db := ScenarioCatalog(user);
            Query(Plan(OwnedBy(user), c), db).products == [db[4], db[2]]
  {
    var db := ScenarioCatalog(user);
    ScenarioSelection(user);
    SortTwo(db[2], db[4]);
  }

  lemma ScenarioSelection(user: UserId)
    ensures var c := Criteria("", "public", Some(10.0), None, None, None);
            var db := ScenarioCatalog(user);
            Apply(Plan(OwnedBy(user), c), db) == [db[2], db[4]]
  {
    var db := ScenarioCatalog(user);
    ScenarioPlan(user);
    ScenarioOwned(user);
    ScenarioVisible(user);
    ScenarioPriced(user);
    ApplyThree(OwnedBy(user), Visibility(true), PriceAtLeast(10.0), db);
  }

  lemma ScenarioPlan(user: UserId)
    ensures Plan(OwnedBy(user), Criteria("", "public", Some(10.0), None, None, None))
         == [OwnedBy(user), Visibility(true), PriceAtLeast(10.0)]
  {
  }

  /** Three chained filters, one after another. */
  lemma ApplyThree(a: Restriction, b: Restriction, c: Restriction, ps: seq<Product>)
    ensures Apply([a, b, c], ps) == Keep(Keep(Keep(ps, a), b), c)
  {
    assert [a, b, c][1..] == [b, c];
    assert [b, c][1..] == [c];
    assert [c][1..] == [];
    assert Apply([a, b, c], ps) == Apply([b, c], Keep(ps, a));
    assert Apply([b, c], Keep(ps, a)) == Apply([c], Keep(Keep(ps, a), b));
  }

  lemma ScenarioOwned(user: UserId)
    ensures Keep(ScenarioCatalog(user), OwnedBy(user)) == ScenarioCatalog(user)
  {
    KeepAll(ScenarioCatalog(user), OwnedBy(user));
  }

  lemma ScenarioVisible(user: UserId)
    ensures var db := ScenarioCatalog(user);
            Keep(db, Visibility(true)) == [db[0], db[2], db[4]]
  {
    var db := ScenarioCatalog(user);
    KeepAlternate(db[0], db[1], db[2], db[3], db[4], Visibility(true));
  }

  lemma ScenarioPriced(user: UserId)
    ensures var db := ScenarioCatalog(user);
            Keep([db[0], db[2], db[4]], PriceAtLeast(10.0)) == [db[2], db[4]]
  {
    var db := ScenarioCatalog(user);
    KeepLastTwo(db[0], db[2], db[4], PriceAtLeast(10.0));
  }

  /** A filter passing the first, third and fifth of five products keeps just those. */
  lemma KeepAlternate(p0: Product, p1: Product, p2: Product, p3: Product, p4: Product, r: Restriction)
    requires Holds(r, p0) && !Holds(r, p1) && Holds(r, p2) && !Holds(r, p3) && Holds(r, p4)
    ensures Keep([p0, p1, p2, p3, p4], r) == [p0, p2, p4]
  {
    assert [p0, p1, p2, p3, p4] == [p0] + [p1] + [p2] + [p3] + [p4];
    KeepSingle(p0, r);
    KeepSingle(p1, r);
    KeepSingle(p2, r);
    KeepSingle(p3, r);
    KeepSingle(p4, r);
    KeepConcat([p0] + [p1] + [p2] + [p3], [p4], r);
    KeepConcat([p0] + [p1] + [p2], [p3], r);
    KeepConcat([p0] + [p1], [p2], r);
    KeepConcat([p0], [p1], r);
  }

  /** A filter failing the first of three products and passing the others keeps the others. */
  lemma KeepLastTwo(p0: Product, p1: Product, p2: Product, r: Restriction)
    requires !Holds(r, p0) && Holds(r, p1) && Holds(r, p2)
    ensures Keep([p0, p1, p2], r) == [p1, p2]
  {
    assert [p0, p1, p2] == [p0] + [p1] + [p2];
    KeepSingle(p0, r);
    KeepSingle(p1, r);
    KeepSingle(p2, r);
    KeepConcat([p0] + [p1], [p2], r);
    KeepConcat([p0], [p1], r);
  }

  /** The catalogue of the scenario above; `createdAt` grows along the sequence. */
  function ScenarioCatalog(user: UserId): seq<Product> {
    [ Product(1, Some(user), "Pen", "", 5.0, 10, true, 1, 1),
      Product(2, Some(user), "Box", "", 50.0, 1, false, 2, 2),
      Product(3, Some(user), "Cup", "", 15.0, 3, true, 3, 3),
      Product(4, Some(user), "Bag", "", 60.0, 2, false, 4, 4),
      Product(5, Some(user), "Lamp", "", 25.0, 4, true, 5, 5) ]
  }

  /** A status other than `public` and `private` hides nothing. */
  lemma OtherStatusNoRestriction(c: Criteria, p: Product, flipped: bool)
    requires c.status != "public" && c.status != "private"
    ensures Matches(c, p) <==> Matches(c, p.(isPublic := flipped))
  {
  }

  /** After `clear`, a request without parameters runs with no filter at all: the plan is the
      ownership scope alone and the page lists every product of the user. */
  lemma ClearThenList(get: Params, session: Session, user: UserId, db: seq<Product>)
    requires "clear" in get
    ensures var cleared := ProductList(get, session, user, db).0;
            var page := ProductList(map[], cleared, user, db).1;
            && page == Listing(Query([OwnedBy(user)], db), NoFilters)
            && ToCriteria(NoFilters) == Success(Criteria("", "", None, None, None, None))
            && Plan(OwnedBy(user), Criteria("", "", None, None, None, None)) == [OwnedBy(user)]
  {
    var cleared := ProductList(get, session, user, db).0;
    assert StoredFilters(cleared) == map[];
    NothingToResolve();
    NoBounds();
    UnfilteredPlan(user);
  }

  lemma NothingToResolve()
    ensures Resolve(map[], map[]) == NoFilters
  {
  }

  lemma NoBounds()
    ensures ToCriteria(NoFilters) == Success(Criteria("", "", None, None, None, None))
  {
  }

  lemma UnfilteredPlan(user: UserId)
    ensures Plan(OwnedBy(user), Criteria("", "", None, None, None, None)) == [OwnedBy(user)]
  {
  }

  /** Repeating a dashboard request against the session it left gives the same page and the
      same session. */
  lemma ProductListRepeat(get: Params, session: Session, user: UserId, db: seq<Product>)
    requires "clear" !in get
    ensures var (s1, page1) := ProductList(get, session, user, db);
            ProductList(get, s1, user, db) == (s1, page1)
  {
    ResolveIdempotent(get, StoredFilters(session));
  }

  /** Coming back without parameters after a listing keeps the filters of that visit;
      after a bound that could not be read, it falls back on the filters stored before. */
  lemma ProductListSticky(get: Params, session: Session, user: UserId, db: seq<Product>)
    requires "clear" !in get
    ensures var (s1, page1) := ProductList(get, session, user, db);
            page1.Listing? ==> ProductList(map[], s1, user, db) == (s1, page1)
    ensures var (s1, page1) := ProductList(get, session, user, db);
            page1.BadBound? ==> ProductList(map[], s1, user, db) == ProductList(map[], session, user, db)
  {
    var f := Resolve(get, StoredFilters(session));
    StoredRoundTrip(f, map[]);
  }

  // ---------------------------------------------------------------------------
  // The public catalogue: public_product_list

  datatype CatalogPage = CatalogListing(view: ListView) | CatalogBadBound(bound: string)

  /** The filters the public catalogue reads from its request alone: no status, no session. */
  function CatalogFilters(get: Params): FilterState {
    FilterState(Lookup(get, "q"), "", Lookup(get, "min_price"), Lookup(get, "max_price"),
                Lookup(get, "min_stock"), Lookup(get, "max_stock"))
  }

  /** The catalogue's filters are the dashboard's filters for the same request with nothing
      stored, except that the status is never read. */
  lemma CatalogFiltersFresh(get: Params)
    ensures CatalogFilters(get) == Resolve(get, map[]).(status := "")
  {
  }

  /** `public_product_list`: the public products passing the request's text, price and stock
      filters, newest first, with their statistics. It takes no session and returns none. */
  function PublicProductList(get: Params, db: seq<Product>): (r: CatalogPage)
    ensures r.CatalogListing? ==> forall p | p in r.view.products :: p in db && p.isPublic
    ensures r.CatalogListing? ==> NewestFirst(r.view.products) && r.view.stats == StatsOf(r.view.products)
    ensures r.CatalogBadBound? <==> !BoundsReadable(CatalogFilters(get))
  {
    match ToCriteria(CatalogFilters(get))
    case Failure(b) => CatalogBadBound(b)
    case Success(c) =>
      var view := Query(Plan(Visibility(true), c), db);
      assert forall p | p in view.products :: p.isPublic by {
        forall p | p in view.products ensures p.isPublic {
          PlanMeaning(Visibility(true), c, p);
        }
      }
      CatalogListing(view)
  }

  /** The catalogue lists exactly the public products matching the request's filters. */
  lemma CatalogContents(get: Params, db: seq<Product>)
    requires PublicProductList(get, db).CatalogListing?
    ensures var c := ToCriteria(CatalogFilters(get)).value;
            var page := PublicProductList(get, db);
            && (forall p :: p in page.view.products <==> p in db && p.isPublic && Matches(c, p))
            && multiset(page.view.products) == multiset(Select(db, Plan(Visibility(true), c)))
            && page.view.stats == StatsOf(Select(db, Plan(Visibility(true), c)))
  {
    var c := ToCriteria(CatalogFilters(get)).value;
    forall p ensures p in PublicProductList(get, db).view.products <==> p in db && p.isPublic && Matches(c, p) {
      PlanMeaning(Visibility(true), c, p);
    }
  }

  /** The catalogue ignores a `status` parameter. */
  lemma CatalogIgnoresStatus(get: Params, db: seq<Product>, status: string)
    ensures PublicProductList(get["status" := status], db) == PublicProductList(get, db)
  {
    assert CatalogFilters(get["status" := status]) == CatalogFilters(get);
  }

  // ---------------------------------------------------------------------------
  // The detail view's access check: product_detail

  const NoPermissionMessage: string := "Você não tem permissão para ver este produto."

  datatype DetailPage = ShowDetail(product: Product) | DeniedRedirect(message: string)

  /** `product_detail` once the product is found: shown unless it is private and belongs to
      someone else (or to no one). */
  function ProductDetail(p: Product, requester: UserId): (r: DetailPage)
    ensures r.DeniedRedirect? <==> !p.isPublic && p.owner != Some(requester)
    ensures r.ShowDetail? ==> r.product == p
    ensures r.DeniedRedirect? ==> r.message == NoPermissionMessage
  {
    if !p.isPublic && p.owner != Some(requester) then DeniedRedirect(NoPermissionMessage)
    else ShowDetail(p)
  }

  /** Whatever the catalogue lists, anyone signed in may open. */
  lemma CatalogProductsOpen(get: Params, db: seq<Product>, p: Product, requester: UserId)
    requires PublicProductList(get, db).CatalogListing?
    requires p in PublicProductList(get, db).view.products
    ensures ProductDetail(p, requester) == ShowDetail(p)
  {
  }

  /** Whatever a dashboard lists, its user may open. */
  lemma DashboardProductsOpen(get: Params, session: Session, user: UserId, db: seq<Product>, p: Product)
    requires ProductList(get, session, user, db).1.Listing?
    requires p in ProductList(get, session, user, db).1.view.products
    ensures ProductDetail(p, user) == ShowDetail(p)
  {
  }

  /** A private product is shown to its owner only; an ownerless one to nobody. */
  lemma PrivateProductsStayPrivate(p: Product, requester: UserId)
    requires !p.isPublic
    ensures ProductDetail(p, requester).ShowDetail? <==> p.owner == Some(requester)
    ensures p.owner.None? ==> ProductDetail(p, requester).DeniedRedirect?
  {
  }

  // ---------------------------------------------------------------------------
  // Theme and view mode: toggle_theme, set_view_mode

  /** `request.session.get("theme", "light")`. */
  function CurrentTheme(s: Session): string {
    s.theme.GetOr("light")
  }

  /** `toggle_theme`: light turns dark and anything else turns light; the signed-in user's
      profile (`Some` of its stored theme) receives the same value, an anonymous visitor has
      none. The theme always changes, and only the theme changes. */
  function ToggleTheme(s: Session, profileTheme: Option<string>): (r: (Session, Option<string>))
    ensures r.0.theme.Some? && (CurrentTheme(r.0) == "light" || CurrentTheme(r.0) == "dark")
    ensures CurrentTheme(r.0) != CurrentTheme(s)
    ensures CurrentTheme(s) == "light" <==> CurrentTheme(r.0) == "dark"
    ensures r.1 == if profileTheme.Some? then r.0.theme else None
    ensures r.0.filters == s.filters && r.0.viewMode == s.viewMode
  {
    var next := if CurrentTheme(s) == "light" then "dark" else "light";
    var session := s.(theme := Some(next));
    (session, if profileTheme.Some? then Some(next) else None)
  }

  /** On the two themes the profile allows, toggling twice gives the theme back. */
  lemma ToggleThemeInvolution(s: Session, profileTheme: Option<string>)
    requires CurrentTheme(s) == "light" || CurrentTheme(s) == "dark"
    ensures var (s1, p1) := ToggleTheme(s, profileTheme);
            CurrentTheme(ToggleTheme(s1, p1).0) == CurrentTheme(s)
  {
  }

  /** The view modes the session may hold. */
  predicate ValidViewMode(s: Session) {
    s.viewMode.None? || s.viewMode.value == "grid" || s.viewMode.value == "table"
  }

  /** `set_view_mode`: stores `grid` or `table`, ignores any other mode. */
  function SetViewMode(s: Session, mode: string): (r: Session)
    ensures mode == "grid" || mode == "table" ==> r.viewMode == Some(mode)
    ensures mode != "grid" && mode != "table" ==> r == s
    ensures r.filters == s.filters && r.theme == s.theme
  {
    if mode == "grid" || mode == "table" then s.(viewMode := Some(mode)) else s
  }

  /** Whatever modes are requested, the session never holds anything but grid or table. */
  lemma {:induction false} ViewModeStaysValid(s: Session, modes: seq<string>)
    requires ValidViewMode(s)
    ensures ValidViewMode(SetViewModes(s, modes))
    decreases |modes|
  {
    if modes != [] {
      ViewModeStaysValid(SetViewMode(s, modes[0]), modes[1..]);
    }
  }

  /** A sequence of `set_view_mode` requests. */
  function SetViewModes(s: Session, modes: seq<string>): Session
    decreases |modes|
  {
    if modes == [] then s else SetViewModes(SetViewMode(s, modes[0]), modes[1..])
  }

  /** Asking for the same mode twice is asking once. */
  lemma SetViewModeIdempotent(s: Session, mode: string)
    ensures SetViewMode(SetViewMode(s, mode), mode) == SetViewMode(s, mode)
  {
  }
}
