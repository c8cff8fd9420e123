# Product dashboard: price parsing and list filters, in Dafny

This project models the two pieces of logic in the product-catalogue dashboard of
`kore-product-manager`, a Django application. Everything else in it is CRUD plumbing.

* **Locale price parsing.** `ProductForm.clean_price` takes a price typed the Brazilian way,
  with `.` for thousands and `,` for decimals. It deletes every `.`, turns every `,` into
  `.`, and reads the result as a `Decimal`. Text that does not read raises a validation
  error.
* **The list views.** `product_list` is the signed-in user's dashboard. A `clear` parameter
  drops the stored filters. Otherwise it works out six "sticky" filters: each comes from the
  request if the request has it, else from the session, else is empty. It stores all six
  back in the session and lists the user's own products that pass the filters, newest
  first, with a count, a stock total and a value total. `public_product_list` does the same
  for public products, with no status filter and no session. Alongside these are the detail
  view's access check, `toggle_theme` and `set_view_mode`.

The session is a value passed in and returned (`Views.Session`). The database is a sequence
of `Catalog.Product` records. Each `.filter(...)` call is a `Catalog.Restriction`, and a
chain of them is applied in the views' order (`Catalog.Apply`). That chain is proved equal
to a declarative selection (`Catalog.Select`, `Catalog.Matches`).

Modules: `Wrappers` (Option, Result), `Decimals` (what Python's `Decimal(str)` and `int(str)`
accept and produce, restricted to finite literals without an exponent), `PriceForm`
(`clean_price`), `Catalog` (products, text search, restrictions, ordering, statistics),
`StickyFilters` (the six-key resolver) and `Views` (the handlers).

Three behaviours of the code are easy to get wrong:

* `clean_price` has no policy that turns an empty price into 0.00. It refuses an empty price
  like any other unreadable text.
* `clean_price` keeps as many decimal places as were typed (`"5"` has none, `"5,125"` has
  three). The two-place limit belongs to the model field and is enforced later, by model
  validation.
* A price typed with a decimal point (`"55.99"`) comes out a hundred times too large
  (5599), because the point is deleted as a thousands mark. `PriceForm.PointTypedExample`
  pins this.

A bound on the dashboard that the database cannot read (`min_price=abc`) raises inside
`product_list` after the filters were assigned to the session. The server answers with an
error, and Django's session middleware does not save a session on such a response, so the
model hands the session back unchanged in that case.

## Model

| member | source | states |
|---|---|---|
| Decimals.Scan | products/forms.py:34 | What `Decimal(...)` accepts is a well-formed literal (optional sign, digits, at most one point, at least one digit), and reading it gives back that literal's own text |
| Decimals.ScanRender | products/forms.py:34 | Every well-formed literal is accepted and read back as itself (completeness of the reader) |
| Decimals.ScanAcceptsExactly | products/forms.py:34 | A text is accepted exactly when some well-formed literal is written that way |
| Decimals.RenderInjective | products/forms.py:34 | Two well-formed literals with the same text are the same literal, so a price reads one way only |
| Decimals.ParseDecimal | products/forms.py:34 | `Decimal(text)` succeeds exactly on literal texts, and its value is the value of the literal the text spells: the sign, every digit as the coefficient, and the count of digits after the point |
| Decimals.ParseInt | products/views.py:70-73 | The integer coercion of a stock bound succeeds exactly on a signed digit string with no point, and its value is that literal's value |
| PriceForm.Normalize | products/forms.py:32-33 | Normalising leaves no comma, has one point per comma of the input, and is shorter than the input by its number of points |
| PriceForm.NormalizeKeepsOthers | products/forms.py:33 | Normalising changes only points and commas: every other character keeps its count |
| PriceForm.ReplaceCount | products/forms.py:33 | `str.replace` with a one-character pattern removes every occurrence of the pattern and adds the replacement's characters once per occurrence |
| PriceForm.ReplaceLength | products/forms.py:33 | `str.replace` changes the length by (replacement length − 1) per occurrence |
| PriceForm.CleanPrice | products/forms.py:29-36 | The price is accepted exactly when its normalised text is a decimal literal. A refusal carries the form's message. An accepted price has the value of the literal its normalised text spells, has at most one comma, and with no comma has no decimal places |
| PriceForm.CleanPriceOfLiteral | products/forms.py:32-34 | A price whose normalised text is a literal is accepted with exactly that literal's value |
| PriceForm.FormatRoundTrip | products/forms.py:29-36 | Every decimal, including a negative one, typed with `.` thousands groups and a `,` decimal part, is read back exactly. There is no sign or range check |
| PriceForm.AcceptedHasDigit | products/forms.py:34-36 | An accepted price contains at least one digit, so empty and digit-free input is refused |
| PriceForm.AcceptedAlphabet | products/forms.py:33-36 | An accepted price contains only digits, `+`, `-`, `.` and `,` |
| PriceForm.NoCommaDropsPoints | products/forms.py:33-34 | Without a comma, normalising only deletes points, and an accepted price is a whole number |
| PriceForm.PlaceholderExample | products/forms.py:8-36 | The placeholder-style input `55,99` is accepted as 55.99 |
| PriceForm.GroupedPrice | products/forms.py:32-34 | A price written with one thousands point and a decimal comma, like `1.234,56`, is accepted with the digits on both sides of the point run together and the digits after the comma as its places |
| PriceForm.PointTypedExample | products/forms.py:33-34 | `55.99` is accepted as 5599, because the point is dropped as a thousands mark |
| PriceForm.NegativeExample | products/forms.py:33-34 | `-5,00` is accepted as −5.00 |
| PriceForm.TwoCommasExample | products/forms.py:33-36 | A price with two commas is refused |
| PriceForm.NoDigitExamples | products/forms.py:34-36 | `""` and `abc` are refused with the validation error |
| PriceForm.GroupDropsToDigits | products/forms.py:32-33 | Deleting the thousands marks of a grouped digit string gives the digits back |
| Catalog.ContainsIgnoringCaseMeaning | products/views.py:58-61 | `icontains` answers yes exactly when the case-folded pattern occurs at some position of the case-folded text |
| Catalog.ContainsMeaning | products/views.py:58-61 | The substring search answers yes exactly when the pattern occurs at some position |
| Catalog.ApplyIsSelect | products/views.py:56-73 | Chaining the filters one after another selects exactly the products that pass all of them, in catalogue order |
| Catalog.KeepIsSelect | products/views.py:56-73 | One `.filter(...)` call keeps exactly the products that pass its restriction, in catalogue order |
| Catalog.ApplyOrderIrrelevant | products/views.py:56-73 | Two chains of `.filter(...)` calls with the same restrictions, in any order or repeated, keep the same products in the same order |
| Catalog.SelectMembers | products/views.py:56-73 | The selection holds exactly the passing products, each as many times as in the catalogue |
| Catalog.PlanMeaning | products/views.py:56-73 | The chained restrictions ask exactly this: the scope holds, and a non-empty `q` is in the name or the description (ignoring case). `public`/`private` fix visibility and any other status asks nothing. Each set bound holds |
| Catalog.Insert | products/views.py:75 | Inserting into a newest-first list keeps it newest first and adds exactly the one product |
| Catalog.SortNewest | products/views.py:75 | Ordering by `-created_at` returns the same products (as a multiset), newest first |
| Catalog.StatsConcat | products/views.py:77-81 | The count, the stock total and the value total of two lists put together are the sums of theirs, so each statistic adds up product by product |
| Catalog.StatsSingle | products/views.py:77-81 | One product counts once, contributes its stock, and contributes its price times its stock |
| Catalog.StatsSortNewest | products/views.py:75-82 | Ordering does not change the count, the stock total or the value total |
| Catalog.Query | products/views.py:56-82 | A listed product is one that passes every restriction. The list is newest first and a permutation of the selection, and its statistics are those of that same selection |
| StickyFilters.Resolve | products/views.py:17-44 | For each of the six keys, a key in the request wins even when empty. Otherwise the stored value is used, or `""` |
| StickyFilters.ToMap | products/views.py:47-54 | The dictionary stored has exactly the six keys, each holding its effective value |
| StickyFilters.StoredRoundTrip | products/views.py:17-54 | A request without filter keys reads back exactly the filters that were stored |
| StickyFilters.ResolveIdempotent | products/views.py:19-54 | Resolving the same request again against what it stored gives the same filters |
| StickyFilters.FullRequestIgnoresStored | products/views.py:19-44 | A request that has all six keys decides the filters whatever was stored |
| StickyFilters.FreshSession | products/views.py:17-44 | With nothing stored, each filter is the request's value or empty |
| StickyFilters.OtherParamsIgnored | products/views.py:19-44 | Request parameters other than the six never affect the filters |
| StickyFilters.StickyExample | products/views.py:19-44 | Stored `q=a, status=public` plus a request with only `status=private` gives `q=a, status=private` |
| StickyFilters.EmptyValueOverrides | products/views.py:19 | An explicitly empty `q` in the request replaces a stored one |
| Views.ToCriteria | products/views.py:66-73 | Search text and status pass through unchanged. An empty bound is unset, and a non-empty bound becomes its number. The request fails exactly when a non-empty bound cannot be read |
| Views.ProductList | products/views.py:9-97 | `clear` drops the stored filters and redirects with no listing. Otherwise the page's filters are the sticky resolution of the request against the stored filters, and a listing stores exactly those six values back. A failure happens exactly for an unreadable bound and leaves the session as it was. A listing holds only the user's own products, newest first, with statistics over the listed products. Theme and view mode are never touched |
| Views.DashboardContents | products/views.py:56-82 | The dashboard lists exactly the user's own products that match the filters, with each one's catalogue multiplicity, and statistics over exactly that set |
| Views.OtherStatusNoRestriction | products/views.py:62-65 | A status other than `public` or `private` does not depend on a product's visibility |
| Views.ClearThenList | products/views.py:11-56 | After `clear`, a request with no parameters uses empty filters and only the ownership restriction, so it lists every product of the user |
| Views.ProductListRepeat | products/views.py:17-82 | Repeating a dashboard request against the session it produced gives the same page and the same session |
| Views.ProductListSticky | products/views.py:17-82 | After a listing, coming back with no parameters gives the same page and session. After an unreadable bound, it gives what the filters stored before that request give |
| Views.FiveProductScenario | products/views.py:17-82 | For any user who owns five products (public at 5, 15 and 25, plus two private) and has nothing stored, a request for `status=public, min_price=10, q=` gives the filters `("", public, 10, "", "", "")` and lists the 25 then the 15 product |
| Views.PublicProductList | products/views.py:190-223 | The catalogue lists only public products from the collection, newest first, with statistics over the listed products. It fails exactly when a bound from the request cannot be read, and it takes and returns no session |
| Views.CatalogFiltersFresh | products/views.py:194-213 | The catalogue reads `q` and the four bounds from the request as the dashboard would with nothing stored (absent means empty), and never reads a status |
| Views.CatalogContents | products/views.py:190-223 | The catalogue lists exactly the public products that match the request's text, price and stock filters, each as many times as in the collection, and its statistics are those of exactly that selection |
| Views.CatalogIgnoresStatus | products/views.py:190-214 | A `status` parameter does not change the catalogue |
| Views.ProductDetail | products/views.py:148-156 | Access is denied, with the permission message, exactly when the product is private and not owned by the requester. Otherwise that same product is shown |
| Views.CatalogProductsOpen | products/views.py:152-154 | Any product the public catalogue lists can be opened by any requester |
| Views.DashboardProductsOpen | products/views.py:152-154 | Any product on a user's dashboard can be opened by that user |
| Views.PrivateProductsStayPrivate | products/views.py:152-154 | A private product is shown only to its owner, and a private product with no owner is shown to nobody |
| Views.ToggleTheme | products/views.py:242-250 | The new theme is `light` or `dark` and always differs from the current one (missing counts as `light`). It is `dark` exactly when the current theme is `light`. A signed-in user's profile gets the same theme, an anonymous visitor's nothing, and the rest of the session is unchanged |
| Views.ToggleThemeInvolution | products/views.py:243-245 | On `light` and `dark`, toggling twice gives the original theme back |
| Views.SetViewMode | products/views.py:266-268 | `grid` and `table` are stored. Any other mode leaves the session as it was, and nothing but the view mode ever changes |
| Views.ViewModeStaysValid | products/views.py:266-268 | Starting from a session whose view mode is absent, `grid` or `table`, every series of requests keeps it so |
| Views.SetViewModeIdempotent | products/views.py:266-268 | Setting the same mode twice is the same as setting it once |

## Left out

- Django machinery is not modelled: the ORM, `get_object_or_404`, `render`, `messages`, `redirect`, `@login_required`, templates and redirect targets (`HTTP_REFERER`). A handler's result is a datatype naming the outcome. Product lookup by primary key is also left out: `ProductDetail` receives the product already found.
- PriceForm.CleanPrice: `Decimal` also accepts exponents (`1e3`), `NaN`, `Infinity`, underscores between digits, non-ASCII digits and surrounding whitespace. The model refuses all of these, so it is weaker than the source for such input.
- PriceForm.CleanPrice: the form field runs first. It strips whitespace and refuses an empty value with Django's "required" error. The model applies `clean_price` to the text as given, so empty input is refused with the price message instead.
- Decimals.ParseInt: a stock bound is read by Python's `int()`, which also accepts surrounding whitespace, underscores between digits and non-ASCII digits. The model accepts only an optional sign followed by ASCII digits.
- Views.ToCriteria: the database layer's coercion of string bounds is library code. The model reads price bounds with the decimal grammar above and stock bounds as a signed digit string. Python's `int()` also accepts surrounding whitespace, underscores between digits and non-ASCII digits in a stock bound; the model refuses these as unreadable bounds, so `Decimals.ParseInt` is weaker than `int()` on them. An unreadable bound fails the request. The session the view had assigned is then discarded, as Django's session middleware does on a server error; that middleware is not part of this model.
- Catalog.ContainsIgnoringCase: `icontains` folds case by the database's rules. The model folds only ASCII letters.
- Catalog.SortNewest: the database does not fix an order among products created at the same instant. The model keeps catalogue order for them.
- The price and stock limits of the model field (ten digits, two places) are enforced by model validation, not by `clean_price`. Prices are exact reals in `Catalog.Product`.
- The signals in products/models.py (creating a profile for a new user, loading the theme on login) are persistence side effects. `ToggleTheme` takes the signed-in user's profile theme as an `Option` argument instead. A signed-in user without a profile (an error in the source) is not modelled.
- `profile_view`, `delete_account_view`, `logout_view`, `product_create`, `product_update` and `product_delete` only read and write the database and session. `product_create` and `product_update` validate the price with `CleanPrice` and leave the other fields (name, description, stock, visibility) to Django's form validation. The other four use no form.
- Query parameters with repeated keys are not modelled: the request is a dictionary holding one value per key, the value `request.GET.get` returns.
