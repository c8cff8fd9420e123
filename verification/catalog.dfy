/** The product collection and the query pipeline the list views build over it
    (products/models.py for the record, products/views.py for the filters, the
    ordering by creation date and the dashboard statistics). */
module Catalog {
  import opened Wrappers

  type UserId = nat

  /** A product row. `owner` is `None` for a product without a user; `price` is exact. */
  datatype Product = Product(
    id: nat,
    owner: Option<UserId>,
    name: string,
    description: string,
    price: real,
    stock: int,
    isPublic: bool,
    createdAt: int,
    updatedAt: int)

  // ---------------------------------------------------------------------------
  // Case-insensitive text search (`icontains`), on ASCII letters

  function Lower(c: char): char {
    if 'A' <= c <= 'Z' then (c as int + 32) as char else c
  }

  function LowerText(s: string): string {
    seq(|s|, i requires 0 <= i < |s| => Lower(s[i]))
  }

  /** `pattern` occurs in `text` starting at position `i`. */
  predicate OccursAt(text: string, pattern: string, i: int) {
    0 <= i <= |text| && pattern <= text[i..]
  }

  /** Substring search, trying each starting position from the left. */
  function Contains(text: string, pattern: string): bool {
    pattern <= text || (text != [] && Contains(text[1..], pattern))
  }

  /** The search answers yes exactly when the pattern occurs somewhere. */
  lemma {:induction false} ContainsMeaning(text: string, pattern: string)
    ensures Contains(text, pattern) <==> exists i :: OccursAt(text, pattern, i)
  {
    if pattern <= text {
      assert text[0..] == text;
      assert OccursAt(text, pattern, 0);
    }
    if text == [] {
      if exists i :: OccursAt(text, pattern, i) {
        var i :| OccursAt(text, pattern, i);
        assert i == 0 && text[i..] == text;
      }
    } else {
      ContainsMeaning(text[1..], pattern);
      if !(pattern <= text) && Contains(text[1..], pattern) {
        var j :| OccursAt(text[1..], pattern, j);
        assert text[1..][j..] == text[j + 1..];
        assert OccursAt(text, pattern, j + 1);
      }
      if exists i :: OccursAt(text, pattern, i) {
        var i :| OccursAt(text, pattern, i);
        if i > 0 {
          assert text[1..][i - 1..] == text[i..];
          assert OccursAt(text[1..], pattern, i - 1);
        } else {
          assert text[i..] == text;
        }
      }
    }
  }

  /** Django's `icontains`, with case folded on ASCII letters only. */
  predicate ContainsIgnoringCase(text: string, pattern: string) {
    Contains(LowerText(text), LowerText(pattern))
  }

  /** `icontains` answers yes exactly when the folded pattern occurs somewhere in the
      folded text. */
  lemma ContainsIgnoringCaseMeaning(text: string, pattern: string)
    ensures ContainsIgnoringCase(text, pattern)
            <==> exists i :: OccursAt(LowerText(text), LowerText(pattern), i)
  {
    ContainsMeaning(LowerText(text), LowerText(pattern));
  }

  // ---------------------------------------------------------------------------
  // Restrictions: one per `.filter(...)` call of the views

  datatype Restriction =
    | OwnedBy(user: UserId)
    | Visibility(isPublic: bool)
    | TextContains(q: string)
    | PriceAtLeast(minPrice: real)
    | PriceAtMost(maxPrice: real)
    | StockAtLeast(minStock: int)
    | StockAtMost(maxStock: int)

  /** Whether a product passes one restriction; the text search is the OR of the
      name and the description lookups. */
  predicate Holds(r: Restriction, p: Product) {
    match r
    case OwnedBy(u) => p.owner == Some(u)
    case Visibility(b) => p.isPublic == b
    case TextContains(q) => ContainsIgnoringCase(p.name, q) || ContainsIgnoringCase(p.description, q)
    case PriceAtLeast(m) => p.price >= m
    case PriceAtMost(m) => p.price <= m
    case StockAtLeast(m) => p.stock >= m
    case StockAtMost(m) => p.stock <= m
  }

  /** A product passes every restriction of the list. */
  predicate Admits(rs: seq<Restriction>, p: Product) {
    forall i | 0 <= i < |rs| :: Holds(rs[i], p)
  }

  /** The products passing every restriction, in catalogue order: the reference the
      chained filters are compared against. */
  function Select(ps: seq<Product>, rs: seq<Restriction>): seq<Product> {
    if ps == [] then []
    else (if Admits(rs, ps[0]) then [ps[0]] else []) + Select(ps[1..], rs)
  }

  /** One `.filter(...)` call: keeps the products passing `r`, in order. */
  function Keep(ps: seq<Product>, r: Restriction): seq<Product> {
    if ps == [] then []
    else (if Holds(r, ps[0]) then [ps[0]] else []) + Keep(ps[1..], r)
  }

  lemma {:induction false} KeepConcat(a: seq<Product>, b: seq<Product>, r: Restriction)
    ensures Keep(a + b, r) == Keep(a, r) + Keep(b, r)
  {
    if a == [] {
      assert a + b == b;
    } else {
      var head := if Holds(r, a[0]) then [a[0]] else [];
      assert (a + b)[0] == a[0] && (a + b)[1..] == a[1..] + b;
      assert Keep(a + b, r) == head + Keep(a[1..] + b, r);
      KeepConcat(a[1..], b, r);
      assert Keep(a, r) == head + Keep(a[1..], r);
    }
  }

  lemma KeepSingle(p: Product, r: Restriction)
    ensures Keep([p], r) == if Holds(r, p) then [p] else []
  {
    assert [p][1..] == [];
  }

  /** A filter every product passes keeps the collection as it is. */
  lemma {:induction false} KeepAll(ps: seq<Product>, r: Restriction)
    requires forall p | p in ps :: Holds(r, p)
    ensures Keep(ps, r) == ps
  {
    if ps != [] {
      KeepAll(ps[1..], r);
      assert [ps[0]] + ps[1..] == ps;
    }
  }

  /** The chain `ps.filter(r1).filter(r2)...`, applied in the order given. */
  function Apply(rs: seq<Restriction>, ps: seq<Product>): seq<Product>
    decreases |rs|
  {
    if rs == [] then ps else Apply(rs[1..], Keep(ps, rs[0]))
  }

  lemma {:induction false} SelectKeep(ps: seq<Product>, r: Restriction, rs: seq<Restriction>)
    ensures Select(Keep(ps, r), rs) == Select(ps, [r] + rs)
  {
    if ps != [] {
      SelectKeep(ps[1..], r, rs);
      var head := if Holds(r, ps[0]) then [ps[0]] else [];
      SelectConcat(head, Keep(ps[1..], r), rs);
      assert Admits([r] + rs, ps[0]) <==> Holds(r, ps[0]) && Admits(rs, ps[0]) by {
        if Holds(r, ps[0]) && Admits(rs, ps[0]) {
          forall i | 0 <= i < |[r] + rs| ensures Holds(([r] + rs)[i], ps[0]) {
            if i > 0 { assert ([r] + rs)[i] == rs[i - 1]; }
          }
        }
        if Admits([r] + rs, ps[0]) {
          assert Holds(([r] + rs)[0], ps[0]);
          forall i | 0 <= i < |rs| ensures Holds(rs[i], ps[0]) {
            assert ([r] + rs)[i + 1] == rs[i];
          }
        }
      }
      if Holds(r, ps[0]) {
        assert head[1..] == [];
        assert Select(head, rs) == (if Admits(rs, ps[0]) then [ps[0]] else []);
      }
    }
  }

  lemma {:induction false} SelectConcat(a: seq<Product>, b: seq<Product>, rs: seq<Restriction>)
    ensures Select(a + b, rs) == Select(a, rs) + Select(b, rs)
  {
    if a == [] {
      assert a + b == b;
    } else {
      var head := if Admits(rs, a[0]) then [a[0]] else [];
      assert (a + b)[0] == a[0] && (a + b)[1..] == a[1..] + b;
      assert Select(a + b, rs) == head + Select(a[1..] + b, rs);
      SelectConcat(a[1..], b, rs);
      assert Select(a, rs) == head + Select(a[1..], rs);
    }
  }

  /** Chaining the filters one after the other selects exactly the products that pass
      all of them, whatever their order. */
  lemma {:induction false} ApplyIsSelect(rs: seq<Restriction>, ps: seq<Product>)
    ensures Apply(rs, ps) == Select(ps, rs)
    decreases |rs|
  {
    if rs == [] {
      SelectAll(ps);
    } else {
      ApplyIsSelect(rs[1..], Keep(ps, rs[0]));
      SelectKeep(ps, rs[0], rs[1..]);
      assert [rs[0]] + rs[1..] == rs;
    }
  }

  lemma {:induction false} SelectAll(ps: seq<Product>)
    ensures Select(ps, []) == ps
  {
    if ps != [] {
      SelectAll(ps[1..]);
      assert [ps[0]] + ps[1..] == ps;
    }
  }

  /** One `.filter(...)` call selects by its single restriction: it keeps exactly the
      products passing it, in catalogue order. */
  lemma KeepIsSelect(ps: seq<Product>, r: Restriction)
    ensures Keep(ps, r) == Select(ps, [r])
    ensures forall p :: p in Keep(ps, r) <==> p in ps && Holds(r, p)
  {
    ApplyIsSelect([r], ps);
    assert Apply([r], ps) == Apply([], Keep(ps, r));
    SelectMembers(ps, [r]);
    assert forall p :: Admits([r], p) <==> Holds(r, p) by {
      forall p ensures Admits([r], p) <==> Holds(r, p) {
        assert [r][0] == r;
      }
    }
  }

  /** Selecting by two lists that admit the same products gives the same products. */
  lemma {:induction false} SelectSameAdmits(ps: seq<Product>, rs1: seq<Restriction>, rs2: seq<Restriction>)
    requires forall p :: Admits(rs1, p) <==> Admits(rs2, p)
    ensures Select(ps, rs1) == Select(ps, rs2)
  {
    if ps != [] {
      SelectSameAdmits(ps[1..], rs1, rs2);
    }
  }

  /** A product passes a list of restrictions exactly when it passes each restriction in it. */
  lemma AdmitsEach(rs: seq<Restriction>, p: Product)
    ensures Admits(rs, p) <==> forall r | r in rs :: Holds(r, p)
  {
    if Admits(rs, p) {
      forall r | r in rs ensures Holds(r, p) {
        var i :| 0 <= i < |rs| && rs[i] == r;
      }
    }
  }

  /** The order of the `.filter(...)` calls, and repeating one, does not change the result:
      two chains with the same restrictions keep the same products in the same order. */
  lemma ApplyOrderIrrelevant(rs1: seq<Restriction>, rs2: seq<Restriction>, ps: seq<Product>)
    requires forall r :: r in rs1 <==> r in rs2
    ensures Apply(rs1, ps) == Apply(rs2, ps)
  {
    ApplyIsSelect(rs1, ps);
    ApplyIsSelect(rs2, ps);
    forall p ensures Admits(rs1, p) <==> Admits(rs2, p) {
      AdmitsEach(rs1, p);
      AdmitsEach(rs2, p);
    }
    SelectSameAdmits(ps, rs1, rs2);
  }

  /** The selection holds exactly the products that pass, each as often as in the catalogue. */
  lemma {:induction false} SelectMembers(ps: seq<Product>, rs: seq<Restriction>)
    ensures forall p :: p in Select(ps, rs) <==> p in ps && Admits(rs, p)
    ensures forall p :: Admits(rs, p) ==> multiset(Select(ps, rs))[p] == multiset(ps)[p]
    ensures forall p :: !Admits(rs, p) ==> multiset(Select(ps, rs))[p] == 0
  {
    if ps != [] {
      SelectMembers(ps[1..], rs);
      assert ps == [ps[0]] + ps[1..];
    }
  }

  // ---------------------------------------------------------------------------
  // From filter values to restrictions

  /** The filters of a list view with the bounds already read as numbers; `None` is an
      unset bound and `""` an unset text search or status. */
  datatype Criteria = Criteria(
    q: string,
    status: string,
    minPrice: Option<real>,
    maxPrice: Option<real>,
    minStock: Option<int>,
    maxStock: Option<int>)

  /** What the filters ask of one product, read declaratively: a non-empty text occurs in
      the name or the description, the status `public` or `private` fixes the visibility
      (any other status asks nothing), and each set bound holds. */
  predicate Matches(c: Criteria, p: Product) {
    && (c.q != "" ==> ContainsIgnoringCase(p.name, c.q) || ContainsIgnoringCase(p.description, c.q))
    && (c.status == "public" ==> p.isPublic)
    && (c.status == "private" ==> !p.isPublic)
    && (c.minPrice.Some? ==> p.price >= c.minPrice.value)
    && (c.maxPrice.Some? ==> p.price <= c.maxPrice.value)
    && (c.minStock.Some? ==> p.stock >= c.minStock.value)
    && (c.maxStock.Some? ==> p.stock <= c.maxStock.value)
  }

  function TextStage(c: Criteria): seq<Restriction> {
    if c.q != "" then [TextContains(c.q)] else []
  }

  function StatusStage(c: Criteria): seq<Restriction> {
    if c.status == "public" then [Visibility(true)]
    else if c.status == "private" then [Visibility(false)]
    else []
  }

  function PriceStage(c: Criteria): seq<Restriction> {
    (if c.minPrice.Some? then [PriceAtLeast(c.minPrice.value)] else [])
    + (if c.maxPrice.Some? then [PriceAtMost(c.maxPrice.value)] else [])
  }

  function StockStage(c: Criteria): seq<Restriction> {
    (if c.minStock.Some? then [StockAtLeast(c.minStock.value)] else [])
    + (if c.maxStock.Some? then [StockAtMost(c.maxStock.value)] else [])
  }

  /** The restrictions a list view chains, in the views' order: the scope first, then text,
      status, price and stock, each only when its filter is set. */
  function Plan(scope: Restriction, c: Criteria): seq<Restriction> {
    [scope] + TextStage(c) + StatusStage(c) + PriceStage(c) + StockStage(c)
  }

  lemma AdmitsConcat(a: seq<Restriction>, b: seq<Restriction>, p: Product)
    ensures Admits(a + b, p) <==> Admits(a, p) && Admits(b, p)
  {
    if Admits(a, p) && Admits(b, p) {
      forall i | 0 <= i < |a + b| ensures Holds((a + b)[i], p) {
        if i >= |a| { assert (a + b)[i] == b[i - |a|]; }
      }
    }
    if Admits(a + b, p) {
      forall i | 0 <= i < |a| ensures Holds(a[i], p) {
        assert (a + b)[i] == a[i];
      }
      forall i | 0 <= i < |b| ensures Holds(b[i], p) {
        assert (a + b)[|a| + i] == b[i];
      }
    }
  }

  lemma AdmitsOne(r: Restriction, p: Product)
    ensures Admits([r], p) <==> Holds(r, p)
  {
    assert [r][0] == r;
  }

  lemma AdmitsOptional(present: bool, r: Restriction, p: Product)
    ensures Admits(if present then [r] else [], p) <==> (present ==> Holds(r, p))
  {
    if present { AdmitsOne(r, p); }
  }

  lemma StagesMeaning(c: Criteria, p: Product)
    ensures Admits(TextStage(c), p)
        <==> (c.q != "" ==> ContainsIgnoringCase(p.name, c.q) || ContainsIgnoringCase(p.description, c.q))
    ensures Admits(StatusStage(c), p)
        <==> (c.status == "public" ==> p.isPublic) && (c.status == "private" ==> !p.isPublic)
    ensures Admits(PriceStage(c), p)
        <==> (c.minPrice.Some? ==> p.price >= c.minPrice.value) && (c.maxPrice.Some? ==> p.price <= c.maxPrice.value)
    ensures Admits(StockStage(c), p)
        <==> (c.minStock.Some? ==> p.stock >= c.minStock.value) && (c.maxStock.Some? ==> p.stock <= c.maxStock.value)
  {
    AdmitsOptional(c.q != "", TextContains(c.q), p);
    if c.status == "public" { AdmitsOne(Visibility(true), p); }
    if c.status == "private" { AdmitsOne(Visibility(false), p); }
    var lo := if c.minPrice.Some? then [PriceAtLeast(c.minPrice.value)] else [];
    var hi := if c.maxPrice.Some? then [PriceAtMost(c.maxPrice.value)] else [];
    if c.minPrice.Some? { AdmitsOne(PriceAtLeast(c.minPrice.value), p); }
    if c.maxPrice.Some? { AdmitsOne(PriceAtMost(c.maxPrice.value), p); }
    AdmitsConcat(lo, hi, p);
    var slo := if c.minStock.Some? then [StockAtLeast(c.minStock.value)] else [];
    var shi := if c.maxStock.Some? then [StockAtMost(c.maxStock.value)] else [];
    if c.minStock.Some? { AdmitsOne(StockAtLeast(c.minStock.value), p); }
    if c.maxStock.Some? { AdmitsOne(StockAtMost(c.maxStock.value), p); }
    AdmitsConcat(slo, shi, p);
  }

  /** The chained restrictions ask exactly the scope and what the filters ask. */
  lemma PlanMeaning(scope: Restriction, c: Criteria, p: Product)
    ensures Admits(Plan(scope, c), p) <==> Holds(scope, p) && Matches(c, p)
  {
    AdmitsOne(scope, p);
    StagesMeaning(c, p);
    AdmitsConcat([scope], TextStage(c), p);
    AdmitsConcat([scope] + TextStage(c), StatusStage(c), p);
    AdmitsConcat([scope] + TextStage(c) + StatusStage(c), PriceStage(c), p);
    AdmitsConcat([scope] + TextStage(c) + StatusStage(c) + PriceStage(c), StockStage(c), p);
  }

  // ---------------------------------------------------------------------------
  // Ordering by `-created_at`

  predicate NewestFirst(ps: seq<Product>) {
    forall i, j | 0 <= i < j < |ps| :: ps[i].createdAt >= ps[j].createdAt
  }

  /** Every product of `ps` is at most as new as `t`. */
  predicate NoNewerThan(t: int, ps: seq<Product>) {
    forall q | q in ps :: q.createdAt <= t
  }

  lemma PrependNewest(x: Product, ps: seq<Product>)
    requires NewestFirst(ps) && NoNewerThan(x.createdAt, ps)
    ensures NewestFirst([x] + ps)
  {
    var r := [x] + ps;
    forall i, j | 0 <= i < j < |r| ensures r[i].createdAt >= r[j].createdAt {
      assert r[j] == ps[j - 1];
      if i > 0 { assert r[i] == ps[i - 1]; }
    }
  }

  lemma TailNewest(ps: seq<Product>)
    requires NewestFirst(ps) && ps != []
    ensures NewestFirst(ps[1..])
  {
    var tail := ps[1..];
    forall i, j | 0 <= i < j < |tail| ensures tail[i].createdAt >= tail[j].createdAt {
      assert tail[i] == ps[i + 1] && tail[j] == ps[j + 1];
    }
  }

  /** In a newest-first list nothing is newer than the head. */
  lemma HeadNewest(t: int, ps: seq<Product>)
    requires NewestFirst(ps) && ps != [] && ps[0].createdAt <= t
    ensures NoNewerThan(t, ps)
  {
    forall q | q in ps ensures q.createdAt <= t {
      var j :| 0 <= j < |ps| && ps[j] == q;
      if j > 0 { assert ps[0].createdAt >= ps[j].createdAt; }
    }
  }

  /** Adding a product no newer than `t` to products no newer than `t`. */
  lemma StillNoNewer(t: int, p: Product, ps: seq<Product>, r: seq<Product>)
    requires NoNewerThan(t, ps) && p.createdAt <= t
    requires forall q | q in r :: q == p || q in ps
    ensures NoNewerThan(t, r)
  {
  }

  /** Inserts a product before the first one that is not newer. */
  function Insert(p: Product, ps: seq<Product>): (r: seq<Product>)
    requires NewestFirst(ps)
    ensures NewestFirst(r)
    ensures multiset(r) == multiset(ps) + multiset{p}
    ensures forall q | q in r :: q == p || q in ps
  {
    if ps == [] then [p]
    else if p.createdAt >= ps[0].createdAt then
      HeadNewest(p.createdAt, ps);
      PrependNewest(p, ps);
      [p] + ps
    else
      var tail := ps[1..];
      assert ps == [ps[0]] + tail;
      TailNewest(ps);
      var rest := Insert(p, tail);
      HeadNewest(ps[0].createdAt, ps);
      assert NoNewerThan(ps[0].createdAt, tail);
      StillNoNewer(ps[0].createdAt, p, tail, rest);
      PrependNewest(ps[0], rest);
      assert multiset([ps[0]] + rest) == multiset{ps[0]} + multiset(rest);
      assert multiset(ps) == multiset{ps[0]} + multiset(tail);
      [ps[0]] + rest
  }

  /** `order_by("-created_at")`: the same products, newest first. Products created at the
      same instant keep their catalogue order. */
  function SortNewest(ps: seq<Product>): (r: seq<Product>)
    ensures NewestFirst(r)
    ensures multiset(r) == multiset(ps)
  {
    if ps == [] then []
    else
      assert ps == [ps[0]] + ps[1..];
      Insert(ps[0], SortNewest(ps[1..]))
  }

  // ---------------------------------------------------------------------------
  // Dashboard statistics

  datatype Stats = Stats(totalCount: nat, totalStock: int, totalValue: real)

  function TotalStock(ps: seq<Product>): int {
    if ps == [] then 0 else ps[0].stock + TotalStock(ps[1..])
  }

  /** What the units in stock of one product are worth. */
  function StockValue(p: Product): real {
    p.price * p.stock as real
  }

  /** The sum of price times stock. */
  function TotalValue(ps: seq<Product>): real {
    if ps == [] then 0.0 else StockValue(ps[0]) + TotalValue(ps[1..])
  }

  function StatsOf(ps: seq<Product>): Stats {
    Stats(|ps|, TotalStock(ps), TotalValue(ps))
  }

  lemma {:induction false} StatsInsert(p: Product, ps: seq<Product>)
    requires NewestFirst(ps)
    ensures TotalStock(Insert(p, ps)) == p.stock + TotalStock(ps)
    ensures TotalValue(Insert(p, ps)) == StockValue(p) + TotalValue(ps)
  {
    if ps == [] {
      assert Insert(p, ps) == [p];
      assert [p][1..] == [];
    } else if p.createdAt >= ps[0].createdAt {
      assert Insert(p, ps) == [p] + ps;
      assert ([p] + ps)[1..] == ps;
    } else {
      TailNewest(ps);
      var rest := Insert(p, ps[1..]);
      assert Insert(p, ps) == [ps[0]] + rest;
      assert ([ps[0]] + rest)[1..] == rest;
      StatsInsert(p, ps[1..]);
    }
  }

  /** The statistics of two lists put together are the sums of theirs: the count, the
      stock total and the value total each add up product by product. */
  lemma {:induction false} StatsConcat(a: seq<Product>, b: seq<Product>)
    ensures StatsOf(a + b) == Stats(|a| + |b|, TotalStock(a) + TotalStock(b), TotalValue(a) + TotalValue(b))
  {
    if a == [] {
      assert a + b == b;
    } else {
      assert (a + b)[0] == a[0] && (a + b)[1..] == a[1..] + b;
      StatsConcat(a[1..], b);
    }
  }

  /** The statistics of one product: a count of one, its stock, and its stock's value. */
  lemma StatsSingle(p: Product)
    ensures StatsOf([p]) == Stats(1, p.stock, p.price * p.stock as real)
  {
    assert [p][1..] == [];
    assert TotalStock([p]) == p.stock + TotalStock([]);
    assert TotalValue([p]) == StockValue(p) + TotalValue([]);
  }

  /** Sorting does not change the statistics. */
  lemma {:induction false} StatsSortNewest(ps: seq<Product>)
    ensures StatsOf(SortNewest(ps)) == StatsOf(ps)
  {
    var r := SortNewest(ps);
    assert |r| == |multiset(r)| == |multiset(ps)| == |ps|;
    if ps != [] {
      StatsSortNewest(ps[1..]);
      StatsInsert(ps[0], SortNewest(ps[1..]));
    }
  }

  // ---------------------------------------------------------------------------
  // A list query: chained filters, ordering, statistics

  /** What a list page shows: the products and the statistics computed over them. */
  datatype ListView = ListView(products: seq<Product>, stats: Stats)

  /** Two products in catalogue order, the second newer, are listed the other way round. */
  lemma SortTwo(a: Product, b: Product)
    requires a.createdAt < b.createdAt
    ensures SortNewest([a, b]) == [b, a]
  {
    assert [a, b][1..] == [b];
    assert [b][1..] == [];
    assert SortNewest([b]) == Insert(b, []) == [b];
    assert Insert(a, [b]) == [b] + Insert(a, []);
  }

  /** Filters `db` by the restrictions in order, sorts newest first, and summarises the
      result. The page lists exactly the products that pass every restriction, each once
      per catalogue occurrence, and its statistics are those of that very selection. */
  function Query(rs: seq<Restriction>, db: seq<Product>): (v: ListView)
    ensures NewestFirst(v.products)
    ensures multiset(v.products) == multiset(Select(db, rs))
    ensures forall p :: p in v.products <==> p in db && Admits(rs, p)
    ensures v.stats == StatsOf(Select(db, rs))
    ensures v.stats == StatsOf(v.products)
  {
    var chosen := Apply(rs, db);
    ApplyIsSelect(rs, db);
    SelectMembers(db, rs);
    StatsSortNewest(chosen);
    var sorted := SortNewest(chosen);
    assert forall p :: p in sorted <==> p in multiset(chosen);
    ListView(sorted, StatsOf(sorted))
  }
}
