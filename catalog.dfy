/** The catalog the builder edits: products, each with its payment methods
    and its priced durations, and the list operations both implementations
    (the React component and the DOM script) perform on them. */
module Catalog {
  import opened Wrappers
  import opened Text
  import opened Seqs
  import opened DurationParser

  /** One priced duration of a product; `duration` is what the duration
      parser returned ("lifetime" or a digit string). */
  datatype Duration = Duration(id: string, duration: string, price: string, url: string)

  datatype Product = Product(
    id: string,
    name: string,
    imageUrl: string,
    payments: seq<string>,
    durations: seq<Duration>)

  // ---------------------------------------------------------------------
  // Payment lists

  /** `list.filter((p) => p !== x)`. */
  function Without(list: seq<string>, x: string): (r: seq<string>)
    ensures forall y :: y in r <==> y in list && y != x
  {
    var keep := (y: string) => y != x;
    KeepMembers(list, keep);
    Keep(list, keep)
  }

  /** `list.includes(x) ? list.filter((p) => p !== x) : [...list, x]`. */
  function Toggle(list: seq<string>, x: string): (r: seq<string>)
    ensures x in r <==> x !in list
    ensures forall y :: y != x ==> (y in r <==> y in list)
  {
    if x in list then Without(list, x) else list + [x]
  }

  /** Removing an element that is not there changes nothing. */
  lemma WithoutAbsent(list: seq<string>, x: string)
    requires x !in list
    ensures Without(list, x) == list
  {
    KeepAll(list, (y: string) => y != x);
  }

  /** Toggling keeps a duplicate-free list duplicate-free. */
  lemma ToggleDistinct(list: seq<string>, x: string)
    requires Distinct(list)
    ensures Distinct(Toggle(list, x))
  {
    if x in list {
      KeepDistinct(list, (y: string) => y != x);
    }
  }

  /** Toggling touches only `x`: the other entries keep their relative
      order, and a new entry goes at the end. */
  lemma ToggleOthersInOrder(list: seq<string>, x: string)
    ensures Without(Toggle(list, x), x) == Without(list, x)
    ensures x !in list ==> Toggle(list, x) == list + [x]
  {
    var keep := (y: string) => y != x;
    if x in list {
      WithoutAbsent(Without(list, x), x);
    } else {
      KeepConcat(list, [x], keep);
      KeepSingleton(x, keep);
    }
  }

  /** Toggling a new entry twice gives the list back. */
  lemma ToggleTwice(list: seq<string>, x: string)
    requires x !in list
    ensures Toggle(Toggle(list, x), x) == list
  {
    ToggleOthersInOrder(list, x);
    ToggleOthersInOrder(list + [x], x);
    WithoutAbsent(list, x);
  }

  // ---------------------------------------------------------------------
  // Removal by id

  /** `products.filter((product) => product.id !== id)`. */
  function WithoutProduct(ps: seq<Product>, id: string): (r: seq<Product>)
    ensures forall p :: p in r <==> p in ps && p.id != id
  {
    var keep := (p: Product) => p.id != id;
    KeepMembers(ps, keep);
    Keep(ps, keep)
  }

  /** `durations.filter((duration) => duration.id !== id)`. */
  function WithoutDuration(ds: seq<Duration>, id: string): (r: seq<Duration>)
    ensures forall d :: d in r <==> d in ds && d.id != id
  {
    var keep := (d: Duration) => d.id != id;
    KeepMembers(ds, keep);
    Keep(ds, keep)
  }

  predicate IdsDistinct(ps: seq<Product>) {
    forall i, j :: 0 <= i < j < |ps| ==> ps[i].id != ps[j].id
  }

  predicate DurationIdsDistinct(ds: seq<Duration>) {
    forall i, j :: 0 <= i < j < |ds| ==> ds[i].id != ds[j].id
  }

  /** With distinct ids, removing the product at position `i` by its id
      drops exactly that product and keeps the others in order. */
  lemma WithoutProductAt(ps: seq<Product>, i: nat)
    requires IdsDistinct(ps) && i < |ps|
    ensures WithoutProduct(ps, ps[i].id) == ps[..i] + ps[i + 1..]
  {
    KeepDropsOne(ps, (p: Product) => p.id != ps[i].id, i);
  }

  /** The same for the durations of one product. */
  lemma WithoutDurationAt(ds: seq<Duration>, i: nat)
    requires DurationIdsDistinct(ds) && i < |ds|
    ensures WithoutDuration(ds, ds[i].id) == ds[..i] + ds[i + 1..]
  {
    KeepDropsOne(ds, (d: Duration) => d.id != ds[i].id, i);
  }

  /** Removing an id that no product has changes nothing. */
  lemma WithoutProductAbsent(ps: seq<Product>, id: string)
    requires forall i :: 0 <= i < |ps| ==> ps[i].id != id
    ensures WithoutProduct(ps, id) == ps
  {
    KeepAll(ps, (p: Product) => p.id != id);
  }

  // ---------------------------------------------------------------------
  // Lookup and update by id

  /** `products.findIndex((p) => p.id === id)`, with `None` for -1. */
  function FindById(ps: seq<Product>, id: string): (r: Option<nat>)
    ensures r.Some? ==> r.value < |ps| && ps[r.value].id == id
    ensures r.Some? ==> forall j :: 0 <= j < r.value ==> ps[j].id != id
    ensures r.None? <==> forall j :: 0 <= j < |ps| ==> ps[j].id != id
  {
    if ps == [] then None
    else if ps[0].id == id then Some(0)
    else
      match FindById(ps[1..], id)
      case None => None
      case Some(k) => Some(k + 1)
  }

  /** `products.map((product) => product.id === id ? { ...product, payments } : product)`. */
  function SetPaymentsWhere(ps: seq<Product>, id: string, payments: seq<string>): (r: seq<Product>)
    ensures |r| == |ps|
  {
    seq(|ps|, i requires 0 <= i < |ps| => if ps[i].id == id then ps[i].(payments := payments) else ps[i])
  }

  /** `products[i].payments = payments`. */
  function SetPaymentsAt(ps: seq<Product>, i: nat, payments: seq<string>): (r: seq<Product>)
    requires i < |ps|
    ensures |r| == |ps|
  {
    ps[i := ps[i].(payments := payments)]
  }

  /** The React component rewrites every product with the id, the DOM script
      only the first one it finds; with distinct ids (or an unknown id) the
      two agree. */
  lemma SetPaymentsAgree(ps: seq<Product>, id: string, payments: seq<string>)
    requires IdsDistinct(ps)
    ensures match FindById(ps, id)
      case None => SetPaymentsWhere(ps, id, payments) == ps
      case Some(i) => SetPaymentsWhere(ps, id, payments) == SetPaymentsAt(ps, i, payments)
  {
  }

  /** `products[i].durations.push(d)`. */
  function AddDurationAt(ps: seq<Product>, i: nat, d: Duration): (r: seq<Product>)
    requires i < |ps|
    ensures |r| == |ps|
  {
    ps[i := ps[i].(durations := ps[i].durations + [d])]
  }

  /** `products[i].durations = products[i].durations.filter((d) => d.id !== id)`. */
  function RemoveDurationAt(ps: seq<Product>, i: nat, id: string): (r: seq<Product>)
    requires i < |ps|
    ensures |r| == |ps|
  {
    ps[i := ps[i].(durations := WithoutDuration(ps[i].durations, id))]
  }

  /** Every edit of a product's durations or payments changes that one
      product's list and nothing else: the other products, and the id, name
      and image of every product, stay as they were. */
  lemma EditsTouchOneProduct(ps: seq<Product>, i: nat, d: Duration, id: string, payments: seq<string>)
    requires i < |ps|
    ensures forall j :: 0 <= j < |ps| && j != i ==>
      AddDurationAt(ps, i, d)[j] == ps[j] && RemoveDurationAt(ps, i, id)[j] == ps[j]
      && SetPaymentsAt(ps, i, payments)[j] == ps[j]
    ensures AddDurationAt(ps, i, d)[i] == ps[i].(durations := ps[i].durations + [d])
    ensures RemoveDurationAt(ps, i, id)[i] == ps[i].(durations := WithoutDuration(ps[i].durations, id))
    ensures SetPaymentsAt(ps, i, payments)[i] == ps[i].(payments := payments)
    ensures Labels(AddDurationAt(ps, i, d)) == Labels(ps)
    ensures Labels(RemoveDurationAt(ps, i, id)) == Labels(ps)
    ensures Labels(SetPaymentsAt(ps, i, payments)) == Labels(ps)
  {
  }

  /** Rewriting payments by id changes the payments of the products with
      that id and nothing else. */
  lemma SetPaymentsWhereTouchesOnlyId(ps: seq<Product>, id: string, payments: seq<string>)
    ensures forall j :: 0 <= j < |ps| ==>
      && SetPaymentsWhere(ps, id, payments)[j].durations == ps[j].durations
      && SetPaymentsWhere(ps, id, payments)[j].payments == if ps[j].id == id then payments else ps[j].payments
    ensures Labels(SetPaymentsWhere(ps, id, payments)) == Labels(ps)
  {
  }

  // ---------------------------------------------------------------------
  // Names

  /** The id, name and image of every product, in order: what the payment
      and duration edits never change. */
  function Labels(ps: seq<Product>): (r: seq<(string, string, string)>)
    ensures |r| == |ps|
  {
    seq(|ps|, i requires 0 <= i < |ps| => (ps[i].id, ps[i].name, ps[i].imageUrl))
  }

  /** No two products have names that are equal after lower-casing. */
  predicate NamesDistinct(ps: seq<Product>) {
    forall i, j :: 0 <= i < j < |ps| ==> Lower(ps[i].name) != Lower(ps[j].name)
  }

  /** `products.some((p) => p.name.toLowerCase() === name.toLowerCase())`. */
  function HasProductNamed(ps: seq<Product>, name: string): (r: bool)
    ensures r <==> exists i :: 0 <= i < |ps| && Lower(ps[i].name) == Lower(name)
  {
    if ps == [] then false
    else Lower(ps[0].name) == Lower(name) || HasProductNamed(ps[1..], name)
  }

  /** Edits that keep the labels keep the names distinct. */
  lemma LabelsKeepNames(ps: seq<Product>, qs: seq<Product>)
    requires Labels(qs) == Labels(ps) && NamesDistinct(ps)
    ensures NamesDistinct(qs)
  {
    forall i, j | 0 <= i < j < |qs| ensures Lower(qs[i].name) != Lower(qs[j].name) {
      assert Labels(qs)[i] == Labels(ps)[i] && Labels(qs)[j] == Labels(ps)[j];
    }
  }

  /** Edits that keep the labels keep the ids distinct. */
  lemma LabelsKeepIds(ps: seq<Product>, qs: seq<Product>)
    requires Labels(qs) == Labels(ps) && IdsDistinct(ps)
    ensures IdsDistinct(qs)
  {
    forall i, j | 0 <= i < j < |qs| ensures qs[i].id != qs[j].id {
      assert Labels(qs)[i] == Labels(ps)[i] && Labels(qs)[j] == Labels(ps)[j];
    }
  }

  /** Appending a product whose lower-cased name is not yet taken keeps the
      names distinct. */
  lemma AppendKeepsNamesDistinct(ps: seq<Product>, p: Product)
    requires NamesDistinct(ps) && !HasProductNamed(ps, p.name)
    ensures NamesDistinct(ps + [p])
  {
  }

  /** Appending a product with a fresh id keeps the ids distinct. */
  lemma AppendKeepsIdsDistinct(ps: seq<Product>, p: Product)
    requires IdsDistinct(ps) && forall i :: 0 <= i < |ps| ==> ps[i].id != p.id
    ensures IdsDistinct(ps + [p])
  {
  }

  /** Removal keeps the names distinct up to case. */
  lemma WithoutProductKeepsNames(ps: seq<Product>, id: string)
    requires NamesDistinct(ps)
    ensures NamesDistinct(WithoutProduct(ps, id))
  {
    var name := (p: Product) => Lower(p.name);
    assert DistinctBy(ps, name);
    KeepDistinctBy(ps, (p: Product) => p.id != id, name);
    var r := WithoutProduct(ps, id);
    assert DistinctBy(r, name);
  }

  /** Removal keeps the ids distinct. */
  lemma WithoutProductKeepsIds(ps: seq<Product>, id: string)
    requires IdsDistinct(ps)
    ensures IdsDistinct(WithoutProduct(ps, id))
  {
    var pid := (p: Product) => p.id;
    assert DistinctBy(ps, pid);
    KeepDistinctBy(ps, (p: Product) => p.id != id, pid);
    var r := WithoutProduct(ps, id);
    assert DistinctBy(r, pid);
  }

  /** Removal keeps the duration ids distinct. */
  lemma WithoutDurationKeepsDistinct(ds: seq<Duration>, id: string)
    requires DurationIdsDistinct(ds)
    ensures DurationIdsDistinct(WithoutDuration(ds, id))
  {
    var did := (d: Duration) => d.id;
    assert DistinctBy(ds, did);
    KeepDistinctBy(ds, (d: Duration) => d.id != id, did);
    var r := WithoutDuration(ds, id);
    assert DistinctBy(r, did);
  }

  // ---------------------------------------------------------------------
  // Well-formed products

  /** A stored duration: a non-empty parser result as its key, a trimmed
      non-empty price and URL. */
  predicate DurationValid(d: Duration) {
    d.duration != "" && IsParseResult(d.duration)
    && d.price != "" && IsTrimmed(d.price) && d.url != "" && IsTrimmed(d.url)
  }

  predicate ProductValid(p: Product) {
    Distinct(p.payments) && DurationIdsDistinct(p.durations)
    && forall j :: 0 <= j < |p.durations| ==> DurationValid(p.durations[j])
  }

  /** The duration both implementations build from a parsed key and the
      trimmed price and URL is well formed. */
  lemma NewDurationValid(value: string, price: string, url: string, id: string)
    requires value != "" && IsParseResult(value) && !IsBlank(price) && !IsBlank(url)
    ensures DurationValid(Duration(id, value, Trim(price), Trim(url)))
  {
    TrimShape(price);
    TrimShape(url);
  }

  lemma AppendDurationValid(p: Product, d: Duration)
    requires ProductValid(p) && DurationValid(d)
    requires forall j :: 0 <= j < |p.durations| ==> p.durations[j].id != d.id
    ensures ProductValid(p.(durations := p.durations + [d]))
  {
  }

  /** Removing durations by id keeps a product well formed. */
  lemma RemoveDurationValid(p: Product, id: string)
    requires ProductValid(p)
    ensures ProductValid(p.(durations := WithoutDuration(p.durations, id)))
  {
    WithoutDurationKeepsDistinct(p.durations, id);
    var kept := WithoutDuration(p.durations, id);
    forall j | 0 <= j < |kept| ensures DurationValid(kept[j]) {
      assert kept[j] in p.durations;
    }
  }

  /** What both implementations keep true of their product list: names
      distinct up to case, ids distinct, every product well formed. */
  predicate CatalogValid(ps: seq<Product>) {
    NamesDistinct(ps) && IdsDistinct(ps) && forall i :: 0 <= i < |ps| ==> ProductValid(ps[i])
  }

  /** Appending a well-formed duration with a fresh id keeps the catalog
      well formed. */
  lemma AddDurationKeepsCatalog(ps: seq<Product>, i: nat, d: Duration)
    requires CatalogValid(ps) && i < |ps| && DurationValid(d)
    requires forall j :: 0 <= j < |ps[i].durations| ==> ps[i].durations[j].id != d.id
    ensures CatalogValid(AddDurationAt(ps, i, d))
  {
    var qs := AddDurationAt(ps, i, d);
    EditsTouchOneProduct(ps, i, d, "", []);
    LabelsKeepNames(ps, qs);
    LabelsKeepIds(ps, qs);
    AppendDurationValid(ps[i], d);
  }

  /** Removing durations keeps the catalog well formed. */
  lemma RemoveDurationKeepsCatalog(ps: seq<Product>, i: nat, id: string)
    requires CatalogValid(ps) && i < |ps|
    ensures CatalogValid(RemoveDurationAt(ps, i, id))
  {
    var qs := RemoveDurationAt(ps, i, id);
    EditsTouchOneProduct(ps, i, Duration("", "", "", ""), id, []);
    LabelsKeepNames(ps, qs);
    LabelsKeepIds(ps, qs);
    RemoveDurationValid(ps[i], id);
  }

  /** Replacing one product's payments by a duplicate-free list keeps the
      catalog well formed. */
  lemma SetPaymentsKeepsCatalog(ps: seq<Product>, i: nat, payments: seq<string>)
    requires CatalogValid(ps) && i < |ps| && Distinct(payments)
    ensures CatalogValid(SetPaymentsAt(ps, i, payments))
  {
    var qs := SetPaymentsAt(ps, i, payments);
    EditsTouchOneProduct(ps, i, Duration("", "", "", ""), "", payments);
    LabelsKeepNames(ps, qs);
    LabelsKeepIds(ps, qs);
  }

  /** The same for every product with a given id. */
  lemma SetPaymentsWhereKeepsCatalog(ps: seq<Product>, id: string, payments: seq<string>)
    requires CatalogValid(ps) && Distinct(payments)
    ensures CatalogValid(SetPaymentsWhere(ps, id, payments))
  {
    var qs := SetPaymentsWhere(ps, id, payments);
    SetPaymentsWhereTouchesOnlyId(ps, id, payments);
    LabelsKeepNames(ps, qs);
    LabelsKeepIds(ps, qs);
  }

  /** Removing products keeps the catalog well formed. */
  lemma WithoutProductKeepsCatalog(ps: seq<Product>, id: string)
    requires CatalogValid(ps)
    ensures CatalogValid(WithoutProduct(ps, id))
  {
    WithoutProductKeepsNames(ps, id);
    WithoutProductKeepsIds(ps, id);
    var qs := WithoutProduct(ps, id);
    forall i | 0 <= i < |qs| ensures ProductValid(qs[i]) {
      assert qs[i] in ps;
    }
  }

  /** Appending a well-formed product whose name is new and whose id is
      fresh keeps the catalog well formed. */
  lemma AppendKeepsCatalog(ps: seq<Product>, p: Product)
    requires CatalogValid(ps) && ProductValid(p) && !HasProductNamed(ps, p.name)
    requires forall i :: 0 <= i < |ps| ==> ps[i].id != p.id
    ensures CatalogValid(ps + [p])
  {
    AppendKeepsNamesDistinct(ps, p);
    AppendKeepsIdsDistinct(ps, p);
  }

  // ---------------------------------------------------------------------
  // Adding a product

  datatype AddOutcome = Added | MissingResellerInfo | MissingProductInfo | AlreadyAdded

  /** The guards of "add product", in the order both implementations check
      them: reseller name and picture, then a selected product with at least
      one payment method, then the case-insensitive duplicate check against
      `selectedName`. */
  function AddVerdict(
    resellerName: string, resellerPfp: string, selectedName: Option<string>,
    payments: seq<string>, ps: seq<Product>): (r: AddOutcome)
    ensures r == Added <==>
      !IsBlank(resellerName) && !IsBlank(resellerPfp) && selectedName.Some? && |payments| > 0
      && forall i :: 0 <= i < |ps| ==> Lower(ps[i].name) != Lower(selectedName.value)
    ensures r == MissingResellerInfo <==> IsBlank(resellerName) || IsBlank(resellerPfp)
    ensures r == MissingProductInfo <==>
      !IsBlank(resellerName) && !IsBlank(resellerPfp) && (selectedName.None? || |payments| == 0)
  {
    if IsBlank(resellerName) || IsBlank(resellerPfp) then MissingResellerInfo
    else if selectedName.None? || |payments| == 0 then MissingProductInfo
    else if HasProductNamed(ps, selectedName.value) then AlreadyAdded
    else Added
  }
}
