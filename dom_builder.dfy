/** The plain-script implementation: class `JsonBuilder` of script.js, whose
    methods reassign or push into its fields. Values the methods read from
    the page (the duration, price and URL inputs) and the identifiers drawn
    from `generateId` are parameters. */
module DomBuilder {
  import opened Wrappers
  import opened Text
  import opened Seqs
  import opened JsObject
  import opened DurationParser
  import opened Catalog
  import opened Projection
  import ReactBuilder

  /** An entry of the fixed product list, as `selectProduct` stores it. */
  datatype ProductChoice = ProductChoice(name: string, imageUrl: string)

  /** The duration `addDuration` builds from the raw inputs: it trims the
      duration text before parsing it and trims price and URL; any of the
      three empty rejects. What it builds carries the fresh id and is well
      formed. */
  function DurationFromInputs(id: string, rawDuration: string, price: string, url: string): (r: Option<Duration>)
    ensures r.Some? ==> r.value.id == id && DurationValid(r.value)
  {
    var parsed := Parse(Trim(rawDuration));
    if parsed == "" || Trim(price) == "" || Trim(url) == "" then None
    else
      NewDurationValid(parsed, price, url, id);
      Some(Duration(id, parsed, Trim(price), Trim(url)))
  }

  /** Trimming the duration text first changes nothing (the parser trims
      too): a duration is built exactly when the parse of the raw text, the
      price and the URL are all non-empty, from the parse and the trimmed
      price and URL. */
  lemma DurationFromInputsSpec(id: string, rawDuration: string, price: string, url: string)
    ensures var r := DurationFromInputs(id, rawDuration, price, url);
      && (r.Some? <==> Parse(rawDuration) != "" && !IsBlank(price) && !IsBlank(url))
      && (r.Some? ==> r.value == Duration(id, Parse(rawDuration), Trim(price), Trim(url)))
  {
    ParseIgnoresTrim(rawDuration);
  }

  class JsonBuilder {
    var resellerName: string
    var resellerPfp: string
    var selectedProduct: Option<ProductChoice>
    var selectedPayments: seq<string>
    var products: seq<Product>
    var editingPaymentProductId: Option<string>
    var tempPaymentInput: seq<string>

    /** Product names distinct up to case, ids distinct, every payment list
        free of duplicates, every stored duration well formed. */
    predicate Valid()
      reads this
    {
      CatalogValid(products) && Distinct(selectedPayments) && Distinct(tempPaymentInput)
    }

    constructor()
      ensures resellerName == "" && resellerPfp == "" && selectedProduct == None
      ensures selectedPayments == [] && products == []
      ensures editingPaymentProductId == None && tempPaymentInput == []
      ensures Valid()
    {
      resellerName := "";
      resellerPfp := "";
      selectedProduct := None;
      selectedPayments := [];
      products := [];
      editingPaymentProductId := None;
      tempPaymentInput := [];
    }

    /** The reseller name input listener. */
    method SetResellerName(value: string)
      requires Valid()
      modifies this
      ensures resellerName == value && Valid()
      ensures resellerPfp == old(resellerPfp) && selectedProduct == old(selectedProduct)
      ensures selectedPayments == old(selectedPayments) && products == old(products)
      ensures editingPaymentProductId == old(editingPaymentProductId) && tempPaymentInput == old(tempPaymentInput)
    {
      resellerName := value;
    }

    /** The profile picture input listener. */
    method SetResellerPfp(value: string)
      requires Valid()
      modifies this
      ensures resellerPfp == value && Valid()
      ensures resellerName == old(resellerName) && selectedProduct == old(selectedProduct)
      ensures selectedPayments == old(selectedPayments) && products == old(products)
      ensures editingPaymentProductId == old(editingPaymentProductId) && tempPaymentInput == old(tempPaymentInput)
    {
      resellerPfp := value;
    }

    /** `selectProduct`. */
    method SelectProduct(choice: ProductChoice)
      requires Valid()
      modifies this
      ensures selectedProduct == Some(choice) && Valid()
      ensures resellerName == old(resellerName) && resellerPfp == old(resellerPfp)
      ensures selectedPayments == old(selectedPayments) && products == old(products)
      ensures editingPaymentProductId == old(editingPaymentProductId) && tempPaymentInput == old(tempPaymentInput)
    {
      selectedProduct := Some(choice);
    }

    /** `togglePayment`: filter the payment out, or push it. */
    method TogglePayment(payment: string)
      requires Valid()
      modifies this
      ensures selectedPayments == Toggle(old(selectedPayments), payment) && Valid()
      ensures resellerName == old(resellerName) && resellerPfp == old(resellerPfp)
      ensures selectedProduct == old(selectedProduct) && products == old(products)
      ensures editingPaymentProductId == old(editingPaymentProductId) && tempPaymentInput == old(tempPaymentInput)
    {
      ToggleDistinct(selectedPayments, payment);
      if payment in selectedPayments {
        selectedPayments := Without(selectedPayments, payment);
      } else {
        selectedPayments := selectedPayments + [payment];
      }
    }

    /** `addProduct`, with `id` the fresh identifier `generateId` returns.
        The guards are checked in order and the first that fails leaves the
        state as it was. */
    method AddProduct(id: string) returns (outcome: AddOutcome)
      requires Valid()
      requires forall i :: 0 <= i < |products| ==> products[i].id != id
      modifies this
      ensures outcome == AddVerdict(old(resellerName), old(resellerPfp),
        if old(selectedProduct).Some? then Some(old(selectedProduct).value.name) else None,
        old(selectedPayments), old(products))
      ensures outcome == Added ==>
        && products == old(products) + [Product(id, Lower(old(selectedProduct).value.name),
             old(selectedProduct).value.imageUrl, old(selectedPayments), [])]
        && selectedProduct == None && selectedPayments == []
      ensures outcome != Added ==>
        products == old(products) && selectedProduct == old(selectedProduct) && selectedPayments == old(selectedPayments)
      ensures resellerName == old(resellerName) && resellerPfp == old(resellerPfp)
      ensures editingPaymentProductId == old(editingPaymentProductId) && tempPaymentInput == old(tempPaymentInput)
      ensures Valid()
    {
      if IsBlank(resellerName) || IsBlank(resellerPfp) {
        return MissingResellerInfo;
      }
      if selectedProduct.None? || |selectedPayments| == 0 {
        return MissingProductInfo;
      }
      if HasProductNamed(products, selectedProduct.value.name) {
        return AlreadyAdded;
      }
      var newProduct := Product(id, Lower(selectedProduct.value.name), selectedProduct.value.imageUrl,
        selectedPayments, []);
      LowerIdempotent(selectedProduct.value.name);
      AppendKeepsCatalog(products, newProduct);
      products := products + [newProduct];
      selectedProduct := None;
      selectedPayments := [];
      outcome := Added;
    }

    /** `removeProduct`: keeps the products with another id. An edit of the
        removed product's payments is left open. */
    method RemoveProduct(id: string)
      requires Valid()
      modifies this
      ensures products == WithoutProduct(old(products), id) && Valid()
      ensures resellerName == old(resellerName) && resellerPfp == old(resellerPfp)
      ensures selectedProduct == old(selectedProduct) && selectedPayments == old(selectedPayments)
      ensures editingPaymentProductId == old(editingPaymentProductId) && tempPaymentInput == old(tempPaymentInput)
    {
      WithoutProductKeepsCatalog(products, id);
      products := WithoutProduct(products, id);
    }

    /** `editPayments`: does nothing for an unknown id, else opens an edit
        on a copy of the product's payments. */
    method EditPayments(productId: string)
      requires Valid()
      modifies this
      ensures match FindById(old(products), productId)
        case None =>
          editingPaymentProductId == old(editingPaymentProductId) && tempPaymentInput == old(tempPaymentInput)
        case Some(i) =>
          editingPaymentProductId == Some(productId) && tempPaymentInput == old(products)[i].payments
      ensures Valid()
      ensures resellerName == old(resellerName) && resellerPfp == old(resellerPfp)
      ensures selectedProduct == old(selectedProduct) && selectedPayments == old(selectedPayments)
      ensures products == old(products)
    {
      var index := FindById(products, productId);
      if index.None? {
        return;
      }
      editingPaymentProductId := Some(productId);
      tempPaymentInput := products[index.value].payments;
    }

    /** `toggleTempPayment`: filter the payment out, or push it. */
    method ToggleTempPayment(payment: string)
      requires Valid()
      modifies this
      ensures tempPaymentInput == Toggle(old(tempPaymentInput), payment) && Valid()
      ensures resellerName == old(resellerName) && resellerPfp == old(resellerPfp)
      ensures selectedProduct == old(selectedProduct) && selectedPayments == old(selectedPayments)
      ensures products == old(products) && editingPaymentProductId == old(editingPaymentProductId)
    {
      ToggleDistinct(tempPaymentInput, payment);
      if payment in tempPaymentInput {
        tempPaymentInput := Without(tempPaymentInput, payment);
      } else {
        tempPaymentInput := tempPaymentInput + [payment];
      }
    }

    /** `savePayments`: does nothing for an unknown id, else gives the first
        product with the id a copy of the temporary list (which may be empty)
        and ends the edit. */
    method SavePayments(productId: string)
      requires Valid()
      modifies this
      ensures match FindById(old(products), productId)
        case None =>
          products == old(products) && editingPaymentProductId == old(editingPaymentProductId)
          && tempPaymentInput == old(tempPaymentInput)
        case Some(i) =>
          products == SetPaymentsAt(old(products), i, old(tempPaymentInput))
          && editingPaymentProductId == None && tempPaymentInput == []
      ensures Valid()
      ensures resellerName == old(resellerName) && resellerPfp == old(resellerPfp)
      ensures selectedProduct == old(selectedProduct) && selectedPayments == old(selectedPayments)
    {
      var index := FindById(products, productId);
      if index.None? {
        return;
      }
      SetPaymentsKeepsCatalog(products, index.value, tempPaymentInput);
      products := SetPaymentsAt(products, index.value, tempPaymentInput);
      editingPaymentProductId := None;
      tempPaymentInput := [];
    }

    /** `cancelEditPayments`. */
    method CancelEditPayments()
      requires Valid()
      modifies this
      ensures editingPaymentProductId == None && tempPaymentInput == [] && Valid()
      ensures resellerName == old(resellerName) && resellerPfp == old(resellerPfp)
      ensures selectedProduct == old(selectedProduct) && selectedPayments == old(selectedPayments)
      ensures products == old(products)
    {
      editingPaymentProductId := None;
      tempPaymentInput := [];
    }

    /** `addDuration` for the product at `productIndex`, given what the
        duration, price and URL inputs hold and the fresh identifier
        `generateId` returns. */
    method AddDuration(productIndex: nat, id: string, rawDuration: string, price: string, url: string)
      returns (added: bool)
      requires Valid() && productIndex < |products|
      requires forall j :: 0 <= j < |products[productIndex].durations| ==> products[productIndex].durations[j].id != id
      modifies this
      ensures added <==> DurationFromInputs(id, rawDuration, price, url).Some?
      ensures products == if added then AddDurationAt(old(products), productIndex, DurationFromInputs(id, rawDuration, price, url).value)
        else old(products)
      ensures Valid()
      ensures resellerName == old(resellerName) && resellerPfp == old(resellerPfp)
      ensures selectedProduct == old(selectedProduct) && selectedPayments == old(selectedPayments)
      ensures editingPaymentProductId == old(editingPaymentProductId) && tempPaymentInput == old(tempPaymentInput)
    {
      var candidate := DurationFromInputs(id, rawDuration, price, url);
      added := candidate.Some?;
      var ps := products;
      if added {
        AddDurationKeepsCatalog(ps, productIndex, candidate.value);
        ps := AddDurationAt(ps, productIndex, candidate.value);
      }
      products := ps;
    }

    /** `removeDuration`: filters one product's durations by id. */
    method RemoveDuration(productIndex: nat, durationId: string)
      requires Valid() && productIndex < |products|
      modifies this
      ensures products == RemoveDurationAt(old(products), productIndex, durationId) && Valid()
      ensures resellerName == old(resellerName) && resellerPfp == old(resellerPfp)
      ensures selectedProduct == old(selectedProduct) && selectedPayments == old(selectedPayments)
      ensures editingPaymentProductId == old(editingPaymentProductId) && tempPaymentInput == old(tempPaymentInput)
    {
      RemoveDurationKeepsCatalog(products, productIndex, durationId);
      products := RemoveDurationAt(products, productIndex, durationId);
    }

    /** `updateJsonOutput`: the document it serializes. */
    method UpdateJsonOutput() returns (doc: Json)
      ensures doc == Project(resellerName, resellerPfp, products)
    {
      doc := BuildJson(resellerName, resellerPfp, products);
    }

    /** `resetAll`: every field back to its constructor value. */
    method ResetAll()
      modifies this
      ensures resellerName == "" && resellerPfp == "" && selectedProduct == None
      ensures selectedPayments == [] && products == []
      ensures editingPaymentProductId == None && tempPaymentInput == []
      ensures Valid()
    {
      resellerName := "";
      resellerPfp := "";
      selectedProduct := None;
      selectedPayments := [];
      products := [];
      editingPaymentProductId := None;
      tempPaymentInput := [];
    }
  }

  // ---------------------------------------------------------------------
  // The two implementations agree

  /** Adding a duration: the React handler stores the value parsed as the
      text was typed, the script parses the trimmed text when the button is
      pressed; both store the same duration, or both reject. */
  lemma AddDurationAgrees(st: ReactBuilder.State, productIndex: nat, id: string)
    requires ReactBuilder.Inv(st) && productIndex < |st.products|
    ensures ReactBuilder.HandleAddDuration(st, productIndex, id).products ==
      match DurationFromInputs(id, st.rawDurationInput, st.newDurationPrice, st.newDurationUrl)
      case None => st.products
      case Some(d) => AddDurationAt(st.products, productIndex, d)
  {
    DurationFromInputsSpec(id, st.rawDurationInput, st.newDurationPrice, st.newDurationUrl);
  }

  /** Adding a product: for a selection from the product list (whose names
      carry no surrounding blanks) the React handler reaches the same verdict
      and appends the same product as `addProduct`. */
  lemma AddProductAgrees(st: ReactBuilder.State, id: string)
    requires IsTrimmed(st.selectedProductName) && !IsBlank(st.selectedProductName)
    ensures var (r, outcome) := ReactBuilder.HandleAddProduct(st, id);
      && outcome == AddVerdict(st.resellerName, st.resellerPfp, Some(st.selectedProductName),
           st.newProductPayments, st.products)
      && (outcome == Added ==>
            r.products == st.products
              + [Product(id, Lower(st.selectedProductName), st.selectedProductImageUrl, st.newProductPayments, [])])
  {
    TrimOfTrimmed(st.selectedProductName);
  }
}
