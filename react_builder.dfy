/** The React component `JsonBuilder` (components/json-builder.tsx): its
    state, and every event handler as a function from the state before the
    event to the state after it. Identifiers that the component draws from
    `crypto.randomUUID` are parameters of the handlers. */
module ReactBuilder {
  import opened Wrappers
  import opened Text
  import opened Seqs
  import opened DurationParser
  import opened Catalog

  datatype State = State(
    resellerName: string,
    resellerPfp: string,
    products: seq<Product>,
    selectedProductName: string,
    selectedProductImageUrl: string,
    newProductPayments: seq<string>,
    editingPaymentProductId: Option<string>,
    tempPaymentInput: seq<string>,
    rawDurationInput: string,
    newDurationValue: string,
    newDurationPrice: string,
    newDurationUrl: string)

  /** The initial value of every `useState`. */
  function Initial(): State {
    State("", "", [], "", "", [], None, [], "", "", "", "")
  }

  // ---------------------------------------------------------------------
  // The invariant

  /** What every reachable state satisfies: product names distinct up to
      case, ids distinct, payment lists without duplicates, stored durations
      well formed, and the parsed duration in step with the raw text. The
      selected product name is trimmed because it always comes from the
      fixed product list. */
  predicate Inv(st: State) {
    && CatalogValid(st.products)
    && Distinct(st.newProductPayments) && Distinct(st.tempPaymentInput)
    && IsTrimmed(st.selectedProductName)
    && st.newDurationValue == Parse(st.rawDurationInput)
  }

  lemma InitialInv()
    ensures Inv(Initial())
  {
    ParseEmpty();
  }

  // ---------------------------------------------------------------------
  // Handlers

  /** `resetAll`: every piece of state back to its initial value. */
  function ResetAll(st: State): (r: State)
    ensures r == Initial() && Inv(r)
  {
    InitialInv();
    Initial()
  }

  /** The reseller name and picture inputs. */
  function SetResellerName(st: State, value: string): (r: State)
    ensures r.resellerName == value && r.(resellerName := st.resellerName) == st
  {
    st.(resellerName := value)
  }

  function SetResellerPfp(st: State, value: string): (r: State)
    ensures r.resellerPfp == value && r.(resellerPfp := st.resellerPfp) == st
  {
    st.(resellerPfp := value)
  }

  /** `handleProductSelect`. */
  function HandleProductSelect(st: State, productName: string, imageUrl: string): (r: State)
    ensures r.selectedProductName == productName && r.selectedProductImageUrl == imageUrl
    ensures r.(selectedProductName := st.selectedProductName, selectedProductImageUrl := st.selectedProductImageUrl) == st
  {
    st.(selectedProductName := productName, selectedProductImageUrl := imageUrl)
  }

  /** `handleToggleNewPayment`. */
  function HandleToggleNewPayment(st: State, payment: string): (r: State)
    ensures payment in r.newProductPayments <==> payment !in st.newProductPayments
    ensures forall y :: y != payment ==> (y in r.newProductPayments <==> y in st.newProductPayments)
    ensures r.(newProductPayments := st.newProductPayments) == st
  {
    st.(newProductPayments := Toggle(st.newProductPayments, payment))
  }

  /** `handleToggleEditPayment`. */
  function HandleToggleEditPayment(st: State, payment: string): (r: State)
    ensures payment in r.tempPaymentInput <==> payment !in st.tempPaymentInput
    ensures forall y :: y != payment ==> (y in r.tempPaymentInput <==> y in st.tempPaymentInput)
    ensures r.(tempPaymentInput := st.tempPaymentInput) == st
  {
    st.(tempPaymentInput := Toggle(st.tempPaymentInput, payment))
  }

  /** `handleAddProduct`, with `id` the fresh identifier it draws. The
      duplicate check compares the selected name as it is, while the stored
      name is trimmed first. */
  function HandleAddProduct(st: State, id: string): (r: (State, AddOutcome))
    ensures r.1 == AddVerdict(st.resellerName, st.resellerPfp,
      if IsBlank(st.selectedProductName) then None else Some(st.selectedProductName),
      st.newProductPayments, st.products)
    ensures r.1 == Added ==> r.0 == st.(
      products := st.products + [Product(id, Lower(Trim(st.selectedProductName)),
        st.selectedProductImageUrl, st.newProductPayments, [])],
      selectedProductName := "", selectedProductImageUrl := "", newProductPayments := [])
    ensures r.1 != Added ==> r.0 == st
  {
    var selection := if IsBlank(st.selectedProductName) then None else Some(st.selectedProductName);
    var outcome := AddVerdict(st.resellerName, st.resellerPfp, selection, st.newProductPayments, st.products);
    if outcome != Added then (st, outcome)
    else
      var product := Product(id, Lower(Trim(st.selectedProductName)), st.selectedProductImageUrl,
        st.newProductPayments, []);
      (st.(products := st.products + [product], selectedProductName := "",
           selectedProductImageUrl := "", newProductPayments := []), Added)
  }

  /** `handleRemoveProduct`: drops the products with the id and ends an edit
      of that product's payments (the temporary list is left as it is). */
  function HandleRemoveProduct(st: State, id: string): (r: State)
    ensures forall p :: p in r.products <==> p in st.products && p.id != id
    ensures r.editingPaymentProductId != Some(id)
    ensures r.editingPaymentProductId.Some? ==> r.editingPaymentProductId == st.editingPaymentProductId
    ensures r.(products := st.products, editingPaymentProductId := st.editingPaymentProductId) == st
  {
    st.(products := WithoutProduct(st.products, id),
        editingPaymentProductId := if st.editingPaymentProductId == Some(id) then None else st.editingPaymentProductId)
  }

  /** `handleEditPayments`, called with the product's id and its current
      payments. */
  function HandleEditPayments(st: State, productId: string, currentPayments: seq<string>): (r: State)
    ensures r.editingPaymentProductId == Some(productId) && r.tempPaymentInput == currentPayments
    ensures r.(editingPaymentProductId := st.editingPaymentProductId, tempPaymentInput := st.tempPaymentInput) == st
  {
    st.(editingPaymentProductId := Some(productId), tempPaymentInput := currentPayments)
  }

  /** `handleSavePayments`: every product with the id takes the temporary
      list; the edit ends whether or not the id was found. */
  function HandleSavePayments(st: State, productId: string): (r: State)
    ensures |r.products| == |st.products| && Labels(r.products) == Labels(st.products)
    ensures forall j :: 0 <= j < |st.products| ==>
      r.products[j].durations == st.products[j].durations
      && r.products[j].payments == if st.products[j].id == productId then st.tempPaymentInput else st.products[j].payments
    ensures r.editingPaymentProductId == None && r.tempPaymentInput == []
    ensures r.(products := st.products, editingPaymentProductId := st.editingPaymentProductId,
               tempPaymentInput := st.tempPaymentInput) == st
  {
    SetPaymentsWhereTouchesOnlyId(st.products, productId, st.tempPaymentInput);
    st.(products := SetPaymentsWhere(st.products, productId, st.tempPaymentInput),
        editingPaymentProductId := None, tempPaymentInput := [])
  }

  /** `handleCancelEditPayments`. */
  function HandleCancelEditPayments(st: State): (r: State)
    ensures r.editingPaymentProductId == None && r.tempPaymentInput == []
    ensures r.(editingPaymentProductId := st.editingPaymentProductId, tempPaymentInput := st.tempPaymentInput) == st
  {
    st.(editingPaymentProductId := None, tempPaymentInput := [])
  }

  /** The duration text field: the raw text and its parse are stored
      together. */
  function HandleDurationInput(st: State, raw: string): (r: State)
    ensures r.rawDurationInput == raw && IsParseResult(r.newDurationValue)
    ensures r.newDurationValue == "lifetime" <==> Normalize(raw) == "lifetime"
    ensures r.(rawDurationInput := st.rawDurationInput, newDurationValue := st.newDurationValue) == st
  {
    st.(rawDurationInput := raw, newDurationValue := Parse(raw))
  }

  function SetDurationPrice(st: State, value: string): (r: State)
    ensures r.newDurationPrice == value && r.(newDurationPrice := st.newDurationPrice) == st
  {
    st.(newDurationPrice := value)
  }

  function SetDurationUrl(st: State, value: string): (r: State)
    ensures r.newDurationUrl == value && r.(newDurationUrl := st.newDurationUrl) == st
  {
    st.(newDurationUrl := value)
  }

  /** `handleAddDuration` for the product at `productIndex`, with `id` the
      fresh identifier it draws. */
  function HandleAddDuration(st: State, productIndex: nat, id: string): (r: State)
    requires productIndex < |st.products|
    ensures var accepted := st.newDurationValue != "" && !IsBlank(st.newDurationPrice) && !IsBlank(st.newDurationUrl);
      && (!accepted ==> r == st)
      && (accepted ==>
            && |r.products| == |st.products| && Labels(r.products) == Labels(st.products)
            && (forall j :: 0 <= j < |st.products| && j != productIndex ==> r.products[j] == st.products[j])
            && r.products[productIndex].payments == st.products[productIndex].payments
            && r.products[productIndex].durations == st.products[productIndex].durations
                 + [Duration(id, st.newDurationValue, Trim(st.newDurationPrice), Trim(st.newDurationUrl))]
            && r.rawDurationInput == "" && r.newDurationValue == ""
            && r.newDurationPrice == "" && r.newDurationUrl == ""
            && r.(products := st.products, rawDurationInput := st.rawDurationInput,
                  newDurationValue := st.newDurationValue, newDurationPrice := st.newDurationPrice,
                  newDurationUrl := st.newDurationUrl) == st)
  {
    if st.newDurationValue != "" && !IsBlank(st.newDurationPrice) && !IsBlank(st.newDurationUrl) then
      var d := Duration(id, st.newDurationValue, Trim(st.newDurationPrice), Trim(st.newDurationUrl));
      st.(products := AddDurationAt(st.products, productIndex, d),
          rawDurationInput := "", newDurationValue := "", newDurationPrice := "", newDurationUrl := "")
    else st
  }

  /** `handleRemoveDuration` for the product at `productIndex`. */
  function HandleRemoveDuration(st: State, productIndex: nat, durationId: string): (r: State)
    requires productIndex < |st.products|
    ensures |r.products| == |st.products| && Labels(r.products) == Labels(st.products)
    ensures forall j :: 0 <= j < |st.products| && j != productIndex ==> r.products[j] == st.products[j]
    ensures r.products[productIndex].payments == st.products[productIndex].payments
    ensures forall d :: d in r.products[productIndex].durations <==>
      d in st.products[productIndex].durations && d.id != durationId
    ensures r.(products := st.products) == st
  {
    st.(products := RemoveDurationAt(st.products, productIndex, durationId))
  }

  // ---------------------------------------------------------------------
  // Every handler keeps the invariant

  /** The text inputs and the selection change nothing the invariant
      constrains (a selection from the product list is trimmed). */
  lemma InputsKeepInv(st: State, value: string, imageUrl: string)
    requires Inv(st)
    ensures Inv(SetResellerName(st, value)) && Inv(SetResellerPfp(st, value))
    ensures Inv(SetDurationPrice(st, value)) && Inv(SetDurationUrl(st, value))
    ensures Inv(HandleDurationInput(st, value))
    ensures IsTrimmed(value) ==> Inv(HandleProductSelect(st, value, imageUrl))
  {
  }

  /** Toggling a payment flips its membership and keeps the list free of
      duplicates. */
  lemma TogglesKeepInv(st: State, payment: string)
    requires Inv(st)
    ensures Inv(HandleToggleNewPayment(st, payment)) && Inv(HandleToggleEditPayment(st, payment))
    ensures payment in HandleToggleNewPayment(st, payment).newProductPayments <==> payment !in st.newProductPayments
    ensures payment in HandleToggleEditPayment(st, payment).tempPaymentInput <==> payment !in st.tempPaymentInput
  {
    ToggleDistinct(st.newProductPayments, payment);
    ToggleDistinct(st.tempPaymentInput, payment);
  }

  /** Adding a product with a fresh id keeps the names distinct up to case:
      the duplicate check compares against the name that is stored. */
  lemma AddProductKeepsInv(st: State, id: string)
    requires Inv(st)
    requires forall i :: 0 <= i < |st.products| ==> st.products[i].id != id
    ensures Inv(HandleAddProduct(st, id).0)
    ensures |HandleAddProduct(st, id).0.products| == |st.products| + (if HandleAddProduct(st, id).1 == Added then 1 else 0)
  {
    var (r, outcome) := HandleAddProduct(st, id);
    if outcome == Added {
      var sel := st.selectedProductName;
      var p := Product(id, Lower(Trim(sel)), st.selectedProductImageUrl, st.newProductPayments, []);
      TrimOfTrimmed(sel);
      LowerIdempotent(sel);
      assert Lower(p.name) == Lower(sel);
      AppendKeepsCatalog(st.products, p);
      TrimOfTrimmed("");
      ParseEmpty();
    }
  }

  /** Without a trimmed selection the invariant can break: a selection
      such as " Wave" is compared as " wave" but stored as "wave", so it
      passes the duplicate check beside an existing "wave" and the list ends
      up holding the name twice. */
  lemma UntrimmedSelectionAddsDuplicate(st: State, id: string, i: nat)
    requires !IsBlank(st.resellerName) && !IsBlank(st.resellerPfp)
    requires !IsBlank(st.selectedProductName) && |st.newProductPayments| > 0
    requires i < |st.products| && Lower(st.products[i].name) == Lower(Trim(st.selectedProductName))
    requires forall j :: 0 <= j < |st.products| ==> Lower(st.products[j].name) != Lower(st.selectedProductName)
    ensures HandleAddProduct(st, id).1 == Added
    ensures !NamesDistinct(HandleAddProduct(st, id).0.products)
  {
    var r := HandleAddProduct(st, id).0;
    LowerIdempotent(Trim(st.selectedProductName));
    assert r.products[i] == st.products[i] && r.products[|st.products|].name == Lower(Trim(st.selectedProductName));
  }

  lemma RemoveProductKeepsInv(st: State, id: string)
    requires Inv(st)
    ensures Inv(HandleRemoveProduct(st, id))
  {
    WithoutProductKeepsCatalog(st.products, id);
  }

  /** Opening an edit copies a duplicate-free list; saving rewrites only the
      payments of the product with the id; cancelling drops the copy. */
  lemma EditPaymentsKeepInv(st: State, productId: string, currentPayments: seq<string>)
    requires Inv(st)
    ensures Distinct(currentPayments) ==> Inv(HandleEditPayments(st, productId, currentPayments))
    ensures Inv(HandleSavePayments(st, productId))
    ensures Inv(HandleCancelEditPayments(st))
  {
    SetPaymentsWhereKeepsCatalog(st.products, productId, st.tempPaymentInput);
  }

  /** A duration is stored only with a non-empty key, price and URL, and the
      raw input is cleared with the parsed value. */
  lemma AddDurationKeepsInv(st: State, productIndex: nat, id: string)
    requires Inv(st) && productIndex < |st.products|
    requires forall j :: 0 <= j < |st.products[productIndex].durations| ==> st.products[productIndex].durations[j].id != id
    ensures Inv(HandleAddDuration(st, productIndex, id))
    ensures var r := HandleAddDuration(st, productIndex, id);
      r.products != st.products ==>
        r.rawDurationInput == "" && r.newDurationValue == "" && r.newDurationPrice == "" && r.newDurationUrl == ""
  {
    if st.newDurationValue != "" && !IsBlank(st.newDurationPrice) && !IsBlank(st.newDurationUrl) {
      var d := Duration(id, st.newDurationValue, Trim(st.newDurationPrice), Trim(st.newDurationUrl));
      NewDurationValid(st.newDurationValue, st.newDurationPrice, st.newDurationUrl, id);
      AddDurationKeepsCatalog(st.products, productIndex, d);
      ParseEmpty();
    }
  }

  /** Removing a duration keeps the others, well formed and with distinct
      ids. */
  lemma RemoveDurationKeepsInv(st: State, productIndex: nat, durationId: string)
    requires Inv(st) && productIndex < |st.products|
    ensures Inv(HandleRemoveDuration(st, productIndex, durationId))
  {
    RemoveDurationKeepsCatalog(st.products, productIndex, durationId);
  }
}
