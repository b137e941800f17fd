/** The output document: the reseller's catalog as the nested object both
    implementations hand to `JSON.stringify`.

    `{ <trimmed reseller name>: { pfp: <trimmed pfp>,
                                  <product name>: { payments: [...],
                                                    <duration>: { price, url }, ... },
                                  ... } }`

    built by keyed assignment, so a repeated key keeps its first position and
    takes its last value; with a blank reseller name the document is `{}`. */
module Projection {
  import opened Wrappers
  import opened Text
  import opened Seqs
  import opened JsObject
  import opened Catalog

  function PaymentsJson(payments: seq<string>): (j: Json)
    ensures j.JArray? && |j.items| == |payments|
  {
    JArray(seq(|payments|, i requires 0 <= i < |payments| => JString(payments[i])))
  }

  /** `{ price: duration.price, url: duration.url }`. */
  function DurationJson(d: Duration): Json {
    JObject([Member("price", JString(d.price)), Member("url", JString(d.url))])
  }

  /** The assignments `productDetails[d.duration] = {...}`, in order. */
  function DurationMembers(ds: seq<Duration>): (ms: seq<Member>)
    ensures |ms| == |ds|
    ensures forall i :: 0 <= i < |ds| ==> ms[i].key == ds[i].duration
  {
    seq(|ds|, i requires 0 <= i < |ds| => Member(ds[i].duration, DurationJson(ds[i])))
  }

  function PaymentsMember(p: Product): Member {
    Member("payments", PaymentsJson(p.payments))
  }

  /** The object written for one product. */
  function ProductDetails(p: Product): seq<Member> {
    AssignAll([PaymentsMember(p)], DurationMembers(p.durations))
  }

  /** The assignments `resellerData[product.name] = productDetails`, in order. */
  function ProductMembers(ps: seq<Product>): (ms: seq<Member>)
    ensures |ms| == |ps|
    ensures forall i :: 0 <= i < |ps| ==> ms[i].key == ps[i].name
  {
    seq(|ps|, i requires 0 <= i < |ps| => Member(ps[i].name, JObject(ProductDetails(ps[i]))))
  }

  function PfpMember(resellerPfp: string): Member {
    Member("pfp", JString(Trim(resellerPfp)))
  }

  /** The object written under the reseller's name. */
  function ResellerData(resellerPfp: string, ps: seq<Product>): seq<Member> {
    AssignAll([PfpMember(resellerPfp)], ProductMembers(ps))
  }

  /** The document, as an object in creation order. */
  function Project(resellerName: string, resellerPfp: string, ps: seq<Product>): (doc: Json)
    ensures doc.JObject? && |doc.members| <= 1
    ensures doc.members == [] <==> IsBlank(resellerName)
  {
    if IsBlank(resellerName) then JObject([])
    else JObject([Member(Trim(resellerName), JObject(ResellerData(resellerPfp, ps)))])
  }

  /** The document in the order `JSON.stringify` writes it. */
  function Output(resellerName: string, resellerPfp: string, ps: seq<Product>): (doc: Json)
    ensures doc.JObject? && Keys(doc.members) == Keys(Project(resellerName, resellerPfp, ps).members)
  {
    var top := Project(resellerName, resellerPfp, ps).members;
    EmitObjectKeys(top);
    OwnKeyOrderShort(top);
    Emit(Project(resellerName, resellerPfp, ps))
  }

  /** The nested `forEach` loops that fill `resellerData` and each
      `productDetails`. */
  method BuildJson(resellerName: string, resellerPfp: string, ps: seq<Product>) returns (doc: Json)
    ensures doc == Project(resellerName, resellerPfp, ps)
  {
    if IsBlank(resellerName) {
      return JObject([]);
    }
    var resellerData := [PfpMember(resellerPfp)];
    var i := 0;
    while i < |ps|
      invariant i <= |ps|
      invariant resellerData == AssignAll([PfpMember(resellerPfp)], ProductMembers(ps)[..i])
    {
      var product := ps[i];
      var details := [PaymentsMember(product)];
      var j := 0;
      while j < |product.durations|
        invariant j <= |product.durations|
        invariant details == AssignAll([PaymentsMember(product)], DurationMembers(product.durations)[..j])
      {
        var d := product.durations[j];
        AssignAllStep([PaymentsMember(product)], DurationMembers(product.durations), j);
        details := Assign(details, d.duration, DurationJson(d));
        j := j + 1;
      }
      assert DurationMembers(product.durations)[..j] == DurationMembers(product.durations);
      AssignAllStep([PfpMember(resellerPfp)], ProductMembers(ps), i);
      resellerData := Assign(resellerData, product.name, JObject(details));
      i := i + 1;
    }
    assert ProductMembers(ps)[..i] == ProductMembers(ps);
    doc := JObject([Member(Trim(resellerName), JObject(resellerData))]);
  }

  // ---------------------------------------------------------------------
  // What the document contains

  /** A blank reseller name gives the empty object; any other name gives an
      object with the trimmed name as its single key. */
  lemma ProjectTopLevel(resellerName: string, resellerPfp: string, ps: seq<Product>)
    ensures var doc := Project(resellerName, resellerPfp, ps);
      doc.JObject? && (|doc.members| == 0 <==> IsBlank(resellerName))
      && (!IsBlank(resellerName) ==> Keys(doc.members) == [Trim(resellerName)] && !IsBlank(doc.members[0].key))
  {
    TrimIdempotent(resellerName);
    Singleton(Trim(resellerName), JObject(ResellerData(resellerPfp, ps)));
  }

  /** The reseller object holds `pfp` first and then one key per product
      name, each once. */
  lemma ResellerDataKeys(resellerPfp: string, ps: seq<Product>, k: string)
    ensures Distinct(Keys(ResellerData(resellerPfp, ps)))
    ensures Keys(ResellerData(resellerPfp, ps))[0] == "pfp"
    ensures k in Keys(ResellerData(resellerPfp, ps)) <==>
      k == "pfp" || exists i :: 0 <= i < |ps| && ps[i].name == k
  {
    AssignAllKeys([PfpMember(resellerPfp)], ProductMembers(ps), k);
    var ks := Keys(ProductMembers(ps));
    if k in ks {
      var i :| 0 <= i < |ks| && ks[i] == k;
      assert ps[i].name == k;
    }
    if exists i :: 0 <= i < |ps| && ps[i].name == k {
      var i :| 0 <= i < |ps| && ps[i].name == k;
      assert ks[i] == k;
    }
  }

  /** Under each product's name lies that product's object; with several
      products of one name the last one wins. */
  lemma ResellerDataLookupProduct(resellerPfp: string, ps: seq<Product>, i: nat)
    requires i < |ps|
    requires forall j :: i < j < |ps| ==> ps[j].name != ps[i].name
    ensures Lookup(ResellerData(resellerPfp, ps), ps[i].name) == Some(JObject(ProductDetails(ps[i])))
  {
    AssignAllLookupLast([PfpMember(resellerPfp)], ProductMembers(ps), i);
  }

  /** Under `pfp` lies the trimmed picture URL, unless a product is named
      "pfp". */
  lemma ResellerDataLookupPfp(resellerPfp: string, ps: seq<Product>)
    requires forall j :: 0 <= j < |ps| ==> ps[j].name != "pfp"
    ensures Lookup(ResellerData(resellerPfp, ps), "pfp") == Some(JString(Trim(resellerPfp)))
  {
    assert "pfp" !in Keys(ProductMembers(ps));
    AssignAllLookupUnassigned([PfpMember(resellerPfp)], ProductMembers(ps), "pfp");
    Singleton("pfp", JString(Trim(resellerPfp)));
  }

  /** The product object holds `payments` first and then one key per
      duration value, each once. */
  lemma ProductDetailsKeys(p: Product, k: string)
    ensures Distinct(Keys(ProductDetails(p)))
    ensures Keys(ProductDetails(p))[0] == "payments"
    ensures k in Keys(ProductDetails(p)) <==>
      k == "payments" || exists i :: 0 <= i < |p.durations| && p.durations[i].duration == k
  {
    AssignAllKeys([PaymentsMember(p)], DurationMembers(p.durations), k);
    var ks := Keys(DurationMembers(p.durations));
    if k in ks {
      var i :| 0 <= i < |ks| && ks[i] == k;
      assert p.durations[i].duration == k;
    }
    if exists i :: 0 <= i < |p.durations| && p.durations[i].duration == k {
      var i :| 0 <= i < |p.durations| && p.durations[i].duration == k;
      assert ks[i] == k;
    }
  }

  /** A duration value entered more than once carries the price and URL of
      the last entry. */
  lemma ProductDetailsLookupDuration(p: Product, i: nat)
    requires i < |p.durations|
    requires forall j :: i < j < |p.durations| ==> p.durations[j].duration != p.durations[i].duration
    ensures Lookup(ProductDetails(p), p.durations[i].duration) == Some(DurationJson(p.durations[i]))
  {
    AssignAllLookupLast([PaymentsMember(p)], DurationMembers(p.durations), i);
  }

  /** `payments` holds the product's payment methods (no duration the parser
      produces is called "payments"). */
  lemma ProductDetailsLookupPayments(p: Product)
    requires forall j :: 0 <= j < |p.durations| ==> p.durations[j].duration != "payments"
    ensures Lookup(ProductDetails(p), "payments") == Some(PaymentsJson(p.payments))
  {
    assert "payments" !in Keys(DurationMembers(p.durations));
    AssignAllLookupUnassigned([PaymentsMember(p)], DurationMembers(p.durations), "payments");
    Singleton("payments", PaymentsJson(p.payments));
  }

  /** A repeated duration value keeps the position of its first entry: two
      keys of the product object are in the order of their first
      assignment. */
  lemma ProductDetailsCreationOrder(p: Product, a: string, b: string)
    requires a in Keys(ProductDetails(p)) && b in Keys(ProductDetails(p))
    ensures var first := ["payments"] + Keys(DurationMembers(p.durations));
      a in first && b in first
      && (IndexOf(Keys(ProductDetails(p)), a) < IndexOf(Keys(ProductDetails(p)), b)
          <==> IndexOf(first, a) < IndexOf(first, b))
  {
    AssignAllOrder([PaymentsMember(p)], DurationMembers(p.durations), a, b);
  }

  // ---------------------------------------------------------------------
  // The order in which the product object is written

  lemma PaymentsIsNotAnIndex()
    ensures !IsArrayIndex("payments")
  {
    assert !IsDigit("payments"[0]);
  }

  /** In the written product object the keys before `payments` are exactly
      the array-index duration values (numeric strings such as "7" or "30"),
      in ascending order; every other key ("lifetime", "007", ...) follows
      `payments` in creation order. */
  lemma ProductWrittenOrder(p: Product)
    ensures var ks := Keys(Emit(JObject(ProductDetails(p))).members);
      "payments" in ks
      && (forall i :: 0 <= i < |ks| ==> (IsArrayIndex(ks[i]) <==> i < IndexOf(ks, "payments")))
      && (forall i, j :: 0 <= i < j < IndexOf(ks, "payments") ==> IndexValue(ks[i]) < IndexValue(ks[j]))
  {
    var ms := ProductDetails(p);
    EmitObjectKeys(ms);
    ProductDetailsKeys(p, "payments");
    PaymentsIsNotAnIndex();
    OwnKeyOrderAroundFirst(ms);
  }
}
