/**
 * The product collection handler (`/products`) and the product item handler
 * (`/products/{id}`): which status, body and store operations each request leads to.
 * The store, and the JSON encoding of products, are outcomes supplied in `Env`.
 */
module ProductService {
  import opened Wrappers
  import opened GoStrings
  import opened GoStrconv
  import opened Http
  import opened ProductModel

  /** The separator the item handler splits its path on: the base path and a slash. */
  const ItemSeparator: string := "products/"

  /** The store operations a handler invokes. */
  datatype ProductCall =
    | ListProducts                  // getProductList()
    | GetProduct(id: int)           // getProduct(id)
    | SaveProduct(product: Product) // addOrUpdateProduct(product)
    | RemoveProduct(id: int)        // removeProduct(id)

  /**
   * What the store and the JSON encoder answer. `findProduct(id)` is `None` when the
   * store has no such product; `saveProduct(p)` is the stored id, or `None` when the
   * store reports an error; a marshal result is `None` when encoding fails.
   */
  datatype Env = Env(
    productList: seq<Product>,
    findProduct: int -> Option<Product>,
    saveProduct: Product -> Option<int>,
    marshalList: seq<Product> -> Option<string>,
    marshalProduct: Product -> Option<string>)

  predicate IsListedMethod(m: string)
  {
    m == MethodGet || m == MethodPost || m == MethodOptions
  }

  /** `productsHandler`: list the products (GET) or create one (POST). */
  function ProductsHandler(req: Request<Product>, env: Env): (r: Handled<ProductCall>)
    ensures r.response.header == map[]
    // a POST whose body cannot be read or decoded, or carries an id, is refused
    ensures r.response.status == Some(StatusBadRequest) <==>
              req.verb == MethodPost && (!req.body.Decoded? || req.body.value.productId != 0)
    ensures r.response.status == Some(StatusCreated) <==>
              req.verb == MethodPost && req.body.Decoded? && req.body.value.productId == 0 &&
              env.saveProduct(req.body.value).Some?
    ensures r.response.status == Some(StatusCreated) ==>
              r.response.payload == Bytes(FormatInt(env.saveProduct(req.body.value).value))
    ensures r.response.status == Some(StatusInternalServerError) <==>
              (req.verb == MethodGet && env.marshalList(env.productList).None?) ||
              (req.verb == MethodPost && req.body.Decoded? && req.body.value.productId == 0 &&
               env.saveProduct(req.body.value).None?)
    ensures r.response.status == Some(StatusMethodNotAllowed) <==> !IsListedMethod(req.verb)
    ensures r.response.status == None <==>
              (req.verb == MethodGet && env.marshalList(env.productList).Some?) || req.verb == MethodOptions
    ensures req.verb == MethodGet && r.response.status == None ==>
              r.response.payload == Bytes(env.marshalList(env.productList).value)
    ensures r.response.payload != NoPayload ==> r.response.status in {None, Some(StatusCreated)}
    // the store is asked for the list on every GET and only then, and asked to save only a decoded body with id 0
    ensures req.verb == MethodGet ==> r.calls == [ListProducts]
    ensures |r.calls| <= 1
    ensures forall c :: c in r.calls ==>
              (c == ListProducts && req.verb == MethodGet) ||
              (c.SaveProduct? && req.verb == MethodPost && req.body == Decoded(c.product) && c.product.productId == 0)
  {
    if req.verb == MethodGet then
      match env.marshalList(env.productList)
      case None => Handled(StatusOnly(StatusInternalServerError), [ListProducts])
      case Some(json) => Handled(Response(None, map[], Bytes(json)), [ListProducts])
    else if req.verb == MethodPost then
      match req.body
      case Unreadable => Handled(StatusOnly(StatusBadRequest), [])
      case Malformed => Handled(StatusOnly(StatusBadRequest), [])
      case Decoded(p) =>
        if p.productId != 0 then Handled(StatusOnly(StatusBadRequest), [])
        else
          match env.saveProduct(p)
          case None => Handled(StatusOnly(StatusInternalServerError), [SaveProduct(p)])
          case Some(id) => Handled(Response(Some(StatusCreated), map[], Bytes(FormatInt(id))), [SaveProduct(p)])
    else if req.verb == MethodOptions then
      Handled(Untouched(), [])
    else
      Handled(StatusOnly(StatusMethodNotAllowed), [])
  }

  /** `productsBasePath + "/"` never repeats its first character, so its occurrences cannot overlap. */
  lemma ItemSeparatorFirstCharUnique()
    ensures FirstCharUnique(ItemSeparator)
  {
    forall k | 0 < k < |ItemSeparator|
      ensures ItemSeparator[k] != ItemSeparator[0]
    {
    }
  }

  /**
   * The id text of an item path: the last piece of the path split on "products/",
   * which is the whole path when it has no "products/" and otherwise the text after
   * the last occurrence.
   */
  function ItemIdText(path: string): (r: string)
    ensures r == match LastIndex(path, ItemSeparator)
                 case None => path
                 case Some(p) => path[p + |ItemSeparator|..]
  {
    ItemSeparatorFirstCharUnique();
    LastPieceAfterLastIndex(path, ItemSeparator);
    Last(Split(path, ItemSeparator))
  }

  /** The product id an item path names, if its id text is a decimal int64. */
  function ParseItemId(path: string): (r: Option<int>)
    ensures r.Some? ==> IsInt64(r.value)
    // an id text is an optional sign, then digits only
    ensures r.Some? ==> var t := ItemIdText(path);
              |t| >= 1 && (t[0] == '+' || t[0] == '-' || IsDigit(t[0])) && forall i :: 1 <= i < |t| ==> IsDigit(t[i])
  {
    Atoi(ItemIdText(path))
  }

  /** The path names an id and the store holds a product with that id. */
  predicate Resolves(path: string, env: Env)
  {
    ParseItemId(path).Some? && env.findProduct(ParseItemId(path).value).Some?
  }

  predicate IsItemMethod(m: string)
  {
    m == MethodGet || m == MethodPut || m == MethodDelete || m == MethodOptions
  }

  /** `productHandler`: the id and existence checks, then GET, PUT or DELETE of that product. */
  function ProductHandler(req: Request<Product>, env: Env): (r: Handled<ProductCall>)
    ensures r.response.header == map[]
    // the id is parsed and looked up before the method is looked at
    ensures r.response.status == Some(StatusNotFound) <==> !Resolves(req.path, env)
    ensures ParseItemId(req.path).None? ==> r.calls == []
    ensures ParseItemId(req.path).Some? ==> |r.calls| >= 1 && r.calls[0] == GetProduct(ParseItemId(req.path).value)
    ensures r.response.status == Some(StatusBadRequest) <==>
              Resolves(req.path, env) && req.verb == MethodPut &&
              (!req.body.Decoded? || Some(req.body.value.productId) != ParseItemId(req.path))
    ensures r.response.status == Some(StatusOK) <==>
              Resolves(req.path, env) &&
              ((req.verb == MethodPut && req.body.Decoded? &&
                Some(req.body.value.productId) == ParseItemId(req.path) &&
                env.saveProduct(req.body.value).Some?) ||
               req.verb == MethodDelete)
    ensures r.response.status == Some(StatusInternalServerError) <==>
              Resolves(req.path, env) &&
              ((req.verb == MethodGet && env.marshalProduct(env.findProduct(ParseItemId(req.path).value).value).None?) ||
               (req.verb == MethodPut && req.body.Decoded? &&
                Some(req.body.value.productId) == ParseItemId(req.path) &&
                env.saveProduct(req.body.value).None?))
    ensures r.response.status == Some(StatusMethodNotAllowed) <==>
              Resolves(req.path, env) && !IsItemMethod(req.verb)
    ensures r.response.status == None <==>
              Resolves(req.path, env) &&
              ((req.verb == MethodGet && env.marshalProduct(env.findProduct(ParseItemId(req.path).value).value).Some?) ||
               req.verb == MethodOptions)
    ensures r.response.payload != NoPayload ==>
              req.verb == MethodGet && r.response.status == None &&
              r.response.payload == Bytes(env.marshalProduct(env.findProduct(ParseItemId(req.path).value).value).value)
    // a saved product always carries the path's id; only DELETE removes, and only that id
    ensures forall c :: c in r.calls && c.SaveProduct? ==>
              req.verb == MethodPut && req.body == Decoded(c.product) && Some(c.product.productId) == ParseItemId(req.path)
    ensures forall c :: c in r.calls && c.RemoveProduct? ==>
              req.verb == MethodDelete && Some(c.id) == ParseItemId(req.path)
  {
    match ParseItemId(req.path)
    case None => Handled(StatusOnly(StatusNotFound), [])
    case Some(id) =>
      match env.findProduct(id)
      case None => Handled(StatusOnly(StatusNotFound), [GetProduct(id)])
      case Some(product) =>
        if req.verb == MethodGet then
          match env.marshalProduct(product)
          case None => Handled(StatusOnly(StatusInternalServerError), [GetProduct(id)])
          case Some(json) => Handled(Response(None, map[], Bytes(json)), [GetProduct(id)])
        else if req.verb == MethodPut then
          match req.body
          case Unreadable => Handled(StatusOnly(StatusBadRequest), [GetProduct(id)])
          case Malformed => Handled(StatusOnly(StatusBadRequest), [GetProduct(id)])
          case Decoded(updated) =>
            if updated.productId != id then Handled(StatusOnly(StatusBadRequest), [GetProduct(id)])
            else
              match env.saveProduct(updated)
              case None => Handled(StatusOnly(StatusInternalServerError), [GetProduct(id), SaveProduct(updated)])
              case Some(_) => Handled(StatusOnly(StatusOK), [GetProduct(id), SaveProduct(updated)])
        else if req.verb == MethodDelete then
          Handled(StatusOnly(StatusOK), [GetProduct(id), RemoveProduct(id)])
        else if req.verb == MethodOptions then
          Handled(Untouched(), [GetProduct(id)])
        else
          Handled(StatusOnly(StatusMethodNotAllowed), [GetProduct(id)])
  }

  // ---------------------------------------------------------------- properties

  /**
   * What the client of the collection receives: a GET is answered 200 with the encoded list
   * exactly when encoding succeeds and 500 with nothing otherwise, and an OPTIONS request is
   * answered 200 with nothing written.
   */
  lemma CollectionAnswers(path: string, body: Body<Product>, env: Env)
    ensures var r := ProductsHandler(Request(MethodGet, path, body), env).response;
      SentStatus(r) == (if env.marshalList(env.productList).Some? then StatusOK else StatusInternalServerError) &&
      (SentStatus(r) == StatusOK ==> r.payload == Bytes(env.marshalList(env.productList).value)) &&
      (SentStatus(r) != StatusOK ==> r.payload == NoPayload)
    ensures var r := ProductsHandler(Request(MethodOptions, path, body), env).response;
      SentStatus(r) == StatusOK && r.payload == NoPayload && r.header == map[]
  {
  }

  /**
   * What the client of an item receives for a stored product: GET is 200 with the encoded
   * product or 500, OPTIONS is 200 with nothing written; a path naming no product is 404.
   */
  lemma ItemAnswers(path: string, body: Body<Product>, env: Env)
    ensures !Resolves(path, env) ==> SentStatus(ProductHandler(Request(MethodGet, path, body), env).response) == StatusNotFound
    ensures Resolves(path, env) ==>
      var product := env.findProduct(ParseItemId(path).value).value;
      var r := ProductHandler(Request(MethodGet, path, body), env).response;
      SentStatus(r) == (if env.marshalProduct(product).Some? then StatusOK else StatusInternalServerError) &&
      (SentStatus(r) == StatusOK ==> r.payload == Bytes(env.marshalProduct(product).value))
    ensures Resolves(path, env) ==>
      var r := ProductHandler(Request(MethodOptions, path, body), env).response;
      SentStatus(r) == StatusOK && r.payload == NoPayload
  {
  }

  /** The path built for product `n` names `n` exactly when `n` is an int64, whatever comes before "products/". */
  lemma ItemIdRoundTrip(base: string, n: int)
    ensures ItemIdText(base + ItemSeparator + FormatInt(n)) == FormatInt(n)
    ensures ParseItemId(base + ItemSeparator + FormatInt(n)) == if IsInt64(n) then Some(n) else None
  {
    var t := FormatInt(n);
    FormatIntAlphabet(n);
    NotContainsWithoutFirstChar(t, ItemSeparator);
    ItemSeparatorFirstCharUnique();
    LastIndexOfSuffix(base, ItemSeparator, t);
    assert (base + ItemSeparator + t)[|base| + |ItemSeparator|..] == t;
    AtoiFormatInt(n);
  }

  /** An item path that names no product gets the same 404, and no store call beyond the lookup, for every method and body. */
  lemma UnresolvedIgnoresMethod(req: Request<Product>, req': Request<Product>, env: Env)
    requires req.path == req'.path && !Resolves(req.path, env)
    ensures ProductHandler(req, env) == ProductHandler(req', env)
    ensures SentStatus(ProductHandler(req, env).response) == StatusNotFound
  {
  }

  /** The JSON body of a 201 reads back, as a decimal integer, as the id the store assigned. */
  lemma CreatedBodyIsNewId(req: Request<Product>, env: Env)
    requires ProductsHandler(req, env).response.status == Some(StatusCreated)
    requires IsInt64(env.saveProduct(req.body.value).value)
    ensures Atoi(ProductsHandler(req, env).response.payload.data) == Some(env.saveProduct(req.body.value).value)
  {
    AtoiFormatInt(env.saveProduct(req.body.value).value);
  }

  /** DELETE of a stored product is 200 whatever the removal does: its outcome is not an input. */
  lemma DeleteAlwaysOK(path: string, body: Body<Product>, env: Env)
    requires Resolves(path, env)
    ensures var r := ProductHandler(Request(MethodDelete, path, body), env);
      r.response == StatusOnly(StatusOK) && r.calls == [GetProduct(ParseItemId(path).value), RemoveProduct(ParseItemId(path).value)]
  {
  }
}
