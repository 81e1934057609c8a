/**
 The product controller's three handlers: add a product to an existing firm,
 list a firm's products, delete a product.
 */
module ProductController {

  import opened Wrappers
  import opened Catalog

  /** The outcomes of `addProduct`: 200 with the saved document, or 404. */
  datatype AddProductResult = ProductAdded(productId: Id, product: Product) | FirmNotFound

  /** The outcomes of `getProductByFirm`: 200 with the firm's name and products, or 404. */
  datatype ListResult = Listing(restaurantName: string, products: map<Id, Product>) | ListFirmNotFound

  /** The outcomes of `deleteProductById`: 200 or 404. */
  datatype DeleteProductResult = ProductDeleted | ProductNotFound

  /** The product document `addProduct` builds: without a file its image is "". */
  function NewProduct(form: ProductForm, upload: Option<string>, firmId: Id): (p: Product)
    ensures p.firm == firmId
    ensures p.image == if upload.Some? then upload.value else ""
  {
    var imageUrl := if upload.Some? then upload.value else "";
    Product(form.productName, form.price, form.category, form.bestSeller, form.description, imageUrl, firmId)
  }

  /** `addProduct`: a new product under an existing firm, appended to the firm's list. */
  method AddProduct(db: Store, firmId: Id, form: ProductForm, upload: Option<string>) returns (r: AddProductResult)
    requires db.Valid()
    modifies db
    ensures db.Valid()
    ensures firmId !in old(db.firms) ==> r == FirmNotFound && unchanged(db)
    ensures firmId in old(db.firms) ==>
              && r.ProductAdded?
              && r.productId == old(db.nextId) && r.productId !in old(db.products)
              && r.product == NewProduct(form, upload, firmId)
              && db.products == old(db.products)[r.productId := r.product]
              && db.firms == old(db.firms)[firmId := old(db.firms[firmId]).(products := old(db.firms[firmId].products) + [r.productId])]
              && db.vendors == old(db.vendors)
    ensures firmId in old(db.firms) ==>
              forall g :: ProductsOf(db.products, g) ==
                          if g == firmId then old(ProductsOf(db.products, g))[r.productId := r.product]
                          else old(ProductsOf(db.products, g))
    ensures old(db.OneFirmPerVendor()) ==> db.OneFirmPerVendor()
    ensures old(db.FirmsListedByVendor()) ==> db.FirmsListedByVendor()
    ensures old(db.ProductsListedByFirm()) ==> db.ProductsListedByFirm()
  {
    if firmId !in db.firms {
      return FirmNotFound;
    }
    var firm := db.firms[firmId];
    var product := NewProduct(form, upload, firmId);
    var productId := db.NewId();
    ghost var before := db.products;
    db.products := db.products[productId := product];
    firm := firm.(products := firm.products + [productId]);
    db.firms := db.firms[firmId := firm];
    forall g ensures ProductsOf(db.products, g) ==
                     if g == firmId then ProductsOf(before, g)[productId := product] else ProductsOf(before, g)
    {
      ProductsOfInsert(before, productId, product, g);
    }
    r := ProductAdded(productId, product);
  }

  /** `getProductByFirm`: the firm's name and exactly the products whose `firm` is `firmId`. */
  function GetProductByFirm(db: Store, firmId: Id): (r: ListResult)
    reads db
    ensures r.ListFirmNotFound? <==> firmId !in db.firms
    ensures r.Listing? ==> r.restaurantName == db.firms[firmId].firmName
    ensures r.Listing? ==> forall id :: id in r.products <==> id in db.products && db.products[id].firm == firmId
    ensures r.Listing? ==> forall id :: id in r.products ==> r.products[id] == db.products[id]
  {
    if firmId !in db.firms then ListFirmNotFound
    else Listing(db.firms[firmId].firmName, ProductsOf(db.products, firmId))
  }

  /** `deleteProductById`: remove one product; every firm's `products` list is left as it was. */
  method DeleteProductById(db: Store, productId: Id) returns (r: DeleteProductResult)
    requires db.Valid()
    modifies db
    ensures db.Valid()
    ensures productId !in old(db.products) ==> r == ProductNotFound && unchanged(db)
    ensures productId in old(db.products) ==>
              && r == ProductDeleted
              && db.products == old(db.products) - {productId}
              && db.firms == old(db.firms)
              && db.vendors == old(db.vendors)
              && db.nextId == old(db.nextId)
    ensures forall g :: ProductsOf(db.products, g) == old(ProductsOf(db.products, g)) - {productId}
    ensures old(db.OneFirmPerVendor()) ==> db.OneFirmPerVendor()
    ensures old(db.FirmsListedByVendor()) ==> db.FirmsListedByVendor()
    ensures old(db.ProductsListedByFirm()) ==> db.ProductsListedByFirm()
  {
    ghost var before := db.products;
    if productId !in db.products {
      forall g ensures ProductsOf(before, g) == ProductsOf(before, g) - {productId} {
        ProductsOfRemove(before, productId, g);
        assert before - {productId} == before;
      }
      return ProductNotFound;
    }
    db.products := db.products - {productId};
    forall g ensures ProductsOf(db.products, g) == ProductsOf(before, g) - {productId} {
      ProductsOfRemove(before, productId, g);
    }
    r := ProductDeleted;
  }
}
