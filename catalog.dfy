/**
 The three collections the controllers work on (Vendor, Firm, Product), the
 identifier supply that stands for MongoDB's generated ObjectIds, and the
 remote media store's delete call.
 */
module Catalog {

  import opened Wrappers

  /** An opaque document identifier. */
  type Id = nat

  /** A vendor account: the ids of the firms it owns, in push order. */
  datatype Vendor = Vendor(firm: seq<Id>)

  /** The text fields of an add-firm request body. */
  datatype FirmForm = FirmForm(firmName: string, area: string, category: string, region: string, offer: string)

  /** A firm document; `image` is the upload's URL or absent, `vendor` the owner. */
  datatype Firm = Firm(
    firmName: string, area: string, category: string, region: string, offer: string,
    image: Option<string>,
    vendor: Id,
    products: seq<Id>)

  /** The text fields of an add-product request body. */
  datatype ProductForm = ProductForm(productName: string, price: string, category: string, bestSeller: string, description: string)

  /** A product document; `image` is the upload's URL or the empty string, `firm` the owner. */
  datatype Product = Product(
    productName: string, price: string, category: string, bestSeller: string, description: string,
    image: string,
    firm: Id)

  predicate IdsBelow(ids: seq<Id>, bound: Id) {
    forall i :: 0 <= i < |ids| ==> ids[i] < bound
  }

  /** The products of `products` whose `firm` field is `firmId`, keyed by id
      (the query `Product.find({ firm: firmId })`, without its order). */
  function ProductsOf(products: map<Id, Product>, firmId: Id): (listed: map<Id, Product>)
    ensures forall id :: id in listed <==> id in products && products[id].firm == firmId
    ensures forall id :: id in listed ==> listed[id] == products[id]
  {
    map id | id in products && products[id].firm == firmId :: products[id]
  }

  /** Adding a product shows up in its own firm's listing and in no other. */
  lemma ProductsOfInsert(products: map<Id, Product>, id: Id, p: Product, firmId: Id)
    requires id !in products
    ensures ProductsOf(products[id := p], firmId) ==
            if p.firm == firmId then ProductsOf(products, firmId)[id := p] else ProductsOf(products, firmId)
  {
  }

  /** Removing a product removes it from every listing and nothing else. */
  lemma ProductsOfRemove(products: map<Id, Product>, id: Id, firmId: Id)
    ensures ProductsOf(products - {id}, firmId) == ProductsOf(products, firmId) - {id}
  {
  }

  /** The document collections. */
  class Store {
    var vendors: map<Id, Vendor>
    var firms: map<Id, Firm>
    var products: map<Id, Product>
    /** Every id handed out so far is below `nextId`. */
    var nextId: Id

    /** Ids come from the supply: every key and every stored reference is below `nextId`,
        so a fresh id is neither a document nor referenced by one. */
    ghost predicate Valid()
      reads this
    {
      && (forall v :: v in vendors ==> v < nextId && IdsBelow(vendors[v].firm, nextId))
      && (forall f :: f in firms ==> f < nextId && firms[f].vendor < nextId && IdsBelow(firms[f].products, nextId))
      && (forall p :: p in products ==> p < nextId && products[p].firm < nextId)
    }

    /** One firm per vendor. */
    ghost predicate OneFirmPerVendor()
      reads this
    {
      forall v :: v in vendors ==> |vendors[v].firm| <= 1
    }

    /** The firm-to-vendor link is mirrored: each firm is listed by its vendor. */
    ghost predicate FirmsListedByVendor()
      reads this
    {
      forall f :: f in firms ==> firms[f].vendor in vendors && f in vendors[firms[f].vendor].firm
    }

    /** The product-to-firm link is mirrored while the firm exists. */
    ghost predicate ProductsListedByFirm()
      reads this
    {
      forall p :: p in products && products[p].firm in firms ==> p in firms[products[p].firm].products
    }

    /** A store over the vendor accounts created elsewhere, none of which owns a firm yet,
        whose ids all come before `nextId`. */
    constructor (vendors: map<Id, Vendor>, nextId: Id)
      requires forall v :: v in vendors ==> v < nextId && vendors[v].firm == []
      ensures this.vendors == vendors && firms == map[] && products == map[] && this.nextId == nextId
      ensures Valid() && OneFirmPerVendor() && FirmsListedByVendor() && ProductsListedByFirm()
    {
      this.vendors := vendors;
      firms := map[];
      products := map[];
      this.nextId := nextId;
    }

    /** A new ObjectId: one no document has and none refers to. */
    method NewId() returns (id: Id)
      requires Valid()
      modifies this`nextId
      ensures id == old(nextId) && nextId == id + 1
      ensures id !in vendors && id !in firms && id !in products
      ensures forall v :: v in vendors ==> id !in vendors[v].firm
      ensures forall f :: f in firms ==> id != firms[f].vendor && id !in firms[f].products
      ensures forall p :: p in products ==> id != products[p].firm
      ensures Valid()
    {
      id := nextId;
      nextId := nextId + 1;
    }
  }

  /** The remote media store, seen through the keys it was asked to destroy. */
  class MediaStore {
    var destroyed: seq<string>

    /** A media store that has not been asked to destroy anything. */
    constructor ()
      ensures destroyed == []
    {
      destroyed := [];
    }

    /** `cloudinary.uploader.destroy(key)`. */
    method Destroy(key: string)
      modifies this
      ensures destroyed == old(destroyed) + [key]
    {
      destroyed := destroyed + [key];
    }
  }
}
