/**
 End-to-end runs of the handlers on a fresh store, checked from their contracts
 alone: a vendor gets a firm and a product, and both are deleted again, leaving
 the references the handlers do not clean up.
 */
module Scenarios {

  import opened Wrappers
  import opened Catalog
  import opened MediaKey
  import FirmController
  import ProductController

  /** Vendor `v1` with no firm adds "Joe's" and a "Burger" without images, tries a
      second firm, deletes the product and then the firm, and is then refused a
      new firm because its `firm` list still holds the deleted id. */
  method JoesLifecycle(v1: Id) returns (db: Store, media: MediaStore, f1: Id)
    ensures db.Valid() && db.OneFirmPerVendor()
    ensures v1 in db.vendors && db.vendors[v1].firm == [f1] && f1 !in db.firms
    ensures media.destroyed == []
  {
    db := new Store(map[v1 := Vendor([])], v1 + 1);
    media := new MediaStore();
    var joes := FirmForm("Joe's", "X", "food", "north", "10%");
    var added := FirmController.AddFirm(db, v1, joes, None);
    assert added.FirmAdded? && added.vendorFirmName == "Joe's" && added.imageUrl == None;
    f1 := added.firmId;
    assert db.vendors[v1].firm == [f1] && db.firms[f1].vendor == v1;

    var again := FirmController.AddFirm(db, v1, FirmForm("Joe's 2", "Y", "food", "south", "5%"), None);
    assert again == FirmController.VendorHasFirm;

    var burger := ProductForm("Burger", "5", "main", "false", "...");
    var product := ProductController.AddProduct(db, f1, burger, None);
    assert product.ProductAdded? && product.product.image == "" && product.product.firm == f1;
    var p1 := product.productId;
    assert db.firms[f1].products == [p1];
    var listing := ProductController.GetProductByFirm(db, f1);
    assert listing.Listing? && listing.restaurantName == "Joe's" && p1 in listing.products;

    var gone := ProductController.DeleteProductById(db, p1);
    assert gone == ProductController.ProductDeleted;
    assert db.firms[f1].products == [p1];
    listing := ProductController.GetProductByFirm(db, f1);
    assert listing.Listing? && p1 !in listing.products;

    var deleted := FirmController.DeleteFirmById(db, media, f1);
    assert deleted == FirmController.FirmDeleted;
    listing := ProductController.GetProductByFirm(db, f1);
    assert listing == ProductController.ListFirmNotFound;

    var afterDelete := FirmController.AddFirm(db, v1, joes, None);
    assert afterDelete == FirmController.VendorHasFirm;
  }

  /** A firm whose image reference is "firms/abc123.png" is deleted with one
      destroy call for "firms/abc123"; its vendor still lists it. */
  method FirmImageDeletion(v2: Id) returns (db: Store, media: MediaStore, f2: Id)
    ensures v2 in db.vendors && db.vendors[v2].firm == [f2] && f2 !in db.firms
    ensures media.destroyed == ["firms/abc123"]
  {
    db := new Store(map[v2 := Vendor([])], v2 + 1);
    media := new MediaStore();
    var added := FirmController.AddFirm(db, v2, FirmForm("Ann's", "Z", "cafe", "east", ""), Some("firms/abc123.png"));
    f2 := added.firmId;
    assert db.firms[f2].image == Some("firms/abc123.png");
    var deleted := FirmController.DeleteFirmById(db, media, f2);
    FirmImageKeyExample();
  }
}
