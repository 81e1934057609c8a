/**
 The firm controller's two handlers. Each one is a sequence of lookups and
 saves against the store; the HTTP status and JSON body become a result value.
 The image upload happens before a handler runs, so a handler only receives
 the uploaded file's path, if any.
 */
module FirmController {

  import opened Wrappers
  import opened Catalog
  import opened MediaKey

  /** The outcomes of `addFirm`: 200 with the new firm, 404, or 400. */
  datatype AddFirmResult =
    | FirmAdded(firmId: Id, vendorFirmName: string, imageUrl: Option<string>)
    | VendorNotFound
    | VendorHasFirm

  /** The outcomes of `deleteFirmById`: 200 or 404. */
  datatype DeleteFirmResult = FirmDeleted | FirmNotFound

  /** The firm document `addFirm` builds for `vendorId`. */
  function NewFirm(form: FirmForm, image: Option<string>, vendorId: Id): (firm: Firm)
    ensures firm.vendor == vendorId && firm.image == image && firm.products == []
    ensures firm.firmName == form.firmName && firm.area == form.area && firm.category == form.category
    ensures firm.region == form.region && firm.offer == form.offer
  {
    Firm(form.firmName, form.area, form.category, form.region, form.offer, image, vendorId, [])
  }

  /** `addFirm`: the caller's vendor gets its one firm, linked both ways. */
  method AddFirm(db: Store, vendorId: Id, form: FirmForm, upload: Option<string>) returns (r: AddFirmResult)
    requires db.Valid()
    modifies db
    ensures db.Valid()
    ensures vendorId !in old(db.vendors) ==> r == VendorNotFound && unchanged(db)
    ensures vendorId in old(db.vendors) && old(db.vendors[vendorId].firm) != [] ==>
              r == VendorHasFirm && unchanged(db)
    ensures vendorId in old(db.vendors) && old(db.vendors[vendorId].firm) == [] ==>
              && r.FirmAdded?
              && r.firmId == old(db.nextId) && r.firmId !in old(db.firms)
              && r.vendorFirmName == form.firmName && r.imageUrl == upload
              && db.firms == old(db.firms)[r.firmId := NewFirm(form, upload, vendorId)]
              && db.firms[r.firmId].vendor == vendorId
              && db.vendors == old(db.vendors)[vendorId := old(db.vendors[vendorId]).(firm := [r.firmId])]
              && db.products == old(db.products)
    ensures old(db.OneFirmPerVendor()) ==> db.OneFirmPerVendor()
    ensures old(db.FirmsListedByVendor()) ==> db.FirmsListedByVendor()
    ensures old(db.ProductsListedByFirm()) ==> db.ProductsListedByFirm()
  {
    if vendorId !in db.vendors {
      return VendorNotFound;
    }
    var vendor := db.vendors[vendorId];
    if |vendor.firm| > 0 {
      return VendorHasFirm;
    }
    var firm := NewFirm(form, upload, vendorId);
    var firmId := db.NewId();
    db.firms := db.firms[firmId := firm];
    vendor := vendor.(firm := vendor.firm + [firmId]);
    db.vendors := db.vendors[vendorId := vendor];
    assert vendor.firm == [firmId];
    r := FirmAdded(firmId, firm.firmName, firm.image);
  }

  /** `deleteFirmById`: destroy the firm's image if it has one, then remove the firm.
      The owning vendor keeps listing the removed id and the firm's products stay. */
  method DeleteFirmById(db: Store, media: MediaStore, firmId: Id) returns (r: DeleteFirmResult)
    requires db.Valid()
    modifies db, media
    ensures db.Valid()
    ensures firmId !in old(db.firms) ==> r == FirmNotFound && unchanged(db) && unchanged(media)
    ensures firmId in old(db.firms) ==>
              && r == FirmDeleted
              && db.firms == old(db.firms) - {firmId}
              && db.vendors == old(db.vendors)
              && db.products == old(db.products)
              && db.nextId == old(db.nextId)
    ensures firmId in old(db.firms) ==>
              var image := old(db.firms[firmId].image);
              if image.Some? && image.value != "" then
                media.destroyed == old(media.destroyed) + ["firms/" + PublicId(image.value)]
              else
                media.destroyed == old(media.destroyed)
    ensures firmId in old(db.firms) && old(db.FirmsListedByVendor()) ==>
              firmId in db.vendors[old(db.firms[firmId].vendor)].firm
    ensures old(db.OneFirmPerVendor()) ==> db.OneFirmPerVendor()
    ensures old(db.FirmsListedByVendor()) ==> db.FirmsListedByVendor()
    ensures old(db.ProductsListedByFirm()) ==> db.ProductsListedByFirm()
  {
    if firmId !in db.firms {
      return FirmNotFound;
    }
    var firm := db.firms[firmId];
    var key := FirmImageKey(firm.image);
    if key.Some? {
      media.Destroy(key.value);
    }
    db.firms := db.firms - {firmId};
    r := FirmDeleted;
  }
}
