# Vendor, firm and product catalog: the two controllers

This project models the firm and product controllers of a small catalog
backend. A vendor owns at most one firm; a firm owns a list of products; firms
and products may carry an image held in a remote media store (Cloudinary).

The three MongoDB collections are modelled as a `Store` class with one map per
collection and a counter that stands in for ObjectId generation
(`catalog.dfy`). The store's constructor takes the vendor accounts, which are
created elsewhere and own no firm yet. Each handler that writes (`addFirm`,
`deleteFirmById`, `addProduct`, `deleteProductById`) is a method that takes the
store, does the lookups and saves in the order in which the handler does them,
and returns a result datatype in place of the HTTP status and JSON body. The
read-only `getProductByFirm` is a function that reads the store
(`firm_controller.dfy`, `product_controller.dfy`). The media store is a class
that records every key it is asked to destroy.

The image URL is turned into a delete key by `url.split("/").pop().split(".")[0]`.
This is modelled as a pure function over a model of JavaScript's `split` for a
one-character separator (`media_key.dfy`), and that function has its own lemmas.
`scenarios.dfy` holds two end-to-end runs of the handlers. They are checked from
the handlers' contracts alone.

Invariants of the store:
- `Valid`: every id and every stored reference comes from the id supply, so a new id is not in use.
- `OneFirmPerVendor`: each vendor's `firm` list has at most one entry.
- `FirmsListedByVendor`: each firm's vendor lists that firm.
- `ProductsListedByFirm`: each product whose firm still exists is listed by that firm.

Every handler keeps `Valid`. Every handler also keeps each of the other three
whenever it held before the call.

Behaviour of the code worth knowing:
- `cloudinary.uploader.destroy` (controllers/firmController.js:84) is awaited inside the handler's `try`, so a failing destroy aborts the record deletion; it is not best-effort cleanup. The model does not model the failure (see below).
- `upload.single("image")` runs before the `addProduct` and `addFirm` handlers (controllers/productController.js:104, controllers/firmController.js:95), so any image is already uploaded when a lookup fails. The model takes the upload as an input and claims nothing about it.
- The derived id (controllers/firmController.js:83) is the last `/`-segment of the image reference up to its first `.`, or that whole segment when it has no dot. So `firms/abc123.png` is destroyed under `firms/abc123`. Only the first dot counts (`MediaKey.PublicIdDropsAfterFirstDot`). A slash after a dot moves the segment that is used (`MediaKey.PublicIdSlashAfterDot`). A reference ending in `/` yields an empty id, so the destroy targets `firms/` (`MediaKey.PublicIdTrailingSlash`).

## Model

| member | source | states |
|---|---|---|
| `MediaKey.Split` | controllers/firmController.js:83 | `split` on one character: at least one piece, no piece holds the separator, the first piece is a prefix of the input |
| `MediaKey.JoinSplit` | controllers/firmController.js:83 | joining the pieces of `split` with the separator gives the input back |
| `MediaKey.SplitJoin` | controllers/firmController.js:83 | splitting the join of separator-free pieces gives those pieces back |
| `MediaKey.SplitWithoutSep` | controllers/firmController.js:83 | a string without the separator splits into itself alone |
| `MediaKey.SplitAtSep` | controllers/firmController.js:83 | `split(x + sep + y)` is `split(x)` followed by `split(y)` |
| `MediaKey.Last` | controllers/firmController.js:83 | `.pop()` on the non-empty result of `split`: the array is everything before the result, followed by the result |
| `MediaKey.PublicId` | controllers/firmController.js:83 | the derived public id never contains `/` or `.` |
| `MediaKey.PublicIdOfUrl` | controllers/firmController.js:83 | for `prefix/k.rest`, where `k` has no `/` or `.` and `rest` has no `/`, the derived id is `k` |
| `MediaKey.PublicIdOfUrlWithoutExtension` | controllers/firmController.js:83 | for `prefix/k`, where `k` has no `/` or `.`, the derived id is `k` |
| `MediaKey.PublicIdOfName` | controllers/firmController.js:83 | for a reference `k.rest` with no slash at all, where `k` has no `.`, the derived id is `k` |
| `MediaKey.PublicIdOfNameWithoutExtension` | controllers/firmController.js:83 | a reference with neither `/` nor `.` is its own derived id |
| `MediaKey.PublicIdTrailingSlash` | controllers/firmController.js:83-84 | a reference ending in `/` yields the empty id, and the destroy key is the bare folder `firms/` |
| `MediaKey.PublicIdSlashAfterDot` | controllers/firmController.js:83 | `a/b.c/d.e` yields `d`: a slash after the dot moves the segment that is used |
| `MediaKey.PublicIdDropsAfterFirstDot` | controllers/firmController.js:83 | for `prefix/a.b.ext` the derived id is `a`: everything after the first dot is lost |
| `MediaKey.PublicIdIdempotent` | controllers/firmController.js:83 | deriving the id of a derived id changes nothing |
| `MediaKey.FirmImageKey` | controllers/firmController.js:82-84 | a destroy key exists exactly when the image is present and non-empty (JavaScript truthiness); if it exists, it is `firms/` followed by a text with no `/` or `.` |
| `MediaKey.FirmImageKeyOfUrl` | controllers/firmController.js:83-84 | for an image `prefix/k.rest` of the shape above, the destroy target is `firms/k` |
| `MediaKey.FirmImageKeyExample` | controllers/firmController.js:83-84 | the image `firms/abc123.png` is destroyed under `firms/abc123` |
| `Catalog.ProductsOf` | controllers/productController.js:76 | `Product.find({ firm: firmId })`: exactly the stored products whose `firm` is the given id, with their stored values, in no order |
| `Catalog.ProductsOfInsert` | controllers/productController.js:76 | inserting a product with a new id adds it to the listing of its own firm and changes no other firm's listing |
| `Catalog.ProductsOfRemove` | controllers/productController.js:76 | removing a product removes it from every listing and changes nothing else there |
| `Catalog.Store.constructor` | controllers/firmController.js:36-43 | a store over vendor accounts that own no firm yet, with all their ids before the id supply, satisfies `Valid` and all three link invariants; this is the base case for the invariants the handlers keep |
| `Catalog.Store.NewId` | controllers/firmController.js:45-55 | a new document id is not a key of any collection and is not the value of any vendor's `firm` entry, any firm's `vendor` or `products` entry, or any product's `firm`; the store stays `Valid` |
| `Catalog.MediaStore.constructor` | controllers/firmController.js:84 | a media store starts with no destroy calls recorded |
| `Catalog.MediaStore.Destroy` | controllers/firmController.js:84 | a destroy call appends exactly its key to the log of destroyed keys |
| `FirmController.NewFirm` | controllers/firmController.js:45-53 | `new Firm({...})`: the document carries the form's five fields, the upload path or an absent image, the caller's vendor id and an empty `products` list |
| `FirmController.AddFirm` | controllers/firmController.js:29-69 | unknown vendor gives `VendorNotFound`, and a vendor with a non-empty `firm` list gives `VendorHasFirm`; both leave the store unchanged. Otherwise a firm with a fresh id is stored with `vendor` set to the caller and image set to the upload path or absent, the vendor's `firm` list becomes exactly `[firmId]`, and no product changes. The result carries the new id, the form's `firmName` and the upload path. All four store invariants are kept |
| `FirmController.DeleteFirmById` | controllers/firmController.js:72-93 | unknown id gives `FirmNotFound` with no change and no destroy call. Otherwise exactly that firm is removed; vendors, products and the id supply are unchanged, so the owning vendor still lists the removed id. The media store is asked to destroy `firms/` + derived id exactly when the image is present and non-empty, and is not called otherwise. All four store invariants are kept |
| `ProductController.NewProduct` | controllers/productController.js:38-52 | the new product's `firm` is the target firm; its image is the upload path, or the empty string when there is no file |
| `ProductController.AddProduct` | controllers/productController.js:27-63 | unknown firm gives `FirmNotFound` and leaves the store unchanged. Otherwise the product is stored under a fresh id and appended at the end of that firm's `products` list; no other firm, no vendor and no existing product changes. The firm's listing gains the product and every other listing stays the same. All four store invariants are kept |
| `ProductController.GetProductByFirm` | controllers/productController.js:66-83 | `ListFirmNotFound` exactly when the firm is unknown, never a success payload. Otherwise `restaurantName` is the firm's `firmName` and the products are exactly the stored products whose `firm` is the given id, with their stored values. Being a function, it changes nothing |
| `ProductController.DeleteProductById` | controllers/productController.js:86-100 | unknown id gives `ProductNotFound` and leaves the store unchanged. Otherwise exactly that product is removed, and every firm's `products` list is unchanged, so the dangling id remains. Every listing loses that product and changes in no other way. All four store invariants are kept |
| `Scenarios.JoesLifecycle` | controllers/firmController.js:29-93 | starting from a new store with one vendor and no firm: the vendor adds a firm without an image (result `imageUrl` absent, `vendor.firm == [F1]`) and is refused a second firm. It then adds a product without an image (stored image `""`, listed under F1). Deleting the product keeps F1's `products` list. Deleting the firm makes no destroy call and leaves `vendor.firm == [F1]`; listing F1 then gives `ListFirmNotFound`, and the vendor is refused any new firm from then on |
| `Scenarios.FirmImageDeletion` | controllers/firmController.js:72-93 | starting from a new store: deleting a firm whose image is `firms/abc123.png` makes exactly one destroy call, for `firms/abc123`; its vendor still lists the removed firm |

## Left out

- Cloudinary configuration from environment variables and the multer/CloudinaryStorage wiring (controllers/firmController.js:10-26, controllers/productController.js:8-24): third-party setup. An upload is modelled only as the optional path the handler finds in `req.file.path`.
- Upload key construction from `Date.now()` and the forced `png`/`jpg` formats (controllers/firmController.js:20-22, controllers/productController.js:18-20): these are nondeterministic and Cloudinary-defined, and the URL Cloudinary returns is not visible here. The model makes no claim that key construction and key derivation are inverses.
- Uploads happen in middleware before each handler runs, so the model says nothing about whether an upload happened when a lookup fails.
- The generic `catch` → 500 paths: failures of `findById`, `save`, `findByIdAndDelete` or `cloudinary.uploader.destroy`. These include invalid-ObjectId cast errors and a save of the child that succeeds while the save of the parent fails. They depend on external failures; every repository and media call is modelled as succeeding.
- Async execution and concurrent requests: the handlers are modelled as running one at a time. Two interleaved `addFirm` calls for one vendor can both pass the check at controllers/firmController.js:41, and this race is not modelled.
- MongoDB persistence details: ObjectId format, document versions, `populate`, and the order of `Product.find` results. The listing is a map from id to product and carries no order.
- Mongoose schema casting and defaults (models/Firm.js, models/Product.js and models/Vendor.js are not part of this model): form fields are kept as the strings the request carries. A new firm's `products` list is taken to start empty. A vendor is modelled by its `firm` list alone.
- HTTP status codes and message texts: each is one constructor of a result datatype.
- `ProductController.GetProductByFirm`: the listing of products is unordered.
