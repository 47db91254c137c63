# Sweet Shop inventory, modelled in Dafny

This project models the server side of the Sweet Shop inventory API. Three parts are modelled:

- The `Sweet` schema (`backend/models/Sweet.js`): the fields of a stored record, its per-path validators, and the invariant every stored record satisfies.
- The handlers of `backend/controllers/sweetController.js`: list, get, search, create, update, delete, purchase and restock. They run against an in-memory table. That table is the class `SweetController.Inventory`, which holds a map from record id to record and a creation clock.
- The router of `backend/routes/sweetRoutes.js`: authentication on every request, first-match route resolution, the admin guard, and the dispatch of an admitted request to its handler.

Files:

- `wrappers.dfy`: `Option` and `Result`.
- `sweet_schema.dfy`: module `SweetSchema`.
  - The category enum.
  - JavaScript's `trim`.
  - The `maxlength` count in UTF-16 code units.
  - Insert validation (`Validate`) and update validation (`ApplyUpdate`).
- `sweet_controller.dfy`: module `SweetController`.
  - The search filter and the newest-first ordering.
  - The purchase rule, as written and as corrected.
  - The `Inventory` class.
- `sweet_routes.dfy`: module `SweetRoutes`.
  - The access table and the route table.
  - `Dispatch`, and the `Handle` method that serves one request against an `Inventory`.

Prices are integer cents. The schema's $0.01 to $10,000 is 1 to 1,000,000 cents. Quantities are integers.

A body is a record of optional paths. A create draft, an update patch and a purchase or restock `{quantity}` all use this one record.

A validation failure reports the set of failing paths, as the store reports one error per path.

The record's creation timestamp is a counter that the table advances on each insert. It is used only to order listings.

## Model

| member | source | states |
|---|---|---|
| SweetSchema.ParseCategory | backend/models/Sweet.js:11-18 | A string is accepted as a category exactly when it is the stored name of one of the six categories, and the category returned has that name. |
| SweetSchema.ParseCategoryName | backend/models/Sweet.js:14-16 | Every category's stored name is accepted and parses back to the same category. |
| SweetSchema.CategoryNameInjective | backend/models/Sweet.js:15 | No two categories share a stored name. |
| SweetSchema.TrimStart | backend/models/Sweet.js:8 | The result is a suffix of the input and does not begin with white space. |
| SweetSchema.TrimEnd | backend/models/Sweet.js:8 | The result is a prefix of the input and does not end with white space. |
| SweetSchema.Trim | backend/models/Sweet.js:8 | The trimmed name is no longer than the input, and neither starts nor ends with white space. |
| SweetSchema.TrimStartDropsSpace | backend/models/Sweet.js:8 | Everything the leading trim removes is white space. |
| SweetSchema.TrimEndDropsSpace | backend/models/Sweet.js:8 | Everything the trailing trim removes is white space. |
| SweetSchema.TrimDropsOnlySpace | backend/models/Sweet.js:8 | The trimmed name is a contiguous piece of the input, with only white space before and after it. |
| SweetSchema.TrimOfTrimmed | backend/models/Sweet.js:8 | Trimming a name that neither starts nor ends with white space leaves it unchanged. |
| SweetSchema.TrimIdempotent | backend/models/Sweet.js:8 | Trimming twice is trimming once. |
| SweetSchema.Utf16Length | backend/models/Sweet.js:9 | The length `maxlength` checks is at least the number of characters and at most twice that number. |
| SweetSchema.SuppliedPaths | backend/controllers/sweetController.js:114-117 | A path is in the set exactly when the body supplies it. |
| SweetSchema.FailingPaths | backend/models/Sweet.js:3-40 | A path is reported exactly when it is among those checked and its validators reject the body's value. |
| SweetSchema.Validate | backend/models/Sweet.js:3-40 | Insert succeeds iff every path's validators accept the body. On success the record satisfies the schema invariant, holds the trimmed and cast body values, gets quantity 0 when none is given, and is stamped with the given time. On failure the error set is non-empty and is exactly the set of rejected paths. |
| SweetSchema.ApplyUpdate | backend/controllers/sweetController.js:114-117 | Only the supplied paths are validated, and success holds iff each of them is accepted. On success each supplied path is overwritten and every other path and the stamp are kept, and a valid record stays valid. On failure the errors are exactly the supplied paths that are rejected. |
| SweetSchema.Patched | backend/controllers/sweetController.js:114-117 | The updated record takes each supplied path from the body and keeps every other path and the stamp. A valid record stays valid. |
| SweetSchema.StoredPathsAccepted | backend/models/Sweet.js:3-40 | Every path of a valid stored record passes its validators when submitted again. |
| SweetSchema.ValidSweetRevalidates | backend/models/Sweet.js:3-40 | A valid stored record, submitted again as a body with its own stamp, validates to exactly itself. |
| SweetSchema.OverlayAccepted | backend/models/Sweet.js:3-40 | In the stored record overlaid with an update body, a path is accepted iff it is not supplied or the supplied value is accepted. |
| SweetSchema.UpdateIsFullRevalidation | backend/controllers/sweetController.js:114-117 | For a valid stored record, validating only the supplied paths gives the same result as validating the whole merged document: the same record on success and the same error set on failure. |
| SweetController.Lower | backend/controllers/sweetController.js:54 | Case folding keeps the length and leaves no upper-case letter. A character changes exactly when it is an upper-case letter, and then it becomes its lower-case partner. |
| SweetController.LowerIdempotent | backend/controllers/sweetController.js:54 | Folding a folded string changes nothing. |
| SweetController.PatternCaseIrrelevant | backend/controllers/sweetController.js:53-55 | A name matches a search pattern exactly when it matches the pattern folded to lower case, so the letter case of the search name does not change the result. |
| SweetController.NewestFirst | backend/controllers/sweetController.js:8 | The listing holds each chosen record exactly once with its stored value and nothing else, and its creation stamps strictly decrease. |
| SweetController.NewestExists | backend/controllers/sweetController.js:8 | Every non-empty set of stored records has a most recently created one. |
| SweetController.NewestPrepended | backend/controllers/sweetController.js:8 | Putting the newest record in front of a newest-first listing of the rest gives a newest-first listing of all of them. |
| SweetController.NewestFirstUnique | backend/controllers/sweetController.js:8 | Two newest-first listings of the same entries are the same sequence, so the order is fully determined by the stamps. |
| SweetController.PurchaseAsWritten | backend/controllers/sweetController.js:158-179 | The purchase rule as written: it succeeds iff the requested amount does not exceed the stock, the stock then drops by that amount, and otherwise the error reports the stock. |
| SweetController.NegativePurchaseAddsStock | backend/controllers/sweetController.js:170-178 | Under the rule as written, a negative amount passes the check and raises the stock. |
| SweetController.Purchased | backend/controllers/sweetController.js:158-179 | A purchase succeeds iff at least one unit is requested and the stock covers it. The stock then drops by exactly that amount and stays non-negative, and nothing else changes. A non-positive amount is rejected as an invalid quantity; otherwise the error reports the stock on hand. |
| SweetController.PurchasedAgreesOnPositive | backend/controllers/sweetController.js:170-178 | For any request of at least one unit, the corrected rule answers exactly as the code does. |
| SweetController.PurchaseTwice | backend/controllers/sweetController.js:178 | Two successful purchases of n units take 2n units off the stock. |
| SweetController.StockedInsert | backend/controllers/sweetController.js:89 | A valid record stamped with the current clock keeps the table invariant when inserted and the clock is advanced. |
| SweetController.StockedReplace | backend/controllers/sweetController.js:114-117 | Replacing a stored record with a valid one that keeps its stamp keeps the table invariant. |
| SweetController.StockedRemove | backend/controllers/sweetController.js:142 | Removing a record keeps the table invariant. |
| SweetController.Inventory.GetAll | backend/controllers/sweetController.js:8 | Lists every stored record exactly once with its stored value, and nothing else, newest first. |
| SweetController.Inventory.Get | backend/controllers/sweetController.js:25-37 | Answers with exactly the stored record iff the id is present, and NotFound otherwise. |
| SweetController.Inventory.Search | backend/controllers/sweetController.js:48-69 | Returns exactly the stored records that match the query, newest first. A match is a case-insensitive name match when a name is given, category equality unless the category is absent, empty or "All", and an inclusive price range with each bound optional. |
| SweetController.Inventory.UnfilteredSearchListsAll | backend/controllers/sweetController.js:48-69 | A search without parameters returns the same listing as `GetAll`. |
| SweetController.Inventory.CategoryAllIsNoFilter | backend/controllers/sweetController.js:58-60 | A search with category "All" returns the same listing as the same search without a category. |
| SweetController.Inventory.Create | backend/controllers/sweetController.js:84-98 | The caller's id replaces any `createdBy` in the body. An invalid draft is answered with its failing paths and changes nothing. A valid one is stored under the new id with the current stamp, and the clock advances. The table invariant is kept. |
| SweetController.Inventory.Update | backend/controllers/sweetController.js:103-126 | An absent id answers NotFound and changes nothing. A rejected patch answers with its failing paths and changes nothing. Otherwise only that record is replaced by the patched record. The invariant is kept and the clock is unchanged. |
| SweetController.Inventory.Delete | backend/controllers/sweetController.js:131-151 | An absent id answers NotFound and changes nothing. Otherwise exactly that record is removed, and a later `Get` of it answers NotFound. |
| SweetController.Inventory.Purchase | backend/controllers/sweetController.js:156-189 | One unit is requested when none is given. An absent id answers NotFound. Otherwise the answer is the corrected purchase rule applied to the stored record; only a successful purchase changes the table, and only that record. The invariant, so stock at least 0, is kept. |
| SweetController.Inventory.Restock | backend/controllers/sweetController.js:194-226 | A missing or non-positive amount is refused before the id is looked up. An absent id answers NotFound. Otherwise only that record's stock rises by the amount and all its other fields are kept. |
| SweetRoutes.Allowed | backend/routes/sweetRoutes.js:16-28 | An anonymous caller may run nothing. An authenticated caller may run every unguarded operation, and a guarded one iff the role is admin. |
| SweetRoutes.AccessTable | backend/routes/sweetRoutes.js:19-28 | An admin may run all eight operations. A user may run exactly list, search, get and purchase. |
| SweetRoutes.FirstMatch | backend/routes/sweetRoutes.js:19-28 | Finds the first route that matches the verb and path: that route matches and none before it does. It finds none iff no route matches. |
| SweetRoutes.FirstMatchIs | backend/routes/sweetRoutes.js:19-28 | A matching route with no matching route before it is the one found. |
| SweetRoutes.Dispatch | backend/routes/sweetRoutes.js:16-28 | Anonymous iff 401, whatever the path. NoRoute iff authenticated and no route matches. Forbidden iff the first matching route's operation is not allowed to the caller. An admitted request runs the first matching route's operation, and the caller may run it. |
| SweetRoutes.AdmittedIsAllowed | backend/routes/sweetRoutes.js:25-28 | An admitted request's operation is one its caller is allowed to run. |
| SweetRoutes.DispatchTo | backend/routes/sweetRoutes.js:16-28 | An authenticated request reaches the first route that matches; it is admitted with the captured id or forbidden by that route's guard. |
| SweetRoutes.ListRoute | backend/routes/sweetRoutes.js:19 | `GET /` lists the table for any authenticated caller. |
| SweetRoutes.SearchRoute | backend/routes/sweetRoutes.js:20 | `GET /search` is the search handler for any authenticated caller. |
| SweetRoutes.GetOneRoute | backend/routes/sweetRoutes.js:20-21 | `GET /:id` with any id other than "search" reaches the get handler with that id. |
| SweetRoutes.PurchaseRoute | backend/routes/sweetRoutes.js:22 | `POST /:id/purchase` reaches the purchase handler for any authenticated caller. |
| SweetRoutes.CreateRoute | backend/routes/sweetRoutes.js:25 | `POST /` is admitted to create for an admin and forbidden for a user. |
| SweetRoutes.UpdateRoute | backend/routes/sweetRoutes.js:26 | `PUT /:id` is admitted to update for an admin and forbidden for a user. |
| SweetRoutes.DeleteRoute | backend/routes/sweetRoutes.js:27 | `DELETE /:id` is admitted to delete for an admin and forbidden for a user. |
| SweetRoutes.RestockRoute | backend/routes/sweetRoutes.js:28 | `POST /:id/restock` is admitted to restock for an admin and forbidden for a user. |
| SweetRoutes.SearchIsNeverAnId | backend/routes/sweetRoutes.js:20-21 | No request reaches the get handler with the id "search". |
| SweetRoutes.RunPurchase | backend/routes/sweetRoutes.js:22 | The purchase handler bound to `POST /:id/purchase` keeps the table invariant. Its reply is the corrected purchase rule on the stored record, or NotFound. Only a successful purchase changes the table, and only that record. |
| SweetRoutes.RunCreate | backend/routes/sweetRoutes.js:25 | The create handler stamps the body with the caller. A rejected draft is answered with its failing paths and changes nothing. A valid one is stored under the new id, and the clock advances. |
| SweetRoutes.RunUpdate | backend/routes/sweetRoutes.js:26 | The update handler answers NotFound for an absent id. Otherwise it answers with the failing paths or replaces just that record by the patched record. The clock is unchanged. |
| SweetRoutes.RunDelete | backend/routes/sweetRoutes.js:27 | The delete handler answers NotFound for an absent id and otherwise removes exactly that record. |
| SweetRoutes.RunRestock | backend/routes/sweetRoutes.js:28 | The restock handler refuses a missing or non-positive amount, answers NotFound for an absent id, and otherwise raises only that record's stock by the amount. |
| SweetRoutes.RunWrite | backend/routes/sweetRoutes.js:22-28 | Whichever write operation is dispatched, the reply and the new table and clock are those its bound handler promises, and the table invariant is kept. |
| SweetRoutes.Handle | backend/routes/sweetRoutes.js:16-28 | A request that is not admitted is answered with its rejection and leaves the table and clock unchanged. A read answers with the listing, search result or record and changes nothing. An admitted write runs its handler: the reply and the new table and clock are stated for purchase, create, update, delete and restock in terms of the old table, as each handler's own contract gives them. The table changes only under an admitted write the caller may run. For a user, that write is a purchase. |

## Left out

- Mongoose's `$regex` name matching is modelled as a plain case-insensitive substring test; regular-expression metacharacters in the name parameter are not interpreted.
- Case folding covers ASCII letters only; JavaScript's full Unicode case-insensitive matching is not modelled.
- Prices are integer cents and quantities are integers. `parseFloat` of price bounds, fractional cents, non-integer quantities and the `parseInt` truncation in restock are not modelled.
- Store errors are not modelled: a malformed id's `CastError` and a body value of the wrong type both go to `errorHandler`, which is not part of this model. An id is an opaque string, and a body path is either absent or a value of the schema's type; `null` values are not represented.
- Record ids are generated by the store. `Create` takes the new id as a parameter and requires it to be unused.
- The `updatedAt` timestamp is not modelled. `createdAt` is a counter used only for ordering.
- Requests are modelled as sequential and atomic; the read-then-save race between concurrent purchases is not modelled.
- The bodies of the `protect` and `authorize` middleware, and token verification, are not part of this model. Authentication is the `Caller` value and the admin guard is the route table.
- Express path matching is modelled on segments; case-insensitive paths, trailing slashes and URL decoding are not modelled. A request that matches no route here (`NoRoute`) is handed on by Express and its answer is not modelled.
- The response envelope (`success`, `count`, `message`) and HTTP status codes are not modelled; the answer datatypes carry the same outcome.
- `backend/server.js` and the frontend are not part of this model.
- `createdBy` is set from the caller on create, but `updateSweet` passes the request body through unfiltered. `ApplyUpdate` follows the code: an update may overwrite `createdBy`.

## Findings

| source | as written | input that shows it | evidently intended | confidence | as-written member | corrected member |
|---|---|---|---|---|---|---|
| backend/controllers/sweetController.js:158-179 | The only check is `sweet.quantity < quantity`; the requested amount is never required to be positive. | Purchase with body `{quantity: -5}` on a record with stock 50: the check passes, 200 is answered and the stock becomes 55. Any authenticated user can so restock, which the router reserves for admins. A quantity of 0 is answered as a successful purchase that changes nothing. | A purchase must ask for at least one unit; otherwise it is refused as an invalid quantity. | not executed | SweetController.PurchaseAsWritten, SweetController.NegativePurchaseAddsStock | SweetController.Purchased, used by SweetController.Inventory.Purchase |
