# Sweet shop: a verified model of the inventory, ordering and access rules

This project models the core of a sweet shop web application in Dafny.

Backend:

- `SweetService` holds the `sweets` table and offers create, list, look-up, partial update, delete, search, purchase and restock.
- The sweet controller holds the field validators, the purchase tier rule, the price arithmetic, the best-effort write to the purchase ledger, the restock guard and the mapping of outcomes to HTTP status codes.
- `PurchaseService` is the append-only ledger, with its three joined listings.
- The authentication controller holds the registration and login validators and their handlers.
- The router holds the authentication and admin policy of every sweet and order route.

Storefront:

- The shopping cart.
- The card that sells one sweet in three tiers.
- The payment page: its input formatters and its checkout loop.
- The client-side checks of the registration form.
- The route guards and the route table of the single-page application.

How the model is built:

- The catalog is a value, `SweetCatalog.Table`. It holds the rows in insertion order, the next AUTOINCREMENT id, and a clock that stands for `CURRENT_TIMESTAMP`.
- Every catalog operation is a function from a table to a `Step`: the new table and the operation's result.
- The class `SweetService.SweetService` keeps the same state in fields and changes it step by step. Each of its methods is proved to leave exactly the table that the matching function describes.
- The table invariants are proved about the functions and then carried by the class's `Valid()`:
  - names pairwise distinct (the `UNIQUE` constraint);
  - ids and creation ticks ordered by insertion;
  - the next id and the clock ahead of every row.
- Stock never negative is not part of `Valid()`, because the service itself accepts a negative quantity on create. It is a separate predicate, `StockNonNegative`, proved operation by operation for the requests the controller's validators admit.
- The ledger class `PurchaseLedger.PurchaseService` and the registration form `RegisterPage.RegisterForm` are classes too, because the source updates their state in place.
- The cart, the card, the formatters, the validators, the guards and the route tables are pure functions, as in the source.

Modelling conventions:

- Numbers are exact `real`s.
- JavaScript's `x || y` on numbers is modelled by `OrElse` and `UnitPrice`: `0` and a missing value are falsy.
- Optional JSON fields are `Option`s.
- A thrown error is a `Failure` of a `Result`.

Where the code differs from the documented description, the model follows the code:

- A per-kilo price of `0` counts as missing in `createSweet`.
- The price bounds of a search apply to the legacy `price` column, not to the per-kilo price.
- The text of a name filter is not escaped: `%` and `_` in it act as wildcards.
- The server's password rule is a set of lookaheads anchored at the start, so only the characters before the first line terminator count.

## Model

| member | source | states |
|---|---|---|
| SweetCatalog.Lookup | src/services/sweetService.ts:44-47 | a row found by id carries that id |
| SweetCatalog.LookupFound | src/services/sweetService.ts:44-47 | what getSweetById finds is a stored row |
| SweetCatalog.LookupAbsent | src/services/sweetService.ts:44-47 | the look-up gives null exactly when no row has the id |
| SweetCatalog.Replace | src/services/sweetService.ts:94-98 | `UPDATE ... WHERE id = ?` overwrites every row with that id and keeps the others and the length |
| SweetCatalog.Remove | src/services/sweetService.ts:110-111 | `DELETE ... WHERE id = ?` keeps exactly the rows with another id |
| SweetCatalog.NewSweet | src/services/sweetService.ts:6-25 | the inserted row: the next id; current ticks; stock 0 unless given; per-kilo price the truthy per-kilo price, else the legacy price; legacy price the truthy legacy price, else the per-kilo price |
| SweetCatalog.Create | src/services/sweetService.ts:5-37 | 'Invalid sweet data' exactly when the guard fails (a 0 per-kilo price counts as missing); a duplicate-name error exactly when the guard passes and the name is taken; success exactly when the guard passes and the name is free; a failure leaves the table; a success appends the new row and advances the counters |
| SweetCatalog.CreatePreservesValid | src/db/database.ts:75-84 | a create keeps names distinct, ids and ticks ordered, and the counters ahead of every row |
| SweetCatalog.ValidatedCreateNonNegative | src/controllers/sweetController.ts:10-16 | a create whose body clears the create validators stores no negative price or stock |
| SweetCatalog.ServiceAcceptsNegativeLegacyPrice | src/services/sweetService.ts:8-20 | without a per-kilo price the service's guard lets a negative legacy price through as the per-kilo price |
| SweetCatalog.Patch | src/services/sweetService.ts:63-91 | each supplied field takes its new value, each other field stays, id and creation tick stay, and the update tick is refreshed |
| SweetCatalog.Update | src/services/sweetService.ts:49-108 | null for an unknown id; a duplicate-name error for a rename to a name another sweet holds; the stored row, unchanged, when no field is supplied; otherwise the patched row is written and returned |
| SweetCatalog.UpdatePreservesValid | src/services/sweetService.ts:55-61 | an update keeps every table invariant, names distinct included |
| SweetCatalog.UpdateChangesOnlyTarget | src/services/sweetService.ts:63-98 | after an update every other id finds the row it found before, and the updated id finds the patched row |
| SweetCatalog.StockWrittenKeepsValid | src/services/sweetService.ts:156 | writing only a new stock into a stored row keeps the table valid |
| SweetCatalog.Purchase | src/services/sweetService.ts:145-157 | null for an unknown id; 'Insufficient quantity in stock' with the table unchanged when stock < q; otherwise the row with stock − q, which is ≥ 0, written through updateSweet |
| SweetCatalog.Restock | src/services/sweetService.ts:159-167 | null for an unknown id; otherwise the row with stock + q, written through updateSweet |
| SweetCatalog.PurchaseWritesStock | src/services/sweetService.ts:155-156 | a purchase the stock covers leaves the table with the decremented stock written |
| SweetCatalog.RestockWritesStock | src/services/sweetService.ts:165-166 | a restock of a stored row leaves the table with the incremented stock written |
| SweetCatalog.PurchaseRefusedKeepsTable | src/services/sweetService.ts:146-153 | a purchase of an unknown id, or of more than the stock, leaves the table as it was |
| SweetCatalog.PurchaseWriteKeepsValid | src/services/sweetService.ts:155-156 | a covered purchase keeps the table valid |
| SweetCatalog.PurchasePreservesValid | src/services/sweetService.ts:145-157 | every purchase keeps the table valid |
| SweetCatalog.RestockPreservesValid | src/services/sweetService.ts:159-167 | every restock keeps the table valid |
| SweetCatalog.PurchaseKeepsStockNonNegative | src/services/sweetService.ts:151-155 | whatever the quantity, a purchase never makes a stock negative |
| SweetCatalog.RestockKeepsStockNonNegative | src/services/sweetService.ts:165 | a restock of a non-negative amount never makes a stock negative |
| SweetCatalog.InsufficientStockIsStable | src/services/sweetService.ts:151-153 | a refused purchase leaves the table and is refused again |
| SweetCatalog.RestockThenPurchaseRestoresStock | src/services/sweetService.ts:145-167 | restocking q and then buying q gives back the original stock, and every other sweet is unchanged |
| SweetCatalog.Delete | src/services/sweetService.ts:110-113 | the result is true exactly when a row had the id; the counters stay |
| SweetCatalog.RemoveShrinksIff | src/services/sweetService.ts:112 | `changes > 0` exactly when the id existed |
| SweetCatalog.DeleteRemovesOnlyTarget | src/services/sweetService.ts:110-113 | after a delete no row has the id, and every other id finds the row it found before |
| SweetCatalog.DeletePreservesValid | src/services/sweetService.ts:110-113 | a delete keeps the table valid |
| SweetCatalog.AllSweets | src/services/sweetService.ts:39-42 | the listing holds exactly the stored rows, strictly newest first |
| SweetCatalog.Filter | src/services/sweetService.ts:116-138 | keeps exactly the rows that pass every filter |
| SweetCatalog.FilterKeepsNewestFirst | src/services/sweetService.ts:139 | filtering a newest-first list keeps it newest first |
| SweetCatalog.SearchSpec | src/services/sweetService.ts:115-143 | a search returns exactly the stored rows that pass the AND of the filters, newest first |
| SweetCatalog.Search | src/services/sweetService.ts:115-143 | every row found is a stored row that passes the filters, and no more rows are found than stored |
| SweetCatalog.FilterEverything | src/services/sweetService.ts:116-138 | when every row passes, the filter keeps the list as it is |
| SweetCatalog.SearchWithoutFiltersIsAll | src/services/sweetService.ts:119-137 | with empty or absent filters the search is getAllSweets |
| SweetCatalog.LikeAnything | src/services/sweetService.ts:121 | the pattern `%` matches every name |
| SweetCatalog.LikeLiteralThenAnything | src/services/sweetService.ts:121 | a wildcard-free text followed by `%` matches exactly the names it starts, ignoring ASCII case |
| SweetCatalog.NameFilterIsSubstring | src/services/sweetService.ts:119-122 | a name filter without wildcards is a case-insensitive substring test |
| SweetCatalog.UnderscoreFilterMatchesAnyName | src/services/sweetService.ts:121 | the filter `_` is not escaped and matches a name that does not contain `_` |
| SweetModel.UnitPrice | src/controllers/sweetController.ts:123 | the per-kilo price, or the legacy price when the per-kilo price is 0 |
| Seqs.Reverse | src/services/sweetService.ts:40 | the sequence read back to front |
| SweetService.Select | src/services/sweetService.ts:116-141 | the assembled query selects exactly the rows that satisfy every condition |
| SweetService.SelectIsFilter | src/services/sweetService.ts:116-141 | conditions that accept exactly the filtered rows select what Filter keeps |
| SweetService.FindByName | src/services/sweetService.ts:57 | finds a row exactly when a row other than the excluded id has the name |
| SweetService.SetList | src/services/sweetService.ts:63-89 | one SET column per supplied field, none exactly when nothing is supplied, and the row the assignments produce |
| SweetService.ConditionsFor | src/services/sweetService.ts:116-137 | at most four conditions, and none (`WHERE 1=1` alone) exactly when no filter is usable |
| SweetService.ConditionsMatchFilters | src/services/sweetService.ts:116-137 | the appended WHERE conditions hold exactly when the filters accept the row |
| SweetService.PatchStockOnly | src/services/sweetService.ts:156 | an update that supplies only the quantity changes only the stock and the update tick |
| SweetService.SweetService.constructor | src/db/database.ts:75-84 | an empty, valid table whose first id is 1 |
| SweetService.SweetService.CreateSweet | src/services/sweetService.ts:5-37 | the new state and the result are those of SweetCatalog.Create, and the invariant holds |
| SweetService.SweetService.GetAllSweets | src/services/sweetService.ts:39-42 | exactly the stored rows, newest first |
| SweetService.SweetService.GetSweetById | src/services/sweetService.ts:44-47 | the stored row with the id, or null exactly when none has it |
| SweetService.SweetService.UpdateSweet | src/services/sweetService.ts:49-108 | the new state and the result are those of SweetCatalog.Update, and the invariant holds |
| SweetService.SweetService.Save | src/services/sweetService.ts:94-98 | the row is overwritten and the clock advances |
| SweetService.SweetService.DeleteSweet | src/services/sweetService.ts:110-113 | the new state and the result are those of SweetCatalog.Delete |
| SweetService.SweetService.SearchSweets | src/services/sweetService.ts:115-143 | exactly the stored rows that pass the filters, newest first |
| SweetService.SweetService.PurchaseSweet | src/services/sweetService.ts:145-157 | the new state and the result are those of SweetCatalog.Purchase, reached by calling updateSweet with the quantity alone |
| SweetService.SweetService.RestockSweet | src/services/sweetService.ts:159-167 | the new state and the result are those of SweetCatalog.Restock, reached by calling updateSweet with the quantity alone |
| SweetController.CreateSweetErrors | src/controllers/sweetController.ts:10-16 | no error exactly when the body is valid; each message is reported exactly when its field fails; a missing name is reported first |
| SweetController.UpdateSweetErrors | src/controllers/sweetController.ts:18-24 | no error exactly when every supplied field is valid; each message is reported exactly when its field fails |
| SweetController.ValidatedCreateIsNonNegative | src/controllers/sweetController.ts:26-35 | a create that clears the validators and the service stores no negative price or stock |
| SweetController.ZeroPricePerKiloPassesValidatorsOnly | src/controllers/sweetController.ts:13 | a per-kilo price of 0 with no legacy price clears the validators and is refused by the service |
| SweetController.ValidatedUpdateKeepsStockNonNegative | src/controllers/sweetController.ts:23 | an update that clears the validators keeps every stock non-negative |
| SweetController.PurchaseQuantity | src/controllers/sweetController.ts:108 | a truthy parsed quantity is used as it is; a missing, unparsable or zero one becomes 0.25 |
| SweetController.TierRejectedUnlessTier | src/controllers/sweetController.ts:110 | the guard lets exactly 0.25, 0.5 and 1 through |
| SweetController.PurchaseRequest | src/controllers/sweetController.ts:104-148 | any answer other than 200 leaves the catalog unchanged |
| SweetController.PurchaseRequestOutcome | src/controllers/sweetController.ts:104-147 | 400 before the service for a quantity off the tiers; 404 exactly for an accepted tier and an unknown id; every other 400 is a short stock; 200 exactly when the stock covers an accepted tier; nothing else is answered |
| SweetController.PurchaseRequestAnswers | src/controllers/sweetController.ts:115-144 | an accepted tier answers what the service's purchase returned, and a row it returns is the stored row with stock − q at the same price per kilo |
| SweetController.PurchaseRequestSucceeds | src/controllers/sweetController.ts:122-144 | a covered purchase answers the decremented row, the quantity, and the price of that quantity at the row's price per kilo |
| SweetController.PurchaseRequestKeepsStockNonNegative | src/controllers/sweetController.ts:104-148 | no purchase request drives a stock below zero |
| SweetController.RestockRequest | src/controllers/sweetController.ts:150-171 | 400 before the service for a missing, zero or negative quantity; 404 exactly for a positive quantity and an unknown id; a positive quantity for a stored id answers 200 with the incremented row and leaves the catalog with exactly that stock written; any answer other than 200 leaves the catalog |
| SweetController.RestockRequestKeepsStockNonNegative | src/controllers/sweetController.ts:150-171 | no restock request drives a stock below zero |
| SweetController.CreateSweet | src/controllers/sweetController.ts:26-39 | 400 with the validation errors and no change; otherwise 201 with the created sweet, or 400 with the service's message |
| SweetController.GetAllSweets | src/controllers/sweetController.ts:41-48 | 200 with the newest-first listing |
| SweetController.SearchSweets | src/controllers/sweetController.ts:50-64 | 200 with the search for the query's filters |
| SweetController.UpdateSweet | src/controllers/sweetController.ts:66-86 | 400 with the validation errors and no change; otherwise 404 for an unknown id, 400 for a service error, or 200 with the updated row |
| SweetController.DeleteSweet | src/controllers/sweetController.ts:88-102 | 204 exactly when the id existed, else 404 'Sweet not found'; the catalog after is that of the delete |
| SweetController.PurchaseSweet | src/controllers/sweetController.ts:104-148 | the answer and the catalog are those of PurchaseRequest whatever the ledger does; after a 200, unless the insert fails, one record is appended carrying the user, the sweet, the quantity and the price answered; otherwise the ledger is unchanged |
| SweetController.SellSweet | src/controllers/sweetController.ts:115-144 | the service's purchase and the answer its result maps to |
| SweetController.RestockSweet | src/controllers/sweetController.ts:150-171 | the answer and the catalog are those of RestockRequest |
| PurchaseLedger.FindUser | src/services/purchaseService.ts:46 | finds the user row with the id, or none exactly when no user has it |
| PurchaseLedger.Selected | src/services/purchaseService.ts:45-48 | keeps exactly the purchases in scope whose user and sweet both exist |
| PurchaseLedger.JoinRowShape | src/services/purchaseService.ts:32-44 | a joined row has exactly the twelve selected columns, no password, the purchase's fields, the user's contact details and the sweet's name and category |
| PurchaseLedger.JoinAll | src/services/purchaseService.ts:32-47 | one joined row per selected purchase, in order |
| PurchaseLedger.StripPassword | src/services/purchaseService.ts:77-80 | the row without its password column and with every other column |
| PurchaseLedger.StripAll | src/services/purchaseService.ts:77-80 | the password stripped from every row, in order |
| PurchaseLedger.SelectedKeepsOrder | src/services/purchaseService.ts:49 | selecting from a newest-first list keeps it newest first |
| PurchaseLedger.ListedSpec | src/services/purchaseService.ts:30-106 | a listing reports exactly the joinable purchases of its scope, newest first |
| PurchaseLedger.DeletedSweetDropsOut | src/services/purchaseService.ts:47 | after a sweet is deleted no listing reports a purchase of it |
| PurchaseLedger.StripIsIdentityOnJoins | src/services/purchaseService.ts:76-80 | no joined row carries a password, so the strip changes nothing |
| PurchaseLedger.StripWithoutPassword | src/services/purchaseService.ts:78 | stripping a row without a password changes nothing |
| PurchaseLedger.NewPurchaseListedFirst | src/services/purchaseService.ts:49 | a purchase just appended, with its user and sweet present, heads every listing whose scope it is in |
| PurchaseLedger.PurchaseService.constructor | src/db/database.ts:115-125 | an empty ledger whose first id is 1 |
| PurchaseLedger.PurchaseService.RecordPurchase | src/services/purchaseService.ts:5-28 | earlier records stay; unless the insert fails, exactly one record carrying the given fields is appended; a failed read-back answers 'Failed to create purchase record'; otherwise the new record is returned |
| PurchaseLedger.PurchaseService.GetUserPurchases | src/services/purchaseService.ts:30-53 | the joinable purchases of the user, newest first |
| PurchaseLedger.PurchaseService.GetAllPurchases | src/services/purchaseService.ts:55-81 | every joinable purchase, newest first, with no password column in any row |
| PurchaseLedger.PurchaseService.GetPurchasesBySweet | src/services/purchaseService.ts:83-106 | the joinable purchases of the sweet, newest first |
| Cart.AddToCart | frontend/src/contexts/CartContext.tsx:42-64 | the cart unchanged when the sweet is there at that quantity; otherwise one line appended after the unchanged lines, priced at the sweet's price per kilo times the quantity |
| Cart.RemoveFromCart | frontend/src/contexts/CartContext.tsx:66-68 | every line of the sweet goes, whatever its quantity, and exactly the other lines stay |
| Cart.UpdateCartItemQuantity | frontend/src/contexts/CartContext.tsx:70-84 | the lines of the sweet get the quantity and a recomputed price; all other lines, the length and the order stay |
| Cart.ClearCart | frontend/src/contexts/CartContext.tsx:86-89 | the empty cart |
| Cart.TotalPrice | frontend/src/contexts/CartContext.tsx:91-93 | the total of non-negative line prices is non-negative |
| Cart.TotalPriceAppend | frontend/src/contexts/CartContext.tsx:91-93 | the total of a concatenation is the sum of the totals |
| Cart.TotalPriceSingle | frontend/src/contexts/CartContext.tsx:91-93 | a one-line cart totals that line's price |
| Cart.AddToCartTotals | frontend/src/contexts/CartContext.tsx:42-97 | a new line adds its price to the total and one to the line count; a repeated add changes neither |
| Cart.AddToCartIdempotent | frontend/src/contexts/CartContext.tsx:44-50 | adding the same sweet at the same quantity twice is adding it once |
| Cart.AddToCartKeepsNoDuplicates | frontend/src/contexts/CartContext.tsx:42-64 | no two lines ever share a sweet and a quantity after an add |
| Cart.UpdateCanDuplicateLines | frontend/src/contexts/CartContext.tsx:70-84 | re-quantifying can make two lines share a sweet and a quantity |
| Cart.RemoveFromCartAppend | frontend/src/contexts/CartContext.tsx:66-68 | removal works on each part of a cart separately, so the kept lines keep their order |
| Cart.RemoveAbsentIsIdentity | frontend/src/contexts/CartContext.tsx:66-68 | removing a sweet the cart does not hold changes nothing |
| Cart.RemoveFromCartTotal | frontend/src/contexts/CartContext.tsx:66-93 | the total splits into the removed lines and the kept ones |
| Cart.RemoveAfterUpdate | frontend/src/contexts/CartContext.tsx:66-84 | re-quantifying a sweet and then removing it is removing it |
| Cart.TotalItems | frontend/src/contexts/CartContext.tsx:95-97 | the line count is 0 exactly for the empty cart |
| Cart.ClearCartTotals | frontend/src/contexts/CartContext.tsx:86-97 | the cleared cart has no lines and totals 0 |
| SweetCard.TierPricesOrdered | frontend/src/components/SweetCard.tsx:15-20 | with a non-negative price per kilo the 250 g price ≤ the 500 g price ≤ the 1 kg price, and 1 kg costs the price per kilo |
| SweetCard.IsOutOfStock | frontend/src/components/SweetCard.tsx:13 | the badge shows at zero stock, and only for a stock below the smallest tier |
| SweetCard.CanAddToCart | frontend/src/components/SweetCard.tsx:22-28 | for a positive quantity the add goes through exactly when the stock covers it |
| SweetCard.ButtonDisabled | frontend/src/components/SweetCard.tsx:72-106 | for a positive quantity the button is disabled exactly when the stock falls short |
| SweetCard.DisabledIffCannotAdd | frontend/src/components/SweetCard.tsx:22-28 | a tier button, or the purchase button, is disabled exactly when its click would add nothing |
| SweetCard.QuantityLabel | frontend/src/components/SweetCard.tsx:30-34 | '1 kg' exactly for 1, '500 g' exactly for 0.5, '250 g' for any other quantity |
| SweetCard.PriceForQuantity | frontend/src/components/SweetCard.tsx:36-40 | the price per kilo times a tier, and the 250 g price for any other quantity, in step with the label |
| SweetCard.HandleAddToCart | frontend/src/components/SweetCard.tsx:22-28 | adds and alerts exactly when the sweet is in stock and the stock covers the quantity; otherwise the cart stays |
| SweetCard.InitialSelectionIsSmallestTier | frontend/src/components/SweetCard.tsx:11 | the initial selection is the smallest tier, labelled '250 g' |
| SweetCard.TiersPassServerCheck | frontend/src/components/SweetCard.tsx:63-100 | every tier the card offers passes the server's tier guard |
| SweetCard.CardAddIsPurchasable | frontend/src/components/SweetCard.tsx:22-28 | a line the card adds is sold by the server, at the price the cart line carries |
| Text.KeepDigits | frontend/src/pages/Payment.tsx:128 | `replace(/\D/g, '')` leaves only digits and never lengthens |
| Text.RemoveSpaces | frontend/src/pages/Payment.tsx:112 | `replace(/\s/g, '')` leaves no space and never lengthens |
| Text.KeepDigitsIgnoresSpaces | frontend/src/pages/Payment.tsx:112 | removing the spaces before the non-digits changes nothing |
| Payment.Grouped | frontend/src/pages/Payment.tsx:113 | the grouping adds one space for every four digits after the first |
| Payment.GroupedSpacing | frontend/src/pages/Payment.tsx:113 | digits and single spaces only, a space exactly at every fifth place, never a trailing space |
| Payment.GroupedWithoutSpaces | frontend/src/pages/Payment.tsx:113 | removing the spaces of the grouping gives back the digits |
| Payment.FormatCardNumber | frontend/src/pages/Payment.tsx:109-113 | groups of four digits joined by single spaces, whose digits are those of the input; 19 characters hold exactly up to 16 digits |
| Payment.FormatCardNumberIdempotent | frontend/src/pages/Payment.tsx:112-113 | formatting a formatted card number changes nothing |
| Payment.FormatExpiry | frontend/src/pages/Payment.tsx:125-131 | at most 5 characters and all digits but a slash at the third place; fewer than two digits come out as they are, and the output keeps the first four digits of the input |
| Payment.FormatExpiryIdempotent | frontend/src/pages/Payment.tsx:128-131 | formatting a formatted expiry changes nothing |
| Payment.SlashReappears | frontend/src/pages/Payment.tsx:128-131 | deleting the slash after the month brings it back |
| Payment.FormatCvv | frontend/src/pages/Payment.tsx:145 | a prefix of the input's digits: the first three once the input holds three, otherwise every digit it holds |
| Payment.FormatCvvIdempotent | frontend/src/pages/Payment.tsx:145 | formatting a formatted CVV changes nothing |
| Payment.SummaryLabels | frontend/src/pages/Payment.tsx:52-56 | one label per cart line, in order, read as on the card |
| Payment.ServerErrorText | frontend/src/pages/Payment.tsx:33 | the server's error text, or 'Please try again.' when it has none |
| Payment.Checkout | frontend/src/pages/Payment.tsx:28-35 | a reported failure is a line of the cart that the server refused |
| Payment.CheckoutAppend | frontend/src/pages/Payment.tsx:28-35 | lines run in order, the first refusal ends the loop, and earlier purchases stand |
| Payment.CheckoutRefusedFirst | frontend/src/pages/Payment.tsx:28-35 | a refused first line ends the payment loop with no change |
| Payment.CheckoutStopsAtRefusal | frontend/src/pages/Payment.tsx:28-35 | a refused line is reported, and the catalog is the one the lines before it left |
| Payment.CheckoutKeepsStockNonNegative | frontend/src/pages/Payment.tsx:28-35 | no stock goes negative through a checkout |
| Payment.HandlePayment | frontend/src/pages/Payment.tsx:22-50 | the catalog after is that of Checkout; the cart is cleared and the cart's total is reported exactly when every line was bought; otherwise the cart is kept and the failing line's message is reported; the ledger only grows |
| AuthController.FirstLine | src/controllers/authController.ts:20 | the characters before the first line terminator, where the lookaheads' `.` stops |
| AuthController.PhoneError | src/controllers/authController.ts:23-36 | no error exactly for the empty phone or a `+91` mobile number; otherwise the first failing check in the order prefix, length, format |
| AuthController.AcceptedPhoneShape | src/controllers/authController.ts:26-34 | an accepted phone is exactly 13 characters, `+91` and ten digits |
| AuthController.PhoneErrorsArePhoneFailures | src/controllers/authController.ts:23-36 | the phone chain reports only phone failures |
| AuthController.ReportedFailures | src/controllers/authController.ts:7-22 | every other failure is reported exactly when its validator fails |
| AuthController.RegisterErrors | src/controllers/authController.ts:7-37 | no error exactly for a valid body; each of the Gmail, length, complexity and name failures exactly when its rule fails; a phone failure exactly when it is the one the phone validator reports first |
| AuthController.ReportedPhoneFailures | src/controllers/authController.ts:7-37 | a phone failure is in the report exactly when the phone chain reported it |
| AuthController.LoginErrors | src/controllers/authController.ts:39-42 | no error exactly for a syntactically valid email and a non-empty password |
| AuthController.Register | src/controllers/authController.ts:44-59 | the service is called exactly for a valid body; otherwise 400 with the errors; 201 with the service's result; or 400 with its message, 'Registration failed' when empty |
| AuthController.Login | src/controllers/authController.ts:61-76 | the service is called exactly for valid input; otherwise 400 with the validation errors and nothing else; 200 with its result; or 401 with its message, 'Login failed' when empty |
| AuthController.RegisteredBodyShape | src/controllers/authController.ts:7-50 | whatever reaches the service has a Gmail address, at least 8 characters, all four character classes and no phone or a `+91` mobile number |
| AuthController.FirstLineClassesHold | src/controllers/authController.ts:20 | a class present in the first line is present in the password |
| AuthController.FirstLineEndsAtBreak | src/controllers/authController.ts:20 | the first line ends at the first line terminator |
| AuthController.SecondLineDoesNotCount | src/controllers/authController.ts:20-21 | a first line without a digit fails the rule whatever follows the break |
| RegisterPage.ClientError | frontend/src/pages/Register.tsx:21-58 | no error exactly when every check passes; each message exactly when its check is the first to fail, in the order phone prefix, phone length, Gmail, confirmation, length, classes |
| RegisterPage.RegisterForm.constructor | frontend/src/pages/Register.tsx:7-13 | every field empty, no error, not loading |
| RegisterPage.RegisterForm.HandleSubmit | frontend/src/pages/Register.tsx:17-70 | register is called exactly when every client rule passes; otherwise the first failure's message is set; a success navigates to /dashboard; a failure shows the server's text or the fallback; loading ends cleared |
| RegisterPage.ServerAcceptedPassesClient | frontend/src/pages/Register.tsx:21-58 | every registration the server accepts, confirmed, passes the client |
| RegisterPage.ClientAcceptsLetterPhone | frontend/src/pages/Register.tsx:22-30 | the client accepts a phone with letters after `+91` that the server refuses |
| RegisterPage.ClientAcceptsBlankName | frontend/src/pages/Register.tsx:80-92 | the client accepts a blank Full Name, which the server refuses with 'Name cannot be empty' |
| RegisterPage.ClientAcceptsSecondLineClasses | frontend/src/pages/Register.tsx:50-58 | the client accepts a password whose digit and special character follow a line break, which the server refuses |
| AppRoutes.PrivateRoute | frontend/src/App.tsx:15-37 | loading screen while loading; /login when signed out; admins outside /admin go to /admin, customers inside it to /dashboard; otherwise the children |
| AppRoutes.AdminRoute | frontend/src/App.tsx:39-55 | loading screen while loading; /login when signed out; the children exactly for an admin; /dashboard for a customer |
| AppRoutes.UserRoute | frontend/src/App.tsx:57-73 | loading screen while loading; /login when signed out; the children exactly for a customer; /admin for an admin |
| AppRoutes.NotUnderAdmin | frontend/src/App.tsx:110-118 | a path whose first segment does not start with `a` is not under /admin |
| AppRoutes.FoldPath | frontend/src/App.tsx:80-127 | every character of the path with ASCII case folded, as a route without `caseSensitive` compares |
| AppRoutes.TrimSlashes | frontend/src/App.tsx:80-127 | the path with its trailing slashes dropped, which the router accepts |
| AppRoutes.RouterPathOfPlainPath | frontend/src/App.tsx:80-127 | a path without capitals or a trailing slash is matched as written |
| AppRoutes.RouterPathIdempotent | frontend/src/App.tsx:80-127 | normalising a normalised path changes nothing |
| AppRoutes.Resolve | frontend/src/App.tsx:80-127 | matched ignoring case and trailing slashes: /login and /register unguarded; /dashboard, /cart and /payment behind UserRoute; /admin and everything below it behind AdminRoute; nothing shown exactly for a path outside the table |
| AppRoutes.CaseAndTrailingSlashIgnored | frontend/src/App.tsx:80-127 | /Dashboard and /cart/ reach the same page as /dashboard and /cart, and /ADMIN/x reaches the admin panel |
| AppRoutes.RedirectTarget | frontend/src/App.tsx:15-127 | a loaded session is redirected to /login when signed out, else to its role's home |
| AppRoutes.HomePages | frontend/src/App.tsx:80-117 | /login, /admin and /dashboard resolve to their own routes |
| AppRoutes.RootPathIsNotAdmin | frontend/src/App.tsx:15-37 | a path read as the root never looks like an admin path to PrivateRoute |
| AppRoutes.LoadingShowsLoadingScreen | frontend/src/App.tsx:18-62 | while loading every guarded path shows the loading screen |
| AppRoutes.SignedOutGoesToLogin | frontend/src/App.tsx:22-66 | signed out, every guarded path redirects to /login |
| AppRoutes.PagesMatchRoles | frontend/src/App.tsx:80-127 | only an admin sees the admin panel and only a customer sees the shop's pages |
| AppRoutes.RedirectsSettleInOneHop | frontend/src/App.tsx:15-127 | every redirect lands on a shown page in one hop: the admin panel for an admin, the dashboard for a customer |
| AppRoutes.RootSendsEachRoleHome | frontend/src/App.tsx:119-126 | / sends an admin to /admin and a customer to /dashboard |
| ApiRoutes.Route | src/routes/sweetRoutes.ts:18-29 | the search route and the orders listing are reached by exactly their own requests |
| ApiRoutes.RouteFindsEveryOperation | src/routes/sweetRoutes.ts:18-29 | every operation is reached by its verb and path, for any non-empty id |
| ApiRoutes.Chain | src/routes/sweetRoutes.ts:18-29 | authentication first and the handler last; the admin check exactly for delete, restock and the orders listing; each validator set exactly before its own handler |
| ApiRoutes.AuthorizationPolicy | src/routes/sweetRoutes.ts:18-29 | 401 without an identity; 403 for a non-admin on an admin-only operation; the handler is reached exactly otherwise |
| ApiRoutes.CustomerPurchasesAdminRestocks | src/routes/sweetRoutes.ts:28-29 | a customer may purchase but not restock; an admin may restock |

## Left out

- Storage I/O: the database driver, its callbacks and its errors are not modelled. So the 500 answers of the list, search, delete and orders handlers are left out, along with the "UNIQUE constraint failed" catch branches, which the name check before each write makes unreachable in this sequential model.
- Concurrency: each operation is one atomic step. The race between reading and writing a purchase is not modelled.
- Timestamps: `CURRENT_TIMESTAMP` is a clock that advances on every write. Ties within one second are not modelled.
- Numbers: prices and quantities are exact reals.
  - IEEE rounding, `toFixed(2)` and NaN are not modelled.
  - `parseFloat` and `parseInt` are not modelled: the model takes already-parsed numbers, and a number that cannot be parsed is a missing one.
  - The sweet id in a path is a parsed integer.
- `isEmail()` is not modelled. Its verdict is the parameter `emailSyntaxOk`.
- express-validator's error objects are not modelled: each is modelled by its failure and its message text. A missing email or password is treated as the empty string.
- String lengths count code points, not UTF-16 units.
- Hashing, token signing and the authentication service (src/services/authService.ts) are not part of this model. `register` and `login` take the service's result as a parameter.
- The authentication middleware is not part of this model. It is taken to answer 401 without a valid identity, and 403 at `requireAdmin` for a non-admin.
- Express route matching (ApiRoutes.Route) is modelled on path segments. Case folding and trailing slashes are not modelled on the server; the storefront's AppRoutes.Resolve does model them.
- The storefront's HTTP client is not modelled. That covers network failures, its 401/403 handling and the stored token: a purchase is the server's answer to it.
- The auth context (session restore) is not modelled. A session is given as loading plus role.
- The cart's localStorage persistence is not modelled, and neither are the alerts' wording beyond the add-to-cart text and the 1.5 s delay before a payment completes.
- The payment method, card holder and UPI inputs are uninterpreted, as in the source.
- SweetController.PurchaseRequest: its own contract says only that a refused request leaves the catalog. Its full answer is stated by PurchaseRequestOutcome, PurchaseRequestAnswers and PurchaseRequestSucceeds.
- Payment.HandlePayment: the ledger is only stated to grow, not to hold exactly one record per line bought.
- Payment.Checkout: its own contract states only that a reported failure is a refused line of the cart. Its order and stopping behaviour are in CheckoutAppend, CheckoutRefusedFirst and CheckoutStopsAtRefusal.
- Cart.TotalPrice: a left fold from 0. Its contract gives the sign; the additive lemmas TotalPriceAppend and TotalPriceSingle state the sum.
- SweetCatalog.Purchase and SweetCatalog.Restock state the write of the new stock directly. SweetService.SweetService.PurchaseSweet and RestockSweet reach the same table by calling UpdateSweet with the quantity alone, as the source does.
- PurchaseLedger.FindUser and SweetCatalog.Lookup return the first row with an id. The users and sweets ids are primary keys, so there is only one; a table with repeated ids, for which the SQL join would give several rows per purchase, is not modelled.
- The command-line scripts, the other pages and components, the server set-up and the type-only model files are outside the core.
