# Storefront catalogue and cart — a Dafny model

This project models the core of a game-server web store's front end.

- **Catalogue utilities** (`src/utils/packageService.js`):
  - The category manifest is normalised: missing ids, names, descriptions, package lists and orders get defaults. The categories are then sorted by their `order` field with a stable sort.
  - `categorizePackages` puts each store package into every category whose id set lists it. A package that no category lists goes into an "Other Packages" catch-all bucket. Empty category buckets are dropped. When exactly one category remains and the catch-all is empty, that category is renamed "All Packages".
  - `createDefaultCategories` derives one category per distinct `category` string found on the packages. Each gets a slug id, the ids of its packages and its rank as its order.
- **Cart store** (`src/contexts/CartContext.jsx`):
  - A class holding the cart list, the open/closed flag of the cart modal and a queue of pending basket operations.
  - Adding or removing an item changes the local cart at once and queues an `add` or `remove` for the remote basket.
  - One pass of `processPendingOperations` drains the queue against an external basket provider (the `Basket` class). It first obtains a basket and its contents, then issues one call per queued operation. It skips an `add` whose package the remote basket already holds.

How the model is built:

- JavaScript values are `JsValues.Scalar`. `Truthy` models JavaScript truthiness and `ToJsString` models `String(x)`, which is what property keys and `Set<string>` lookups compare.
- The categoriser's result object is a `map<string, Bucket>` keyed by those strings.
- The `for`/`forEach`/`reduce` loops and the state-changing async pass are methods, each proved equal to a declarative function: `Categorized`, `SeenCategoryNames`, `DefaultCategoryList`, `Replay`, `DrainCalls`. The callback-style calls `.some`, `.filter`, `.map` and `.sort` are functions (`ContainsId`, `ContainsPackage`, `WithoutId`, `PackageIdsNamed`, `FromBasket`, `SortByOrder`). The properties the code promises are lemmas about those functions.
- The basket provider is a class with a fixed snapshot of the fields the cart reads and scripted responses to its four operations. Each operation records its call in a `calls` trace.

Three consequences of the code that a reader might not expect, all modelled as written:

- Categories may overlap: a package appears in the bucket of every category that lists it (`PackageInEveryListingCategory`).
- Once at least one category exists, a package without a truthy id is in no bucket, not even the catch-all (`PackageWithoutIdDropped`).
- A category whose id is the string `uncategorized` is overwritten by the catch-all bucket, and the packages it lists land in the catch-all (`Belongs`, `UncategorizedKey`).

## Model

| member | source | states |
|---|---|---|
| JsValues.DigitsRoundTrip | src/utils/packageService.js:128 | the decimal string `String(n)` gives for a natural number reads back to that number |
| JsValues.NumberStringsInjective | src/utils/packageService.js:92 | two numeric ids have the same string form only when they are the same number, so a numeric package id matches only its own string |
| PackageService.NormalizeCategory | src/utils/packageService.js:35-41 | every normalised category has a truthy id and name, an array of package references and a numeric order; each present (truthy or well-typed) field is kept unchanged; a missing id becomes `category-` plus the random suffix, a missing name `Unnamed Category`, a falsy description `""`, a non-array package list `[]` and a non-numeric order `0` |
| PackageService.NormalizeKeepsNormalized | src/utils/packageService.js:35-41 | a category whose fields are all present, with a truthy description, comes out of normalisation unchanged |
| PackageService.NormalizeManifest | src/utils/packageService.js:23-42 | a manifest without a `categories` array yields no categories; otherwise one normalised category per input category, sorted by order |
| PackageService.NormalizeManifestPermutes | src/utils/packageService.js:35-42 | the sorted result is a permutation of the normalised categories, and categories with equal order keep their manifest order |
| PackageService.SortByOrder | src/utils/packageService.js:42 | the result is sorted by `order` (non-numeric counts as 0) and is a permutation of the input |
| PackageService.SortByOrderStable | src/utils/packageService.js:42 | for every order value, the categories with that order appear in their input order (the sort is stable) |
| PackageService.InsertByOrderMultiset | src/utils/packageService.js:42 | one insertion step adds exactly the inserted category |
| PackageService.InsertByOrderMembers | src/utils/packageService.js:42 | every category in the list after one insertion step is the inserted one or was already there |
| PackageService.InsertByOrderSorted | src/utils/packageService.js:42 | inserting into a sorted list keeps it sorted |
| PackageService.InsertByOrderStable | src/utils/packageService.js:42 | an inserted category goes after every category of equal order already in the list |
| PackageService.InsertByOrderAtEnd | src/utils/packageService.js:42 | a category whose order is at least every other's is appended at the end |
| PackageService.SortByOrderSorted | src/utils/packageService.js:42 | sorting a list already sorted by order leaves it unchanged |
| PackageService.PackageList | src/utils/packageService.js:58-69 | a non-array input without a `data` array yields no packages; otherwise the packages are exactly those of the `data` array or of the array itself |
| PackageService.RefId | src/utils/packageService.js:92 | a raw string reference is its own id |
| PackageService.RefFormsAgree | src/utils/packageService.js:92 | an object reference `{id: v}` and the raw value `v` give the same id exactly when `v` is truthy |
| PackageService.UncategorizedKey | src/utils/packageService.js:103-120 | only the string id `uncategorized` itself collides with the catch-all's key |
| PackageService.CategoryMap | src/utils/packageService.js:84-109 | the map's keys are exactly the string forms of the category ids, and each entry is stored under its own category's key |
| PackageService.CategoryMapEntry | src/utils/packageService.js:103-107 | the last category with a given key owns the entry, holding that category's id set |
| PackageService.CategoryMapFrom | src/utils/packageService.js:84-109 | every entry comes from one of the input categories and holds that category's id set |
| PackageService.CollectPackageIds | src/utils/packageService.js:85-101 | the id set holds `String(item.id)` or `String(item)` for array references, the keys for an object, and nothing otherwise |
| PackageService.BuildCategoryMap | src/utils/packageService.js:84-109 | builds the category map and lists its keys without repetition, as its entries are visited |
| PackageService.MembersIff | src/utils/packageService.js:122-142 | a bucket holds a package exactly when the package is in the input and belongs under the bucket's key |
| PackageService.MembersInOrder | src/utils/packageService.js:122-142 | a bucket's packages are a sub-sequence of the input, in input order |
| PackageService.Categorized | src/utils/packageService.js:56-160 | with no categories: one bucket `uncategorized` named "All Packages", with its description and no order, holding the whole package array; otherwise each bucket is a category key or the catch-all, holds exactly the packages that belong there, and no category bucket is empty; every bucket carries its category's id, name, description and order, the catch-all carries "Other Packages" and "Additional packages", and the collapsed bucket carries "All Packages" and its description |
| PackageService.AppendToMatching | src/utils/packageService.js:129-141 | the inner loop appends the package to every category bucket whose id set holds it and reports whether any did |
| PackageService.AppendedThrough | src/utils/packageService.js:132-137 | appending over any list of keys leaves the set of buckets unchanged |
| PackageService.AppendedThroughSpec | src/utils/packageService.js:132-137 | after visiting distinct keys, a visited bucket has the package appended when it matches, and every other bucket is untouched |
| PackageService.AppendedThroughAll | src/utils/packageService.js:132-137 | visiting every key of the map appends to exactly the matching buckets and reports a match exactly when some category lists the package |
| PackageService.AnyListedIff | src/utils/packageService.js:133-135 | the `isCategorized` flag is set exactly when some visited key's id set holds the package |
| PackageService.KeysCoverMatches | src/utils/packageService.js:132 | a listing of the map's keys finds a match exactly when the map has one |
| PackageService.PlacedInto | src/utils/packageService.js:123-141 | placing one package leaves the set of buckets unchanged |
| PackageService.PlacePackage | src/utils/packageService.js:123-141 | one iteration of the package loop adds the package to its matching buckets, or to the catch-all when none matches |
| PackageService.FillBuckets | src/utils/packageService.js:112-142 | the package loop fills each bucket with exactly the packages that belong under its key, in input order |
| PackageService.FilledStep | src/utils/packageService.js:122-126 | one more package changes the buckets by placing it; a package without an id changes nothing |
| PackageService.PruneEmpty | src/utils/packageService.js:145-148 | removes exactly the empty category buckets and keeps the catch-all |
| PackageService.CollapseSingle | src/utils/packageService.js:150-157 | renames the only category bucket to "All Packages" and drops the catch-all when the catch-all is empty; otherwise changes nothing |
| PackageService.CategorizePackages | src/utils/packageService.js:56-160 | the whole categoriser computes `Categorized` for every input shape, including a `data` wrapper, a non-array and an empty category list |
| PackageService.NonEmptyBucketKept | src/utils/packageService.js:145-148 | a category that receives at least one package appears in the result |
| PackageService.PackageInEveryListingCategory | src/utils/packageService.js:132-137 | a package with an id appears in the bucket of every category that lists it, so categories overlap |
| PackageService.UnlistedPackageOnlyInCatchAll | src/utils/packageService.js:139-141 | a package no category lists is in the catch-all and in no other bucket |
| PackageService.PackageWithoutIdDropped | src/utils/packageService.js:123-126 | once categories exist, a package without a truthy id is in no bucket |
| PackageService.BucketsKeepInputOrder | src/utils/packageService.js:122-142 | every bucket of the result lists its packages in input order |
| PackageService.MembersAreAllWithIds | src/utils/packageService.js:122-142 | a bucket every package with an id belongs to holds exactly the packages with ids, in input order |
| PackageService.PrunedShape | src/utils/packageService.js:145-148 | after pruning, the catch-all is present and the other keys are exactly the populated categories |
| PackageService.CatchAllDroppedIff | src/utils/packageService.js:150-157 | the catch-all is missing from the result exactly when it is empty and exactly one category is populated |
| PackageService.CollapsedShape | src/utils/packageService.js:150-157 | when the catch-all is dropped, one key remains; it is the only populated category and carries the "All Packages" name and description |
| PackageService.CollapsedBucketHoldsAll | src/utils/packageService.js:150-157 | when the result collapses, its single bucket is named "All Packages" and holds every package that has an id |
| PackageService.PlacedSomewhereElse | src/utils/packageService.js:139-141 | with an empty catch-all and one populated category, every package with an id belongs to that category |
| PackageService.CollectCategoryNames | src/utils/packageService.js:276-281 | the loop collects the distinct string categories in first-seen order |
| PackageService.SeenCategoryNamesSpec | src/utils/packageService.js:276-284 | the collected names are pairwise distinct, and a name is collected exactly when some package has it as a non-empty string category |
| PackageService.SeenCategoryNamesOrder | src/utils/packageService.js:276-284 | names appear in the order of their first occurrence among the packages |
| PackageService.LowerCase | src/utils/packageService.js:286 | lower-casing keeps the length and maps each character on its own |
| PackageService.DropWhitespace | src/utils/packageService.js:286 | the text after a whitespace run starts with a non-whitespace character or is empty |
| PackageService.DropWhitespaceSuffix | src/utils/packageService.js:286 | what remains is a suffix of the input, and everything dropped before it is whitespace |
| PackageService.DropWhitespaceKeepsOthers | src/utils/packageService.js:286 | dropping a whitespace run keeps every non-whitespace character, with its count |
| PackageService.DashWhitespace | src/utils/packageService.js:286 | replacing whitespace runs by single dashes never lengthens the text |
| PackageService.DropWhitespaceRun | src/utils/packageService.js:286 | a whitespace run followed by text that does not start with whitespace is dropped whole, leaving exactly that text |
| PackageService.DashWhitespaceRun | src/utils/packageService.js:286 | a whole whitespace run, of any length, becomes exactly one dash, so "a  b" and "a b" both become "a-b" |
| PackageService.DashWhitespaceLeavesNone | src/utils/packageService.js:286 | no whitespace remains after the replacement |
| PackageService.DashWhitespaceKeepsOthers | src/utils/packageService.js:286 | every character other than whitespace and `-` keeps its count |
| PackageService.KeepSlugChars | src/utils/packageService.js:286 | the filter leaves only `a-z`, digits and `-`, as a sub-sequence of the input (order kept) |
| PackageService.KeepSlugCharsKeepsAllowed | src/utils/packageService.js:286 | every allowed character keeps its count, so the filter removes exactly the disallowed characters |
| PackageService.Slug | src/utils/packageService.js:286 | the slug is no longer than the name and holds only `a-z`, digits and `-` |
| PackageService.SlugKeepsLettersAndDigits | src/utils/packageService.js:286 | every `a-z` letter and digit of the lower-cased name survives into the slug, with its count |
| PackageService.DashWhitespaceKeepsSlugChar | src/utils/packageService.js:286 | if the input has whitespace or an allowed character, the replaced text has an allowed character |
| PackageService.DashWhitespaceAddsNoSlugChar | src/utils/packageService.js:286 | an allowed character in the replaced text comes from whitespace or an allowed character of the input |
| PackageService.KeepSlugCharsEmptyIff | src/utils/packageService.js:286 | the filter yields nothing exactly when no character is allowed |
| PackageService.KeepSlugCharsIdentity | src/utils/packageService.js:286 | the filter keeps a string of allowed characters unchanged |
| PackageService.DashWhitespaceSlugChars | src/utils/packageService.js:286 | after whitespace runs become dashes, an allowed character remains exactly when the input had whitespace or an allowed character |
| PackageService.DashWhitespaceIdentity | src/utils/packageService.js:286 | a string without whitespace is unchanged by the dash replacement |
| PackageService.SlugEmptyIff | src/utils/packageService.js:286 | the slug is empty exactly when the name has no whitespace and no character that lowers to `a-z`, a digit or `-` |
| PackageService.SlugOfSlug | src/utils/packageService.js:286 | a name that is already a slug is its own slug, so slugging is idempotent on its results |
| PackageService.DefaultCategoryId | src/utils/packageService.js:294 | the id is never empty and uses only slug characters (the slug, or `category-<index>` when the slug is empty) |
| PackageService.PackageIdsNamedIff | src/utils/packageService.js:289-291 | a category's package list holds an id exactly when some package with that category string has that id |
| PackageService.PackageIdsNamedInOrder | src/utils/packageService.js:289-291 | the list is a sub-sequence of all package ids, in package order |
| PackageService.PackageIdsNamedTaggedInOrder | src/utils/packageService.js:289-291 | paired with `name`, the list is a sub-sequence of the packages paired with their own categories, so each entry comes from a package carrying `name`; with the count, the list is exactly those packages' ids in package order |
| PackageService.PackageIdsNamedCount | src/utils/packageService.js:289-291 | the list has one entry per package with that category string, duplicates included |
| PackageService.DefaultCategory | src/utils/packageService.js:284-299 | a derived category for a non-empty name is already normalised, has a truthy description, its slug id (or `category-<index>`) as key and its index as order |
| PackageService.DefaultCategoryList | src/utils/packageService.js:284-300 | one derived category per collected name, sorted by order, each normalised with a truthy description |
| PackageService.DefaultCategoriesRoundTrip | src/utils/packageService.js:274-305 | written out as a manifest and read back through the normalise-and-sort step (lines 35-42), the derived categories come back unchanged |
| PackageService.CreateDefaultCategories | src/utils/packageService.js:274-305 | one category per distinct name, in first-seen order, with that name, its rank as order and its slug id |
| PackageService.OwnDefaultCategory | src/utils/packageService.js:284-299 | a package's own category string has a derived category whose id is its slug id and whose id set holds the package |
| PackageService.DefaultCategoriesPlaceEveryPackage | src/utils/packageService.js:274-305 | when the derived ids are distinct, categorising with the derived categories puts every named package with an id into its own category's bucket |
| CartContext.ContainsId | src/contexts/CartContext.jsx:181 | true exactly when some cart item has the id (strict equality) |
| CartContext.IdSet | src/contexts/CartContext.jsx:253-255 | the set of ids present in the cart |
| CartContext.WithoutId | src/contexts/CartContext.jsx:217 | the filtered cart keeps order and holds exactly the items with other ids |
| CartContext.WithoutIdCounts | src/contexts/CartContext.jsx:217 | every item with another id keeps its multiplicity, and items with the id are gone |
| CartContext.WithoutIdKeepsUnique | src/contexts/CartContext.jsx:217 | filtering keeps ids unique |
| CartContext.WithoutAbsentId | src/contexts/CartContext.jsx:217 | filtering an absent id changes nothing |
| CartContext.WithoutPresentIdShrinksByOne | src/contexts/CartContext.jsx:217 | with unique ids, removing a present id drops exactly one item |
| CartContext.DistinctIdCount | src/contexts/CartContext.jsx:253-255 | with unique ids, the number of items equals the number of distinct ids |
| CartContext.FromBasket | src/contexts/CartContext.jsx:149-157 | one cart item per basket package, in order, copying its id, name, price, description, category, image and url |
| CartContext.ContainsPackage | src/contexts/CartContext.jsx:126 | true exactly when some basket package has the id |
| CartContext.RemoteIds | src/contexts/CartContext.jsx:124-126 | an id is in the remote set exactly when the current basket exists, has a package list and holds a package with that id |
| CartContext.ReplayOne | src/contexts/CartContext.jsx:121-135 | one operation issues no call exactly when it is an add of a package the remote basket holds; otherwise it issues its own call (add with quantity 1, or remove) |
| CartContext.Replay | src/contexts/CartContext.jsx:120-139 | replaying a queue issues at most one call per queued operation |
| CartContext.ReplayAppend | src/contexts/CartContext.jsx:120-139 | replaying two queues in a row is replaying their concatenation |
| CartContext.ReplayInQueueOrder | src/contexts/CartContext.jsx:120-139 | the calls are a sub-sequence of one call per operation, in queue order |
| CartContext.ReplayWithoutRemote | src/contexts/CartContext.jsx:122-134 | with no remote contents, every operation is issued, in queue order |
| CartContext.ReplayRemovesIff | src/contexts/CartContext.jsx:133-134 | a remove call is issued exactly when that remove was queued |
| CartContext.ReplayAddsIff | src/contexts/CartContext.jsx:122-132 | an add call is issued exactly when that add was queued and the remote basket does not hold the package; its quantity is always 1 |
| CartContext.AddThenRemoveReplay | src/contexts/CartContext.jsx:120-139 | a queued add then remove of one package, against an empty remote basket, issues the add and then the remove |
| CartContext.Basket.constructor | src/contexts/CartContext.jsx:75-109 | a basket handle holds the username, identifier, initialisation flag and cached data the pass reads, and no calls yet |
| CartContext.Basket.GetOrCreateBasket | src/contexts/CartContext.jsx:88 | records the creation call for the user and returns the provider's identifier |
| CartContext.Basket.FetchBasket | src/contexts/CartContext.jsx:109 | records the fetch of the identifier and returns the provider's contents |
| CartContext.Basket.AddPackageToBasket | src/contexts/CartContext.jsx:131 | records the add call with its quantity; the call succeeds exactly when the provider accepts the package |
| CartContext.Basket.RemovePackageFromBasket | src/contexts/CartContext.jsx:134 | records the remove call; the call succeeds exactly when the provider accepts the package |
| CartContext.CurrentBasket | src/contexts/CartContext.jsx:100-111 | no remote contents without a basket id; the cached contents when they hold a package list; otherwise the fetched ones |
| CartContext.DrainCalls | src/contexts/CartContext.jsx:41-139 | an empty queue or a missing handle makes no call; a pass makes at most one call beyond one per queued operation; a pass stopped by a guard makes no package call, at most the basket creation attempt |
| CartContext.DrainingPassReplaysQueue | src/contexts/CartContext.jsx:99-139 | a draining pass makes at most one setup call (the basket creation or the fetch) and then replays the whole queue; removes are issued iff queued, adds iff queued and not in the remote basket |
| CartContext.FreshBasketAddsEverything | src/contexts/CartContext.jsx:81-139 | when the pass had to create the basket, it issues the creation call and then every queued operation, adds included |
| CartContext.CartStore.constructor | src/contexts/CartContext.jsx:17-28 | the cart starts as the saved list, closed, with an empty queue |
| CartContext.CartStore.IsInCart | src/contexts/CartContext.jsx:248-250 | true exactly when some cart item has the id |
| CartContext.CartStore.GetCartItemCount | src/contexts/CartContext.jsx:253-255 | the cart length; with unique ids, the number of distinct items |
| CartContext.CartStore.AddToCart | src/contexts/CartContext.jsx:173-201 | an invalid item changes nothing; a valid item opens the cart and is then in it; a new item is appended and its `add` queued; an item already present changes neither list; id uniqueness is preserved |
| CartContext.CartStore.RemoveFromCart | src/contexts/CartContext.jsx:204-218 | a falsy id changes nothing; otherwise a `remove` is queued even for an absent id, every item with the id leaves the cart, and the rest keep their order |
| CartContext.CartStore.ClearCart | src/contexts/CartContext.jsx:221-225 | empties the cart and leaves the queue and the modal flag alone |
| CartContext.CartStore.OpenCart | src/contexts/CartContext.jsx:258-260 | opens the modal and changes nothing else |
| CartContext.CartStore.CloseCart | src/contexts/CartContext.jsx:263-265 | closes the modal and changes nothing else |
| CartContext.CartStore.SyncFromBasketContext | src/contexts/CartContext.jsx:146-164 | with a handle holding a package list, the cart becomes that list's items; otherwise nothing changes |
| CartContext.CartStore.ProcessPendingOperations | src/contexts/CartContext.jsx:41-140 | a pass that passes its guards empties the queue, and a blocked one keeps it; the basket receives exactly `DrainCalls`; the cart and the modal flag are untouched |
| CartContext.PrepareBasket | src/contexts/CartContext.jsx:80-114 | the pass continues exactly when the handle has a basket or one is obtained; it then works from the cached contents or the fetched ones, recording exactly those calls |
| CartContext.ReplayOperations | src/contexts/CartContext.jsx:117-139 | the loop issues exactly the calls `Replay` prescribes for the snapshot of the queue |
| CartContext.IssueOperation | src/contexts/CartContext.jsx:121-138 | one operation issues its call, or none for an add already in the basket; a rejected call does not stop the loop |
| CartContext.SyncedCartMatchesBasket | src/contexts/CartContext.jsx:124-126 | after a sync, an id is in the cart exactly when the cached basket holds it, so the cart query and the drain's skip test agree |
| CartContext.SyncedCartUniqueIff | src/contexts/CartContext.jsx:149-157 | a synced cart has unique ids exactly when the basket's package ids are distinct |

## Left out

- Network fetches of `/store-categories.json`, HTTP status handling and the `try/catch` around them are not modelled. A failed or malformed fetch is covered only through `MalformedManifest`, which yields no categories.
- `refreshCategories` is not modelled: it is a fetch with a `Date.now()` cache buster that returns the raw manifest.
- `Math.random()` in a missing category id is a parameter, `randomSuffix`, of `NormalizeCategory` and `NormalizeManifest`.
- JavaScript numbers are integers here. Floats, `NaN`, infinities and the exponent form `String` gives from 10^21 up are not modelled.
- `toLowerCase` is modelled for ASCII letters only. Unicode case mapping is not modelled.
- The categoriser's result is a map. The enumeration order of its keys (integer-like keys first, then insertion order) is not modelled. The order in which `Object.entries` visits categories does not change any bucket's contents, and the model proves exactly that.
- Extra fields a category spreads into its bucket (`...category`) are not modelled; a bucket keeps id, name, description, order and packages.
- `categories` given as a non-array object with a `length` is not modelled; the model takes a sequence of categories.
- A `null` element of the package array is not modelled; the source throws on `pkg.id`.
- Package references that are objects are matched by `String(item.id)` or `"[object Object]"`. Other object-to-string conversions are not modelled.
- `localStorage` is not modelled. The cart store's constructor takes the saved cart, and writing the cart back after each change is not modelled.
- React plumbing is not modelled: `useState` updaters, `useEffect` triggering, re-renders, the module-level `basketContext` variable, `require('./BasketContext')`, `useBasket()` and `connectToBasketContext`. A pass takes the basket handle it finds (possibly `null`) and the user name as parameters.
- Concurrency is not modelled. Each pass runs to completion, and overlapping asynchronous passes and React StrictMode double invocation are not modelled.
- Operation timestamps (`Date.now()`) are not modelled; the queue holds only the operation kind and the item id.
- The basket provider is not modelled, beyond the calls the cart makes on it. Its responses are fixed per handle: `createdIdent`, `fetched` and `rejected`. A thrown error and a falsy result are modelled alike.
- `getCartTotal` is not modelled. It reads a `basketData` identifier that is not declared in the provider, and its price parsing is floating point.
- Item ids that are objects are not modelled; ids are scalars compared with `===`.
- `CartContext.CartStore.GetCartItemCount`: the distinct-count clause is stated only for carts with unique ids, because a cart restored from storage or synced from the basket may hold duplicates.
- A handle that is replaced while a pass awaits is not modelled: a pass is assumed to work on the one handle it captured, which is not updated during the pass. `CurrentBasket`, `DrainCalls` and `FreshBasketAddsEverything` rest on this: a basket the pass has just created is not visible to it, so it compares against no remote contents and issues every queued `add`.
- A `null` or `undefined` entry in the category manifest is not modelled: `category.id` at packageService.js:37 throws, and `fetchCategories` catches the error (lines 43-46) and returns `[]`. The categoriser likewise throws on such an entry at line 88. Categories here are always records.
- A `null` element of the package array given to `createDefaultCategories` is not modelled: `pkg.category` at packageService.js:278 throws.
- `PackageService.DefaultCategoriesPlaceEveryPackage`: stated only when the derived ids are distinct. Two names with the same slug, such as "Ranks" and "ranks", share a key, and the later category replaces the earlier one.
