# ORL Coffee — a Dafny model of the request script

ORL Coffee is a small coffee-shop directory. One PHP script,
`app/index.php`, serves the whole site. It shows a grid of shops with
rating, drink-type and food filters, and a detail page for each shop where
visitors leave comments. An admin area lets a logged-in admin create,
edit and delete shops. Reads go through an APCu get-or-compute cache.

This project models that script as pure functions over immutable data.
Each request is one call:

    Handle(env, variant, state, request) -> Outcome(state', response)

The state that outlives a request is the database (`shops`, `comments` and
their auto-increment counters), the cache store (a map from prefixed key
to value) and the session's `admin_id`. The files follow the script's
structure:

- `strings.dfy` — the PHP string functions the script relies on:
  `empty()`, `strtolower`, `trim`, `explode`/`implode`, the `(int)` cast,
  `urlencode` and `mysqli_real_escape_string`.
- `slug.dfy` — the slug expression of lines 210 and 252.
- `routes.dfy` — `getShopUrl`, the detail-route capture and the two
  exact-URI redirects.
- `cache.dfy` — `getCachedData` with its truthiness hit test, the full
  clear and the single-key delete.
- `shops.dfy` — the tables and the statements run against them, plus
  the invariant the script's own writes keep: unique ids, ids below the
  counter, well-formed slugs.
- `listing.dfy` — filter extraction, the filtered query, and the
  distinct drink types.
- `comments.dfy` — the `GROUP_CONCAT` aggregate of the detail query and
  its decoder.
- `app.dfy` — one request end to end: the redirects, the edit lookup,
  the handlers in source order, and the choice of view.
- `coherence.dfy` — when a cache entry still equals what a fresh query
  would return.

`Variant` says which reading a definition follows:

- `AsWritten` is the script as it stands.
- `Intended` applies the two corrections listed under Findings.

Three behaviours of the script are easy to miss, and the model keeps
them:

- A create or update with a PHP-empty required field ends the request
  with an empty response. The script `return`s at top level before any
  view is rendered, so the error message it sets is never shown.
- Only the exact URI `/admin` sends a guest to `/login`. Other
  `/admin/...` URIs are not redirected, and they render the grid, because
  every admin view also checks the session.
- A `/shop/<slug>` URI whose slug matches no shop renders the detail view
  with no shop. In the script, `$shop_detail` becomes
  `['comments' => []]`, which is truthy. The route captures from the raw
  request URI, query string included.

## Model

| member | source | states |
|---|---|---|
| PhpStrings.Explode | app/index.php:130-132 | There is always at least one piece, and no piece contains the delimiter. |
| PhpStrings.ImplodeExplode | app/index.php:130 | Joining the pieces of `explode` with the same delimiter gives back the original string. |
| PhpStrings.ExplodeImplode | app/index.php:132 | Splitting a join gives back the pieces, provided each piece except the last meets the delimiter only at its joint and the last piece does not contain it. |
| PhpStrings.TrimIsInfix | app/index.php:60 | `trim` returns an infix of its input, and every byte it removes before or after that infix is one of PHP's trim bytes. |
| PhpStrings.IntCast | app/index.php:69 | A negative result needs a `-` followed by a digit after the leading whitespace. A positive result needs a digit there, or a `+` and then a digit. Anything else casts to 0. |
| PhpStrings.IntCastOfNatToString | app/index.php:69 | The `(int)` cast reads back the decimal text of any natural number, and the negation of it after a minus sign. |
| PhpStrings.IntCastOfNonNumeric | app/index.php:69 | A string starting with a character that is not a digit, sign or whitespace casts to 0. |
| PhpStrings.IntCastOfPrefix | app/index.php:69 | After leading whitespace, the cast reads only the leading digits and ignores whatever follows them, so `"3abc"` is 3 and `" 7"` is 7. |
| PhpStrings.UrlEncode | app/index.php:327 | The encoding is never shorter than the input, and every byte of it is unreserved, `%` or `+`. |
| PhpStrings.UrlEncodeIdentity | app/index.php:327 | `urlencode` leaves a byte string unchanged exactly when every byte is an unreserved character. |
| PhpStrings.SqlEscapeIdentity | app/index.php:122 | Escaping leaves a string with no special character unchanged. |
| PhpStrings.SqlEscapeInjective | app/index.php:122 | Different captures never escape to the same text, so they never share a cache key. |
| Slug.ReplaceRuns | app/index.php:210 | The result holds only `a-z`, `0-9` and `-`, never two `-` in a row, and is non-empty whenever the input is. |
| Slug.Slugify | app/index.php:210 | Every name yields a slug made only of `a-z`, `0-9` and `-`, with no two consecutive `-`. The slug is empty only when the name is. |
| Slug.SlugFixpoint | app/index.php:252 | A string is a well-formed slug exactly when deriving a slug from it returns it unchanged. |
| Slug.SlugifyIdempotent | app/index.php:252 | Deriving the slug of a slug changes nothing, so the update's re-derivation is stable. |
| Slug.ReplaceRunsFixesSlugs | app/index.php:210 | Collapsing runs leaves an existing slug unchanged. |
| Slug.SlugKeepsLettersAndDigits | app/index.php:210 | The letters and digits of the slug are exactly those of the lowercased name, in order; everything else in it is a hyphen. |
| Slug.ReplaceRunsIsSqueezedMask | app/index.php:210 | The replacement equals an independent byte-by-byte rule: mask every byte outside `[a-z0-9]` to `-`, then squeeze each run of `-` to one. So each maximal run of other bytes becomes exactly one `-`, in place. |
| Slug.SlugifyIsSqueezedMask | app/index.php:210 | The stored slug is the lowercased name with that mask and squeeze applied. |
| Slug.SeparatorsBecomeOneHyphen | app/index.php:210 | A single separator between two letters or digits becomes a `-` in place, and two adjacent letters or digits stay together: `joe's` and `joe s` both give `joe-s`, while `joes` gives `joes`. |
| Routes.DetailSlug | app/index.php:121 | A capture is non-empty, holds no `/` and follows `/shop/` at the start of the URI. There is no capture when the URI does not start with `/shop/`, or a `/` or the end follows it. |
| Routes.DetailSlugIff | app/index.php:121 | The route captures `s` exactly when the URI starts with `/shop/` + `s`, `s` is a non-empty run without `/`, and the URI ends or continues with `/` right after it. |
| Routes.ShopUrl | app/index.php:325-328 | The link starts with `/shop/`, and every byte after that is unreserved, `%` or `+`, so the link never has a second path segment. |
| Routes.ShopUrlOfSlug | app/index.php:325-328 | The link of a well-formed slug is exactly `/shop/` followed by the slug. |
| Routes.DetailSlugOfShopUrl | app/index.php:121 | Following a shop's link, or posting to its `/comment` URI, captures the same slug. |
| Routes.Redirection | app/index.php:101-110 | An admin on exactly `/login` goes to `/admin`; anyone else on exactly `/admin` goes to `/login`; no other URI redirects, and the two never fire together. |
| Cache.Get | app/index.php:16-26 | A truthy stored value is returned and the producer does not run. Otherwise the producer's result is stored under the prefixed key and returned. |
| Cache.Delete | app/index.php:312 | Only the named prefixed key leaves the store; every other entry stays as it was. |
| Cache.GetTouchesOnlyItsKey | app/index.php:18-24 | A fetch changes no entry other than its own key. |
| Cache.RepeatedGetHits | app/index.php:19-21 | Once a truthy value has been fetched, the next fetch of that key returns it without running any producer. |
| Cache.FalsyIsRecomputed | app/index.php:19-24 | A falsy value is stored but never served, so the producer runs again on the next fetch. |
| Cache.ClearForcesRecompute | app/index.php:32-34 | After the full clear of an admin POST, every fetch recomputes. |
| Cache.DeleteForcesRecompute | app/index.php:312 | After the delete, the next fetch of that shop's key recomputes. |
| Shops.FindBySlug | app/index.php:124 | The row found has the requested slug and comes from the table. None is returned exactly when no row has that slug. |
| Shops.FindBySlugAppend | app/index.php:124 | After a row is appended, a slug finds the same row as before if it found one. Otherwise it finds the new row exactly when the new row has that slug. |
| Shops.InsertedRowIsFound | app/index.php:219-222 | A row inserted under a slug no older row has is the row a lookup by that slug finds, and it has no comments yet when none points at the counter's id. |
| Shops.InsertedRowIsShadowed | app/index.php:219-222 | A row inserted under a slug an older row already has is never the row that lookup finds. |
| Shops.FindById | app/index.php:145 | The row found has the requested id and comes from the table. None is returned exactly when no row has that id. |
| Shops.CommentsOf | app/index.php:124 | The joined comments are exactly the stored comments of that shop. |
| Shops.UpdateShops | app/index.php:255-268 | Rows with the given id take the new fields; every other row is unchanged and in place. |
| Shops.DeleteShops | app/index.php:284-288 | The rows left are exactly the previous rows whose id differs. |
| Shops.InsertShopKeepsInvariant | app/index.php:219-222 | An insert with a derived slug keeps ids unique and below the counter, and every slug well formed. |
| Shops.UpdateShopsKeepsInvariant | app/index.php:255-268 | An update with a derived slug keeps the same invariant. |
| Shops.DeleteShopsKeepsUniqueIds | app/index.php:284-288 | A delete never makes two rows share an id. |
| Shops.DeleteShopsKeepsInvariant | app/index.php:284-288 | A delete keeps the whole invariant. |
| Listing.Param | app/index.php:67-69 | A filter parameter is kept exactly when present and not PHP-empty, and its value is returned unchanged. |
| Listing.ExtractFilters | app/index.php:66-70 | The drink filter is set exactly when its parameter is present and not PHP-empty, and it then holds the value. The rating filter is set under the same condition and holds the `(int)` cast of the value. As written the food filter is set under that condition too; intended, whenever its value is not `""`. A set food filter holds the submitted value. |
| Listing.ActiveClausesOfQuery | app/index.php:66-70 | The rating clause is on exactly when the parameter casts to a non-zero integer, so `""`, `"0"` and `"abc"` are off. The drink clause is on exactly when the parameter is not PHP-empty. As written the food clause is also on exactly when not PHP-empty; intended, whenever it is not `""`. |
| Listing.FilterShops | app/index.php:79-92 | A row is returned exactly when it is a stored row that meets every active clause: equal rating, drink type a substring of `drink_types`, and equal `food_available`. |
| Listing.FilterWithoutClausesKeepsAll | app/index.php:79 | With no active clause the query returns every row, in order. |
| Listing.GridIsMatchingRows | app/index.php:117 | Whatever the filters, the grid lists exactly the stored rows that meet every active clause. |
| Listing.FoodFilterAsWritten | app/index.php:88 | As written, the form's `1` keeps only shops without food. `0` switches the clause off. Only the literal `yes` keeps shops with food. |
| Listing.FoodFilterIntended | app/index.php:88 | Intended: `1` keeps exactly the shops with food and `0` exactly the shops without. |
| Listing.VariantsAgreeWithoutFood | app/index.php:66-70 | Without a food parameter both readings switch on the same clauses and keep the same rows. |
| Listing.Tokens | app/index.php:60 | The column is cut into comma-free pieces that join back to it with `,`. Each token is its piece trimmed, so no token starts or ends with trimmed whitespace, and a shop yields at least one token. |
| Listing.CommaPieces | app/index.php:60 | The pieces of `explode(',', s)` hold no comma and join back to `s`. |
| Listing.AllTokensMembers | app/index.php:59-61 | The merged list holds exactly the tokens of some shop. |
| Listing.Dedup | app/index.php:58 | The result has no duplicates and the same members as the input, and lists them in the order of their first occurrence. |
| Listing.DedupIsUnique | app/index.php:58 | Any duplicate-free list with the same members in first-occurrence order is the deduplicated list. |
| Listing.ArrangedIsUnique | app/index.php:58 | Two such lists over the same members are equal. |
| Listing.UniqueDrinkTypesSpec | app/index.php:57-63 | The drink types have no duplicates, are trimmed, and are exactly the tokens of some shop. |
| Comments.Aggregate | app/index.php:124 | The aggregate is `NULL` exactly when the shop has no comments. |
| Comments.Fields | app/index.php:130-131 | A record always yields an id. No field holds `:::`, and a missing name means a missing body. |
| Comments.Decode | app/index.php:128-135 | There are no comments exactly when the aggregate is `NULL` or PHP-empty. Every decoded comment has an id that holds no `:::`. |
| Comments.DecodeOfNothing | app/index.php:133-134 | A `NULL`, empty or `"0"` aggregate decodes to no comments. |
| Comments.AggregateIsTruthy | app/index.php:128 | A shop with comments gets a truthy aggregate, so its comments are decoded. |
| Comments.FieldsOfRecord | app/index.php:130-131 | A clean record splits back into its id, name and body. |
| Comments.RecordHasNoRecordSep | app/index.php:124 | A clean record contains no `|||` and does not end in `|`. |
| Comments.RoundTrip | app/index.php:128-135 | Decoding the aggregate of clean comments gives back every comment's id, name and body, in order. |
| Comments.AppendedCommentDecodedLast | app/index.php:128-135 | A clean comment appended to clean comments is decoded as the last entry of the list. |
| Comments.NameEndingInColonIsMisread | app/index.php:130 | A name free of both delimiters but ending in `:` comes back without its colon. |
| App.EditLookup | app/index.php:139-151 | The edit row has the requested numeric id and comes from the table. None is returned exactly when the id is missing, PHP-empty, not a digit string, or matches no row. |
| App.CreateShop | app/index.php:195-227 | An incomplete form writes nothing and gives an empty response. A complete form appends one row and advances the shop counter. The row's id is the old counter. Its name, location, hours and drink types are the submitted text. Its rating and food are their integer conversions, with food `0` when not submitted. Its slug is derived from its name, and its image is the upload. The admin is then sent to `/admin`. |
| App.UpdateShop | app/index.php:230-273 | An incomplete form writes nothing. A complete form updates only the rows with the query's id and leaves the counters alone. Each such row takes every submitted column: the text as sent, rating and food converted, and the derived slug. It keeps its id, and keeps its image unless a new one was uploaded. |
| App.CreatedShopIsFoundBySlug | app/index.php:219-222 | When no older row has the derived slug, the detail query for that slug returns the new row with every column the form gave, and no comments. |
| App.OlderSlugShadowsCreatedShop | app/index.php:124 | When an older row already has the derived slug, the detail query keeps returning that older row and never the new one. |
| App.DeleteShop | app/index.php:276-292 | A falsy id only redirects. Otherwise exactly the rows with that id go. Comments and both counters are untouched either way, and the response is `/admin`. |
| App.PostComment | app/index.php:304-317 | An accepted comment is appended for the page's shop. Only that shop's detail key leaves the cache, and the browser is sent back to the same URI. |
| App.CommentStoredOrRejected | app/index.php:295-318 | A submitted comment is either stored, with a redirect to the same URI, or rejected. A rejection leaves the database and cache unchanged, and on the shop's page the view shows the error. |
| App.SelectView | app/index.php:359-632 | The branches are tested in source order and the first that holds picks the view. A guest on exactly `/login` gets the login form, and only such a guest does. An admin gets the whole table on `/admin`, the create form on `/admin/new-coffee-shop` and the edit form on an edit URI, and only an admin gets these. Otherwise a resolved detail on a `/shop/` URI gets the detail page. The grid with its data is shown exactly when none of these applies. |
| App.Handlers | app/index.php:174-318 | A GET writes nothing and gets a page. The session changes only by a login or a logout. Comments are only ever appended. A page leaves the state unchanged, and an admin page means the session is an admin's. A guest never changes the shops or their counter. |
| App.Dispatch | app/index.php:139-151 | The same promises as the handlers, also when the edit lookup sends the admin back to `/admin`. |
| App.Serve | app/index.php:117-136 | The same promises for the tables and the session, after the grid and detail reads. |
| App.Handle | app/index.php:28-318 | The bootstrap halts without touching the tables or the session. A GET never writes the tables or the session. The session changes only by a login or a logout, and comments are only ever appended. A page means nothing was written. An admin page is only shown to an admin, and a guest never changes the shops. |
| App.AdminOnLoginGoesToAdmin | app/index.php:101-104 | An admin on exactly `/login` is sent to `/admin` and nothing is written. |
| App.GuestOnAdminGoesToLogin | app/index.php:107-110 | A guest on exactly `/admin` is sent to `/login` whatever the form holds. |
| App.EditUriIsNotLogin | app/index.php:139 | An edit URI is neither `/login` nor `/admin`, so its lookup always runs. |
| App.EditWithoutShopGoesToAdmin | app/index.php:139-151 | An admin on the edit URI with a missing, empty or unmatched id is sent to `/admin` and nothing is written. |
| App.OnlyExactUrisRedirect | app/index.php:101-110 | A guest's GET on any other URI, `/admin/...` included, renders a page. |
| App.GuestSeesNoAdminView | app/index.php:382-488 | A guest never gets the admin list, the new-shop form or the edit form. |
| App.AdminSeesList | app/index.php:382 | An admin's GET of exactly `/admin` shows the whole table and writes nothing. |
| App.AdminPostRunsFirstMatchingHandler | app/index.php:188-273 | An admin POST with `logout` logs out and writes nothing, whatever create, update or delete fields it also carries. Without `logout`, a create field makes it a create whatever else it carries, and then an update field makes it an update. |
| App.GuestLeavesShopsAlone | app/index.php:195-292 | A guest's request never changes the shops table or its counter. |
| App.IncompleteCreateWritesNothing | app/index.php:204-207 | An admin's create with a PHP-empty required field gets an empty response and writes nothing. |
| App.LoginComesFirst | app/index.php:174-185 | A successful login stores the admin's id and goes to `/admin` before any other handler runs. |
| App.CreateKeepsDbInvariant | app/index.php:195-227 | The create handler keeps the database invariant. |
| App.UpdateKeepsDbInvariant | app/index.php:230-273 | The update handler keeps the database invariant. |
| App.DeleteKeepsDbInvariant | app/index.php:276-292 | The delete handler keeps the database invariant. |
| App.HandleKeepsDbInvariant | app/index.php:174-318 | Every request, in either reading, keeps ids unique and below the counter and every slug well formed. |
| CacheCoherence.LoadListingIsFresh | app/index.php:53-63 | With a coherent store, the listing reads return the current table and its current drink types, and the store stays coherent. |
| CacheCoherence.FetchGridIsFresh | app/index.php:117 | With a coherent store, the grid holds exactly the current rows that pass the active filters. |
| CacheCoherence.ResolveDetailIsFresh | app/index.php:121-126 | With a coherent store, the detail page shows the current row of the captured slug, and that row comes from the table. |
| CacheCoherence.DetailQueryAfterComment | app/index.php:124 | A new comment changes no other shop's detail row. |
| CacheCoherence.CommentsOfAppendSame | app/index.php:124 | The comment appended for a shop becomes the last of that shop's joined comments. |
| CacheCoherence.DetailQueryShowsNewComment | app/index.php:124 | After a comment on the shop a slug finds, the detail row of that slug is the same shop with the new comment last in its aggregate. |
| CacheCoherence.CommentShownAfterRedirect | app/index.php:295-317 | After an accepted comment, the request the browser is sent back to reads the detail afresh. Its row has the new comment last, and when names and bodies are clean the page shows it last. |
| CacheCoherence.ResolveAfterDelete | app/index.php:121-136 | When the store holds no entry for a slug, the detail route for that slug shows the row the table returns now, with its comments decoded. |
| CacheCoherence.SlugNeedsNoEscape | app/index.php:122 | A stored slug escapes to itself, so the comment handler deletes the key the detail route reads. |
| CacheCoherence.CommentKeepsCoherent | app/index.php:304-312 | Inserting a comment and deleting that shop's detail key keeps every cache entry current. |
| CacheCoherence.HandlersKeepCoherent | app/index.php:174-318 | When the writes clear the cache afterwards, every handler keeps the store coherent with the database. |
| CacheCoherence.RequestKeepsCacheCurrent | app/index.php:31-34 | Intended: every request keeps every cache entry equal to what its query would return now. |
| CacheCoherence.AdminCreateLeavesStaleList | app/index.php:32-34 | As written: after an admin's successful create, the cache holds the pre-insert list under `all_coffee_shops`, and the store is no longer coherent. |
| CacheCoherence.HomePageServesStoredList | app/index.php:53-55 | A guest's unfiltered home page shows whatever non-empty list is stored, whatever the table holds. |

## Left out

- The cache TTL and expiry. The script never observes time, so an entry lives until it is cleared or deleted.
- `md5(serialize($filters))` is an opaque function `env.filterHash`. The coherence result assumes it is injective.
- `password_hash`, `password_verify` and the admins table are an opaque `env.authenticate` that returns the admin's id or nothing. Sessions are reduced to that id.
- Uploads, `uniqid` and `move_uploaded_file` are not modelled. The request carries the stored file name, or nothing when no file was uploaded.
- The local-only admin bootstrap (lines 43-51) ends the request with `Halt`. Its insert into `admins` is not modelled.
- A failed database connection (lines 37-40) is not modelled.
- The HTML of every view is not modelled. Only which view is chosen, and the data it is given, are.
- `LIKE` collation and its `%`/`_` wildcards are not modelled: the drink clause is a plain substring test. Row order without `ORDER BY` is taken to be table order.
- The `GROUP_CONCAT` length limit is not modelled.
- App.EditLookup: the raw `id` pasted into `WHERE id = ...` is read only when it is a digit string. Any other text, which MySQL would parse as an SQL expression, finds no row.
- App.UpdateShop: the update binds every value as a string. The `id` of `WHERE id = ?`, `rating` and `food_available` go through the `(int)` cast, which approximates MySQL's string-to-number conversion.
- App.DeleteShop: the `"i"` binding of the id is modelled by the same `(int)` cast.
- PhpStrings.IntCast: exponents, hexadecimal forms and 64-bit saturation of PHP's `(int)` are not modelled.
- Comments.RoundTrip: besides keeping `:::` and `|||` out of the fields, it requires that no name ends in `:` and no body ends in `|`. Without that, the round trip fails: `Comments.NameEndingInColonIsMisread` is the counterexample.
- Shops.FindBySlug: the `WHERE slug = '...'` comparison of line 124 is byte for byte. Under MySQL's usual case-insensitive collation, `/shop/Joe` would also find the row whose slug is `joe`. The model finds no row for it.
- CacheCoherence.DetailQueryAfterComment: shops are told apart by their exact slug bytes. Under a case-insensitive collation, a comment also changes the row read under a capture in a different case, such as `Joe` for `joe`.
- CacheCoherence.CommentKeepsCoherent: the comment handler deletes only `shop_` + the stored slug. Under a case-insensitive collation, an entry stored under a capture in a different case would keep the pre-comment row and go stale. The byte-exact model finds no row for that capture, so the entry stays current.
- CacheCoherence.HandlersKeepCoherent: it rests on CommentKeepsCoherent for the comment handler, so the same case-insensitive collation gap applies.
- CacheCoherence.RequestKeepsCacheCurrent: it rests on the byte-exact slug match too. Under a case-insensitive collation, a comment leaves the entry of a different-case capture stale, even in the intended reading.
- App.CreatedShopIsFoundBySlug: it requires that no older row has the derived slug, because nothing keeps slugs unique. `App.OlderSlugShadowsCreatedShop` shows that the older row wins otherwise, for example for shops named `Joe's` and `Joe s`. It also requires that no stored comment points at the new id. MySQL never reuses an auto-increment id, but the model's tables do not record that history.
- CacheCoherence.RequestKeepsCacheCurrent: each request is one atomic step, and requests run one after another. The APCu store is shared by concurrent requests. A guest's request that computes the list before an admin's write, and stores it after that write and its clear, leaves a stale entry even in the intended reading. Concurrency is not modelled.
- CacheCoherence.HandlersKeepCoherent: it also assumes that no other request touches the store between the reads and the write.
- CacheCoherence.RequestKeepsCacheCurrent: holds for the intended reading, and for any request that is not an admin POST. For the script as written it fails, as `CacheCoherence.AdminCreateLeavesStaleList` shows.

## Findings

| source | as written | input that shows it | evidently intended | confidence | as-written member | corrected member |
|---|---|---|---|---|---|---|
| app/index.php:88 | The food clause compares the value with `'yes'`, and `!empty()` drops `"0"` at line 67. | `?food_available=1`, the form's "Yes", keeps only shops with `food_available = 0`. `?food_available=0` filters nothing. | `1` keeps shops with food and `0` keeps shops without, comparing the submitted value. | not executed | Listing.FoodFilterAsWritten | Listing.FoodFilterIntended |
| app/index.php:32-34 | The cache is cleared before the admin's write. Lines 53-57 then re-store the pre-write list and drink types, and the write happens after that. | An admin POST with `create_coffee_shop` and a complete form. Afterwards `orl_coffee_all_coffee_shops` holds the list without the new shop, and guests see that list until the entry expires or the next admin POST clears the cache. | Clear the cache after a successful create, update or delete, as the comment at line 31 says. | not executed | CacheCoherence.AdminCreateLeavesStaleList | CacheCoherence.RequestKeepsCacheCurrent |
