/**
  One run of the script for one HTTP request (app/index.php 28-318 and
  the view selection 359-632): the admin check, the cache clear on an
  admin POST, the cached listing reads, the redirects, the detail and
  edit lookups, the form handlers in source order and the choice of view.
  The database, the cache store and the session are the state that
  outlives the request.
 */
module App {
  import opened Wrappers
  import opened PhpStrings
  import opened Slug
  import opened Routes
  import opened Cache
  import opened Behaviour
  import opened Shops
  import opened Listing
  import opened Comments

  // ------------------------------------------------------------------ types

  /** `$_SERVER['REQUEST_METHOD']`, `REQUEST_URI`, `$_GET`, `$_POST`, and the name an upload was stored under. */
  datatype Request = Request(
    isPost: bool,
    uri: string,
    query: map<string, string>,
    form: map<string, string>,
    upload: Option<string>)

  /** A detail row: the shop's columns and its `comments` aggregate (`NULL` when it has none). */
  datatype DetailRow = DetailRow(shop: Shop, comments: Option<string>)

  /** The three shapes of value the script stores in the cache. */
  datatype CacheValue =
    | ShopList(shops: seq<Shop>)
    | Names(names: seq<string>)
    | Row(row: Option<DetailRow>)

  /** PHP truthiness: an empty array and `null` are falsy. */
  predicate Truthy(v: CacheValue) {
    match v
    case ShopList(s) => |s| > 0
    case Names(n) => |n| > 0
    case Row(r) => r.Some?
  }

  /** What outlives a request: the database, the cache store and the session's `admin_id`. */
  datatype State = State(db: Db, store: map<string, CacheValue>, admin: Option<nat>)

  /**
    What the model takes from outside: the filter cache key
    (`md5(serialize($filters))`) and the credential check of
    `authenticateAdmin`, which yields the admin's id.
   */
  datatype Env = Env(filterHash: Filters -> string, authenticate: (string, string) -> Option<nat>)

  /**
    `$shop_detail`: unset (`null`), the detail route's result (a row, or
    `['comments' => []]` when no shop has the slug) together with the
    decoded comments, or the edit page's row.
   */
  datatype Detail =
    | NoDetail
    | ShopPage(row: Option<DetailRow>, comments: seq<CommentFields>)
    | EditRow(shop: Shop)

  datatype View =
    | LoginView(loginError: bool)
    | AdminList(shops: seq<Shop>)
    | NewShopView
    | EditView(detail: Detail)
    | DetailView(detail: Detail, commentError: bool)
    | GridView(shops: seq<Shop>, filters: Filters, drinkTypes: seq<string>)

  /** A `Location:` redirect, the empty page left by a top-level `return`, the `die` of the bootstrap, or a page. */
  datatype Response = Redirect(location: string) | Blank | Halt | Page(view: View)

  datatype Outcome = Outcome(state: State, response: Response)

  // ------------------------------------------------------------- constants

  const AllShopsKey: string := "all_coffee_shops"
  const DrinkTypesKey: string := "unique_drink_types"
  const EditPath: string := "/admin/edit-coffee-shop"
  const RequiredFields: seq<string> := ["name", "location", "rating", "hours_open", "drink_types"]

  function FilteredKey(hash: string): string {
    "filtered_shops_" + hash
  }

  function DetailKey(slug: string): string {
    "shop_" + slug
  }

  // --------------------------------------------------------------- helpers

  /** Line 29: `admin_id` is set and truthy. */
  predicate IsAdmin(admin: Option<nat>) {
    admin.Some? && admin.value != 0
  }

  /** `$_POST[k] ?? ''`. */
  function FormValue(form: map<string, string>, k: string): string {
    if k in form then form[k] else ""
  }

  /** Lines 43: the bootstrap parameter `init=true`. */
  predicate InitRequested(q: map<string, string>) {
    "init" in q && q["init"] == "true"
  }

  /** A stored value read as a shop list; the script only ever stores lists under the list keys. */
  function ShopsOf(v: CacheValue): seq<Shop> {
    if v.ShopList? then v.shops else []
  }

  function NamesOf(v: CacheValue): seq<string> {
    if v.Names? then v.names else []
  }

  function RowOf(v: CacheValue): Option<DetailRow> {
    if v.Row? then v.row else None
  }

  /** The shop `$shop_detail` holds, if any: what `$shop_detail['id']` and `['slug']` read. */
  function DetailShop(d: Detail): Option<Shop> {
    match d
    case NoDetail => None
    case ShopPage(row, _) => if row.Some? then Some(row.value.shop) else None
    case EditRow(s) => Some(s)
  }

  // ----------------------------------------------------------------- reads

  /**
    The detail query of line 124 for the captured slug: the first shop
    with that slug and its comments' aggregate, or no row. The slug is
    escaped into the SQL literal, which the server reads back unescaped.
   */
  function DetailQuery(db: Db, slug: string): Option<DetailRow> {
    match FindBySlug(db.shops, slug)
    case None => None
    case Some(s) => Some(DetailRow(s, Aggregate(CommentsOf(db.comments, s.id))))
  }

  datatype Loaded = Loaded(shops: seq<Shop>, drinkTypes: seq<string>, store: map<string, CacheValue>)

  /** Lines 53-63: the full list and the drink types, each through the cache; the second is computed from the first. */
  function LoadListing(db: Db, store: map<string, CacheValue>): Loaded {
    var all := Get(store, AllShopsKey, Truthy, () => ShopList(db.shops));
    var shops := ShopsOf(all.value);
    var drinks := Get(all.store, DrinkTypesKey, Truthy, () => Names(UniqueDrinkTypes(shops)));
    Loaded(shops, NamesOf(drinks.value), drinks.store)
  }

  datatype Grid = Grid(shops: seq<Shop>, store: map<string, CacheValue>)

  /** Line 117: the filtered query through the cache when a filter counts, else the full list. */
  function FetchGrid(env: Env, v: Variant, db: Db, store: map<string, CacheValue>, all: seq<Shop>, f: Filters): Grid {
    if AnyActive(f, v) then
      var r := Get(store, FilteredKey(env.filterHash(f)), Truthy, () => ShopList(FilterShops(db.shops, f, v)));
      Grid(ShopsOf(r.value), r.store)
    else Grid(all, store)
  }

  datatype Resolved = Resolved(detail: Detail, store: map<string, CacheValue>)

  /**
    Lines 120-136: on a `/shop/<slug>` URI the row is fetched through the
    cache under `shop_` + the escaped capture, and its aggregate decoded.
   */
  function ResolveDetail(db: Db, store: map<string, CacheValue>, uri: string): Resolved {
    match DetailSlug(uri)
    case None => Resolved(NoDetail, store)
    case Some(captured) =>
      var r := Get(store, DetailKey(SqlEscape(captured)), Truthy, () => Row(DetailQuery(db, captured)));
      var row := RowOf(r.value);
      Resolved(ShopPage(row, Decode(if row.Some? then row.value.comments else None)), r.store)
  }

  /**
    Lines 140-150: the edit page's row. An empty `id` finds nothing; the
    raw `id` is pasted into `WHERE id = ...`, and only a digit string is
    read here as a number.
   */
  function EditLookup(shops: seq<Shop>, q: map<string, string>): (r: Option<Shop>)
    ensures r.Some? ==> "id" in q && AllDigits(q["id"]) && r.value in shops && r.value.id == IntCast(q["id"])
    ensures r.None? <==>
      || "id" !in q || Empty(q["id"]) || !AllDigits(q["id"])
      || forall i :: 0 <= i < |shops| ==> shops[i].id != IntCast(q["id"])
  {
    if "id" !in q || Empty(q["id"]) || !AllDigits(q["id"]) then None
    else
      var raw := q["id"];
      LeadingDigitsOfDecimal(raw);
      assert SkipNumericSpace(raw) == raw by {
        if |raw| > 0 {
          assert IsDigit(raw[0]);
        }
      }
      FindById(shops, IntCast(raw))
  }

  // --------------------------------------------------------------- handlers

  /** Lines 204 and 240: every required field is present and not PHP-empty. */
  predicate Complete(form: map<string, string>) {
    forall i :: 0 <= i < |RequiredFields| ==> !Empty(FormValue(form, RequiredFields[i]))
  }

  /**
    The columns a create or update writes. `rating` and `food_available`
    land in integer columns; a missing `food_available` is `0`.
   */
  function FieldsOf(form: map<string, string>): ShopFields {
    ShopFields(
      FormValue(form, "name"),
      FormValue(form, "location"),
      IntCast(FormValue(form, "rating")),
      FormValue(form, "hours_open"),
      FormValue(form, "drink_types"),
      if "food_available" in form then IntCast(form["food_available"]) else 0)
  }

  /**
    The columns a create or an update stores from the form: the text
    fields as submitted, `rating` and `food_available` through PHP's
    integer conversion (a missing `food_available` is `0`), and the slug
    derived from the name.
   */
  predicate WritesForm(row: Shop, form: map<string, string>) {
    && row.name == FormValue(form, "name")
    && row.location == FormValue(form, "location")
    && row.rating == IntCast(FormValue(form, "rating"))
    && row.hoursOpen == FormValue(form, "hours_open")
    && row.drinkTypes == FormValue(form, "drink_types")
    && row.food == (if "food_available" in form then IntCast(form["food_available"]) else 0)
    && row.slug == Slugify(FormValue(form, "name"))
  }

  /** The store after a successful admin write: as written untouched, intended cleared. */
  function AfterWrite(v: Variant, store: map<string, CacheValue>): map<string, CacheValue> {
    if v == Intended then Clear(store) else store
  }

  /**
    Lines 195-227: with an incomplete form nothing is written and the
    response is blank; otherwise a row with the derived slug is inserted
    and the admin is sent to `/admin`.
   */
  function CreateShop(v: Variant, st: State, req: Request): (o: Outcome)
    ensures !Complete(req.form) <==> o == Outcome(st, Blank)
    ensures Complete(req.form) ==>
      && o.response == Redirect("/admin")
      && o.state.admin == st.admin
      && o.state.db.comments == st.db.comments
      && o.state.db.nextShopId == st.db.nextShopId + 1
      && o.state.db.nextCommentId == st.db.nextCommentId
      && |o.state.db.shops| == |st.db.shops| + 1
      && o.state.db.shops[..|st.db.shops|] == st.db.shops
      && var row := o.state.db.shops[|st.db.shops|];
         && row.id == st.db.nextShopId && row.image == req.upload
         && WritesForm(row, req.form) && IsSlug(row.slug)
  {
    if !Complete(req.form) then Outcome(st, Blank)
    else
      assert !Empty(FormValue(req.form, RequiredFields[0]));
      var name := req.form["name"];
      var db := InsertShop(st.db, FieldsOf(req.form), Slugify(name), req.upload);
      assert db.shops[..|st.db.shops|] == st.db.shops;
      Outcome(State(db, AfterWrite(v, st.store), st.admin), Redirect("/admin"))
  }

  /**
    Lines 230-273: with an incomplete form nothing is written and the
    response is blank; otherwise every row whose id equals the query's
    `id` takes the form's fields and the derived slug, and keeps its image
    unless a new one was uploaded.
   */
  function UpdateShop(v: Variant, st: State, req: Request): (o: Outcome)
    ensures !Complete(req.form) <==> o == Outcome(st, Blank)
    ensures Complete(req.form) ==>
      && o.response == Redirect("/admin")
      && o.state.admin == st.admin
      && o.state.db.comments == st.db.comments
      && o.state.db.nextShopId == st.db.nextShopId
      && o.state.db.nextCommentId == st.db.nextCommentId
      && |o.state.db.shops| == |st.db.shops|
      && forall i :: 0 <= i < |st.db.shops| ==>
           var before, after := st.db.shops[i], o.state.db.shops[i];
           && after.id == before.id
           && (before.id != IntCast(FormValue(req.query, "id")) ==> after == before)
           && (before.id == IntCast(FormValue(req.query, "id")) ==>
                 WritesForm(after, req.form) && IsSlug(after.slug)
                 && after.image == (if req.upload.Some? then req.upload else before.image))
  {
    if !Complete(req.form) then Outcome(st, Blank)
    else
      assert !Empty(FormValue(req.form, RequiredFields[0]));
      var name := req.form["name"];
      var shops := UpdateShops(st.db.shops, IntCast(FormValue(req.query, "id")), FieldsOf(req.form), Slugify(name), req.upload);
      Outcome(State(st.db.(shops := shops), AfterWrite(v, st.store), st.admin), Redirect("/admin"))
  }

  /** `$_GET['id'] ?? null` is falsy. */
  predicate FalsyId(q: map<string, string>) {
    "id" !in q || Empty(q["id"])
  }

  /** Lines 276-292: a falsy id only redirects; otherwise the rows with that id go. */
  function DeleteShop(v: Variant, st: State, req: Request): (o: Outcome)
    ensures o.response == Redirect("/admin") && o.state.admin == st.admin && o.state.db.comments == st.db.comments
    ensures o.state.db.nextShopId == st.db.nextShopId && o.state.db.nextCommentId == st.db.nextCommentId
    ensures FalsyId(req.query) ==> o.state == st
    ensures !FalsyId(req.query) ==>
      forall s :: s in o.state.db.shops <==> s in st.db.shops && s.id != IntCast(req.query["id"])
  {
    if FalsyId(req.query) then Outcome(st, Redirect("/admin"))
    else
      var shops := DeleteShops(st.db.shops, IntCast(req.query["id"]));
      Outcome(State(st.db.(shops := shops), AfterWrite(v, st.store), st.admin), Redirect("/admin"))
  }

  /** Line 300: the comment is accepted when there is a shop with a truthy id and both fields are not PHP-empty. */
  predicate CommentAccepted(d: Detail, form: map<string, string>) {
    DetailShop(d).Some? && DetailShop(d).value.id != 0
    && !Empty(FormValue(form, "name")) && !Empty(FormValue(form, "body"))
  }

  /**
    Lines 304-316: the comment is inserted for the shop of the page, only
    that shop's detail entry leaves the cache, and the browser is sent
    back to the same URI.
   */
  function PostComment(st: State, d: Detail, req: Request): (o: Outcome)
    requires CommentAccepted(d, req.form)
    ensures o.response == Redirect(req.uri)
    ensures o.state.db.shops == st.db.shops && o.state.db.nextShopId == st.db.nextShopId && o.state.admin == st.admin
    ensures var s := DetailShop(d).value;
      && o.state.db.comments == st.db.comments + [Comment(st.db.nextCommentId, s.id, req.form["name"], req.form["body"])]
      && StoreKey(DetailKey(s.slug)) !in o.state.store
      && forall k :: k != StoreKey(DetailKey(s.slug)) ==>
           (k in o.state.store <==> k in st.store) && (k in st.store ==> o.state.store[k] == st.store[k])
  {
    var s := DetailShop(d).value;
    var db := InsertComment(st.db, s.id, FormValue(req.form, "name"), FormValue(req.form, "body"));
    Outcome(State(db, Delete(st.store, DetailKey(s.slug)), st.admin), Redirect(req.uri))
  }

  // ------------------------------------------------------------------ views

  /** The URIs of the admin pages, which the view tests before the detail page. */
  predicate AdminRoute(admin: bool, uri: string) {
    admin && (uri == "/admin" || uri == "/admin/new-coffee-shop" || Contains(uri, EditPath))
  }

  /** The pages only an admin may see: the list, the create form and the edit form. */
  predicate AdminView(view: View) {
    view.AdminList? || view.NewShopView? || view.EditView?
  }

  /**
    Lines 359-632: the first branch whose condition holds. Only a guest on
    exactly `/login` sees the login form, only an admin sees the admin
    pages, the detail page needs a resolved detail on a `/shop/` URI, and
    every other request gets the grid.
   */
  function SelectView(admin: bool, uri: string, db: Db, detail: Detail, loginError: bool, commentError: bool,
                      grid: seq<Shop>, f: Filters, drinks: seq<string>): (r: View)
    ensures r.LoginView? <==> !admin && uri == "/login"
    ensures AdminView(r) ==> admin
    ensures r.AdminList? ==> uri == "/admin" && r.shops == db.shops
    ensures r.EditView? ==> Contains(uri, EditPath) && r.detail == detail
    ensures r.DetailView? ==> detail != NoDetail && Contains(uri, ShopPrefix) && r == DetailView(detail, commentError)
    ensures r.GridView? ==> r == GridView(grid, f, drinks)
    ensures !admin && uri == "/login" ==> r == LoginView(loginError)
    ensures admin && uri == "/admin" ==> r == AdminList(db.shops)
    ensures admin && uri == "/admin/new-coffee-shop" ==> r == NewShopView
    ensures admin && Contains(uri, EditPath) ==> r == EditView(detail)
    ensures !(!admin && uri == "/login") && !AdminRoute(admin, uri) && detail != NoDetail && Contains(uri, ShopPrefix)
      ==> r == DetailView(detail, commentError)
    ensures r.GridView? <==>
      !(!admin && uri == "/login") && !AdminRoute(admin, uri) && !(detail != NoDetail && Contains(uri, ShopPrefix))
  {
    assert Contains(uri, EditPath) ==> uri != "/admin" && uri != "/admin/new-coffee-shop" by {
      if Contains(uri, EditPath) {
        ContainsLength(uri, EditPath);
      }
    }
    if !admin && uri == "/login" then LoginView(loginError)
    else if admin && uri == "/admin" then AdminList(db.shops)
    else if admin && uri == "/admin/new-coffee-shop" then NewShopView
    else if admin && Contains(uri, EditPath) then EditView(detail)
    else if detail != NoDetail && Contains(uri, ShopPrefix) then DetailView(detail, commentError)
    else GridView(grid, f, drinks)
  }

  /** What the handlers and the view see once the reads are done. */
  datatype Context = Context(
    st: State,
    detail: Detail,
    grid: seq<Shop>,
    filters: Filters,
    drinks: seq<string>)

  /**
    Lines 174-318, then the view: the handlers in source order; the first
    that ends the request wins. A GET writes nothing and gets a page; the
    session changes only by a login or a logout; comments are only ever
    appended; a page leaves the state as it was.
   */
  function Handlers(env: Env, v: Variant, c: Context, req: Request): (o: Outcome)
    ensures !req.isPost ==> o == Outcome(c.st, o.response) && o.response.Page?
    ensures o.state.admin != c.st.admin ==> req.isPost && ("login" in req.form || "logout" in req.form)
    ensures c.st.db.comments <= o.state.db.comments
    ensures o.response.Page? ==> o.state == c.st && (AdminView(o.response.view) ==> IsAdmin(c.st.admin))
    ensures !IsAdmin(c.st.admin) ==> o.state.db.shops == c.st.db.shops && o.state.db.nextShopId == c.st.db.nextShopId
  {
    var st := c.st;
    var admin := IsAdmin(st.admin);
    var loginTried := req.isPost && "login" in req.form;
    var auth := env.authenticate(FormValue(req.form, "email"), FormValue(req.form, "password"));
    if loginTried && auth.Some? then Outcome(st.(admin := auth), Redirect("/admin"))
    else if admin && req.isPost && "logout" in req.form then Outcome(st.(admin := None), Redirect("/"))
    else if admin && req.isPost && "create_coffee_shop" in req.form then CreateShop(v, st, req)
    else if admin && req.isPost && "update_coffee_shop" in req.form then UpdateShop(v, st, req)
    else if admin && req.isPost && "delete_coffee_shop" in req.form then DeleteShop(v, st, req)
    else
      var commentTried := req.isPost && "comment_submitted" in req.form;
      if commentTried && CommentAccepted(c.detail, req.form) then PostComment(st, c.detail, req)
      else
        var view := SelectView(admin, req.uri, st.db, c.detail, loginTried, commentTried,
                               c.grid, c.filters, c.drinks);
        Outcome(st, Page(view))
  }

  /**
    Lines 139-318 and the view: on an admin's edit URI the edit lookup
    replaces the detail (or sends the admin back to `/admin`), then the
    handlers run.
   */
  function Dispatch(env: Env, v: Variant, st: State, req: Request, detail: Detail, grid: seq<Shop>, f: Filters, drinks: seq<string>): (o: Outcome)
    ensures !req.isPost ==> o.state == st
    ensures o.state.admin != st.admin ==> req.isPost && ("login" in req.form || "logout" in req.form)
    ensures st.db.comments <= o.state.db.comments
    ensures o.response.Page? ==> o.state == st && (AdminView(o.response.view) ==> IsAdmin(st.admin))
    ensures !IsAdmin(st.admin) ==> o.state.db.shops == st.db.shops && o.state.db.nextShopId == st.db.nextShopId
  {
    if IsAdmin(st.admin) && Contains(req.uri, EditPath) then
      match EditLookup(st.db.shops, req.query)
      case None => Outcome(st, Redirect("/admin"))
      case Some(s) => Handlers(env, v, Context(st, EditRow(s), grid, f, drinks), req)
    else Handlers(env, v, Context(st, detail, grid, f, drinks), req)
  }

  /** Lines 117-318 and the view, once both redirects have passed: the grid and detail reads, then `Dispatch`. */
  function Serve(env: Env, v: Variant, st: State, req: Request, listing: Loaded, f: Filters): (o: Outcome)
    ensures !req.isPost ==> o.state.db == st.db && o.state.admin == st.admin
    ensures o.state.admin != st.admin ==> req.isPost && ("login" in req.form || "logout" in req.form)
    ensures st.db.comments <= o.state.db.comments
    ensures o.response.Page? ==> o.state.db == st.db && o.state.admin == st.admin
    ensures o.response.Page? && AdminView(o.response.view) ==> IsAdmin(st.admin)
    ensures !IsAdmin(st.admin) ==> o.state.db.shops == st.db.shops && o.state.db.nextShopId == st.db.nextShopId
  {
    var grid := FetchGrid(env, v, st.db, listing.store, listing.shops, f);
    var resolved := ResolveDetail(st.db, grid.store, req.uri);
    Dispatch(env, v, st.(store := resolved.store), req, resolved.detail, grid.shops, f, listing.drinkTypes)
  }

  /**
    The whole script for one request. The bootstrap halts without
    touching the tables or the session; a GET never writes the tables or
    the session; the session changes only by a login or a logout; comments
    are only ever appended; a request answered with a page wrote nothing.
   */
  function Handle(env: Env, v: Variant, st: State, req: Request): (r: Outcome)
    ensures InitRequested(req.query) ==> r.response == Halt && r.state.db == st.db && r.state.admin == st.admin
    ensures !req.isPost ==> r.state.db == st.db && r.state.admin == st.admin
    ensures r.state.admin != st.admin ==> req.isPost && ("login" in req.form || "logout" in req.form)
    ensures st.db.comments <= r.state.db.comments
    ensures r.response.Page? ==> r.state.db == st.db && r.state.admin == st.admin
    ensures r.response.Page? && AdminView(r.response.view) ==> IsAdmin(st.admin)
    ensures !IsAdmin(st.admin) ==> r.state.db.shops == st.db.shops && r.state.db.nextShopId == st.db.nextShopId
  {
    var admin := IsAdmin(st.admin);
    var store := if admin && req.isPost then Clear(st.store) else st.store;
    if InitRequested(req.query) then Outcome(st.(store := store), Halt)
    else
      var listing := LoadListing(st.db, store);
      var f := ExtractFilters(req.query, v);
      match Redirection(admin, req.uri)
      case Some(location) => Outcome(st.(store := listing.store), Redirect(location))
      case None => Serve(env, v, st, req, listing, f)
  }

  // ------------------------------------------------------ dispatch lemmas

  /** An admin asking for exactly `/login` is sent to `/admin` before any handler runs. */
  lemma AdminOnLoginGoesToAdmin(env: Env, v: Variant, st: State, req: Request)
    requires IsAdmin(st.admin) && req.uri == "/login" && !InitRequested(req.query)
    ensures Handle(env, v, st, req).response == Redirect("/admin")
    ensures Handle(env, v, st, req).state.db == st.db
  {
  }

  /** Anyone else asking for exactly `/admin` is sent to `/login`, whatever the form holds. */
  lemma GuestOnAdminGoesToLogin(env: Env, v: Variant, st: State, req: Request)
    requires !IsAdmin(st.admin) && req.uri == "/admin" && !InitRequested(req.query)
    ensures Handle(env, v, st, req) == Outcome(st.(store := LoadListing(st.db, st.store).store), Redirect("/login"))
  {
  }

  /** The edit page's URI never equals `/login`, so its lookup always runs. */
  lemma EditUriIsNotLogin(uri: string)
    requires Contains(uri, EditPath)
    ensures uri != "/login" && uri != "/admin"
  {
    ContainsLength(uri, EditPath);
  }

  /**
    An admin on an edit URI whose `id` is missing, empty or matches no
    shop is sent to `/admin` before any handler, so nothing is written.
   */
  lemma EditWithoutShopGoesToAdmin(env: Env, v: Variant, st: State, req: Request)
    requires IsAdmin(st.admin) && Contains(req.uri, EditPath) && !InitRequested(req.query)
    requires "id" !in req.query || Empty(req.query["id"]) || forall i :: 0 <= i < |st.db.shops| ==> st.db.shops[i].id != IntCast(req.query["id"])
    ensures Handle(env, v, st, req).response == Redirect("/admin")
    ensures Handle(env, v, st, req).state.db == st.db
  {
    EditUriIsNotLogin(req.uri);
  }

  /**
    A guest never reaches an admin page: the admin views require the
    admin check, and `/admin` itself redirects.
   */
  lemma GuestSeesNoAdminView(env: Env, v: Variant, st: State, req: Request)
    requires !IsAdmin(st.admin)
    ensures var r := Handle(env, v, st, req).response;
      r.Page? ==> !AdminView(r.view)
  {
  }

  /** An admin's GET of exactly `/admin` shows the whole table, and nothing is written. */
  lemma AdminSeesList(env: Env, v: Variant, st: State, req: Request)
    requires IsAdmin(st.admin) && !req.isPost && req.uri == "/admin" && !InitRequested(req.query)
    ensures Handle(env, v, st, req).response == Page(AdminList(st.db.shops))
    ensures Handle(env, v, st, req).state.db == st.db
  {
  }

  /**
    Lines 188-292 run in source order and the first match ends the
    request: an admin POST that carries `logout` logs out and writes
    nothing, whatever create, update or delete fields come with it; one
    that carries `create_coffee_shop` creates, whatever update or delete
    fields come with it.
   */
  lemma AdminPostRunsFirstMatchingHandler(env: Env, v: Variant, c: Context, req: Request)
    requires IsAdmin(c.st.admin) && req.isPost
    requires !("login" in req.form && env.authenticate(FormValue(req.form, "email"), FormValue(req.form, "password")).Some?)
    ensures "logout" in req.form ==>
      Handlers(env, v, c, req) == Outcome(c.st.(admin := None), Redirect("/"))
    ensures "logout" !in req.form && "create_coffee_shop" in req.form ==>
      Handlers(env, v, c, req) == CreateShop(v, c.st, req)
    ensures "logout" !in req.form && "create_coffee_shop" !in req.form && "update_coffee_shop" in req.form ==>
      Handlers(env, v, c, req) == UpdateShop(v, c.st, req)
  {
  }

  /** A guest's request never changes the shops: only a comment can be written. */
  lemma GuestLeavesShopsAlone(env: Env, v: Variant, st: State, req: Request)
    requires !IsAdmin(st.admin)
    ensures Handle(env, v, st, req).state.db.shops == st.db.shops
    ensures Handle(env, v, st, req).state.db.nextShopId == st.db.nextShopId
  {
  }

  /** Every other URI, `/admin/...` included, passes both redirects. */
  lemma OnlyExactUrisRedirect(env: Env, v: Variant, st: State, req: Request)
    requires req.uri != "/login" && req.uri != "/admin" && !InitRequested(req.query)
    requires !IsAdmin(st.admin) && !req.isPost
    ensures Handle(env, v, st, req).response.Page?
  {
  }

  /**
    An admin's create with a PHP-empty required field gets a blank page
    and writes nothing, provided no earlier handler ended the request.
   */
  lemma IncompleteCreateWritesNothing(env: Env, v: Variant, st: State, req: Request)
    requires IsAdmin(st.admin) && req.isPost && !InitRequested(req.query)
    requires req.uri != "/login" && !Contains(req.uri, EditPath)
    requires "login" !in req.form && "logout" !in req.form && "create_coffee_shop" in req.form
    requires !Complete(req.form)
    ensures Handle(env, v, st, req).response == Blank
    ensures Handle(env, v, st, req).state.db == st.db
  {
  }

  /** A successful login stores the admin's id and goes to `/admin`, whatever else the form holds. */
  lemma LoginComesFirst(env: Env, v: Variant, st: State, req: Request)
    requires req.isPost && "login" in req.form && !InitRequested(req.query)
    requires env.authenticate(FormValue(req.form, "email"), FormValue(req.form, "password")).Some?
    requires Redirection(IsAdmin(st.admin), req.uri).None?
    requires IsAdmin(st.admin) ==> !Contains(req.uri, EditPath)
    ensures Handle(env, v, st, req).response == Redirect("/admin")
    ensures Handle(env, v, st, req).state.admin == env.authenticate(FormValue(req.form, "email"), FormValue(req.form, "password"))
    ensures Handle(env, v, st, req).state.db == st.db
  {
  }

  /**
    Lines 295-317: once no earlier handler has ended the request, a
    submitted comment is either stored, with a redirect to the same URI,
    or rejected, leaving database and cache as they were and showing the
    error on the shop's page.
   */
  lemma CommentStoredOrRejected(env: Env, v: Variant, c: Context, req: Request)
    requires req.isPost && "comment_submitted" in req.form
    requires !("login" in req.form && env.authenticate(FormValue(req.form, "email"), FormValue(req.form, "password")).Some?)
    requires !IsAdmin(c.st.admin) || (&& "logout" !in req.form && "create_coffee_shop" !in req.form
                                      && "update_coffee_shop" !in req.form && "delete_coffee_shop" !in req.form)
    ensures var o := Handlers(env, v, c, req);
      && (CommentAccepted(c.detail, req.form) ==>
            && o.response == Redirect(req.uri)
            && |o.state.db.comments| == |c.st.db.comments| + 1
            && o.state.db.comments[..|c.st.db.comments|] == c.st.db.comments)
      && (!CommentAccepted(c.detail, req.form) ==> o.state == c.st && o.response.Page?)
      && (!CommentAccepted(c.detail, req.form) && !IsAdmin(c.st.admin) && req.uri != "/login"
          && c.detail != NoDetail && Contains(req.uri, ShopPrefix) ==>
            o.response == Page(DetailView(c.detail, true)))
  {
    if CommentAccepted(c.detail, req.form) {
      var o := Handlers(env, v, c, req);
      assert o.state.db.comments[..|c.st.db.comments|] == c.st.db.comments;
    }
  }

  // ------------------------------------------------------ database invariant

  lemma CreateKeepsDbInvariant(v: Variant, st: State, req: Request)
    requires DbInvariant(st.db)
    ensures DbInvariant(CreateShop(v, st, req).state.db)
  {
    if Complete(req.form) {
      assert !Empty(FormValue(req.form, RequiredFields[0]));
      InsertShopKeepsInvariant(st.db, FieldsOf(req.form), req.upload);
    }
  }

  lemma UpdateKeepsDbInvariant(v: Variant, st: State, req: Request)
    requires DbInvariant(st.db)
    ensures DbInvariant(UpdateShop(v, st, req).state.db)
  {
    if Complete(req.form) {
      assert !Empty(FormValue(req.form, RequiredFields[0]));
      UpdateShopsKeepsInvariant(st.db, IntCast(FormValue(req.query, "id")), FieldsOf(req.form), req.upload);
    }
  }

  lemma DeleteKeepsDbInvariant(v: Variant, st: State, req: Request)
    requires DbInvariant(st.db)
    ensures DbInvariant(DeleteShop(v, st, req).state.db)
  {
    if !FalsyId(req.query) {
      DeleteShopsKeepsInvariant(st.db, IntCast(req.query["id"]));
    }
  }

  lemma HandlersKeepDbInvariant(env: Env, v: Variant, c: Context, req: Request)
    requires DbInvariant(c.st.db)
    ensures DbInvariant(Handlers(env, v, c, req).state.db)
  {
    var st := c.st;
    var admin := IsAdmin(st.admin);
    var auth := env.authenticate(FormValue(req.form, "email"), FormValue(req.form, "password"));
    if req.isPost && "login" in req.form && auth.Some? {
    } else if admin && req.isPost && "logout" in req.form {
    } else if admin && req.isPost && "create_coffee_shop" in req.form {
      CreateKeepsDbInvariant(v, st, req);
    } else if admin && req.isPost && "update_coffee_shop" in req.form {
      UpdateKeepsDbInvariant(v, st, req);
    } else if admin && req.isPost && "delete_coffee_shop" in req.form {
      DeleteKeepsDbInvariant(v, st, req);
    } else {
      assert Handlers(env, v, c, req).state.db.shops == st.db.shops;
      assert Handlers(env, v, c, req).state.db.nextShopId == st.db.nextShopId;
    }
  }

  lemma DispatchKeepsDbInvariant(env: Env, v: Variant, st: State, req: Request, detail: Detail, grid: seq<Shop>, f: Filters, drinks: seq<string>)
    requires DbInvariant(st.db)
    ensures DbInvariant(Dispatch(env, v, st, req, detail, grid, f, drinks).state.db)
  {
    if IsAdmin(st.admin) && Contains(req.uri, EditPath) {
      var found := EditLookup(st.db.shops, req.query);
      if found.Some? {
        HandlersKeepDbInvariant(env, v, Context(st, EditRow(found.value), grid, f, drinks), req);
      }
    } else {
      HandlersKeepDbInvariant(env, v, Context(st, detail, grid, f, drinks), req);
    }
  }

  /** Every request keeps ids unique, below the counter, and every slug well formed. */
  lemma HandleKeepsDbInvariant(env: Env, v: Variant, st: State, req: Request)
    requires DbInvariant(st.db)
    ensures DbInvariant(Handle(env, v, st, req).state.db)
  {
    var admin := IsAdmin(st.admin);
    var store := if admin && req.isPost then Clear(st.store) else st.store;
    if !InitRequested(req.query) && Redirection(admin, req.uri).None? {
      var listing := LoadListing(st.db, store);
      var f := ExtractFilters(req.query, v);
      var grid := FetchGrid(env, v, st.db, listing.store, listing.shops, f);
      var resolved := ResolveDetail(st.db, grid.store, req.uri);
      DispatchKeepsDbInvariant(env, v, st.(store := resolved.store), req, resolved.detail, grid.shops, f, listing.drinkTypes);
    }
  }

  // ---------------------------------------------------- create, then fetch

  /**
    A created shop is what its detail page shows: when no older row has
    the derived slug and no stored comment points at the new id, the detail
    query for that slug returns the new row with every column the form
    gave and no comments.
   */
  lemma CreatedShopIsFoundBySlug(v: Variant, st: State, req: Request)
    requires Complete(req.form)
    requires forall i :: 0 <= i < |st.db.shops| ==> st.db.shops[i].slug != Slugify(FormValue(req.form, "name"))
    requires forall i :: 0 <= i < |st.db.comments| ==> st.db.comments[i].shopId != st.db.nextShopId
    ensures var found := DetailQuery(CreateShop(v, st, req).state.db, Slugify(FormValue(req.form, "name")));
      && found.Some?
      && found.value.shop.id == st.db.nextShopId
      && found.value.shop.image == req.upload
      && WritesForm(found.value.shop, req.form)
      && found.value.comments.None?
      && Decode(found.value.comments) == []
  {
    var slug := Slugify(FormValue(req.form, "name"));
    assert !Empty(FormValue(req.form, RequiredFields[0]));
    assert CreateShop(v, st, req).state.db == InsertShop(st.db, FieldsOf(req.form), slug, req.upload);
    InsertedRowIsFound(st.db, FieldsOf(req.form), slug, req.upload);
  }

  /**
    Slugs are not unique: when an older row already has the derived slug,
    the detail query keeps returning that older row and the new shop has
    no reachable detail page.
   */
  lemma OlderSlugShadowsCreatedShop(v: Variant, st: State, req: Request, k: int)
    requires Complete(req.form) && DbInvariant(st.db)
    requires 0 <= k < |st.db.shops| && st.db.shops[k].slug == Slugify(FormValue(req.form, "name"))
    ensures var found := DetailQuery(CreateShop(v, st, req).state.db, Slugify(FormValue(req.form, "name")));
      && found.Some?
      && found.value.shop in st.db.shops
      && found.value.shop.id != st.db.nextShopId
  {
    var slug := Slugify(FormValue(req.form, "name"));
    assert !Empty(FormValue(req.form, RequiredFields[0]));
    assert CreateShop(v, st, req).state.db == InsertShop(st.db, FieldsOf(req.form), slug, req.upload);
    InsertedRowIsShadowed(st.db, FieldsOf(req.form), slug, req.upload, k);
  }
}
