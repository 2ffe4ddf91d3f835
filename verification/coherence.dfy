/**
  Whether the cache still agrees with the database. An entry is current
  when it holds what its producer would compute from the database now.
  Guests' requests keep every entry current, and so does every admin
  request once a write also clears the store. As written, an admin write
  leaves behind the list read before the write (app/index.php 33 clears,
  53-63 re-read, 195-292 write).
 */
module CacheCoherence {
  import opened Wrappers
  import opened PhpStrings
  import opened Slug
  import opened Routes
  import opened Cache
  import opened Behaviour
  import opened Shops
  import opened Listing
  import opened Comments
  import opened App

  /** Distinct filter arrays get distinct cache keys (`md5(serialize(...))` is taken to be collision-free). */
  ghost predicate HashInjective(env: Env) {
    forall f, g :: env.filterHash(f) == env.filterHash(g) ==> f == g
  }

  /** `val` is what the script would store under `key` if it ran the producer now. */
  ghost predicate Current(env: Env, v: Variant, db: Db, key: string, val: CacheValue) {
    && (key == StoreKey(AllShopsKey) ==> val == ShopList(db.shops))
    && (key == StoreKey(DrinkTypesKey) ==> val == Names(UniqueDrinkTypes(db.shops)))
    && (forall f :: key == StoreKey(FilteredKey(env.filterHash(f))) ==> val == ShopList(FilterShops(db.shops, f, v)))
    && (forall c :: key == StoreKey(DetailKey(SqlEscape(c))) ==> val == Row(DetailQuery(db, c)))
  }

  /** Every entry of the store is current. */
  ghost predicate Coherent(env: Env, v: Variant, store: map<string, CacheValue>, db: Db) {
    forall key :: key in store ==> Current(env, v, db, key, store[key])
  }

  // ------------------------------------------------------------ cache keys

  lemma StoreKeyHead(k: string)
    requires |k| > 0
    ensures StoreKey(k)[|Prefix|] == k[0]
  {
  }

  lemma StoreKeyInjective(a: string, b: string)
    requires StoreKey(a) == StoreKey(b)
    ensures a == b
  {
    assert a == StoreKey(a)[|Prefix|..];
    assert b == StoreKey(b)[|Prefix|..];
  }

  /** The four key families start with different letters after the prefix, so they never meet. */
  lemma KeyFamiliesDiffer(h: string, c: string)
    ensures StoreKey(AllShopsKey) != StoreKey(DrinkTypesKey)
    ensures StoreKey(AllShopsKey) != StoreKey(FilteredKey(h))
    ensures StoreKey(AllShopsKey) != StoreKey(DetailKey(c))
    ensures StoreKey(DrinkTypesKey) != StoreKey(FilteredKey(h))
    ensures StoreKey(DrinkTypesKey) != StoreKey(DetailKey(c))
    ensures StoreKey(FilteredKey(h)) != StoreKey(DetailKey(c))
  {
    StoreKeyHead(AllShopsKey);
    StoreKeyHead(DrinkTypesKey);
    StoreKeyHead(FilteredKey(h));
    StoreKeyHead(DetailKey(c));
  }

  lemma AllShopsEntryCurrent(env: Env, v: Variant, db: Db)
    ensures Current(env, v, db, StoreKey(AllShopsKey), ShopList(db.shops))
  {
    KeyFamiliesDiffer("", "");
    forall f
      ensures StoreKey(AllShopsKey) != StoreKey(FilteredKey(env.filterHash(f)))
    {
      KeyFamiliesDiffer(env.filterHash(f), "");
    }
    forall c
      ensures StoreKey(AllShopsKey) != StoreKey(DetailKey(SqlEscape(c)))
    {
      KeyFamiliesDiffer("", SqlEscape(c));
    }
  }

  lemma DrinkTypesEntryCurrent(env: Env, v: Variant, db: Db)
    ensures Current(env, v, db, StoreKey(DrinkTypesKey), Names(UniqueDrinkTypes(db.shops)))
  {
    KeyFamiliesDiffer("", "");
    forall f
      ensures StoreKey(DrinkTypesKey) != StoreKey(FilteredKey(env.filterHash(f)))
    {
      KeyFamiliesDiffer(env.filterHash(f), "");
    }
    forall c
      ensures StoreKey(DrinkTypesKey) != StoreKey(DetailKey(SqlEscape(c)))
    {
      KeyFamiliesDiffer("", SqlEscape(c));
    }
  }

  lemma FilteredEntryCurrent(env: Env, v: Variant, db: Db, f: Filters)
    requires HashInjective(env)
    ensures Current(env, v, db, StoreKey(FilteredKey(env.filterHash(f))), ShopList(FilterShops(db.shops, f, v)))
  {
    var key := StoreKey(FilteredKey(env.filterHash(f)));
    KeyFamiliesDiffer(env.filterHash(f), "");
    forall c
      ensures key != StoreKey(DetailKey(SqlEscape(c)))
    {
      KeyFamiliesDiffer(env.filterHash(f), SqlEscape(c));
    }
    forall g | key == StoreKey(FilteredKey(env.filterHash(g)))
      ensures g == f
    {
      StoreKeyInjective(FilteredKey(env.filterHash(f)), FilteredKey(env.filterHash(g)));
      assert env.filterHash(f) == FilteredKey(env.filterHash(f))[15..];
      assert env.filterHash(g) == FilteredKey(env.filterHash(g))[15..];
    }
  }

  lemma DetailEntryCurrent(env: Env, v: Variant, db: Db, c: string)
    ensures Current(env, v, db, StoreKey(DetailKey(SqlEscape(c))), Row(DetailQuery(db, c)))
  {
    var key := StoreKey(DetailKey(SqlEscape(c)));
    KeyFamiliesDiffer("", SqlEscape(c));
    forall f
      ensures key != StoreKey(FilteredKey(env.filterHash(f)))
    {
      KeyFamiliesDiffer(env.filterHash(f), SqlEscape(c));
    }
    forall d | key == StoreKey(DetailKey(SqlEscape(d)))
      ensures d == c
    {
      StoreKeyInjective(DetailKey(SqlEscape(c)), DetailKey(SqlEscape(d)));
      assert SqlEscape(c) == DetailKey(SqlEscape(c))[5..];
      assert SqlEscape(d) == DetailKey(SqlEscape(d))[5..];
      SqlEscapeInjective(c, d);
    }
  }

  // ----------------------------------------------------------------- reads

  /** A fetch whose producer yields the current value keeps the store coherent and returns a current value. */
  lemma GetKeepsCoherent(env: Env, v: Variant, db: Db, store: map<string, CacheValue>, key: string, produce: () -> CacheValue)
    requires Coherent(env, v, store, db)
    requires Current(env, v, db, StoreKey(key), produce())
    ensures var r := Get(store, key, Truthy, produce);
      Coherent(env, v, r.store, db) && Current(env, v, db, StoreKey(key), r.value)
  {
  }

  /** With a coherent store the listing reads return what the database holds now. */
  lemma LoadListingIsFresh(env: Env, v: Variant, db: Db, store: map<string, CacheValue>)
    requires Coherent(env, v, store, db)
    ensures var l := LoadListing(db, store);
      && Coherent(env, v, l.store, db)
      && l.shops == db.shops
      && l.drinkTypes == UniqueDrinkTypes(db.shops)
  {
    AllShopsEntryCurrent(env, v, db);
    var all := Get(store, AllShopsKey, Truthy, () => ShopList(db.shops));
    GetKeepsCoherent(env, v, db, store, AllShopsKey, () => ShopList(db.shops));
    assert all.value == ShopList(db.shops);
    DrinkTypesEntryCurrent(env, v, db);
    GetKeepsCoherent(env, v, db, all.store, DrinkTypesKey, () => Names(UniqueDrinkTypes(db.shops)));
  }

  /** With a coherent store the grid holds exactly the current rows that pass the active filters. */
  lemma FetchGridIsFresh(env: Env, v: Variant, db: Db, store: map<string, CacheValue>, f: Filters)
    requires HashInjective(env) && Coherent(env, v, store, db)
    ensures var g := FetchGrid(env, v, db, store, db.shops, f);
      Coherent(env, v, g.store, db) && g.shops == GridShops(db.shops, f, v)
  {
    if AnyActive(f, v) {
      FilteredEntryCurrent(env, v, db, f);
      GetKeepsCoherent(env, v, db, store, FilteredKey(env.filterHash(f)), () => ShopList(FilterShops(db.shops, f, v)));
    }
  }

  /** With a coherent store the detail page shows the current row of the captured slug. */
  lemma ResolveDetailIsFresh(env: Env, v: Variant, db: Db, store: map<string, CacheValue>, uri: string)
    requires Coherent(env, v, store, db)
    ensures var r := ResolveDetail(db, store, uri);
      && Coherent(env, v, r.store, db)
      && (DetailSlug(uri).None? ==> r.detail == NoDetail)
      && (DetailSlug(uri).Some? ==> r.detail.ShopPage? && r.detail.row == DetailQuery(db, DetailSlug(uri).value))
      && (DetailShop(r.detail).Some? ==> DetailShop(r.detail).value in db.shops)
  {
    if DetailSlug(uri).Some? {
      var c := DetailSlug(uri).value;
      DetailEntryCurrent(env, v, db, c);
      GetKeepsCoherent(env, v, db, store, DetailKey(SqlEscape(c)), () => Row(DetailQuery(db, c)));
    }
  }

  // ---------------------------------------------------------------- writes

  lemma CommentsOfAppend(cs: seq<Comment>, x: Comment, shopId: nat)
    requires x.shopId != shopId
    ensures CommentsOf(cs + [x], shopId) == CommentsOf(cs, shopId)
  {
    if |cs| > 0 {
      assert (cs + [x])[1..] == cs[1..] + [x];
      CommentsOfAppend(cs[1..], x, shopId);
    } else {
      assert [x][1..] == [];
    }
  }

  lemma DistinctRowsDistinctIds(shops: seq<Shop>, s: Shop, t: Shop)
    requires UniqueIds(shops) && s in shops && t in shops && s != t
    ensures s.id != t.id
  {
    var i :| 0 <= i < |shops| && shops[i] == s;
    var j :| 0 <= j < |shops| && shops[j] == t;
    assert i != j;
  }

  /** A new comment changes the detail row of its own shop's slug only. */
  lemma DetailQueryAfterComment(db: Db, s: Shop, c: string, name: string, body: string)
    requires UniqueIds(db.shops) && s in db.shops && c != s.slug
    ensures DetailQuery(InsertComment(db, s.id, name, body), c) == DetailQuery(db, c)
  {
    match FindBySlug(db.shops, c)
    case None =>
    case Some(t) =>
      DistinctRowsDistinctIds(db.shops, s, t);
      CommentsOfAppend(db.comments, Comment(db.nextCommentId, s.id, name, body), t.id);
  }

  /** The comment appended for a shop is the last of that shop's comments. */
  lemma {:induction false} CommentsOfAppendSame(cs: seq<Comment>, x: Comment)
    ensures CommentsOf(cs + [x], x.shopId) == CommentsOf(cs, x.shopId) + [x]
    decreases |cs|
  {
    if |cs| > 0 {
      assert (cs + [x])[1..] == cs[1..] + [x];
      CommentsOfAppendSame(cs[1..], x);
    } else {
      assert [x][1..] == [];
    }
  }

  /** After a comment on the shop a slug finds, its detail row carries the new comment last. */
  lemma DetailQueryShowsNewComment(db: Db, slug: string, name: string, body: string)
    requires DetailQuery(db, slug).Some?
    ensures var s := DetailQuery(db, slug).value.shop;
      DetailQuery(InsertComment(db, s.id, name, body), slug)
        == Some(DetailRow(s, Aggregate(CommentsOf(db.comments, s.id) + [Comment(db.nextCommentId, s.id, name, body)])))
  {
    var s := DetailQuery(db, slug).value.shop;
    CommentsOfAppendSame(db.comments, Comment(db.nextCommentId, s.id, name, body));
  }

  /**
    The comment round trip of lines 295-317 and 120-136: once an accepted
    comment is stored and its shop's entry deleted, the request the
    browser is sent back to reads the detail afresh. Its row has the
    comment last in the aggregate, and with clean names and bodies the
    page shows it last.
   */
  lemma CommentShownAfterRedirect(st: State, d: Detail, req: Request)
    requires CommentAccepted(d, req.form)
    requires var s := DetailShop(d).value;
      && IsSlug(s.slug) && DetailSlug(req.uri) == Some(s.slug)
      && FindBySlug(st.db.shops, s.slug) == Some(s)
    ensures var s := DetailShop(d).value;
      var c := Comment(st.db.nextCommentId, s.id, req.form["name"], req.form["body"]);
      var o := PostComment(st, d, req);
      var r := ResolveDetail(o.state.db, o.state.store, o.response.location);
      && r.detail.ShopPage?
      && r.detail.row == Some(DetailRow(s, Aggregate(CommentsOf(st.db.comments, s.id) + [c])))
      && (Clean(CommentsOf(st.db.comments, s.id)) && CleanName(c.name) && CleanBody(c.body) ==>
            |r.detail.comments| > 0 && r.detail.comments[|r.detail.comments| - 1] == Shown(c))
  {
    var s := DetailShop(d).value;
    var c := Comment(st.db.nextCommentId, s.id, req.form["name"], req.form["body"]);
    var o := PostComment(st, d, req);
    assert o.state.db == InsertComment(st.db, s.id, req.form["name"], req.form["body"]);
    assert DetailQuery(st.db, s.slug).Some?;
    DetailQueryShowsNewComment(st.db, s.slug, req.form["name"], req.form["body"]);
    ResolveAfterDelete(o.state.db, o.state.store, req.uri, s.slug);
    if Clean(CommentsOf(st.db.comments, s.id)) && CleanName(c.name) && CleanBody(c.body) {
      AppendedCommentDecodedLast(CommentsOf(st.db.comments, s.id), c);
    }
  }

  /** With its entry gone, the detail route queries the database for its slug. */
  lemma ResolveAfterDelete(db: Db, store: map<string, CacheValue>, uri: string, slug: string)
    requires IsSlug(slug) && DetailSlug(uri) == Some(slug)
    requires StoreKey(DetailKey(slug)) !in store
    ensures var row := DetailQuery(db, slug);
      ResolveDetail(db, store, uri).detail == ShopPage(row, Decode(if row.Some? then row.value.comments else None))
  {
    SlugNeedsNoEscape(slug);
  }

  /** A well-formed slug has nothing to escape. */
  lemma SlugNeedsNoEscape(slug: string)
    requires IsSlug(slug)
    ensures SqlEscape(slug) == slug
  {
    SqlEscapeIdentity(slug);
  }

  /**
    Inserting a comment and deleting its shop's detail entry keeps the
    cache coherent: no other entry depends on that shop's comments.
   */
  lemma CommentKeepsCoherent(env: Env, v: Variant, db: Db, store: map<string, CacheValue>, s: Shop, name: string, body: string)
    requires DbInvariant(db) && s in db.shops
    requires Coherent(env, v, store, db)
    ensures Coherent(env, v, Delete(store, DetailKey(s.slug)), InsertComment(db, s.id, name, body))
  {
    var db' := InsertComment(db, s.id, name, body);
    var store' := Delete(store, DetailKey(s.slug));
    assert IsSlug(s.slug);
    SlugNeedsNoEscape(s.slug);
    forall key | key in store'
      ensures Current(env, v, db', key, store'[key])
    {
      assert Current(env, v, db, key, store[key]);
      forall c | key == StoreKey(DetailKey(SqlEscape(c)))
        ensures store'[key] == Row(DetailQuery(db', c))
      {
        assert c != s.slug;
        DetailQueryAfterComment(db, s, c, name, body);
      }
    }
  }

  /**
    The handlers keep the cache coherent unless an admin write happens
    under the as-written reading, which does not clear after writing.
   */
  lemma HandlersKeepCoherent(env: Env, v: Variant, c: Context, req: Request)
    requires v == Intended || !(IsAdmin(c.st.admin) && req.isPost)
    requires DbInvariant(c.st.db) && Coherent(env, v, c.st.store, c.st.db)
    requires DetailShop(c.detail).Some? ==> DetailShop(c.detail).value in c.st.db.shops
    ensures var o := Handlers(env, v, c, req); Coherent(env, v, o.state.store, o.state.db)
  {
    var st := c.st;
    var admin := IsAdmin(st.admin);
    var auth := env.authenticate(FormValue(req.form, "email"), FormValue(req.form, "password"));
    if req.isPost && "login" in req.form && auth.Some? {
    } else if admin && req.isPost && "logout" in req.form {
    } else if admin && req.isPost && ("create_coffee_shop" in req.form || "update_coffee_shop" in req.form || "delete_coffee_shop" in req.form) {
    } else if req.isPost && "comment_submitted" in req.form && CommentAccepted(c.detail, req.form) {
      var s := DetailShop(c.detail).value;
      CommentKeepsCoherent(env, v, st.db, st.store, s, FormValue(req.form, "name"), FormValue(req.form, "body"));
    }
  }

  /**
    Every guest request, every admin GET, and under the intended reading
    every admin POST leaves each cache entry current.
   */
  lemma RequestKeepsCacheCurrent(env: Env, v: Variant, st: State, req: Request)
    requires HashInjective(env)
    requires v == Intended || !(IsAdmin(st.admin) && req.isPost)
    requires DbInvariant(st.db) && Coherent(env, v, st.store, st.db)
    ensures var o := Handle(env, v, st, req); Coherent(env, v, o.state.store, o.state.db)
  {
    var admin := IsAdmin(st.admin);
    var store := if admin && req.isPost then Clear(st.store) else st.store;
    assert Coherent(env, v, store, st.db);
    if !InitRequested(req.query) {
      LoadListingIsFresh(env, v, st.db, store);
      if Redirection(admin, req.uri).None? {
        ServeKeepsCoherent(env, v, st, store, req, ExtractFilters(req.query, v));
      }
    }
  }

  /** The reads of `Serve` before the handlers leave a coherent store and a detail row taken from the table. */
  lemma ServeReadsKeepCoherent(env: Env, v: Variant, db: Db, store: map<string, CacheValue>, uri: string, f: Filters)
    requires HashInjective(env) && Coherent(env, v, store, db)
    ensures var listing := LoadListing(db, store);
      var grid := FetchGrid(env, v, db, listing.store, listing.shops, f);
      var resolved := ResolveDetail(db, grid.store, uri);
      && Coherent(env, v, resolved.store, db)
      && (DetailShop(resolved.detail).Some? ==> DetailShop(resolved.detail).value in db.shops)
  {
    var listing := LoadListing(db, store);
    LoadListingIsFresh(env, v, db, store);
    FetchGridIsFresh(env, v, db, listing.store, f);
    var grid := FetchGrid(env, v, db, listing.store, listing.shops, f);
    ResolveDetailIsFresh(env, v, db, grid.store, uri);
  }

  /** From a coherent store, the reads, the edit lookup and the handlers leave a coherent store. */
  lemma ServeKeepsCoherent(env: Env, v: Variant, st: State, store: map<string, CacheValue>, req: Request, f: Filters)
    requires HashInjective(env)
    requires v == Intended || !(IsAdmin(st.admin) && req.isPost)
    requires DbInvariant(st.db) && Coherent(env, v, store, st.db)
    ensures var o := Serve(env, v, st, req, LoadListing(st.db, store), f);
      Coherent(env, v, o.state.store, o.state.db)
  {
    var listing := LoadListing(st.db, store);
    var grid := FetchGrid(env, v, st.db, listing.store, listing.shops, f);
    var resolved := ResolveDetail(st.db, grid.store, req.uri);
    ServeReadsKeepCoherent(env, v, st.db, store, req.uri, f);
    DispatchKeepsCoherent(env, v, st.(store := resolved.store), req, resolved.detail, grid.shops, f, listing.drinkTypes);
  }

  /** The edit lookup and the handlers keep a coherent store coherent. */
  lemma DispatchKeepsCoherent(env: Env, v: Variant, st: State, req: Request, detail: Detail, grid: seq<Shop>, f: Filters, drinks: seq<string>)
    requires v == Intended || !(IsAdmin(st.admin) && req.isPost)
    requires DbInvariant(st.db) && Coherent(env, v, st.store, st.db)
    requires DetailShop(detail).Some? ==> DetailShop(detail).value in st.db.shops
    ensures var o := Dispatch(env, v, st, req, detail, grid, f, drinks);
      Coherent(env, v, o.state.store, o.state.db)
  {
    if IsAdmin(st.admin) && Contains(req.uri, EditPath) {
      var found := EditLookup(st.db.shops, req.query);
      if found.Some? {
        HandlersKeepCoherent(env, v, Context(st, EditRow(found.value), grid, f, drinks), req);
      }
    } else {
      HandlersKeepCoherent(env, v, Context(st, detail, grid, f, drinks), req);
    }
  }

  // ------------------------------------------------------------ as written

  /**
    As written, an admin's successful create stores the list read before
    the insert under `all_coffee_shops` and keeps it: the cache is no
    longer coherent with the grown table.
   */
  lemma AdminCreateLeavesStaleList(env: Env, st: State, req: Request)
    requires IsAdmin(st.admin) && req.isPost && !InitRequested(req.query)
    requires req.uri != "/login" && !Contains(req.uri, EditPath)
    requires "login" !in req.form && "logout" !in req.form && "create_coffee_shop" in req.form
    requires Complete(req.form)
    ensures var o := Handle(env, AsWritten, st, req);
      && o.response == Redirect("/admin")
      && |o.state.db.shops| == |st.db.shops| + 1
      && StoreKey(AllShopsKey) in o.state.store
      && o.state.store[StoreKey(AllShopsKey)] == ShopList(st.db.shops)
      && !Coherent(env, AsWritten, o.state.store, o.state.db)
  {
    var f := ExtractFilters(req.query, AsWritten);
    var listing := LoadListing(st.db, map[]);
    assert listing.store[StoreKey(AllShopsKey)] == ShopList(st.db.shops) by {
      KeyFamiliesDiffer("", "");
    }
    var grid := FetchGrid(env, AsWritten, st.db, listing.store, listing.shops, f);
    assert grid.store[StoreKey(AllShopsKey)] == ShopList(st.db.shops) by {
      KeyFamiliesDiffer(env.filterHash(f), "");
    }
    var resolved := ResolveDetail(st.db, grid.store, req.uri);
    assert resolved.store[StoreKey(AllShopsKey)] == ShopList(st.db.shops) by {
      if DetailSlug(req.uri).Some? {
        KeyFamiliesDiffer("", SqlEscape(DetailSlug(req.uri).value));
      }
    }
    var o := Handle(env, AsWritten, st, req);
    assert o.state.store == resolved.store;
    assert o.state.db.shops != st.db.shops;
    assert !Current(env, AsWritten, o.state.db, StoreKey(AllShopsKey), ShopList(st.db.shops));
  }

  /**
    A stored non-empty list is what the next guest's unfiltered home page
    shows, whatever the table holds by then.
   */
  lemma HomePageServesStoredList(env: Env, v: Variant, st: State, req: Request, stored: seq<Shop>)
    requires !IsAdmin(st.admin) && !req.isPost && req.uri == "/" && req.query == map[]
    requires StoreKey(AllShopsKey) in st.store && st.store[StoreKey(AllShopsKey)] == ShopList(stored) && |stored| > 0
    ensures var r := Handle(env, v, st, req).response;
      r.Page? && r.view.GridView? && r.view.shops == stored
  {
  }
}
