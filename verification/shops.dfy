/**
  The database the script talks to through mysqli, as in-memory tables:
  `shops` and `comments` with their auto-increment counters, and the
  statements the script runs against them.
 */
module Shops {
  import opened Wrappers
  import opened PhpStrings
  import opened Slug

  /** A row of `shops`; `food` is the integer column `food_available`. */
  datatype Shop = Shop(
    id: nat,
    name: string,
    location: string,
    rating: int,
    hoursOpen: string,
    drinkTypes: string,
    food: int,
    slug: string,
    image: Option<string>)

  /** A row of `comments`. */
  datatype Comment = Comment(id: nat, shopId: nat, name: string, body: string)

  datatype Db = Db(shops: seq<Shop>, comments: seq<Comment>, nextShopId: nat, nextCommentId: nat)

  /** The columns a create or an update writes besides `slug` and `image`. */
  datatype ShopFields = ShopFields(
    name: string,
    location: string,
    rating: int,
    hoursOpen: string,
    drinkTypes: string,
    food: int)

  /** The first row whose slug equals `slug` (`WHERE slug = '...'`, first row fetched). */
  function FindBySlug(shops: seq<Shop>, slug: string): (r: Option<Shop>)
    ensures r.Some? ==> r.value in shops && r.value.slug == slug
    ensures r.None? <==> forall i :: 0 <= i < |shops| ==> shops[i].slug != slug
    ensures |shops| > 0 && shops[0].slug == slug ==> r == Some(shops[0])
  {
    if |shops| == 0 then None
    else if shops[0].slug == slug then Some(shops[0])
    else
      var r := FindBySlug(shops[1..], slug);
      assert forall i :: 1 <= i < |shops| ==> shops[i] == shops[1..][i - 1];
      r
  }

  /**
    Appending a row leaves the first match of a slug where it was; the new
    row is found only when no older row carries the slug.
   */
  lemma {:induction false} FindBySlugAppend(shops: seq<Shop>, row: Shop, slug: string)
    ensures FindBySlug(shops + [row], slug) ==
      (if FindBySlug(shops, slug).Some? then FindBySlug(shops, slug)
       else if row.slug == slug then Some(row) else None)
    decreases |shops|
  {
    if |shops| > 0 && shops[0].slug != slug {
      assert (shops + [row])[1..] == shops[1..] + [row];
      FindBySlugAppend(shops[1..], row, slug);
    }
  }

  /**
    A row inserted under a slug no older row has is the one a lookup by
    that slug finds, and no comment belongs to it yet when none points at
    the counter's id.
   */
  lemma InsertedRowIsFound(db: Db, f: ShopFields, slug: string, image: Option<string>)
    requires forall i :: 0 <= i < |db.shops| ==> db.shops[i].slug != slug
    requires forall i :: 0 <= i < |db.comments| ==> db.comments[i].shopId != db.nextShopId
    ensures var after := InsertShop(db, f, slug, image);
      && FindBySlug(after.shops, slug) == Some(after.shops[|db.shops|])
      && CommentsOf(after.comments, db.nextShopId) == []
  {
    var after := InsertShop(db, f, slug, image);
    FindBySlugAppend(db.shops, after.shops[|db.shops|], slug);
  }

  /** A row inserted under a slug an older row has stays hidden behind that row. */
  lemma InsertedRowIsShadowed(db: Db, f: ShopFields, slug: string, image: Option<string>, k: int)
    requires IdsBelow(db.shops, db.nextShopId)
    requires 0 <= k < |db.shops| && db.shops[k].slug == slug
    ensures var found := FindBySlug(InsertShop(db, f, slug, image).shops, slug);
      found.Some? && found.value in db.shops && found.value.id != db.nextShopId
  {
    var after := InsertShop(db, f, slug, image);
    FindBySlugAppend(db.shops, after.shops[|db.shops|], slug);
  }

  /** The first row whose id equals `id`. */
  function FindById(shops: seq<Shop>, id: int): (r: Option<Shop>)
    ensures r.Some? ==> r.value in shops && r.value.id == id
    ensures r.None? <==> forall i :: 0 <= i < |shops| ==> shops[i].id != id
  {
    if |shops| == 0 then None
    else if shops[0].id == id then Some(shops[0])
    else
      var r := FindById(shops[1..], id);
      assert forall i :: 1 <= i < |shops| ==> shops[i] == shops[1..][i - 1];
      r
  }

  /** The comments of one shop, in table order. */
  function CommentsOf(comments: seq<Comment>, shopId: nat): (r: seq<Comment>)
    ensures forall c :: c in r <==> c in comments && c.shopId == shopId
    ensures (forall i :: 0 <= i < |comments| ==> comments[i].shopId != shopId) ==> r == []
  {
    if |comments| == 0 then []
    else if comments[0].shopId == shopId then [comments[0]] + CommentsOf(comments[1..], shopId)
    else CommentsOf(comments[1..], shopId)
  }

  /** The prepared `INSERT INTO shops ...` of the create handler. */
  function InsertShop(db: Db, f: ShopFields, slug: string, image: Option<string>): Db {
    var row := Shop(db.nextShopId, f.name, f.location, f.rating, f.hoursOpen, f.drinkTypes, f.food, slug, image);
    db.(shops := db.shops + [row], nextShopId := db.nextShopId + 1)
  }

  /** One row after `UPDATE shops SET ...`; the image changes only when a new one was uploaded. */
  function UpdatedRow(s: Shop, f: ShopFields, slug: string, image: Option<string>): Shop {
    s.(name := f.name, location := f.location, rating := f.rating, hoursOpen := f.hoursOpen,
       drinkTypes := f.drinkTypes, food := f.food, slug := slug,
       image := if image.Some? then image else s.image)
  }

  /** `UPDATE shops SET ... WHERE id = ?`: matching rows change, every other row stays. */
  function UpdateShops(shops: seq<Shop>, id: int, f: ShopFields, slug: string, image: Option<string>): (r: seq<Shop>)
    ensures |r| == |shops|
    ensures forall i :: 0 <= i < |shops| ==> r[i] == (if shops[i].id == id then UpdatedRow(shops[i], f, slug, image) else shops[i])
  {
    seq(|shops|, i requires 0 <= i < |shops| =>
      if shops[i].id == id then UpdatedRow(shops[i], f, slug, image) else shops[i])
  }

  /** `DELETE FROM shops WHERE id = ?`: the other rows keep their order; comments are not touched. */
  function DeleteShops(shops: seq<Shop>, id: int): (r: seq<Shop>)
    ensures forall s :: s in r <==> s in shops && s.id != id
    ensures |r| <= |shops|
  {
    if |shops| == 0 then []
    else if shops[0].id == id then DeleteShops(shops[1..], id)
    else [shops[0]] + DeleteShops(shops[1..], id)
  }

  /** The prepared `INSERT INTO comments ...` of the comment handler. */
  function InsertComment(db: Db, shopId: nat, name: string, body: string): Db {
    db.(comments := db.comments + [Comment(db.nextCommentId, shopId, name, body)],
        nextCommentId := db.nextCommentId + 1)
  }

  // ----------------------------------------------------------- invariants

  /** No two rows share an id. */
  predicate UniqueIds(shops: seq<Shop>) {
    forall i, j :: 0 <= i < j < |shops| ==> shops[i].id != shops[j].id
  }

  /** The auto-increment counter is above every id in use. */
  predicate IdsBelow(shops: seq<Shop>, next: nat) {
    forall i :: 0 <= i < |shops| ==> shops[i].id < next
  }

  /** Every stored slug is one the handlers could have derived. */
  predicate SlugsWellFormed(shops: seq<Shop>) {
    forall i :: 0 <= i < |shops| ==> IsSlug(shops[i].slug)
  }

  /** What the script's own writes keep true of the database. */
  predicate DbInvariant(db: Db) {
    UniqueIds(db.shops) && IdsBelow(db.shops, db.nextShopId) && SlugsWellFormed(db.shops)
  }

  /** Inserting a row with a derived slug keeps the invariant. */
  lemma InsertShopKeepsInvariant(db: Db, f: ShopFields, image: Option<string>)
    requires DbInvariant(db)
    ensures DbInvariant(InsertShop(db, f, Slugify(f.name), image))
  {
  }

  /** Updating rows with a derived slug keeps the invariant. */
  lemma UpdateShopsKeepsInvariant(db: Db, id: int, f: ShopFields, image: Option<string>)
    requires DbInvariant(db)
    ensures DbInvariant(db.(shops := UpdateShops(db.shops, id, f, Slugify(f.name), image)))
  {
  }

  lemma {:induction false} DeleteShopsKeepsUniqueIds(shops: seq<Shop>, id: int)
    requires UniqueIds(shops)
    ensures UniqueIds(DeleteShops(shops, id))
    decreases |shops|
  {
    if |shops| > 0 {
      var tail := shops[1..];
      assert UniqueIds(tail) by {
        forall i, j | 0 <= i < j < |tail|
          ensures tail[i].id != tail[j].id
        {
          assert tail[i] == shops[i + 1] && tail[j] == shops[j + 1];
        }
      }
      DeleteShopsKeepsUniqueIds(tail, id);
      var t := DeleteShops(tail, id);
      if shops[0].id != id {
        var r := [shops[0]] + t;
        forall j | 0 <= j < |t|
          ensures shops[0].id != t[j].id
        {
          assert t[j] in tail;
          var k :| 0 <= k < |tail| && tail[k] == t[j];
          assert tail[k] == shops[k + 1];
        }
        forall i, j | 0 <= i < j < |r|
          ensures r[i].id != r[j].id
        {
          if i > 0 {
            assert r[i] == t[i - 1] && r[j] == t[j - 1];
          }
        }
      }
    }
  }

  /** Deleting rows keeps the invariant; the counter never goes back. */
  lemma DeleteShopsKeepsInvariant(db: Db, id: int)
    requires DbInvariant(db)
    ensures DbInvariant(db.(shops := DeleteShops(db.shops, id)))
  {
    var r := DeleteShops(db.shops, id);
    DeleteShopsKeepsUniqueIds(db.shops, id);
    forall i | 0 <= i < |r|
      ensures r[i].id < db.nextShopId && IsSlug(r[i].slug)
    {
      assert r[i] in db.shops;
    }
  }
}
