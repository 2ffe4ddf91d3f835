/**
  URL handling: the detail link `getShopUrl` builds (app/index.php
  325-328), the detail route's capture `^/shop/([^/]+)` (line 121) and the
  two exact-match redirects (lines 101-110).
 */
module Routes {
  import opened Wrappers
  import opened PhpStrings
  import opened Slug

  const ShopPrefix: string := "/shop/"

  /**
    `getShopUrl($shop)`: `/shop/` followed by the urlencoded slug, so every
    byte after the prefix is unreserved, `%` or `+` and the link has exactly
    one path segment after `/shop/`.
   */
  function ShopUrl(slug: string): (r: string)
    requires IsBytes(slug)
    ensures |r| >= |ShopPrefix| + |slug| && r[..|ShopPrefix|] == ShopPrefix
    ensures forall i :: |ShopPrefix| <= i < |r| ==> IsUnreserved(r[i]) || r[i] == '%' || r[i] == '+'
  {
    ShopPrefix + UrlEncode(slug)
  }

  /** The length of the leading run of bytes other than `/`. */
  function SegmentLength(s: string): (n: nat)
    ensures n <= |s|
    ensures forall i :: 0 <= i < n ==> s[i] != '/'
    ensures n == |s| || s[n] == '/'
  {
    if |s| == 0 || s[0] == '/' then 0 else 1 + SegmentLength(s[1..])
  }

  /**
    Group 1 of `preg_match('/^\/shop\/([^\/]+)/', $uri)`: the bytes after
    `/shop/` up to the next `/` or the end, when there is at least one.
    The subject is the raw request URI, query string included.
   */
  function DetailSlug(uri: string): (r: Option<string>)
    ensures r.Some? ==> |r.value| > 0 && '/' !in r.value && ShopPrefix + r.value <= uri
    ensures r.None? ==> !(ShopPrefix <= uri) || |uri| == |ShopPrefix| || uri[|ShopPrefix|] == '/'
  {
    if |uri| >= |ShopPrefix| && uri[..|ShopPrefix|] == ShopPrefix then
      var n := SegmentLength(uri[|ShopPrefix|..]);
      if n > 0 then Some(uri[|ShopPrefix|..|ShopPrefix| + n]) else None
    else None
  }

  /**
    The capture is `s` exactly when the URI starts with `/shop/` + `s`,
    `s` is a non-empty run without `/`, and the run ends there.
   */
  lemma DetailSlugIff(uri: string, s: string)
    ensures DetailSlug(uri) == Some(s) <==>
      && |s| > 0
      && '/' !in s
      && ShopPrefix + s <= uri
      && (|uri| == |ShopPrefix| + |s| || uri[|ShopPrefix| + |s|] == '/')
  {
    var p := |ShopPrefix|;
    if DetailSlug(uri) == Some(s) {
      var n := SegmentLength(uri[p..]);
      assert s == uri[p..p + n];
      assert (ShopPrefix + s) == uri[..p + n];
    }
    if && |s| > 0 && '/' !in s && ShopPrefix + s <= uri
       && (|uri| == p + |s| || uri[p + |s|] == '/') {
      assert uri[..p] == ShopPrefix;
      var t := uri[p..];
      assert t[..|s|] == s;
      forall i | 0 <= i < |s|
        ensures t[i] != '/'
      {
        assert t[i] == s[i];
      }
      assert SegmentLength(t) == |s|;
      assert uri[p..p + |s|] == s;
    }
  }

  /** `urlencode` leaves a well-formed slug untouched, so the link is `/shop/` + slug. */
  lemma ShopUrlOfSlug(slug: string)
    requires IsSlug(slug)
    ensures IsBytes(slug)
    ensures ShopUrl(slug) == ShopPrefix + slug
  {
    assert forall i :: 0 <= i < |slug| ==> IsUnreserved(slug[i]);
    UrlEncodeIdentity(slug);
  }

  /**
    Following a shop link, or posting its comment form (action
    `/shop/<slug>/comment`), routes back to the same slug.
   */
  lemma DetailSlugOfShopUrl(slug: string)
    requires IsSlug(slug) && |slug| > 0
    ensures IsBytes(slug)
    ensures DetailSlug(ShopUrl(slug)) == Some(slug)
    ensures DetailSlug(ShopUrl(slug) + "/comment") == Some(slug)
  {
    ShopUrlOfSlug(slug);
    assert '/' !in slug;
    DetailSlugIff(ShopUrl(slug), slug);
    var c := ShopUrl(slug) + "/comment";
    assert c[|ShopPrefix| + |slug|] == '/';
    DetailSlugIff(c, slug);
  }

  /**
    The two redirects run before any handler and compare the whole request
    URI: an admin on exactly `/login` goes to `/admin`, anyone else on
    exactly `/admin` goes to `/login`, every other URI passes.
   */
  function Redirection(isAdmin: bool, uri: string): (r: Option<string>)
    ensures r == Some("/admin") <==> isAdmin && uri == "/login"
    ensures r == Some("/login") <==> !isAdmin && uri == "/admin"
    ensures r.None? <==> uri != (if isAdmin then "/login" else "/admin")
  {
    if isAdmin && uri == "/login" then Some("/admin")
    else if !isAdmin && uri == "/admin" then Some("/login")
    else None
  }
}
