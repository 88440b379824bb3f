/** Which navigation links are "current" (`isActive`), over the header's
    static link table, and which in-page anchors the scroll-spy watches
    (`inPageAnchors`), in components/custom/navbar.tsx. */
module Active {
  import opened Text
  import opened Paths
  import opened Hrefs

  /** A navigation destination with its visible caption; the icon is presentation only. */
  datatype NavLink = NavLink(href: string, caption: string)

  /** The header's link table, in display order. */
  const Links: seq<NavLink> := [
    NavLink("/", "Home"),
    NavLink("/portfolio", "Portfolio"),
    NavLink("/contact", "Contact")
  ]

  /** Whether the link `href` is current for the route `pathname` and the
      location fragment `hash` ("" or "#..."). By the shape of the href: a
      plain href compares paths only and ignores the fragment; a
      fragment-only href compares the fragment only, as exact text; an href
      with both needs both. */
  predicate IsActive(pathname: string, hash: string, href: string): (r: bool)
    ensures '#' !in href ==> (r <==> SamePath(pathname, href))
    ensures StartsWith(href, '#') ==> (r <==> hash == href)
    ensures HasInnerHash(href) ==>
      (r <==> SamePath(pathname, SplitBaseAndHash(href).base) && hash == SplitBaseAndHash(href).hash)
  {
    PartsPresence(href);
    var parts := SplitBaseAndHash(href);
    if parts.hash == "" then SamePath(pathname, parts.base)
    else if parts.base == "" then hash == parts.hash
    else SamePath(pathname, parts.base) && hash == parts.hash
  }

  /** A plain link is current exactly when its path matches the route. */
  lemma PlainLinkActive(pathname: string, hash: string, href: string)
    requires '#' !in href
    ensures IsActive(pathname, hash, href) <==> SamePath(pathname, href)
  {
  }

  /** A plain link's state does not depend on the fragment at all. */
  lemma PlainLinkIgnoresHash(pathname: string, h1: string, h2: string, href: string)
    requires '#' !in href
    ensures IsActive(pathname, h1, href) == IsActive(pathname, h2, href)
  {
    PlainLinkActive(pathname, h1, href);
    PlainLinkActive(pathname, h2, href);
  }

  /** A table of plain links whose paths are pairwise different paths. */
  predicate PlainAndDistinct(links: seq<NavLink>)
  {
    && (forall i :: 0 <= i < |links| ==> '#' !in links[i].href)
    && (forall i, j :: 0 <= i < j < |links| ==> !SamePath(links[i].href, links[j].href))
  }

  /** In a table of plain links with pairwise different paths, a link is
      current exactly when its path matches the route, so at most one link
      is current at a time. */
  lemma AtMostOneActive(links: seq<NavLink>, pathname: string, hash: string)
    requires PlainAndDistinct(links)
    ensures forall i :: 0 <= i < |links| ==>
      (IsActive(pathname, hash, links[i].href) <==> SamePath(pathname, links[i].href))
    ensures forall i, j :: 0 <= i < j < |links| ==>
      !(IsActive(pathname, hash, links[i].href) && IsActive(pathname, hash, links[j].href))
  {
    forall i | 0 <= i < |links|
      ensures IsActive(pathname, hash, links[i].href) <==> SamePath(pathname, links[i].href)
    {
      PlainLinkActive(pathname, hash, links[i].href);
    }
  }

  /** The header's table: three plain links with three different paths. */
  lemma StaticTablePlainAndDistinct()
    ensures PlainAndDistinct(Links)
  {
    StaticTableIsPlain();
    StaticTableDistinctPaths();
  }

  lemma StaticTableIsPlain()
    ensures forall i :: 0 <= i < |Links| ==> '#' !in Links[i].href
  {
  }

  lemma StaticTableDistinctPaths()
    ensures forall i, j :: 0 <= i < j < |Links| ==> Normalize(Links[i].href) != Normalize(Links[j].href)
  {
    assert AllSlashes("/");
    NormalizeFixesCleanPath("/portfolio");
    NormalizeFixesCleanPath("/contact");
  }

  /** With the header's table, at most one link is current at a time, and it
      is the one whose path matches the route, whatever the fragment. */
  lemma StaticTableAtMostOneActive(pathname: string, hash: string)
    ensures forall i, j :: 0 <= i < j < |Links| ==>
      !(IsActive(pathname, hash, Links[i].href) && IsActive(pathname, hash, Links[j].href))
    ensures forall i :: 0 <= i < |Links| ==>
      (IsActive(pathname, hash, Links[i].href) <==> SamePath(pathname, Links[i].href))
  {
    StaticTablePlainAndDistinct();
    AtMostOneActive(Links, pathname, hash);
  }

  /** A plain link whose path is already in normal form is current exactly
      when the route normalises to that path. */
  lemma CleanLinkActive(pathname: string, hash: string, href: string)
    requires '#' !in href && |href| > 0 && href[|href| - 1] != '/'
    ensures IsActive(pathname, hash, href) <==> Normalize(pathname) == href
  {
    PlainLinkActive(pathname, hash, href);
    NormalizeFixesCleanPath(href);
  }

  /** There is no precedence rule: a plain link and a fragment link on the
      same page are both current when the fragment matches. */
  lemma NoPrecedenceBetweenPlainAndHashLinks()
    ensures IsActive("/", "#home", "/") && IsActive("/", "#home", "/#home")
  {
    assert SplitBaseAndHash("/#home") == Parts("/", "#home") by {
      assert IndexOf("/#home", '#') == Some(1);
      SplitHead("/#home", '#', 1);
      assert "/#home"[2..] == "home";
      assert Split("home", '#') == ["home"];
    }
  }

  /** An href whose fragment the scroll-spy watches on page `pathname`: it
      has a fragment, and its page part is empty or the current page
      (`samePath`, written out as equal normal forms). */
  predicate Watched(href: string, pathname: string)
  {
    var p := SplitBaseAndHash(href);
    p.hash != "" && (p.base == "" || Normalize(p.base) == Normalize(pathname))
  }

  /** The element id an href's fragment names: the fragment without '#'. */
  function AnchorId(href: string): string
  {
    var h := SplitBaseAndHash(href).hash;
    if h == "" then "" else h[1..]
  }

  /** The section ids the scroll-spy observes on page `pathname`. */
  function InPageAnchors(links: seq<NavLink>, pathname: string): (r: seq<string>)
    ensures |r| <= |links|
    ensures forall i :: 0 <= i < |links| && Watched(links[i].href, pathname) ==> AnchorId(links[i].href) in r
    ensures r == [] <==> forall i :: 0 <= i < |links| ==> !Watched(links[i].href, pathname)
  {
    if |links| == 0 then []
    else
      var rest := InPageAnchors(links[1..], pathname);
      if Watched(links[0].href, pathname) then [AnchorId(links[0].href)] + rest else rest
  }

  /** Every anchor is the id of a watched link of the table. */
  lemma {:induction false} InPageAnchorsOnlyWatched(links: seq<NavLink>, pathname: string)
    ensures forall a :: a in InPageAnchors(links, pathname) ==>
      exists i :: 0 <= i < |links| && Watched(links[i].href, pathname) && a == AnchorId(links[i].href)
  {
    if |links| > 0 {
      var rest := InPageAnchors(links[1..], pathname);
      InPageAnchorsOnlyWatched(links[1..], pathname);
      forall a | a in InPageAnchors(links, pathname)
        ensures exists i :: 0 <= i < |links| && Watched(links[i].href, pathname) && a == AnchorId(links[i].href)
      {
        if a !in rest {
          assert Watched(links[0].href, pathname) && a == AnchorId(links[0].href);
        } else {
          var j :| 0 <= j < |links[1..]| && Watched(links[1..][j].href, pathname) && a == AnchorId(links[1..][j].href);
          assert links[1..][j] == links[j + 1];
        }
      }
    }
  }

  /** The anchors of two tables in sequence are the anchors of the first,
      then those of the second: link order is kept. */
  lemma {:induction false} InPageAnchorsAppend(a: seq<NavLink>, b: seq<NavLink>, pathname: string)
    ensures InPageAnchors(a + b, pathname) == InPageAnchors(a, pathname) + InPageAnchors(b, pathname)
  {
    if |a| == 0 {
      assert a + b == b;
    } else {
      assert (a + b)[0] == a[0];
      assert (a + b)[1..] == a[1..] + b;
      InPageAnchorsAppend(a[1..], b, pathname);
    }
  }

  /** A table of plain links watches nothing. */
  lemma PlainTableHasNoAnchors(links: seq<NavLink>, pathname: string)
    requires forall i :: 0 <= i < |links| ==> '#' !in links[i].href
    ensures InPageAnchors(links, pathname) == []
  {
    forall i | 0 <= i < |links|
      ensures !Watched(links[i].href, pathname)
    {
      PartsPresence(links[i].href);
    }
  }

  /** No link of the header's table has a fragment, so the scroll-spy never
      watches anything, on any page. */
  lemma StaticTableHasNoAnchors(pathname: string)
    ensures InPageAnchors(Links, pathname) == []
  {
    StaticTableIsPlain();
    PlainTableHasNoAnchors(Links, pathname);
  }
}
