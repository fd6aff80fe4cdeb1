/**
 * The decisions inside the event listeners of script.js, as updates on the
 * element model. Querying the document and registering listeners are left to the
 * caller: each handler receives the elements and values its listener would find.
 * Effects that leave the page model (navigation, scrolling, clicking a link) are
 * returned as the target they would act on.
 */
module Handlers {
  import opened Wrappers
  import opened Dom
  import Throttling

  // ---------------------------------------------------------------------------
  // Mobile menu toggle (script.js:8-13)

  /** The new `aria-expanded`: `String(!isExpanded)` where `isExpanded` means exactly "true". */
  function ExpandedAfterClick(current: Option<string>): (r: string)
    ensures r == "true" || r == "false"
    ensures r == "false" <==> current == Some("true")
  {
    BoolString(!(current == Some("true")))
  }

  /** The toggle button after one click: `aria-expanded` flips and `active` toggles. */
  function MenuButtonAfterClick(s: ElementState): (r: ElementState)
    ensures Attr(r, "aria-expanded") == Some(ExpandedAfterClick(Attr(s, "aria-expanded")))
    ensures forall name :: name != "aria-expanded" ==> Attr(r, name) == Attr(s, name)
    ensures r.classes == Toggled(s.classes, "active") && r.src == s.src
  {
    s.(attrs := s.attrs["aria-expanded" := ExpandedAfterClick(Attr(s, "aria-expanded"))],
       classes := Toggled(s.classes, "active"))
  }

  /**
   * Two clicks restore both class lists. They restore the button as a whole exactly
   * when `aria-expanded` started as "true" or "false"; from any other value (or
   * none) it ends up "false".
   */
  lemma MenuTwoClicks(button: ElementState, navClasses: set<string>)
    ensures MenuButtonAfterClick(MenuButtonAfterClick(button)).classes == button.classes
    ensures Toggled(Toggled(navClasses, "active"), "active") == navClasses
    ensures Attr(MenuButtonAfterClick(MenuButtonAfterClick(button)), "aria-expanded")
            == Some(if Attr(button, "aria-expanded") == Some("true") then "true" else "false")
    ensures MenuButtonAfterClick(MenuButtonAfterClick(button)) == button
            <==> Attr(button, "aria-expanded") == Some("true") || Attr(button, "aria-expanded") == Some("false")
  {
    ToggledTwice(button.classes, "active");
    ToggledTwice(navClasses, "active");
    var twice := MenuButtonAfterClick(MenuButtonAfterClick(button));
    var restored := Attr(button, "aria-expanded") == Some("true") || Attr(button, "aria-expanded") == Some("false");
    if restored {
      assert twice.attrs == button.attrs;
    } else {
      assert Attr(twice, "aria-expanded") != Attr(button, "aria-expanded");
    }
  }

  /**
   * The click listener of the menu toggle. When `nav` and the button are one
   * element, its `active` class is toggled twice and so stays as it was.
   */
  method OnMenuToggleClick(toggle: Element, nav: Element)
    modifies toggle, nav
    ensures nav != toggle ==>
      toggle.State() == MenuButtonAfterClick(old(toggle.State())) &&
      nav.State() == old(nav.State()).(classes := Toggled(old(nav.classes), "active"))
    ensures nav == toggle ==>
      toggle.State() == MenuButtonAfterClick(old(toggle.State())).(classes := old(toggle.classes))
  {
    var isExpanded := toggle.GetAttribute("aria-expanded") == Some("true");
    toggle.SetAttribute("aria-expanded", BoolString(!isExpanded));
    var _ := nav.ToggleClass("active");
    var _ := toggle.ToggleClass("active");
    ToggledTwice(old(toggle.classes), "active");
  }

  // ---------------------------------------------------------------------------
  // Scroll-to-top button (script.js:22-28, 39, 264-265)

  /** The offset, in CSS pixels, past which the button shows. */
  const SCROLL_THRESHOLD: real := 300.0

  /** The button after `toggleScrollButton` at vertical offset `pageYOffset`. */
  function ScrollButtonAfter(s: ElementState, pageYOffset: real): (r: ElementState)
    ensures "visible" in r.classes <==> pageYOffset > SCROLL_THRESHOLD
    ensures r.classes - {"visible"} == s.classes - {"visible"}
    ensures r.attrs == s.attrs && r.src == s.src
  {
    if pageYOffset > SCROLL_THRESHOLD then s.(classes := s.classes + {"visible"})
    else s.(classes := s.classes - {"visible"})
  }

  /**
   * Only the latest offset matters: updating for `earlier` and then for `latest`
   * is the same as updating for `latest` alone. With equal offsets this says that
   * a repeated call leaves the button as it is.
   */
  lemma ScrollButtonLatestWins(s: ElementState, earlier: real, latest: real)
    ensures ScrollButtonAfter(ScrollButtonAfter(s, earlier), latest) == ScrollButtonAfter(s, latest)
  {
    var once := ScrollButtonAfter(s, earlier);
    assert ScrollButtonAfter(once, latest).classes == ScrollButtonAfter(s, latest).classes;
  }

  /** `toggleScrollButton` (script.js:22-28). */
  method ToggleScrollButton(button: Element, pageYOffset: real)
    modifies button
    ensures button.State() == ScrollButtonAfter(old(button.State()), pageYOffset)
  {
    if pageYOffset > SCROLL_THRESHOLD {
      button.AddClass("visible");
    } else {
      button.RemoveClass("visible");
    }
  }

  /**
   * One `scroll` event on the window. It reaches both listeners: the plain
   * `toggleScrollButton` registered at script.js:39 and then the throttled one
   * registered at script.js:265. Whether or not the throttle lets its call
   * through, the button ends up right for the current offset: the page's scroll
   * handling is not rate-limited by the throttle. With the button present,
   * `toggleScrollButton` returns normally, so the throttle's flag is raised
   * whenever it runs.
   */
  method OnWindowScroll(button: Element, throttled: Throttling.Throttled<real>, t: nat, pageYOffset: real)
    requires throttled.Valid() && throttled.now <= t
    modifies button, throttled
    ensures button.State() == ScrollButtonAfter(old(button.State()), pageYOffset)
    ensures throttled.Valid() && throttled.State() == Throttling.OnCall(old(throttled.State()), t, pageYOffset, true)
    ensures throttled.returning == old(throttled.returning)
  {
    ToggleScrollButton(button, pageYOffset);
    var ran := throttled.Call(t, pageYOffset, true);
    if ran {
      ToggleScrollButton(button, pageYOffset);
      ScrollButtonLatestWins(old(button.State()), pageYOffset, pageYOffset);
    }
  }

  // ---------------------------------------------------------------------------
  // Search form (script.js:51-58)

  const SEARCH_URL_PREFIX: string := "https://bollyflix.ist/?s="

  /** The address for a search term; `encode` stands for `encodeURIComponent`. */
  function SearchTarget(term: string, encode: string -> string): string {
    SEARCH_URL_PREFIX + encode(term)
  }

  /** The encoded term of a search address, or None for any other address. */
  function SearchTermOf(url: string): Option<string> {
    if |SEARCH_URL_PREFIX| <= |url| && url[..|SEARCH_URL_PREFIX|] == SEARCH_URL_PREFIX
    then Some(url[|SEARCH_URL_PREFIX|..]) else None
  }

  /**
   * Where a submit sends the browser, if anywhere: a redirect happens exactly when
   * the trimmed input is non-empty, and the address is the search prefix followed
   * by the encoded trimmed term. `trim` stands for `String.prototype.trim`.
   */
  function SearchRedirect(inputValue: string, trim: string -> string, encode: string -> string): (r: Option<string>)
    ensures r.Some? <==> trim(inputValue) != ""
    ensures r.Some? ==> SearchTermOf(r.value) == Some(encode(trim(inputValue)))
  {
    var term := trim(inputValue);
    if term != "" then Some(SearchTarget(term, encode)) else None
  }

  /** The submit listener: the default action is always prevented. */
  method OnSearchSubmit(e: Event, inputValue: string, trim: string -> string, encode: string -> string)
    returns (redirect: Option<string>)
    modifies e
    ensures e.defaultPrevented
    ensures redirect == SearchRedirect(inputValue, trim, encode)
  {
    e.PreventDefault();
    var searchTerm := trim(inputValue);
    if searchTerm != "" {
      redirect := Some(SearchTarget(searchTerm, encode));
    } else {
      redirect := None;
    }
  }

  // ---------------------------------------------------------------------------
  // Lazy-loading fallback (script.js:73-84)

  /** `img.dataset.src || img.src`: a missing or empty `data-src` keeps the current source. */
  function LazySource(s: ElementState): string {
    match Attr(s, "data-src")
    case Some(v) => if v != "" then v else s.src
    case None => s.src
  }

  /** An image the observer has seen enter the viewport. */
  function LazyLoaded(s: ElementState): (r: ElementState)
    ensures Attr(s, "data-src").Some? && Attr(s, "data-src").value != "" ==> r.src == s.attrs["data-src"]
    ensures Attr(s, "data-src").None? || Attr(s, "data-src").value == "" ==> r.src == s.src
    ensures "loaded" in r.classes && r.classes - {"loaded"} == s.classes - {"loaded"}
    ensures r.attrs == s.attrs
  {
    s.(src := LazySource(s), classes := s.classes + {"loaded"})
  }

  /** Seeing an image enter twice changes nothing more. */
  lemma LazyLoadedTwice(s: ElementState)
    ensures LazyLoaded(LazyLoaded(s)) == LazyLoaded(s)
  {
    assert LazySource(LazyLoaded(s)) == LazySource(s);
  }

  /** One record of an IntersectionObserver callback. */
  datatype Entry = Entry(target: Element, isIntersecting: bool)

  function Targets(entries: seq<Entry>): set<Element> {
    set e | e in entries :: e.target
  }

  function Entering(entries: seq<Entry>): (r: set<Element>)
    ensures r <= Targets(entries)
  {
    set e | e in entries && e.isIntersecting :: e.target
  }

  lemma EnteringSnoc(entries: seq<Entry>, e: Entry)
    ensures Entering(entries + [e]) == Entering(entries) + (if e.isIntersecting then {e.target} else {})
  {
    var all := entries + [e];
    forall x | x in Entering(all)
      ensures x in Entering(entries) + (if e.isIntersecting then {e.target} else {})
    {
      var y :| y in all && y.isIntersecting && y.target == x;
      if y != e {
        assert y in entries;
      }
    }
    forall x | x in Entering(entries)
      ensures x in Entering(all)
    {
      var y :| y in entries && y.isIntersecting && y.target == x;
      assert y in all;
    }
    if e.isIntersecting {
      assert e in all;
    }
  }

  /** The observer of the fallback path: the set of images it still watches. */
  class LazyImageObserver {
    var observed: set<Element>

    /** `images.forEach(img => imageObserver.observe(img))` (script.js:84). */
    constructor (images: seq<Element>)
      ensures observed == set img | img in images
    {
      observed := set img | img in images;
    }

    /**
     * The observer callback (script.js:74-81): each intersecting entry's image gets
     * its `data-src` (when set) as source and the class `loaded`, and is no longer
     * observed. Images of entries that do not intersect are left as they were.
     */
    method OnIntersection(entries: seq<Entry>)
      modifies this, Targets(entries)
      ensures observed == old(observed) - Entering(entries)
      ensures forall i :: 0 <= i < |entries| ==>
        entries[i].target.State() ==
          if entries[i].target in Entering(entries) then LazyLoaded(old(entries[i].target.State()))
          else old(entries[i].target.State())
    {
      var i := 0;
      while i < |entries|
        invariant 0 <= i <= |entries|
        invariant observed == old(observed) - Entering(entries[..i])
        invariant forall k :: 0 <= k < |entries| ==>
          entries[k].target.State() ==
            if entries[k].target in Entering(entries[..i]) then LazyLoaded(old(entries[k].target.State()))
            else old(entries[k].target.State())
      {
        var entry := entries[i];
        assert entries[..i + 1] == entries[..i] + [entry];
        EnteringSnoc(entries[..i], entry);
        if entry.isIntersecting {
          var img := entry.target;
          ghost var before := img.State();
          LazyLoadedTwice(old(img.State()));
          img.SetSrc(LazySource(img.State()));
          img.AddClass("loaded");
          assert img.State() == LazyLoaded(before);
          observed := observed - {img};
        }
        i := i + 1;
      }
      assert entries[..i] == entries;
    }
  }

  // ---------------------------------------------------------------------------
  // Grid items: keyboard activation (script.js:94-101)

  /** `e.key === 'Enter' || e.key === ' '`. */
  predicate IsActivationKey(key: string) {
    key == "Enter" || key == " "
  }

  /**
   * The keydown listener of a grid item. `firstLink` is what `querySelector('a')`
   * finds inside the item; the result is the link to click, if any.
   */
  method OnGridItemKeydown(e: Event, firstLink: Option<Element>) returns (click: Option<Element>)
    modifies e
    ensures e.defaultPrevented == (old(e.defaultPrevented) || IsActivationKey(e.key))
    ensures click == if IsActivationKey(e.key) then firstLink else None
  {
    click := None;
    if e.key == "Enter" || e.key == " " {
      e.PreventDefault();
      if firstLink.Some? {
        click := firstLink;
      }
    }
  }

  // ---------------------------------------------------------------------------
  // Internal anchors (script.js:118-129)

  /** The selector `document.querySelector(href)` receives; a null `href` reads as "null". */
  function HrefSelector(href: Option<string>): string {
    href.GetOr("null")
  }

  /**
   * The click listener of an in-page anchor. `lookup` stands for
   * `document.querySelector`; the result is the element to scroll into view. A bare
   * "#" keeps the default action and scrolls nothing.
   */
  method OnAnchorClick(e: Event, anchor: Element, lookup: string -> Option<Element>)
    returns (scrollTarget: Option<Element>)
    modifies e
    ensures anchor.GetAttribute("href") == Some("#") ==>
      e.defaultPrevented == old(e.defaultPrevented) && scrollTarget == None
    ensures anchor.GetAttribute("href") != Some("#") ==>
      e.defaultPrevented && scrollTarget == lookup(HrefSelector(anchor.GetAttribute("href")))
  {
    var href := anchor.GetAttribute("href");
    scrollTarget := None;
    if href != Some("#") {
      e.PreventDefault();
      scrollTarget := lookup(HrefSelector(href));
    }
  }

  // ---------------------------------------------------------------------------
  // Skip link (script.js:220-229)

  /** The elements an optional lookup result stands for. */
  function Found(e: Option<Element>): set<Element> {
    if e.Some? then {e.value} else {}
  }

  /**
   * The click listener of the skip link. `main` is what `querySelector('.main')`
   * finds; it is made focusable with `tabindex="-1"`, and the result is the element
   * to focus and scroll into view.
   */
  method OnSkipLinkClick(e: Event, main: Option<Element>) returns (focus: Option<Element>)
    modifies e, Found(main)
    ensures e.defaultPrevented && focus == main
    ensures main.Some? ==>
      main.value.State() == old(main.value.State()).(attrs := old(main.value.attrs)["tabindex" := "-1"])
  {
    e.PreventDefault();
    focus := None;
    if main.Some? {
      main.value.SetAttribute("tabindex", "-1");
      focus := main;
    }
  }

  // ---------------------------------------------------------------------------
  // Navigation active state (script.js:137-145)

  /** A navigation link after marking: only a link whose `href` is the current path changes. */
  function NavLinkAfter(s: ElementState, currentPath: string): (r: ElementState)
    ensures Attr(s, "href") == Some(currentPath) ==>
      r.classes == s.classes + {"active"} && Attr(r, "aria-current") == Some("page")
    ensures Attr(s, "href") != Some(currentPath) ==> r == s
    ensures s.classes <= r.classes && r.src == s.src
    ensures forall name :: name != "aria-current" ==> Attr(r, name) == Attr(s, name)
  {
    if Attr(s, "href") == Some(currentPath)
    then s.(classes := s.classes + {"active"}, attrs := s.attrs["aria-current" := "page"])
    else s
  }

  /** Marking is idempotent, since it never changes a link's `href`. */
  lemma NavLinkAfterTwice(s: ElementState, currentPath: string)
    ensures NavLinkAfter(NavLinkAfter(s, currentPath), currentPath) == NavLinkAfter(s, currentPath)
  {
    var once := NavLinkAfter(s, currentPath);
    if Attr(s, "href") == Some(currentPath) {
      assert Attr(once, "href") == Some(currentPath);
      assert once.attrs["aria-current" := "page"] == once.attrs;
    }
  }

  /** `navLinks.forEach(...)`: every link of the list is marked, nothing else changes. */
  method MarkCurrentNavLinks(links: seq<Element>, currentPath: string)
    modifies set l | l in links
    ensures forall i :: 0 <= i < |links| ==> links[i].State() == NavLinkAfter(old(links[i].State()), currentPath)
  {
    var i := 0;
    while i < |links|
      invariant 0 <= i <= |links|
      invariant forall k :: 0 <= k < |links| ==>
        links[k].State() == if links[k] in links[..i] then NavLinkAfter(old(links[k].State()), currentPath)
                            else old(links[k].State())
    {
      var link := links[i];
      assert links[..i + 1] == links[..i] + [link];
      ghost var before := link.State();
      NavLinkAfterTwice(old(link.State()), currentPath);
      if link.GetAttribute("href") == Some(currentPath) {
        link.AddClass("active");
        link.SetAttribute("aria-current", "page");
      }
      assert link.State() == NavLinkAfter(before, currentPath);
      i := i + 1;
    }
    assert links[..i] == links;
  }

  // ---------------------------------------------------------------------------
  // Image loading state (script.js:150-169)

  /** A grid image once its listeners are attached: it carries `loading`. */
  function ImageLoading(s: ElementState): (r: ElementState)
    ensures "loading" in r.classes && r.classes - {"loading"} == s.classes - {"loading"}
    ensures r.attrs == s.attrs && r.src == s.src
  {
    s.(classes := s.classes + {"loading"})
  }

  /** After the `load` event: `loading` gives way to `loaded`. */
  function ImageLoaded(s: ElementState): (r: ElementState)
    ensures "loading" !in r.classes && "loaded" in r.classes
    ensures r.classes - {"loaded"} == s.classes - {"loading", "loaded"}
    ensures r.attrs == s.attrs && r.src == s.src
  {
    s.(classes := s.classes - {"loading"} + {"loaded"})
  }

  /** After the `error` event: `loading` gives way to `error`. */
  function ImageFailed(s: ElementState): (r: ElementState)
    ensures "loading" !in r.classes && "error" in r.classes
    ensures r.classes - {"error"} == s.classes - {"loading", "error"}
    ensures r.attrs == s.attrs && r.src == s.src
  {
    s.(classes := s.classes - {"loading"} + {"error"})
  }

  /**
   * The lazy-loading fallback adds `loaded` as soon as an image enters the
   * viewport, before its `load` event: a grid image that is still loading then
   * carries both `loading` and `loaded`.
   */
  lemma LazyLoadedWhileLoading(s: ElementState)
    ensures "loading" in LazyLoaded(ImageLoading(s)).classes
    ensures "loaded" in LazyLoaded(ImageLoading(s)).classes
  {
  }

  /** `imageElements.forEach(img => img.classList.add('loading'))`. */
  method MarkImagesLoading(images: seq<Element>)
    modifies set img | img in images
    ensures forall i :: 0 <= i < |images| ==> images[i].State() == ImageLoading(old(images[i].State()))
  {
    var i := 0;
    while i < |images|
      invariant 0 <= i <= |images|
      invariant forall k :: 0 <= k < |images| ==>
        images[k].State() == if images[k] in images[..i] then ImageLoading(old(images[k].State()))
                             else old(images[k].State())
    {
      var img := images[i];
      assert images[..i + 1] == images[..i] + [img];
      img.AddClass("loading");
      i := i + 1;
    }
    assert images[..i] == images;
  }

  /** The `load` listener of a grid image. */
  method OnImageLoad(img: Element)
    modifies img
    ensures img.State() == ImageLoaded(old(img.State()))
  {
    img.RemoveClass("loading");
    img.AddClass("loaded");
  }

  /** The `error` listener of a grid image. */
  method OnImageError(img: Element)
    modifies img
    ensures img.State() == ImageFailed(old(img.State()))
  {
    img.RemoveClass("loading");
    img.AddClass("error");
  }
}
