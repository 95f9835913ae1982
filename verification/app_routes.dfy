/**
 * How the application shell turns its page manifest into pages, menu items
 * and routes: each manifest entry names a page module by convention
 * ("home" -> ./pages/Home.tsx, export Home); entries whose module does not
 * exist are dropped, the rest keep manifest order.
 */
module AppRoutes {
  import opened Wrappers

  /** One manifest entry. `caption` is the entry's menu label. */
  datatype RouteMeta = RouteMeta(name: string, caption: string, path: string, icon: Option<string>)

  /** The icons the shell can show in its menu. */
  datatype Icon = HomeIcon | LogInIcon | NetworkIcon

  /** A lazily loaded page: the module it is imported from and the export used. */
  datatype PageComponent = PageComponent(moduleKey: string, exportName: string)

  datatype PageConfig = PageConfig(
    caption: string,
    path: string,
    routePath: string,
    isIndex: bool,
    icon: Option<Icon>,
    component: PageComponent)

  datatype MenuNode = MenuNode(caption: string, path: string, icon: Option<Icon>)

  datatype RouteInfo = RouteInfo(routePath: string, isIndex: bool)

  datatype Element = PageElement(component: PageComponent) | NotFoundElement

  /** A route of the router; the catch-all route has no explicit key. */
  datatype Route = Route(key: Option<string>, path: string, element: Element)

  const PagesDir := "./pages/"
  const ComponentExt := ".tsx"
  const IndexPath := "/"
  const CatchAllPath := "*"

  predicate IsLowerAscii(c: char) {
    'a' <= c <= 'z'
  }

  /** Upper-casing of one character, for ASCII letters. */
  function UpperChar(c: char): (u: char)
    ensures !IsLowerAscii(u)
    ensures IsLowerAscii(c) ==> u as int == c as int - 32
    ensures !IsLowerAscii(c) ==> u == c
  {
    if IsLowerAscii(c) then (c as int - 32) as char else c
  }

  /** The export name of a page: the name with its first character upper-cased. */
  function ToComponentName(name: string): (r: string)
    ensures |r| == |name|
    ensures forall i :: 1 <= i < |name| ==> r[i] == name[i]
    ensures |r| > 0 ==> r[0] == UpperChar(name[0]) && !IsLowerAscii(r[0])
    ensures |r| > 0 && !IsLowerAscii(name[0]) ==> r[0] == name[0]
  {
    if |name| == 0 then "" else [UpperChar(name[0])] + name[1..]
  }

  /** Capitalising twice is capitalising once. */
  lemma ToComponentNameIdempotent(name: string)
    ensures ToComponentName(ToComponentName(name)) == ToComponentName(name)
  {
  }

  /** A name is its own component name exactly when it is empty or does not
      start with a lower-case letter. */
  lemma ToComponentNameFixedPoints(name: string)
    ensures ToComponentName(name) == name <==> (|name| == 0 || !IsLowerAscii(name[0]))
  {
  }

  /** The file of a page: its component name with the `.tsx` extension. */
  function GetComponentPath(name: string): (r: string)
    ensures |r| == |name| + |ComponentExt|
    ensures r[..|name|] == ToComponentName(name)
    ensures r[|name|..] == ComponentExt
  {
    ToComponentName(name) + ComponentExt
  }

  /** The documented example: "home" is the page `Home`, in `Home.tsx`. */
  lemma HomeExample()
    ensures ToComponentName("home") == "Home"
    ensures GetComponentPath("home") == "Home.tsx"
  {
    assert UpperChar('h') == 'H';
    assert ToComponentName("home") == ['H'] + "ome";
    assert ['H'] + "ome" == "Home";
    assert "Home" + ".tsx" == "Home.tsx";
  }

  /** The key of a page module in the map of modules under ./pages. */
  function ModuleKey(name: string): (r: string)
    ensures |r| == |PagesDir| + |name| + |ComponentExt|
    ensures r[..|PagesDir|] == PagesDir
    ensures r[|PagesDir|..] == GetComponentPath(name)
  {
    PagesDir + GetComponentPath(name)
  }

  /** Two names lead to the same module exactly when they have the same
      component name, i.e. differ at most in the case of a leading letter. */
  lemma SameModuleIffSameComponent(a: string, b: string)
    ensures ModuleKey(a) == ModuleKey(b) <==> ToComponentName(a) == ToComponentName(b)
  {
  }

  /** The root path becomes the index route; any other path is its own route. */
  function GetRouteInfo(path: string): (r: RouteInfo)
    ensures r.isIndex <==> path == IndexPath
    ensures r.isIndex ==> r.routePath == ""
    ensures !r.isIndex ==> r.routePath == path
  {
    if path == IndexPath then RouteInfo("", true) else RouteInfo(path, false)
  }

  /** The name an icon is listed under in the manifest. */
  function IconName(i: Icon): string {
    match i
    case HomeIcon => "Home"
    case LogInIcon => "LogIn"
    case NetworkIcon => "Network"
  }

  /** The icon of a manifest entry: only the three listed names resolve; a
      missing or empty name, or any other name, gives no icon. */
  function ResolveIcon(icon: Option<string>): (r: Option<Icon>)
    ensures r.Some? <==> icon.Some? && icon.value in {"Home", "LogIn", "Network"}
    ensures r.Some? ==> icon == Some(IconName(r.value))
  {
    if icon.None? || icon.value == "" then None
    else if icon.value == "Home" then Some(HomeIcon)
    else if icon.value == "LogIn" then Some(LogInIcon)
    else if icon.value == "Network" then Some(NetworkIcon)
    else None
  }

  /** Every icon resolves back from its own name. */
  lemma IconRoundTrip(i: Icon)
    ensures ResolveIcon(Some(IconName(i))) == Some(i)
  {
  }

  /** The page for one manifest entry, or nothing when its module is missing. */
  function DerivePage(meta: RouteMeta, modules: set<string>): (r: Option<PageConfig>)
    ensures r.Some? <==> ModuleKey(meta.name) in modules
    ensures r.Some? ==>
      && r.value.caption == meta.caption
      && r.value.path == meta.path
      && (r.value.isIndex <==> meta.path == IndexPath)
      && r.value.routePath == GetRouteInfo(meta.path).routePath
      && r.value.icon == ResolveIcon(meta.icon)
      && r.value.component == PageComponent(ModuleKey(meta.name), ToComponentName(meta.name))
  {
    var key := ModuleKey(meta.name);
    if key !in modules then None
    else
      var info := GetRouteInfo(meta.path);
      Some(PageConfig(meta.caption, meta.path, info.routePath, info.isIndex, ResolveIcon(meta.icon),
                      PageComponent(key, ToComponentName(meta.name))))
  }

  /** All pages of the manifest: map every entry, then drop the missing ones. */
  function DerivePages(metas: seq<RouteMeta>, modules: set<string>): (r: seq<PageConfig>)
    ensures |r| <= |metas|
  {
    PagesFrom(metas, modules, 0)
  }

  /** The pages of the manifest entries from position `from` on. */
  function PagesFrom(metas: seq<RouteMeta>, modules: set<string>, from: nat): (r: seq<PageConfig>)
    ensures from <= |metas| ==> |r| <= |metas| - from
    decreases |metas| - from
  {
    if from >= |metas| then []
    else
      var rest := PagesFrom(metas, modules, from + 1);
      match DerivePage(metas[from], modules)
      case Some(p) => [p] + rest
      case None => rest
  }

  /** Reference for the filter: the positions, from `from` on, of the
      manifest entries whose module exists, in increasing order. */
  function KeptFrom(metas: seq<RouteMeta>, modules: set<string>, from: nat): (idx: seq<nat>)
    ensures forall i :: 0 <= i < |idx| ==> from <= idx[i] < |metas|
    ensures forall i, j :: 0 <= i < j < |idx| ==> idx[i] < idx[j]
    decreases |metas| - from
  {
    if from >= |metas| then []
    else
      var rest := KeptFrom(metas, modules, from + 1);
      if ModuleKey(metas[from].name) in modules then [from] + rest else rest
  }

  function KeptIndices(metas: seq<RouteMeta>, modules: set<string>): (idx: seq<nat>)
    ensures forall i :: 0 <= i < |idx| ==> idx[i] < |metas|
  {
    KeptFrom(metas, modules, 0)
  }

  /** A position is listed exactly when its module exists. */
  lemma {:induction false} KeptFromExact(metas: seq<RouteMeta>, modules: set<string>, from: nat, m: nat)
    requires from <= m < |metas|
    ensures m in KeptFrom(metas, modules, from) <==> ModuleKey(metas[m].name) in modules
    decreases |metas| - from
  {
    if from < m {
      KeptFromExact(metas, modules, from + 1, m);
    }
  }

  /** The pages are the kept manifest entries, in manifest order, each turned
      into its page. */
  lemma {:induction false} PagesFollowKept(metas: seq<RouteMeta>, modules: set<string>, from: nat)
    ensures var idx := KeptFrom(metas, modules, from);
      var pages := PagesFrom(metas, modules, from);
      && |pages| == |idx|
      && forall i :: 0 <= i < |idx| ==> DerivePage(metas[idx[i]], modules) == Some(pages[i])
    decreases |metas| - from
  {
    if from < |metas| {
      PagesFollowKept(metas, modules, from + 1);
      var rest := PagesFrom(metas, modules, from + 1);
      var restIdx := KeptFrom(metas, modules, from + 1);
      if ModuleKey(metas[from].name) in modules {
        var p := DerivePage(metas[from], modules).value;
        assert PagesFrom(metas, modules, from) == [p] + rest;
        assert KeptFrom(metas, modules, from) == [from] + restIdx;
        DerivedPagesCons(metas, modules, restIdx, rest, from, p);
      } else {
        assert PagesFrom(metas, modules, from) == rest;
        assert KeptFrom(metas, modules, from) == restIdx;
      }
    }
  }

  /** Putting one more derived page in front of a matching list of positions
      and pages keeps them matching. */
  lemma DerivedPagesCons(metas: seq<RouteMeta>, modules: set<string>, idx: seq<nat>, pages: seq<PageConfig>,
                         m: nat, p: PageConfig)
    requires m < |metas| && DerivePage(metas[m], modules) == Some(p)
    requires |pages| == |idx| && forall i :: 0 <= i < |idx| ==> idx[i] < |metas|
    requires forall i :: 0 <= i < |idx| ==> DerivePage(metas[idx[i]], modules) == Some(pages[i])
    ensures var idx' := [m] + idx; var pages' := [p] + pages;
      forall i :: 0 <= i < |idx'| ==> idx'[i] < |metas| && DerivePage(metas[idx'[i]], modules) == Some(pages'[i])
  {
    var idx' := [m] + idx;
    var pages' := [p] + pages;
    forall i | 0 <= i < |idx'|
      ensures idx'[i] < |metas| && DerivePage(metas[idx'[i]], modules) == Some(pages'[i])
    {
      if i > 0 {
        assert idx'[i] == idx[i - 1] && pages'[i] == pages[i - 1];
      }
    }
  }

  /** `idx` lists, in increasing order, exactly the positions of `metas`
      whose module exists. */
  predicate IsKeptSelection(metas: seq<RouteMeta>, modules: set<string>, idx: seq<nat>) {
    && (forall i :: 0 <= i < |idx| ==> idx[i] < |metas|)
    && (forall i, j :: 0 <= i < j < |idx| ==> idx[i] < idx[j])
    && (forall m :: 0 <= m < |metas| ==> (ModuleKey(metas[m].name) in modules <==> m in idx))
  }

  /** Page derivation keeps manifest order and drops exactly the entries
      whose module is missing: the pages are, one for one, the entries at an
      increasing list of positions that holds every position whose module
      exists and no other. */
  lemma DerivePagesKeepsManifestOrder(metas: seq<RouteMeta>, modules: set<string>)
    ensures var idx := KeptIndices(metas, modules);
      var pages := DerivePages(metas, modules);
      && IsKeptSelection(metas, modules, idx)
      && |pages| == |idx|
      && forall i :: 0 <= i < |idx| ==> DerivePage(metas[idx[i]], modules) == Some(pages[i])
  {
    PagesFollowKept(metas, modules, 0);
    forall m | 0 <= m < |metas|
      ensures ModuleKey(metas[m].name) in modules <==> m in KeptIndices(metas, modules)
    {
      KeptFromExact(metas, modules, 0, m);
    }
  }

  /** The menu lists the pages, in order, with their caption, path and icon. */
  function MenuItems(pages: seq<PageConfig>): (r: seq<MenuNode>)
    ensures |r| == |pages|
  {
    seq(|pages|, i requires 0 <= i < |pages| => MenuNode(pages[i].caption, pages[i].path, pages[i].icon))
  }

  /** The menu shows, in manifest order, one item per kept manifest entry with
      that entry's caption, path and resolved icon. */
  lemma MenuFollowsManifest(metas: seq<RouteMeta>, modules: set<string>)
    ensures var idx := KeptIndices(metas, modules);
      var menu := MenuItems(DerivePages(metas, modules));
      && |menu| == |idx|
      && forall i :: 0 <= i < |idx| ==>
           menu[i] == MenuNode(metas[idx[i]].caption, metas[idx[i]].path, ResolveIcon(metas[idx[i]].icon))
  {
    DerivePagesKeepsManifestOrder(metas, modules);
  }

  /** The route of one page: the index page is served at the root path. */
  function RouteFor(p: PageConfig): Route {
    if p.isIndex then Route(Some("index"), IndexPath, PageElement(p.component))
    else Route(Some(p.routePath), p.routePath, PageElement(p.component))
  }

  /** The route table: one route per page, in page order, then the catch-all. */
  function RouteList(pages: seq<PageConfig>): (r: seq<Route>)
    ensures |r| == |pages| + 1
    ensures r[|pages|] == Route(None, CatchAllPath, NotFoundElement)
    ensures forall i :: 0 <= i < |pages| ==> r[i].element == PageElement(pages[i].component)
    ensures forall i :: 0 <= i < |pages| ==>
      && r[i].path == (if pages[i].isIndex then IndexPath else pages[i].routePath)
      && r[i].key == (if pages[i].isIndex then Some("index") else Some(pages[i].routePath))
  {
    seq(|pages|, i requires 0 <= i < |pages| => RouteFor(pages[i])) + [Route(None, CatchAllPath, NotFoundElement)]
  }

  /** Splitting a path into route path and index flag and serving the index
      at the root path gives back the original path. */
  lemma RouteInfoRoundTrip(path: string)
    ensures var info := GetRouteInfo(path);
      (if info.isIndex then IndexPath else info.routePath) == path
  {
  }

  /** Every kept manifest entry is served at its own manifest path by its own
      page component, and everything else falls through to the not-found page. */
  lemma RoutesServeManifestPaths(metas: seq<RouteMeta>, modules: set<string>)
    ensures var idx := KeptIndices(metas, modules);
      var routes := RouteList(DerivePages(metas, modules));
      && |routes| == |idx| + 1
      && (forall i :: 0 <= i < |idx| ==>
            && routes[i].path == metas[idx[i]].path
            && routes[i].element == PageElement(PageComponent(ModuleKey(metas[idx[i]].name),
                                                              ToComponentName(metas[idx[i]].name))))
      && routes[|idx|] == Route(None, CatchAllPath, NotFoundElement)
  {
    var idx := KeptIndices(metas, modules);
    var pages := DerivePages(metas, modules);
    DerivePagesKeepsManifestOrder(metas, modules);
    forall i | 0 <= i < |idx|
      ensures RouteList(pages)[i].path == metas[idx[i]].path
    {
      assert RouteList(pages)[i] == RouteFor(pages[i]);
      RouteInfoRoundTrip(metas[idx[i]].path);
    }
  }
}
