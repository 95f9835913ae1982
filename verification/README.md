# Org chart layout, drop targets and page routing — a Dafny model

This project models the computational core of an organisation-chart web app.

- **Layout.** The chart turns a tree of members (`OrgNode`: id, name, title,
  department, avatar, optional email and parent id, children) into positioned
  cards and parent-to-child edges. `getSubtreeWidth` computes, bottom up, how
  wide each subtree is. `processNode` walks the tree top down: it emits each
  member's card, centres the row of its children under it, gives every child
  a slot as wide as the child's subtree, and places each level one card
  height plus one vertical gap lower.
- **Drag and drop.** While a card is dragged, the first other card whose box
  holds the dragged card's centre is highlighted. When the drag stops over
  such a card, a move of the dragged member under that card's member is
  requested. Otherwise the chart is laid out afresh from the tree.
- **Page routing.** The application shell reads a manifest of pages. It
  derives each page's module path and export name from the entry's name,
  drops entries whose module does not exist, and builds the menu and the
  route table. Routes come in manifest order and end with a catch-all
  not-found route.

Modules:

- `Wrappers`: `Option`.
- `OrgTree`: the member tree, its size, and a pre-order walk (`Visits`) that
  records each member's depth and parent. The walk is the independent
  reference the layout is compared with.
- `Widths`: the width pass. The JavaScript `reduce` seeded with minus one
  spacing is modelled as a left fold (`Reduce`). `SumWidths` is the plain sum
  it is proved equal to.
- `Layout`: `ProcessNode`, and `PlaceRow` (the `forEach` over one row of
  children), plus `ConvertToFlow`.
- `LayoutFacts`: the cards and edges follow the pre-order walk.
- `Placement`: where each child lands, how siblings are spaced, and how a row
  is centred. It ends with a worked example.
- `DropTarget`: the hit test shared by both drag handlers, and the two
  handlers.
- `AppRoutes`: name-to-component conventions, page derivation, the menu and
  the route table.

Every width in the layout is even: cards are 180 wide and spacings 40. So
the halvings in `processNode` are exact, and coordinates are modelled as
integers.

## Model

| member | source | states |
|---|---|---|
| Widths.SubtreeWidth | pages/components/ReactFlowOrgChart.tsx:363-370 | a subtree is never narrower than one card, and its width is even, so halving it is exact |
| Widths.Reduce | pages/components/ReactFlowOrgChart.tsx:367-368 | the fold adds an even amount of at least one card plus one spacing per child to its seed |
| Widths.ReduceIsSum | pages/components/ReactFlowOrgChart.tsx:367-368 | the fold equals its seed plus the sum of the children's subtree widths plus one spacing per child |
| Widths.RowWidthClosedForm | pages/components/ReactFlowOrgChart.tsx:389-390 | a row of k children is as wide as their subtrees plus k-1 spacings; it is even, and at least one card wide when non-empty |
| Widths.SubtreeWidthRule | pages/components/ReactFlowOrgChart.tsx:363-370 | a leaf is exactly one card wide; an internal member is the larger of one card and its children's widths plus the gaps between them, which is the same value as the row width computed at lines 389-390 |
| Widths.SubtreeWidthMultipleOfFour | pages/components/ReactFlowOrgChart.tsx:363-370 | every subtree width is a multiple of four, since a card is 180 wide, a gap is 40 and the fold starts at minus one gap; so half a width is even |
| Widths.ReduceMultipleOfFour | pages/components/ReactFlowOrgChart.tsx:367-368 | the fold started from a multiple of four ends on a multiple of four |
| OrgTree.VisitsFollowLinks | pages/components/ReactFlowOrgChart.tsx:394-413 | the walk starts at the member itself; every later step is a child of the member recorded as its parent, and is deeper than the start |
| Layout.ProcessNode | pages/components/ReactFlowOrgChart.tsx:372-417 | processing a member emits one card per member of its subtree and one edge per member below it |
| Layout.PlaceRow | pages/components/ReactFlowOrgChart.tsx:394-415 | a row of children emits one card and one edge per member in the children's subtrees |
| Layout.ProcessNodeShape | pages/components/ReactFlowOrgChart.tsx:373-386 | the first card is the member's own card at (x, y): root flag as given, draggable exactly when not root, highlighted exactly when the member is the hovered one. Every later card is a non-root, draggable card, and edge i points at card i+1 |
| Layout.PlaceRowShape | pages/components/ReactFlowOrgChart.tsx:394-415 | every card of a row is non-root and draggable, and edge i points at card i |
| Layout.ConvertToFlow | pages/components/ReactFlowOrgChart.tsx:354-421 | the chart has one card per member and one edge fewer. The first card is the tree's root, at (0, 0). It is the only root card and the only fixed card; every other card is draggable. Edge i points at card i+1 |
| LayoutFacts.ProcessNodeCards | pages/components/ReactFlowOrgChart.tsx:372-417 | cards come out in pre-order, each showing its member, highlighted exactly when hovered, one level step lower per level of depth |
| LayoutFacts.PlaceRowCards | pages/components/ReactFlowOrgChart.tsx:394-415 | a row's cards are its children's subtrees in pre-order, one level below the parent |
| LayoutFacts.ProcessNodeEdges | pages/components/ReactFlowOrgChart.tsx:388-416 | edge i is the link from the parent of the (i+1)-th member of the pre-order walk into that member, with id "parent-child" |
| LayoutFacts.PlaceRowEdges | pages/components/ReactFlowOrgChart.tsx:394-415 | each child's edge comes just before its subtree's edges, and the row's edges follow the walk of the row |
| LayoutFacts.ChartFollowsWalk | pages/components/ReactFlowOrgChart.tsx:354-421 | the chart lists its cards in pre-order. The card at depth d sits at y = 220·d. Each card carries its member's id and is highlighted exactly when that member is hovered. There is exactly one edge per parent-to-child link, in walk order |
| Placement.RowIndexCountsEarlierSubtrees | pages/components/ReactFlowOrgChart.tsx:394-415 | a child's card comes after exactly the members of its earlier siblings' subtrees |
| Placement.RowIndexStep | pages/components/ReactFlowOrgChart.tsx:413-414 | the next sibling's card comes right after the whole subtree of this sibling |
| Placement.RowSlotXClosedForm | pages/components/ReactFlowOrgChart.tsx:392-414 | stepping `currentX` over the earlier slots puts the left edge of child j's slot after the earlier slots and one spacing per earlier sibling |
| Placement.PlaceRowSuffixNodes | pages/components/ReactFlowOrgChart.tsx:394-415 | from child j's position on, a row's cards are exactly those of the rest of the row laid out on its own from child j's slot |
| Placement.PlaceRowSuffixEdges | pages/components/ReactFlowOrgChart.tsx:394-415 | from child j's position on, a row's edges are exactly those of the rest of the row laid out on its own from child j's slot |
| Placement.RowHeadBlock | pages/components/ReactFlowOrgChart.tsx:394-415 | a row starts with its first child's subtree, laid out with the card centred in the first slot; its edges start with that child's own edge, then that subtree's edges |
| Placement.PlaceRowChildNodes | pages/components/ReactFlowOrgChart.tsx:394-415 | in a row's cards, child j's whole subtree sits in one block after the earlier subtrees, and the block is exactly child j laid out on its own at the stepped x and the row's y |
| Placement.PlaceRowChildEdges | pages/components/ReactFlowOrgChart.tsx:394-415 | in a row's edges, child j's own edge is at the position of its card, followed by exactly the edges of child j laid out on its own |
| Placement.PlaceRowChildCard | pages/components/ReactFlowOrgChart.tsx:394-414 | in a row's output, child j's card is at the position after the earlier subtrees, at the stepped x and the row's y |
| Placement.PlaceRowChildEdge | pages/components/ReactFlowOrgChart.tsx:399-411 | in a row's output, child j's edge links the row's parent to child j, at the same position as its card |
| Placement.ChildPlacement | pages/components/ReactFlowOrgChart.tsx:389-414 | child j's card is one level lower than its parent, with its centre on the centre of its slot; the edge just before it links it to the parent |
| Placement.ChildBlock | pages/components/ReactFlowOrgChart.tsx:389-415 | inside a member's layout, child j's subtree is one block of cards, exactly child j laid out on its own one level lower with its card centred in its slot; the edge before the block links the member to child j, and the block's edges are exactly that layout's edges. So every fact about a member's layout at any position also holds for every subtree, at every depth |
| Placement.SlotsAbut | pages/components/ReactFlowOrgChart.tsx:414 | each slot starts one spacing after the previous slot ends |
| Placement.RowCentred | pages/components/ReactFlowOrgChart.tsx:389-392 | the first slot's left edge and the last slot's right edge are equally far from the parent card's centre |
| Placement.OnlyChildBelow | pages/components/ReactFlowOrgChart.tsx:389-397 | an only child sits straight below its parent |
| Placement.SiblingSpacing | pages/components/ReactFlowOrgChart.tsx:394-414 | neighbouring siblings' cards are half of each one's subtree width plus one spacing apart; equal-width neighbours are width plus spacing apart |
| Placement.TwoLeavesExample | pages/components/ReactFlowOrgChart.tsx:354-421 | a root with two leaves puts them at x = -110 and 110, one level down, with edges "r-a" and "r-b" |
| DropTarget.FindTarget | pages/components/ReactFlowOrgChart.tsx:462-474 | the result is the first card, other than the dragged one, whose closed 180×140 box holds the dragged card's centre; there is no result exactly when no card qualifies |
| DropTarget.HoverWhileDragging | pages/components/ReactFlowOrgChart.tsx:440-454 | the highlighted id is that of the first drop target, none exactly when there is none, and never the dragged card itself |
| DropTarget.DragStop | pages/components/ReactFlowOrgChart.tsx:457-483 | a move is requested exactly when a drop target exists. It moves the dragged member under the first target, never under itself. Otherwise the cards are reset to a fresh layout of the tree |
| AppRoutes.UpperChar | App.tsx:47 | the result is not a lower-case letter; a lower-case letter maps to its capital and every other character is kept |
| AppRoutes.ToComponentName | App.tsx:46-48 | same length, same characters after the first; the first character is its capital, so it is no longer lower case |
| AppRoutes.HomeExample | App.tsx:42-56 | the documented example: "home" becomes the component "Home" in the file "Home.tsx" |
| AppRoutes.ToComponentNameIdempotent | App.tsx:46-48 | capitalising twice is capitalising once |
| AppRoutes.ToComponentNameFixedPoints | App.tsx:46-48 | a name is left unchanged exactly when it is empty or does not start with a lower-case letter |
| AppRoutes.GetComponentPath | App.tsx:54-56 | the file name is the component name followed by ".tsx" |
| AppRoutes.ModuleKey | App.tsx:98-100 | the module key is "./pages/" followed by the component file name |
| AppRoutes.SameModuleIffSameComponent | App.tsx:97-101 | two manifest names look up the same module exactly when they have the same component name |
| AppRoutes.GetRouteInfo | App.tsx:61-66 | a path is the index route exactly when it is "/"; the index gets an empty route path, and any other path is its own route path |
| AppRoutes.RouteInfoRoundTrip | App.tsx:61-66 | serving the index at "/" and every other page at its route path gives back the manifest path |
| AppRoutes.ResolveIcon | App.tsx:111 | an entry gets an icon exactly when its icon name is "Home", "LogIn" or "Network", and that icon is listed under that name |
| AppRoutes.IconRoundTrip | App.tsx:32-36 | each icon is found again under its own name |
| AppRoutes.DerivePage | App.tsx:96-120 | an entry yields a page exactly when its module exists. The page keeps the entry's label and path, is the index exactly for "/", has the route path that `GetRouteInfo` gives for its path (empty for "/", the path itself otherwise), carries the resolved icon, and loads the named export of that module |
| AppRoutes.DerivePages | App.tsx:94-123 | there are never more pages than manifest entries |
| AppRoutes.PagesFrom | App.tsx:95-122 | the entries from a position on yield at most as many pages as there are entries |
| AppRoutes.KeptFrom | App.tsx:122 | the kept positions are in range and strictly increasing |
| AppRoutes.KeptFromExact | App.tsx:103-106 | a position is kept exactly when its module exists |
| AppRoutes.PagesFollowKept | App.tsx:94-123 | the pages are, one for one and in order, the pages of the kept entries |
| AppRoutes.DerivePagesKeepsManifestOrder | App.tsx:94-123 | page derivation keeps manifest order and drops exactly the entries whose module is missing |
| AppRoutes.MenuItems | App.tsx:125-131 | one menu item per page |
| AppRoutes.MenuFollowsManifest | App.tsx:125-131 | the menu shows, in manifest order, one item per kept entry, with that entry's label, path and resolved icon |
| AppRoutes.RouteList | App.tsx:164-173 | one route per page, in order, each rendering its page's component: the index page is served at "/" under the key "index", any other page at its route path under that path as key; then the catch-all not-found route |
| AppRoutes.RoutesServeManifestPaths | App.tsx:164-173 | each kept entry is served at its own manifest path by its own component, and the last route is the not-found route at "*" |

## Left out

- React state, hooks, memoisation, and re-rendering are not modelled. The
  highlighted card id is a parameter of the layout. `setHoveredNodeId(null)`
  in the drag-stop handler takes effect only on the next render, so
  `DragStop` lays out the reset chart with the highlight it was given.
- The renderer's node list (`getNodes()`) is a parameter of the drag
  handlers. Callbacks, node type, edge style and arrow markers are not part
  of the cards and edges.
- The card, modal and form components, and the Home, Login, NotFound and
  server files, are not part of this model. So are the tree store
  operations: adding, editing, deleting and moving members, the cycle guard,
  and id allocation. The move request that `DragStop` returns is where the
  chart hands over to them.
- Manifest loading (`window.__MANIFEST__`, `fetch`, its error path and the
  loading screen) is not modelled. The manifest is a parameter. The module
  map from `import.meta.glob` is modelled as the set of its keys, and lazy
  importing as the pair of module key and export name. An entry whose module
  is missing is dropped, but the `console.error` message logged for it
  (App.tsx:104) is not modelled.
- `OrgNode.children` is a sequence. A missing `children` array is treated
  like an empty one, exactly as both width and layout code do.
- Positions are integers. Every subtree width is a multiple of four
  (`SubtreeWidthMultipleOfFour`), so every halving of a width is exact and
  gives an even number. The renderer's drag positions are JavaScript numbers and may be fractional;
  the model takes them as integers.
- UpperChar: upper-cases ASCII letters only. JavaScript `toUpperCase` also
  maps other scripts, and may lengthen a string, as "ß" becomes "SS".
- ResolveIcon: models `Icons` as a plain three-entry table. Names inherited
  from `Object.prototype`, such as "toString", would make the source return
  a non-component value; here they give no icon.
- MenuItems: its own contract states only the length. The contents are
  stated by `MenuFollowsManifest`.
- DerivePages: its own contract states only the bound. Order and contents
  are stated by `DerivePagesKeepsManifestOrder`.
