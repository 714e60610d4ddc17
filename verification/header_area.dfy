/** The two header components, `src/app/shared/layouts/HeaderArea.js` and
    `src/components/layout/HeaderArea.js`: the menu tree built from the
    flat menu list, the effect that loads it, the fallback menus, the
    render guard, and the click handler of the first copy. Both copies
    share `buildMenuHierarchy` line for line; they differ in their
    fallback menus and in what a click does. */
module HeaderArea {
  import opened Optional
  import opened StableSort

  /** A field of a menu row that the tree compares with `===`: it may be
      missing, null, a number or a text, and strict equality tells all four
      apart, so `"1"` is not the level 1 and a null parent code does not
      match a missing code. */
  datatype Scalar = Undefined | Null | Num(n: int) | Text(s: string)

  /** One row of the menu list. The codes and the level are compared
      strictly; the URL may be null; an order is a number. */
  datatype Menu = Menu(
    mnuCd: Scalar,
    pMnuCd: Scalar,
    mnuLvl: Scalar,
    mnuUseYn: string,
    mnuOrd: int,
    mnuNm: string,
    mnuUrl: Option<string>)

  /** A first-level menu with its second-level children. */
  datatype Node = Node(menu: Menu, children: seq<Menu>)

  function Ord(m: Menu): int {
    m.mnuOrd
  }

  function NodeOrd(n: Node): int {
    n.menu.mnuOrd
  }

  /** A menu of the given level that is in use. */
  predicate Enabled(m: Menu, level: int) {
    m.mnuLvl == Num(level) && m.mnuUseYn == "Y"
  }

  /** The menus of one level that are in use, in list order. */
  function Level(list: seq<Menu>, level: int): (r: seq<Menu>)
    ensures forall m :: m in r <==> m in list && Enabled(m, level)
  {
    if list == [] then []
    else
      assert list == [list[0]] + list[1..];
      (if Enabled(list[0], level) then [list[0]] else []) + Level(list[1..], level)
  }

  /** The second-level menus whose parent code equals `code`. */
  function ChildrenOf(level2: seq<Menu>, code: Scalar): (r: seq<Menu>)
    ensures forall m :: m in r <==> m in level2 && m.pMnuCd == code
  {
    if level2 == [] then []
    else
      assert level2 == [level2[0]] + level2[1..];
      (if level2[0].pMnuCd == code then [level2[0]] else []) + ChildrenOf(level2[1..], code)
  }

  /** Each first-level menu with its children sorted by `mnuOrd`, in the
      order of `level1`. */
  function Attach(level1: seq<Menu>, level2: seq<Menu>): (r: seq<Node>)
    ensures |r| == |level1|
  {
    seq(|level1|, i requires 0 <= i < |level1| => Node(level1[i], SortBy(ChildrenOf(level2, level1[i].mnuCd), Ord)))
  }

  /** `buildMenuHierarchy(menuList)`: the nodes sorted by `mnuOrd`. */
  function BuildMenuHierarchy(list: seq<Menu>): seq<Node> {
    SortBy(Attach(Level(list, 1), Level(list, 2)), NodeOrd)
  }

  /** The first-level menus of a tree, in order. */
  function Items(ns: seq<Node>): (r: seq<Menu>)
    ensures |r| == |ns|
  {
    if ns == [] then [] else [ns[0].menu] + Items(ns[1..])
  }

  lemma ItemsAttach(level1: seq<Menu>, level2: seq<Menu>)
    ensures Items(Attach(level1, level2)) == level1
  {
    var ns := Attach(level1, level2);
    forall i | 0 <= i < |ns| ensures Items(ns)[i] == level1[i] {
      ItemAt(ns, i);
    }
  }

  /** Taking the menus of the nodes commutes with inserting by order. */
  lemma {:induction false} ItemsInsert(n: Node, ns: seq<Node>)
    ensures Items(Insert(n, ns, NodeOrd)) == Insert(n.menu, Items(ns), Ord)
    decreases |ns|
  {
    if ns == [] || NodeOrd(n) <= NodeOrd(ns[0]) {
      ItemsCons(n, ns);
    } else {
      var h, t := ns[0], ns[1..];
      assert ns == [h] + t;
      ItemsCons(h, t);
      var ms := Items(ns);
      assert ms[0] == h.menu && ms[1..] == Items(t);
      InsertUnfold(n, ns, NodeOrd);
      InsertUnfold(n.menu, ms, Ord);
      ItemsInsert(n, t);
      ItemsCons(h, Insert(n, t, NodeOrd));
    }
  }

  lemma ItemsCons(n: Node, ns: seq<Node>)
    ensures Items([n] + ns) == [n.menu] + Items(ns)
  {
    assert ([n] + ns)[1..] == ns;
  }

  lemma {:induction false} ItemsSort(ns: seq<Node>)
    ensures Items(SortBy(ns, NodeOrd)) == SortBy(Items(ns), Ord)
    decreases |ns|
  {
    if ns != [] {
      ItemsSort(ns[1..]);
      ItemsInsert(ns[0], SortBy(ns[1..], NodeOrd));
    }
  }

  /** The first-level menus of the tree are the enabled level-1 menus of
      the list sorted by `mnuOrd` with a stable sort: each of them appears
      as often as in the list, no other menu appears, and menus of equal
      order keep the order of the list. */
  lemma HierarchyTopLevel(list: seq<Menu>)
    ensures StablySorted(Level(list, 1), Items(BuildMenuHierarchy(list)), Ord)
    ensures multiset(Items(BuildMenuHierarchy(list))) == multiset(Level(list, 1))
    ensures forall m :: m in Items(BuildMenuHierarchy(list)) <==> m in list && Enabled(m, 1)
  {
    var level1 := Level(list, 1);
    ItemsAttach(level1, Level(list, 2));
    ItemsSort(Attach(level1, Level(list, 2)));
    SortIsStable(level1, Ord);
    var items := Items(BuildMenuHierarchy(list));
    forall m ensures m in items <==> m in level1 {
      assert m in items <==> m in multiset(items);
    }
  }

  /** A node of the tree is one of the attached nodes. */
  lemma NodeOfTree(list: seq<Menu>, i: nat) returns (j: nat)
    requires i < |BuildMenuHierarchy(list)|
    ensures j < |Level(list, 1)|
    ensures BuildMenuHierarchy(list)[i] == Attach(Level(list, 1), Level(list, 2))[j]
  {
    var ns := Attach(Level(list, 1), Level(list, 2));
    j := IndexInPermutation(BuildMenuHierarchy(list), ns, i);
  }

  /** The children of each node are exactly the enabled level-2 menus
      whose parent code is the node's code, sorted by `mnuOrd` with a
      stable sort. */
  lemma HierarchyChildren(list: seq<Menu>, i: nat)
    requires i < |BuildMenuHierarchy(list)|
    ensures var n := BuildMenuHierarchy(list)[i];
      StablySorted(ChildrenOf(Level(list, 2), n.menu.mnuCd), n.children, Ord)
      && (forall c :: c in n.children <==> c in list && Enabled(c, 2) && c.pMnuCd == n.menu.mnuCd)
  {
    var n := BuildMenuHierarchy(list)[i];
    var j := NodeOfTree(list, i);
    var kids := ChildrenOf(Level(list, 2), n.menu.mnuCd);
    assert n.children == SortBy(kids, Ord);
    SortIsStable(kids, Ord);
    forall c ensures c in n.children <==> c in kids {
      assert c in n.children <==> c in multiset(n.children);
    }
  }

  /** Only menus of levels 1 and 2 appear: every node is an enabled
      level-1 menu of the list and every child an enabled level-2 one. */
  lemma OnlyTwoLevels(list: seq<Menu>)
    ensures forall i :: 0 <= i < |BuildMenuHierarchy(list)| ==>
      BuildMenuHierarchy(list)[i].menu in list && Enabled(BuildMenuHierarchy(list)[i].menu, 1)
      && forall c :: c in BuildMenuHierarchy(list)[i].children ==> c in list && Enabled(c, 2)
  {
    var r := BuildMenuHierarchy(list);
    forall i | 0 <= i < |r|
      ensures r[i].menu in list && Enabled(r[i].menu, 1)
      ensures forall c :: c in r[i].children ==> c in list && Enabled(c, 2)
    {
      HierarchyTopLevel(list);
      assert Items(r)[i] == r[i].menu by { ItemAt(r, i); }
      HierarchyChildren(list, i);
    }
  }

  lemma {:induction false} ItemAt(ns: seq<Node>, i: nat)
    requires i < |ns|
    ensures Items(ns)[i] == ns[i].menu
    decreases i
  {
    if i > 0 {
      ItemAt(ns[1..], i - 1);
    }
  }

  /** A level-2 menu whose parent code matches no enabled level-1 menu
      appears nowhere in the tree. */
  lemma OrphansDropped(list: seq<Menu>, c: Menu)
    requires forall p :: p in list && Enabled(p, 1) ==> p.mnuCd != c.pMnuCd
    ensures forall i :: 0 <= i < |BuildMenuHierarchy(list)| ==> c !in BuildMenuHierarchy(list)[i].children
  {
    var r := BuildMenuHierarchy(list);
    forall i | 0 <= i < |r| ensures c !in r[i].children {
      OnlyTwoLevels(list);
      HierarchyChildren(list, i);
    }
  }

  /** The comparisons are strict: a menu whose level is the text "1" is
      no node of the tree, and a child whose parent code is null is not
      attached to a menu whose code is missing. */
  lemma StrictComparisons(list: seq<Menu>, m: Menu, i: nat)
    requires i < |BuildMenuHierarchy(list)|
    ensures m.mnuLvl == Text("1") ==> BuildMenuHierarchy(list)[i].menu != m
    ensures m.pMnuCd == Null && BuildMenuHierarchy(list)[i].menu.mnuCd == Undefined ==>
      m !in BuildMenuHierarchy(list)[i].children
  {
    OnlyTwoLevels(list);
    HierarchyChildren(list, i);
  }

  /* ------------------------------------------------------------------ */
  /* Loading                                                             */
  /* ------------------------------------------------------------------ */

  /** Which of the two components. */
  datatype Copy = SharedLayout | ComponentLayout

  /** A fallback entry carries only a name, a URL and no children; the
      fields it lacks are given values no reader of the active menus
      consults. */
  function Entry(name: string, url: string): Node {
    Node(Menu(Undefined, Undefined, Undefined, "", 0, name, Some(url)), [])
  }

  /** The five names of the fixed menu, and the paths the first copy
      sends them to. */
  const FixedNames: seq<string> := ["프로그램", "IBK마음건강검진", "상담신청", "자료실", "설정하기"]
  const FixedPaths: seq<string> := ["/program", "/health-check", "/consultation", "/resources", "/settings"]

  /** The menus set when the menu request fails: the five fixed names, with
      their paths in the first copy and with '#' in the second. */
  function Fallback(copy: Copy): (r: seq<Node>)
    ensures |r| == 5
    ensures forall i :: 0 <= i < 5 ==> r[i].menu.mnuNm == FixedNames[i] && r[i].children == []
    ensures forall i :: 0 <= i < 5 ==>
      r[i].menu.mnuUrl == Some(if copy == SharedLayout then FixedPaths[i] else "#")
  {
    seq(5, i requires 0 <= i < 5 => Entry(FixedNames[i], if copy == SharedLayout then FixedPaths[i] else "#"))
  }

  predicate IsLoginPage(pathname: string) {
    "/login" <= pathname
  }

  predicate IsRootPage(pathname: string) {
    pathname == "/"
  }

  /** The component renders nothing on the root page and on login pages. */
  predicate Renders(pathname: string) {
    !IsLoginPage(pathname) && !IsRootPage(pathname)
  }

  /** The outcome of `menuAPI.getMenuList()`: a failure, or a response
      whose `data` field is an array (`Some`) or anything else (`None`). */
  datatype Fetch = Failed | Answered(data: Option<seq<Menu>>)

  /** The menus the loading effect leaves in the store, given those already
      there and what the request would return. */
  function LoadMenus(copy: Copy, pathname: string, active: seq<Node>, fetch: Fetch): (r: seq<Node>)
    ensures !Renders(pathname) ==> r == []
    ensures Renders(pathname) && active != [] ==> r == active
  {
    if !Renders(pathname) then []
    else if active != [] then active
    else match fetch
      case Failed => Fallback(copy)
      case Answered(data) => if data.Some? then BuildMenuHierarchy(data.value) else []
  }

  /** The request's outcome matters only on a rendered page with no menus
      loaded yet: elsewhere no request is made. */
  lemma FetchOnlyWhenEmpty(copy: Copy, pathname: string, active: seq<Node>, f1: Fetch, f2: Fetch)
    requires !Renders(pathname) || active != []
    ensures LoadMenus(copy, pathname, active, f1) == LoadMenus(copy, pathname, active, f2)
  {
  }

  /** On a rendered page with no menus, a failed request leaves the
      fallback, a successful one the tree of its list, and one without an
      array the empty tree; loading a second time changes nothing. */
  lemma LoadOutcomes(copy: Copy, pathname: string, list: seq<Menu>, f: Fetch)
    requires Renders(pathname)
    ensures LoadMenus(copy, pathname, [], Failed) == Fallback(copy)
    ensures LoadMenus(copy, pathname, [], Answered(Some(list))) == BuildMenuHierarchy(list)
    ensures LoadMenus(copy, pathname, [], Answered(None)) == []
    ensures var m := LoadMenus(copy, pathname, [], f);
      LoadMenus(copy, pathname, m, f) == m
  {
  }

  /** Login pages are recognised by prefix: every path under `/login` is
      one, and the root alone is not. */
  lemma RenderGuard(rest: string)
    ensures !Renders("/login" + rest)
    ensures !Renders("/")
    ensures Renders("/main")
  {
    assert "/login" <= "/login" + rest;
    assert |"/main"| < |"/login"|;
  }

  /* ------------------------------------------------------------------ */
  /* Clicks (first copy)                                                 */
  /* ------------------------------------------------------------------ */

  /** What a click does: set the page-move target, push a URL onto the
      router, or nothing. */
  datatype Action = MoveTo(path: string) | Push(url: string) | Nothing

  /** The fixed path of one of the five fixed names. */
  function FixedRoute(name: string): (r: Option<string>)
    ensures r.Some? <==> name in FixedNames
    ensures forall i :: 0 <= i < 5 && name == FixedNames[i] ==> r == Some(FixedPaths[i])
  {
    if name == "프로그램" then Some("/program")
    else if name == "IBK마음건강검진" then Some("/health-check")
    else if name == "상담신청" then Some("/consultation")
    else if name == "자료실" then Some("/resources")
    else if name == "설정하기" then Some("/settings")
    else None
  }

  /** `handleMenuClick(menu)`: a fixed name moves to its path; any other
      menu navigates to its URL when that is non-empty and not '#'. */
  function HandleMenuClick(m: Menu): (a: Action)
    ensures a.MoveTo? <==> m.mnuNm in FixedNames
    ensures a.Push? ==> Some(a.url) == m.mnuUrl && a.url != "" && a.url != "#"
    ensures m.mnuNm !in FixedNames && m.mnuUrl.Some? && m.mnuUrl.value != "" && m.mnuUrl.value != "#" ==> a.Push?
  {
    match FixedRoute(m.mnuNm)
    case Some(path) => MoveTo(path)
    case None =>
      if m.mnuUrl.Some? && m.mnuUrl.value != "" && m.mnuUrl.value != "#" then Push(m.mnuUrl.value)
      else Nothing
  }

  /** A fixed name decides the target alone: its URL and every other field
      are ignored. */
  lemma FixedNameIgnoresUrl(m1: Menu, m2: Menu)
    requires m1.mnuNm == m2.mnuNm && m1.mnuNm in FixedNames
    ensures HandleMenuClick(m1) == HandleMenuClick(m2)
  {
  }

  /** Each fallback entry of the first copy leads, when clicked, to the
      path it carries, the same path its button in the empty-menu bar
      moves to. */
  lemma FallbackClicksMove(i: nat)
    requires i < 5
    ensures HandleMenuClick(Fallback(SharedLayout)[i].menu) == MoveTo(FixedPaths[i])
    ensures Fallback(SharedLayout)[i].menu.mnuUrl == Some(FixedPaths[i])
  {
    assert Fallback(SharedLayout)[i].menu.mnuNm == FixedNames[i];
  }
}
