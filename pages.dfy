/**
 * Page switching: which page `GoToPage` settles on, and which pages end up
 * active after `SetCurrentPage` and `GoToPage`. Pages are found in the
 * root's child enumeration `tree` (inactive pages included), in order.
 */
module Pages {
  import opened Scene

  /** Every page of the enumeration is a known page. */
  predicate InTree(tree: seq<PageId>, pages: map<PageId, Page>) {
    forall i :: 0 <= i < |tree| ==> tree[i] in pages
  }

  /** The page the name search of `GoToPage` ends on: the last one named `name`, if any. */
  function LastNamed(tree: seq<PageId>, pages: map<PageId, Page>, name: string): (r: Option<PageId>)
    requires InTree(tree, pages)
    ensures r.Some? ==> r.value in tree && r.value in pages && pages[r.value].name == name
    decreases |tree|
  {
    if tree == [] then None
    else
      var init := tree[..|tree| - 1];
      var prev := LastNamed(init, pages, name);
      assert prev.Some? ==> prev.value in tree by {
        if prev.Some? {
          var k :| 0 <= k < |init| && init[k] == prev.value;
          assert tree[k] == prev.value;
        }
      }
      if pages[tree[|tree| - 1]].name == name then Some(tree[|tree| - 1]) else prev
  }

  /** The search finds nothing exactly when no page of the enumeration has the name. */
  lemma {:induction false} LastNamedNone(tree: seq<PageId>, pages: map<PageId, Page>, name: string)
    requires InTree(tree, pages)
    ensures LastNamed(tree, pages, name).None? <==> forall i :: 0 <= i < |tree| ==> pages[tree[i]].name != name
    decreases |tree|
  {
    if tree != [] {
      var init := tree[..|tree| - 1];
      assert forall i :: 0 <= i < |init| ==> init[i] == tree[i];
      LastNamedNone(init, pages, name);
    }
  }

  /** When the search finds a page, that page has the name and no later page of the enumeration has it. */
  lemma {:induction false} LastNamedIsLast(tree: seq<PageId>, pages: map<PageId, Page>, name: string)
    requires InTree(tree, pages) && LastNamed(tree, pages, name).Some?
    ensures exists k :: && 0 <= k < |tree| && tree[k] == LastNamed(tree, pages, name).value
                        && pages[tree[k]].name == name
                        && forall j :: k < j < |tree| ==> pages[tree[j]].name != name
    decreases |tree|
  {
    var n := |tree|;
    var r := LastNamed(tree, pages, name);
    if pages[tree[n - 1]].name == name {
      assert tree[n - 1] == r.value;
    } else {
      var init := tree[..n - 1];
      assert r == LastNamed(init, pages, name);
      LastNamedIsLast(init, pages, name);
      var k :| && 0 <= k < |init| && init[k] == r.value && pages[init[k]].name == name
               && forall j :: k < j < |init| ==> pages[init[j]].name != name;
      assert tree[k] == r.value;
      assert forall j :: k < j < n - 1 ==> tree[j] == init[j];
    }
  }

  /** Two page maps that agree on the names of the enumerated pages. */
  predicate SameNames(tree: seq<PageId>, a: map<PageId, Page>, b: map<PageId, Page>)
    requires InTree(tree, a) && InTree(tree, b)
  {
    forall i :: 0 <= i < |tree| ==> a[tree[i]].name == b[tree[i]].name
  }

  /** The search reads only names, so activating or deactivating pages does not change it. */
  lemma {:induction false} LastNamedReadsNames(tree: seq<PageId>, a: map<PageId, Page>, b: map<PageId, Page>, name: string)
    requires InTree(tree, a) && InTree(tree, b) && SameNames(tree, a, b)
    ensures LastNamed(tree, a, name) == LastNamed(tree, b, name)
    decreases |tree|
  {
    if tree != [] {
      var init := tree[..|tree| - 1];
      assert forall i :: 0 <= i < |init| ==> init[i] == tree[i];
      LastNamedReadsNames(init, a, b, name);
    }
  }

  /** The page `GoToPage` leaves current: the last one named `name`, or the old current page when none is. */
  function Target(tree: seq<PageId>, pages: map<PageId, Page>, name: string, current: Option<PageId>): Option<PageId>
    requires InTree(tree, pages)
  {
    var found := LastNamed(tree, pages, name);
    if found.Some? then found else current
  }

  /** A page's game object set active or inactive. */
  function WithActive(pages: map<PageId, Page>, q: PageId, active: bool): (r: map<PageId, Page>)
    requires q in pages
    ensures r.Keys == pages.Keys
  {
    pages[q := pages[q].(active := active)]
  }

  /** The pages after `SetCurrentPage(page)` has visited the enumerated pages in order, each made active exactly when it is `page`. */
  function ShowOnly(tree: seq<PageId>, pages: map<PageId, Page>, page: Option<PageId>): (r: map<PageId, Page>)
    requires InTree(tree, pages)
    ensures r.Keys == pages.Keys
    decreases |tree|
  {
    if tree == [] then pages
    else
      var q := tree[|tree| - 1];
      WithActive(ShowOnly(tree[..|tree| - 1], pages, page), q, Some(q) == page)
  }

  /**
   * After `SetCurrentPage(page)` an enumerated page is active exactly when it
   * is `page`, pages outside the enumeration are untouched, and no page is
   * renamed.
   */
  lemma {:induction false} ShowOnlyExactly(tree: seq<PageId>, pages: map<PageId, Page>, page: Option<PageId>)
    requires InTree(tree, pages)
    ensures var r := ShowOnly(tree, pages, page);
            && (forall q :: q in tree ==> r[q].active == (Some(q) == page))
            && (forall q :: q in pages && q !in tree ==> r[q] == pages[q])
            && (forall q :: q in pages ==> r[q].name == pages[q].name)
    decreases |tree|
  {
    if tree != [] {
      var init := tree[..|tree| - 1];
      assert tree == init + [tree[|tree| - 1]];
      ShowOnlyExactly(init, pages, page);
    }
  }

  /** The pages after `GoToPage`: the old current page deactivated, then the new current page activated. */
  function Switched(pages: map<PageId, Page>, current: Option<PageId>, target: Option<PageId>): (r: map<PageId, Page>)
    requires current.Some? ==> current.value in pages
    requires target.Some? ==> target.value in pages
    ensures r.Keys == pages.Keys
  {
    var off := if current.Some? then WithActive(pages, current.value, false) else pages;
    if target.Some? then WithActive(off, target.value, true) else off
  }

  /** The callbacks `GoToPage` makes: `ExitPage` on the old current page, then `StartPage` on the new one. */
  function SwitchEvents(current: Option<PageId>, target: Option<PageId>): seq<Event> {
    (if current.Some? then [ExitPage(current.value)] else []) + (if target.Some? then [StartPage(target.value)] else [])
  }

  /**
   * `GoToPage`: the new current page is active and started after the old one
   * was exited; the old page, when it is a different one, is left inactive;
   * every other page keeps its state.
   */
  lemma SwitchOutcome(pages: map<PageId, Page>, current: Option<PageId>, target: Option<PageId>)
    requires current.Some? ==> current.value in pages
    requires target.Some? ==> target.value in pages
    ensures var r := Switched(pages, current, target);
            var ev := SwitchEvents(current, target);
            && (target.Some? ==> r[target.value].active && ev[|ev| - 1] == StartPage(target.value))
            && (current.Some? ==> ev[0] == ExitPage(current.value))
            && (current.Some? && current != target ==> !r[current.value].active)
            && |ev| == (if current.Some? then 1 else 0) + (if target.Some? then 1 else 0)
            && (forall q :: q in pages && Some(q) != current && Some(q) != target ==> r[q] == pages[q])
            && (forall q :: q in pages ==> r[q].name == pages[q].name)
  {
  }

  /**
   * With no page of the name, `GoToPage` keeps the current page: it is exited
   * and deactivated, then activated and started again.
   */
  lemma NoMatchRestarts(tree: seq<PageId>, pages: map<PageId, Page>, name: string, current: Option<PageId>)
    requires InTree(tree, pages) && (current.Some? ==> current.value in pages)
    requires forall i :: 0 <= i < |tree| ==> pages[tree[i]].name != name
    ensures Target(tree, pages, name, current) == current
    ensures current.Some? ==>
              && SwitchEvents(current, current) == [ExitPage(current.value), StartPage(current.value)]
              && Switched(pages, current, current)[current.value].active
  {
    LastNamedNone(tree, pages, name);
  }
}
