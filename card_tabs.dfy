/**
 * The tab switcher of _site/assets/js/functionCardTabs.js.
 *
 * Each `.function-card` holds a row of `.tab` elements, each naming in its
 * `data-tab` attribute the id of the element it shows, and elements of the
 * class `tab-content`. On load the content of the active tab is shown; a click
 * on a tab makes it the only active tab and shows its content alone.
 *
 * A card is modelled by its tabs and by the elements inside it, in document
 * order, with the element's id, whether it is a `.tab-content`, and whether
 * its inline display is 'none'.
 */
module CardTabs {
  import opened Wrappers

  /** A `.tab`: its `data-tab` value and whether it has the class `active`. */
  datatype Tab = Tab(dataTab: string, active: bool)

  /** An element of the card: its id ("" when it has none), `.tab-content` or not, display 'none' or not. */
  datatype Node = Node(id: string, isContent: bool, hidden: bool)

  // ---------------------------------------------------------------------------
  // Queries

  /** The card's first tab with the class `active`, if any. */
  function FirstActive(tabs: seq<Tab>): (r: Option<nat>)
    ensures r.Some? ==> r.value < |tabs| && tabs[r.value].active
    ensures r.Some? ==> forall j :: 0 <= j < r.value ==> !tabs[j].active
    ensures r.None? ==> forall j :: 0 <= j < |tabs| ==> !tabs[j].active
  {
    if tabs == [] then None
    else if tabs[0].active then Some(0)
    else match FirstActive(tabs[1..])
      case None => None
      case Some(k) => Some(k + 1)
  }

  /** The first element of the card, in document order, whose id is `id`, if any. */
  function FindById(nodes: seq<Node>, id: string): (r: Option<nat>)
    ensures r.Some? ==> r.value < |nodes| && nodes[r.value].id == id
    ensures r.Some? ==> forall j :: 0 <= j < r.value ==> nodes[j].id != id
    ensures r.None? ==> forall j :: 0 <= j < |nodes| ==> nodes[j].id != id
  {
    if nodes == [] then None
    else if nodes[0].id == id then Some(0)
    else match FindById(nodes[1..], id)
      case None => None
      case Some(k) => Some(k + 1)
  }

  // ---------------------------------------------------------------------------
  // The steps, as functions of the card's state

  /** Every `.tab-content` gets display 'none'; other elements stay as they were. */
  function HideContents(nodes: seq<Node>): seq<Node> {
    seq(|nodes|, k requires 0 <= k < |nodes| => if nodes[k].isContent then nodes[k].(hidden := true) else nodes[k])
  }

  /** The first element with the given id, if any, gets display ''. */
  function ShowById(nodes: seq<Node>, id: string): seq<Node> {
    match FindById(nodes, id)
    case None => nodes
    case Some(k) => nodes[k := nodes[k].(hidden := false)]
  }

  /** Every tab loses the class `active`. */
  function Deactivated(tabs: seq<Tab>): seq<Tab> {
    seq(|tabs|, k requires 0 <= k < |tabs| => tabs[k].(active := false))
  }

  /** The card's elements after the load step. */
  function NodesAfterLoad(tabs: seq<Tab>, nodes: seq<Node>): seq<Node> {
    match FirstActive(tabs)
    case None => nodes
    case Some(a) => ShowById(HideContents(nodes), tabs[a].dataTab)
  }

  /** The card's tabs after a click on tab `i`. */
  function TabsAfterClick(tabs: seq<Tab>, i: nat): seq<Tab>
    requires i < |tabs|
  {
    Deactivated(tabs)[i := tabs[i].(active := true)]
  }

  /** The card's elements after a click on tab `i`. */
  function NodesAfterClick(tabs: seq<Tab>, nodes: seq<Node>, i: nat): seq<Node>
    requires i < |tabs|
  {
    ShowById(HideContents(nodes), tabs[i].dataTab)
  }

  // ---------------------------------------------------------------------------
  // Properties

  /** Two element lists with the same ids, element by element. */
  predicate SameIds(a: seq<Node>, b: seq<Node>) {
    |a| == |b| && forall k :: 0 <= k < |a| ==> a[k].id == b[k].id
  }

  /** The id lookup depends on the ids alone. */
  lemma {:induction false} FindBySameIds(a: seq<Node>, b: seq<Node>, id: string)
    requires SameIds(a, b)
    ensures FindById(a, id) == FindById(b, id)
    decreases |a|
  {
    if a != [] {
      assert a[0].id == b[0].id;
      assert SameIds(a[1..], b[1..]) by {
        forall k | 0 <= k < |a[1..]| ensures a[1..][k].id == b[1..][k].id {
          assert a[1..][k] == a[k + 1] && b[1..][k] == b[k + 1];
        }
      }
      FindBySameIds(a[1..], b[1..], id);
    }
  }

  /** After a click on tab `i`, tab `i` is the only active tab; no tab's `data-tab` changes. */
  lemma ClickActivatesOnlyClicked(tabs: seq<Tab>, i: nat)
    requires i < |tabs|
    ensures |TabsAfterClick(tabs, i)| == |tabs|
    ensures forall j :: 0 <= j < |tabs| ==> TabsAfterClick(tabs, i)[j].dataTab == tabs[j].dataTab
    ensures forall j :: 0 <= j < |tabs| ==> (TabsAfterClick(tabs, i)[j].active <==> j == i)
    ensures FirstActive(TabsAfterClick(tabs, i)) == Some(i)
  {
    var after := TabsAfterClick(tabs, i);
    assert after[i].active;
  }

  /**
   * After a click on tab `i`, a `.tab-content` is shown exactly when it is the
   * first element whose id is the tab's `data-tab`; that element is shown
   * whatever it is; every other element keeps its display.
   */
  lemma ClickShowsOnlyTarget(tabs: seq<Tab>, nodes: seq<Node>, i: nat)
    requires i < |tabs|
    ensures SameIds(NodesAfterClick(tabs, nodes, i), nodes)
    ensures forall k :: 0 <= k < |nodes| ==>
      NodesAfterClick(tabs, nodes, i)[k].isContent == nodes[k].isContent
    ensures forall k :: 0 <= k < |nodes| && nodes[k].isContent ==>
      (!NodesAfterClick(tabs, nodes, i)[k].hidden <==> FindById(nodes, tabs[i].dataTab) == Some(k))
    ensures forall k :: 0 <= k < |nodes| && FindById(nodes, tabs[i].dataTab) == Some(k) ==>
      !NodesAfterClick(tabs, nodes, i)[k].hidden
    ensures forall k :: 0 <= k < |nodes| && !nodes[k].isContent && FindById(nodes, tabs[i].dataTab) != Some(k) ==>
      NodesAfterClick(tabs, nodes, i)[k] == nodes[k]
  {
    FindBySameIds(HideContents(nodes), nodes, tabs[i].dataTab);
  }

  /** After a click, at most one `.tab-content` of the card is shown. */
  lemma ClickShowsAtMostOne(tabs: seq<Tab>, nodes: seq<Node>, i: nat, k1: nat, k2: nat)
    requires i < |tabs|
    requires k1 < |nodes| && k2 < |nodes|
    requires nodes[k1].isContent && !NodesAfterClick(tabs, nodes, i)[k1].hidden
    requires nodes[k2].isContent && !NodesAfterClick(tabs, nodes, i)[k2].hidden
    ensures k1 == k2
  {
    ClickShowsOnlyTarget(tabs, nodes, i);
  }

  /** Clicking the same tab twice leaves the card as clicking it once. */
  lemma ClickIdempotent(tabs: seq<Tab>, nodes: seq<Node>, i: nat)
    requires i < |tabs|
    ensures TabsAfterClick(TabsAfterClick(tabs, i), i) == TabsAfterClick(tabs, i)
    ensures NodesAfterClick(TabsAfterClick(tabs, i), NodesAfterClick(tabs, nodes, i), i)
      == NodesAfterClick(tabs, nodes, i)
  {
    var tabs1, nodes1 := TabsAfterClick(tabs, i), NodesAfterClick(tabs, nodes, i);
    var id := tabs[i].dataTab;
    assert tabs1[i].dataTab == id;
    ClickShowsOnlyTarget(tabs, nodes, i);
    FindBySameIds(HideContents(nodes1), nodes, id);
    var again := NodesAfterClick(tabs1, nodes1, i);
    assert |again| == |nodes1|;
    forall k | 0 <= k < |nodes1| ensures again[k] == nodes1[k] {
    }
  }

  /** The load step shows what a click on the first active tab would show; a card without an active tab is left alone. */
  lemma LoadAgreesWithClick(tabs: seq<Tab>, nodes: seq<Node>)
    ensures FirstActive(tabs).None? ==> NodesAfterLoad(tabs, nodes) == nodes
    ensures FirstActive(tabs).Some? ==>
      NodesAfterLoad(tabs, nodes) == NodesAfterClick(tabs, nodes, FirstActive(tabs).value)
  {
  }

  /** After the load step of a card with an active tab, at most one `.tab-content` is shown, and it is that tab's. */
  lemma LoadShowsAtMostOne(tabs: seq<Tab>, nodes: seq<Node>, k: nat)
    requires FirstActive(tabs).Some?
    requires k < |nodes| && nodes[k].isContent && !NodesAfterLoad(tabs, nodes)[k].hidden
    ensures FindById(nodes, tabs[FirstActive(tabs).value].dataTab) == Some(k)
  {
    ClickShowsOnlyTarget(tabs, nodes, FirstActive(tabs).value);
  }

  // ---------------------------------------------------------------------------
  // The card and its handlers

  class Card {
    var tabs: seq<Tab>
    var nodes: seq<Node>

    constructor (tabs: seq<Tab>, nodes: seq<Node>)
      ensures this.tabs == tabs && this.nodes == nodes
    {
      this.tabs := tabs;
      this.nodes := nodes;
    }

    /** Hides every `.tab-content` of the card. */
    method HideAllContents()
      modifies this
      ensures tabs == old(tabs)
      ensures nodes == HideContents(old(nodes))
    {
      var k := 0;
      while k < |nodes|
        invariant 0 <= k <= |nodes| == |old(nodes)|
        invariant tabs == old(tabs)
        invariant forall j :: 0 <= j < k ==> nodes[j] == HideContents(old(nodes))[j]
        invariant forall j :: k <= j < |nodes| ==> nodes[j] == old(nodes)[j]
      {
        if nodes[k].isContent {
          nodes := nodes[k := nodes[k].(hidden := true)];
        }
        k := k + 1;
      }
    }

    /** Removes the class `active` from every tab of the card. */
    method DeactivateAllTabs()
      modifies this
      ensures nodes == old(nodes)
      ensures tabs == Deactivated(old(tabs))
    {
      var k := 0;
      while k < |tabs|
        invariant 0 <= k <= |tabs| == |old(tabs)|
        invariant nodes == old(nodes)
        invariant forall j :: 0 <= j < k ==> tabs[j] == Deactivated(old(tabs))[j]
        invariant forall j :: k <= j < |tabs| ==> tabs[j] == old(tabs)[j]
      {
        tabs := tabs[k := tabs[k].(active := false)];
        k := k + 1;
      }
    }

    /** Shows the first element of the card whose id is `id`, when there is one. */
    method ShowElementWithId(id: string)
      modifies this
      ensures tabs == old(tabs)
      ensures nodes == ShowById(old(nodes), id)
    {
      var found := FindById(nodes, id);
      if found.Some? {
        var k := found.value;
        nodes := nodes[k := nodes[k].(hidden := false)];
      }
    }

    /** The load step: if some tab is active, hide every content and show the active tab's. */
    method ShowActiveOnLoad()
      modifies this
      ensures tabs == old(tabs)
      ensures nodes == NodesAfterLoad(old(tabs), old(nodes))
    {
      var active := FirstActive(tabs);
      if active.Some? {
        HideAllContents();
        ShowElementWithId(tabs[active.value].dataTab);
      }
    }

    /** The click handler of tab `i`. */
    method Click(i: nat)
      requires i < |tabs|
      modifies this
      ensures tabs == TabsAfterClick(old(tabs), i)
      ensures nodes == NodesAfterClick(old(tabs), old(nodes), i)
    {
      DeactivateAllTabs();
      HideAllContents();
      tabs := tabs[i := tabs[i].(active := true)];
      ShowElementWithId(tabs[i].dataTab);
    }
  }

  /** The load pass over every `.function-card` of the page. */
  method InitializeCards(cards: seq<Card>)
    requires forall i, j :: 0 <= i < j < |cards| ==> cards[i] != cards[j]
    modifies set c | c in cards
    ensures forall k :: 0 <= k < |cards| ==> cards[k].tabs == old(cards[k].tabs)
    ensures forall k :: 0 <= k < |cards| ==>
      cards[k].nodes == NodesAfterLoad(old(cards[k].tabs), old(cards[k].nodes))
  {
    for i := 0 to |cards|
      invariant forall k :: 0 <= k < |cards| ==> cards[k].tabs == old(cards[k].tabs)
      invariant forall k :: 0 <= k < i ==>
        cards[k].nodes == NodesAfterLoad(old(cards[k].tabs), old(cards[k].nodes))
      invariant forall k :: i <= k < |cards| ==> cards[k].nodes == old(cards[k].nodes)
    {
      cards[i].ShowActiveOnLoad();
    }
  }

  /** A click on tab `i` of card `c` runs that card's handler and touches no other card. */
  method ClickTab(cards: seq<Card>, c: nat, i: nat)
    requires c < |cards| && i < |cards[c].tabs|
    modifies cards[c]
    ensures cards[c].tabs == TabsAfterClick(old(cards[c].tabs), i)
    ensures cards[c].nodes == NodesAfterClick(old(cards[c].tabs), old(cards[c].nodes), i)
    ensures forall k :: 0 <= k < |cards| && cards[k] != cards[c] ==>
      cards[k].tabs == old(cards[k].tabs) && cards[k].nodes == old(cards[k].nodes)
  {
    cards[c].Click(i);
  }
}
