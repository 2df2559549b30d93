/**
 The portfolio filter: a list of items, each with a category tag and an
 "active" flag, driven from two surfaces. One is a dropdown: its main
 element, its options and a label showing the chosen option. The other is a
 row of filter buttons that remembers the last one clicked.
 */
module PortfolioFilter {
  import opened Text
  import opened Toggles

  /** A `data-filter-item`: its `data-category` and whether it is shown. */
  datatype Item = Item(category: string, active: bool)

  /** A `data-filter-btn`: its `innerText` and whether it is marked active. */
  datatype Button = Button(text: string, active: bool)

  /**
   Everything the filter handlers read or write. `selectOpen` is the
   dropdown's "active" flag. `options` holds the `innerText` of each
   dropdown option. `valueLabel` is the `innerText` of the label showing the
   chosen option. `lastClicked` is the index of the button
   `lastClickedBtn` refers to.
   */
  datatype FilterUi = FilterUi(
    selectOpen: bool,
    options: seq<string>,
    valueLabel: string,
    buttons: seq<Button>,
    lastClicked: nat,
    items: seq<Item>)

  /** The value that makes every item visible. */
  const All: string := "all"

  /** `filterFunc`'s test for one item: the value is "all" or equals the tag exactly. */
  predicate Shown(selected: string, category: string) {
    selected == All || selected == category
  }

  /**
   `filterFunc`: every item's flag is recomputed from the selected value and
   its tag alone, and nothing else about the item changes.
   */
  function Filter(selected: string, items: seq<Item>): (r: seq<Item>)
    ensures |r| == |items|
    ensures forall i :: 0 <= i < |items| ==>
      r[i].category == items[i].category && r[i].active == Shown(selected, items[i].category)
  {
    if items == [] then []
    else [items[0].(active := Shown(selected, items[0].category))] + Filter(selected, items[1..])
  }

  /** With "all", every item is shown and the item count is unchanged. */
  lemma FilterAllShowsEverything(items: seq<Item>)
    ensures |Filter(All, items)| == |items|
    ensures forall i :: 0 <= i < |items| ==> Filter(All, items)[i].active
  {
  }

  /** With any other value, exactly the items whose tag equals the value are shown. */
  lemma FilterOtherValue(selected: string, items: seq<Item>, i: nat)
    requires selected != All
    requires i < |items|
    ensures Filter(selected, items)[i].active <==> items[i].category == selected
  {
  }

  /** The result ignores the previous flags: items with the same tags filter alike. */
  lemma FilterIgnoresFlags(selected: string, a: seq<Item>, b: seq<Item>)
    requires |a| == |b|
    requires forall i :: 0 <= i < |a| ==> a[i].category == b[i].category
    ensures Filter(selected, a) == Filter(selected, b)
  {
    var fa, fb := Filter(selected, a), Filter(selected, b);
    assert forall i :: 0 <= i < |fa| ==> fa[i] == fb[i];
  }

  /** The last filter wins: filtering again overrides whatever an earlier filter did. */
  lemma LastFilterWins(first: string, second: string, items: seq<Item>)
    ensures Filter(second, Filter(first, items)) == Filter(second, items)
  {
    FilterIgnoresFlags(second, Filter(first, items), items);
  }

  /** Applying the same filter twice is the same as applying it once. */
  lemma FilterIdempotent(selected: string, items: seq<Item>)
    ensures Filter(selected, Filter(selected, items)) == Filter(selected, items)
  {
    LastFilterWins(selected, selected, items);
  }

  /**
   A click on the dropdown's main element toggles its "active" flag; nothing
   else changes.
   */
  function ClickSelect(ui: FilterUi): (r: FilterUi)
    ensures r.selectOpen != ui.selectOpen
    ensures r == ui.(selectOpen := r.selectOpen)
  {
    ui.(selectOpen := Toggle(ui.selectOpen))
  }

  /**
   A click on dropdown option `k`. The label shows the option's text as
   written. The dropdown's flag is toggled. The items are filtered by the
   lower-cased text. The button row is not touched.
   */
  function ClickOption(ui: FilterUi, k: nat): (r: FilterUi)
    requires k < |ui.options|
    ensures r.valueLabel == ui.options[k]
    ensures r.selectOpen != ui.selectOpen
    ensures |r.items| == |ui.items|
    ensures forall i :: 0 <= i < |ui.items| ==>
      r.items[i].category == ui.items[i].category
      && (r.items[i].active <==> Shown(ToLower(ui.options[k]), ui.items[i].category))
    ensures r.options == ui.options && r.buttons == ui.buttons && r.lastClicked == ui.lastClicked
  {
    var t := ui.options[k];
    ui.(valueLabel := t, selectOpen := Toggle(ui.selectOpen), items := Filter(ToLower(t), ui.items))
  }

  /** `lastClickedBtn` refers to an existing button. */
  predicate Valid(ui: FilterUi) {
    ui.lastClicked < |ui.buttons|
  }

  /**
   The state right after set-up: `lastClickedBtn` is the first button,
   whatever the markup marks active.
   */
  function Setup(selectOpen: bool, options: seq<string>, valueLabel: string,
                 buttons: seq<Button>, items: seq<Item>): (r: FilterUi)
    ensures r.lastClicked == 0
    ensures buttons != [] ==> Valid(r)
    ensures r.selectOpen == selectOpen && r.options == options && r.valueLabel == valueLabel
    ensures r.buttons == buttons && r.items == items
  {
    FilterUi(selectOpen, options, valueLabel, buttons, 0, items)
  }

  /**
   A click on filter button `k`. The label shows the button's text. The
   items are filtered by the lower-cased text. The button `lastClickedBtn`
   refers to loses its marker, then button `k` gains it and becomes
   `lastClickedBtn`.
   */
  function ClickButton(ui: FilterUi, k: nat): (r: FilterUi)
    requires Valid(ui)
    requires k < |ui.buttons|
    ensures Valid(r) && r.lastClicked == k
    ensures r.valueLabel == ui.buttons[k].text
    ensures |r.buttons| == |ui.buttons|
    ensures r.buttons[k].active
    ensures ui.lastClicked != k ==> !r.buttons[ui.lastClicked].active
    ensures forall i :: 0 <= i < |ui.buttons| ==> r.buttons[i].text == ui.buttons[i].text
    ensures forall i :: 0 <= i < |ui.buttons| && i != k && i != ui.lastClicked ==>
      r.buttons[i] == ui.buttons[i]
    ensures |r.items| == |ui.items|
    ensures forall i :: 0 <= i < |ui.items| ==>
      r.items[i].category == ui.items[i].category
      && (r.items[i].active <==> Shown(ToLower(ui.buttons[k].text), ui.items[i].category))
    ensures r.selectOpen == ui.selectOpen && r.options == ui.options
  {
    var t := ui.buttons[k].text;
    var last := ui.lastClicked;
    var unmarked := ui.buttons[last := ui.buttons[last].(active := false)];
    var marked := unmarked[k := unmarked[k].(active := true)];
    ui.(valueLabel := t, items := Filter(ToLower(t), ui.items), buttons := marked, lastClicked := k)
  }

  /** At most the button `lastClickedBtn` refers to carries the marker. */
  predicate OnlyLastMarked(ui: FilterUi) {
    forall i :: 0 <= i < |ui.buttons| && ui.buttons[i].active ==> i == ui.lastClicked
  }

  /** If at most the last-clicked button was marked, exactly the clicked button is marked afterwards. */
  lemma ClickButtonMarksExactlyOne(ui: FilterUi, k: nat)
    requires Valid(ui) && k < |ui.buttons|
    requires OnlyLastMarked(ui)
    ensures OnlyLastMarked(ClickButton(ui, k))
    ensures forall i :: 0 <= i < |ui.buttons| ==> (ClickButton(ui, k).buttons[i].active <==> i == k)
  {
  }

  /** If the markup marks no button but the first, set-up starts with at most `lastClickedBtn` marked. */
  lemma SetupOnlyFirstMarked(selectOpen: bool, options: seq<string>, valueLabel: string,
                             buttons: seq<Button>, items: seq<Item>)
    requires forall i :: 0 < i < |buttons| ==> !buttons[i].active
    ensures OnlyLastMarked(Setup(selectOpen, options, valueLabel, buttons, items))
  {
  }

  /** The dropdown's own clicks keep `lastClickedBtn` valid and the button markers as they were. */
  lemma DropdownKeepsMarker(ui: FilterUi, k: nat)
    ensures Valid(ClickSelect(ui)) <==> Valid(ui)
    ensures OnlyLastMarked(ClickSelect(ui)) <==> OnlyLastMarked(ui)
    ensures k < |ui.options| ==> (Valid(ClickOption(ui, k)) <==> Valid(ui))
    ensures k < |ui.options| ==> (OnlyLastMarked(ClickOption(ui, k)) <==> OnlyLastMarked(ui))
  {
  }

  /** A run of filter-button clicks, the first click handled first. */
  function ClickButtons(ui: FilterUi, ks: seq<nat>): (r: FilterUi)
    requires Valid(ui)
    requires forall j :: 0 <= j < |ks| ==> ks[j] < |ui.buttons|
    ensures Valid(r) && |r.buttons| == |ui.buttons|
    ensures ks != [] ==> r.lastClicked == ks[|ks| - 1]
    decreases |ks|
  {
    if ks == [] then ui else ClickButtons(ClickButton(ui, ks[0]), ks[1..])
  }

  /**
   From set-up with at most the first button marked, any non-empty run of
   button clicks leaves exactly the most recently clicked button marked.
   */
  lemma {:induction false} ClickButtonsMarkLatest(ui: FilterUi, ks: seq<nat>)
    requires Valid(ui) && OnlyLastMarked(ui)
    requires forall j :: 0 <= j < |ks| ==> ks[j] < |ui.buttons|
    requires ks != []
    ensures forall i :: 0 <= i < |ui.buttons| ==>
      (ClickButtons(ui, ks).buttons[i].active <==> i == ks[|ks| - 1])
    decreases |ks|
  {
    var next := ClickButton(ui, ks[0]);
    ClickButtonMarksExactlyOne(ui, ks[0]);
    if |ks| > 1 {
      ClickButtonsMarkLatest(next, ks[1..]);
    }
  }

  /**
   The marker tracking relies on `lastClickedBtn` starting at the first
   button: if the markup marks another button active, a click elsewhere
   leaves that button marked as well.
   */
  lemma StaleMarkupMarkerSurvives(ui: FilterUi, j: nat, k: nat)
    requires Valid(ui) && k < |ui.buttons| && j < |ui.buttons|
    requires ui.buttons[j].active && j != ui.lastClicked && j != k
    ensures ClickButton(ui, k).buttons[j].active && ClickButton(ui, k).buttons[k].active
  {
  }

  /**
   Tags are compared case-sensitively with lower-cased text, so an item
   whose tag holds a capital letter is hidden by every click except one
   whose text lower-cases to "all".
   */
  lemma CapitalisedTagOnlyShownByAll(text: string, items: seq<Item>, i: nat)
    requires i < |items|
    requires exists j :: 0 <= j < |items[i].category| && IsUpper(items[i].category[j])
    requires ToLower(text) != All
    ensures !Filter(ToLower(text), items)[i].active
  {
    UpperNeverLowered(text, items[i].category);
  }
}
