/**
 * The status widget of frontend/display/components.ts: the element tree
 * `createDisplay` builds, and the lookup and removal of the widget by its id.
 */
module Display {
  import opened Wrappers
  import opened Dom

  /** The `id` attribute that marks the widget. */
  const ContainerId: string := "gratitude-for-millennium"
  const DisplayKey: Key := ById(ContainerId)

  const LabelText: string := "Gift?"
  const LoadingText: string := "Loading..."
  const NotFoundText: string := "Licence data not found"

  /** The icon `div`; its SVG markup is not modelled. */
  const IconDiv: Element := Element("", "", [])

  /** A licence record as the backend's JSON delivers it; `acquisition` may be missing. */
  datatype LicenseData = LicenseData(date: string, acquisition: Option<string>)

  /** The `data` argument of `createDisplay`: omitted, `null`, or a record. */
  datatype DisplayData = Undefined | Null | Present(record: LicenseData)

  /** The three states the widget can show. */
  datatype Status = Loading | NotFound | Acquired

  /** JavaScript truthiness of an optional string field. */
  predicate Truthy(s: Option<string>)
  {
    s.Some? && s.value != ""
  }

  /** What the data means for the widget. */
  function StatusOf(data: DisplayData): Status
  {
    match data
    case Undefined => Loading
    case Null => NotFound
    case Present(r) => if Truthy(r.acquisition) then Acquired else NotFound
  }

  /** The text of the value `div`. */
  function StatusText(data: DisplayData): string
  {
    if data.Undefined? then LoadingText
    else if data.Null? || !Truthy(data.record.acquisition) then NotFoundText
    else "Acquired on: " + data.record.date + " via " + data.record.acquisition.value + " "
  }

  /**
   * Each of the three states has a text of its own: "Loading..." exactly for
   * omitted data, "Licence data not found" exactly for null data or a record
   * without a truthy acquisition, and the acquisition sentence otherwise.
   */
  lemma StatusTextCases(data: DisplayData)
    ensures StatusText(data) == LoadingText <==> StatusOf(data) == Loading
    ensures StatusText(data) == NotFoundText <==> StatusOf(data) == NotFound
    ensures StatusOf(data) == Acquired ==>
      StatusText(data) == "Acquired on: " + data.record.date + " via " + data.record.acquisition.value + " "
  {
    var t := StatusText(data);
    if StatusOf(data) == Acquired {
      assert t[0] == 'A' && LoadingText[0] == 'L' && NotFoundText[0] == 'L';
    }
  }

  /** The widget's shape: an outer element with the widget id holding the icon and a text `div` of two. */
  predicate IsWidget(e: Element)
  {
    e.id == ContainerId && |e.children| == 2 && e.children[0] == IconDiv && |e.children[1].children| == 2
  }

  function LabelOf(e: Element): string
    requires IsWidget(e)
  {
    e.children[1].children[0].text
  }

  function ValueOf(e: Element): string
    requires IsWidget(e)
  {
    e.children[1].children[1].text
  }

  /** The tree `createDisplay(doc, data)` returns. */
  function DisplayTree(data: DisplayData): (e: Element)
    ensures IsWidget(e)
    ensures LabelOf(e) == LabelText && ValueOf(e) == StatusText(data)
  {
    Element(ContainerId, "", [IconDiv, Element("", "", [Element("", LabelText, []), Element("", StatusText(data), [])])])
  }

  /** Two widgets differ exactly when their status texts do: the label never depends on the data. */
  lemma DisplayTreeDeterminedByStatus(a: DisplayData, b: DisplayData)
    ensures DisplayTree(a) == DisplayTree(b) <==> StatusText(a) == StatusText(b)
  {
    if DisplayTree(a) == DisplayTree(b) {
      assert ValueOf(DisplayTree(a)) == ValueOf(DisplayTree(b));
    }
  }

  /**
   * `createDisplay(doc, data)`: creates the divs, sets the value text by the
   * three-way test on `data`, and appends label and value to the text div and
   * icon and text div to the outer one.
   */
  method CreateDisplay(data: DisplayData) returns (container: Element)
    ensures container == DisplayTree(data)
  {
    container := Element(ContainerId, "", []);
    var iconDiv := IconDiv;
    var textDiv := Element("", "", []);
    var labelDiv := Element("", LabelText, []);
    var valueDiv := Element("", "", []);
    if data.Undefined? {
      valueDiv := valueDiv.(text := LoadingText);
    } else if data.Null? || !Truthy(data.record.acquisition) {
      valueDiv := valueDiv.(text := NotFoundText);
    } else {
      valueDiv := valueDiv.(text := "Acquired on: " + data.record.date + " via " + data.record.acquisition.value + " ");
    }
    textDiv := textDiv.(children := textDiv.children + [labelDiv]);
    textDiv := textDiv.(children := textDiv.children + [valueDiv]);
    container := container.(children := container.children + [iconDiv]);
    container := container.(children := container.children + [textDiv]);
    assert textDiv.children == [labelDiv, valueDiv];
    assert container.children == [iconDiv, textDiv];
  }

  /** `getExistingDisplay(doc)`: the widget if the document holds one. */
  function GetExistingDisplay(cs: seq<seq<Node>>): (r: Option<Node>)
    ensures r.None? <==> Count(cs, DisplayKey) == 0
    ensures r.Some? ==> r.value.elem.id == ContainerId && r.value in Nodes(cs)
  {
    FindCount(cs, DisplayKey);
    match Find(cs, DisplayKey)
    case None => None
    case Some(p) =>
      AtInNodes(cs, p);
      Some(cs[p.c][p.k])
  }

  /** The containers after `removeExistingDisplay(doc)`. */
  function WithoutDisplay(cs: seq<seq<Node>>): (r: seq<seq<Node>>)
    ensures |r| == |cs|
  {
    match Find(cs, DisplayKey)
    case None => cs
    case Some(p) => RemovedAt(cs, p)
  }

  /**
   * `removeExistingDisplay` takes out the widget that `getExistingDisplay`
   * returns, and nothing else; without a widget it changes nothing.
   */
  lemma WithoutDisplayRemovesOnlyIt(cs: seq<seq<Node>>)
    ensures GetExistingDisplay(cs).None? ==> WithoutDisplay(cs) == cs
    ensures GetExistingDisplay(cs).Some? ==>
      Nodes(WithoutDisplay(cs)) + multiset{GetExistingDisplay(cs).value} == Nodes(cs)
    ensures Count(WithoutDisplay(cs), DisplayKey) == if Count(cs, DisplayKey) == 0 then 0 else Count(cs, DisplayKey) - 1
  {
    FindCount(cs, DisplayKey);
    match Find(cs, DisplayKey)
    case None =>
    case Some(p) =>
      RemovedNodes(cs, p);
      RemovedCount(cs, p, DisplayKey);
  }

  /** `removeExistingDisplay(doc)`. */
  method RemoveExistingDisplay(doc: Document)
    modifies doc
    ensures doc.Content() == old(doc.Content()).(containers := WithoutDisplay(old(doc.containers)))
  {
    var p := Find(doc.containers, DisplayKey);
    if p.Some? {
      doc.Remove(p.value);
    }
  }
}
