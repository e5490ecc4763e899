/** The LibGen catalog page: the table parser driven by HTML events. */
module LibGenTable {
  import opened Decimals
  import opened Results
  import opened Sequences
  import opened Strings

  /** Parser callbacks; text is whitespace-normalized and addresses are stripped. */
  datatype Event =
    | StartTag(tag: string, attributes: Attributes)
    | EndTag(tag: string)
    | Data(text: string)

  datatype Attributes = Attributes(id: string, colspan: Option<string>, href: string)

  datatype Link = Link(href: string, text: string)

  datatype Cell = Cell(
    tag: string,
    colspan: nat,
    parts: seq<string>,
    primary: seq<string>,
    secondary: seq<string>,
    links: seq<Link>)

  type Row = seq<Cell>

  datatype OpenLink = OpenLink(href: string, parts: seq<string>)

  datatype Catalog = Catalog(
    found: bool,
    rows: seq<Row>,
    depth: nat,
    row: Option<Row>,
    cell: Option<Cell>,
    link: Option<OpenLink>,
    secondary: nat)

  const EMPTY_CATALOG := Catalog(false, [], 0, None, None, None, 0)

  const CATALOG_ID := "tablelibgen"

  predicate IsCellTag(tag: string) {
    tag == "td" || tag == "th"
  }

  /** The declared width of a cell: 1 when there is none, 0 when it is not a number from 1
      to 9. */
  function CellColspan(raw: Option<string>): nat {
    if raw.None? || raw.value == "" then 1
    else
      var width := Strip(raw.value);
      if IsCanonical(width) && 1 <= Parse(width) <= 9 then Parse(width) else 0
  }

  /** A cell has a positive width exactly when the attribute is missing, empty, or a number
      from 1 to 9 with blanks around it. */
  lemma CellColspanExactly(raw: Option<string>, width: nat)
    requires width > 0
    ensures CellColspan(raw) == width <==>
      if raw.None? || raw.value == "" then width == 1
      else width <= 9 && exists before: string, after: string ::
        AllSpaces(before) && AllSpaces(after) && raw.value == before + Print(width) + after
  {
    ParsePrint(width);
    if raw.Some? && raw.value != "" {
      var text := raw.value;
      var before, after := StripParts(text);
      if CellColspan(raw) == width {
        PrintParse(Strip(text));
      }
      if b, a :| AllSpaces(b) && AllSpaces(a) && text == b + Print(width) + a {
        StripDropsSpaces(b, Print(width), a);
      }
    }
  }

  lemma StripParts(text: string) returns (before: string, after: string)
    ensures AllSpaces(before) && AllSpaces(after) && text == before + Strip(text) + after
  {
    DroppedWhile(text, IsSpace);
    before := TakeWhile(text, IsSpace);
    var rest := DropWhile(text, IsSpace);
    StripRightPrefix(rest, IsSpace);
    after := rest[|Strip(text)|..];
  }

  lemma StripDropsSpaces(before: string, text: string, after: string)
    requires AllSpaces(before) && AllSpaces(after) && IsNumeral(text)
    ensures Strip(before + text + after) == text
  {
    assert text[0] in text && text[|text| - 1] in text;
    assert before + text + after == before + (text + after);
    TakeWhileAppend(before, text + after, IsSpace);
    StripRightAppend(text, after, IsSpace);
  }

  function OnStartTag(catalog: Catalog, tag: string, attributes: Attributes): Catalog {
    if tag == "table" then
      if catalog.depth > 0 then catalog.(depth := catalog.depth + 1)
      else if attributes.id == CATALOG_ID then catalog.(found := true, depth := 1)
      else catalog
    else if catalog.depth == 0 then catalog
    else if tag == "tr" && catalog.row.None? then catalog.(row := Some([]))
    else if IsCellTag(tag) && catalog.row.Some? && catalog.cell.None? then
      catalog.(cell := Some(Cell(tag, CellColspan(attributes.colspan), [], [], [], [])))
    else if tag == "a" && catalog.cell.Some? && catalog.link.None? then
      catalog.(link := Some(OpenLink(attributes.href, [])))
    else if tag == "font" && catalog.cell.Some? then catalog.(secondary := catalog.secondary + 1)
    else catalog
  }

  function OnEndTag(catalog: Catalog, tag: string): Catalog {
    if catalog.depth == 0 then catalog
    else if tag == "a" && catalog.link.Some? && catalog.cell.Some? then
      var link := Link(catalog.link.value.href, Joined(catalog.link.value.parts));
      catalog.(cell := Some(catalog.cell.value.(links := catalog.cell.value.links + [link])), link := None)
    else if tag == "font" && catalog.secondary > 0 then catalog.(secondary := catalog.secondary - 1)
    else if IsCellTag(tag) && catalog.cell.Some? && catalog.row.Some? then
      catalog.(row := Some(catalog.row.value + [catalog.cell.value]), cell := None, link := None, secondary := 0)
    else if tag == "tr" && catalog.row.Some? then
      catalog.(rows := catalog.rows + [catalog.row.value], row := None, cell := None, link := None, secondary := 0)
    else if tag == "table" then catalog.(depth := catalog.depth - 1)
    else catalog
  }

  function OnData(catalog: Catalog, text: string): Catalog {
    if catalog.cell.None? || text == "" then catalog
    else
      var cell := catalog.cell.value;
      var longer := cell.(parts := cell.parts + [text]);
      catalog.(cell := Some(if catalog.secondary > 0 then longer.(secondary := cell.secondary + [text])
                            else longer.(primary := cell.primary + [text])),
               link := if catalog.link.Some? then Some(catalog.link.value.(parts := catalog.link.value.parts + [text]))
                       else None)
  }

  function Step(catalog: Catalog, event: Event): Catalog {
    match event
    case StartTag(tag, attributes) => OnStartTag(catalog, tag, attributes)
    case EndTag(tag) => OnEndTag(catalog, tag)
    case Data(text) => OnData(catalog, text)
  }

  function Feed(catalog: Catalog, events: seq<Event>): Catalog
    decreases |events|
  {
    if events == [] then catalog else Feed(Step(catalog, events[0]), events[1..])
  }

  class CatalogParser {
    var hasCatalogTable: bool
    var rows: seq<Row>
    var catalogDepth: nat
    var row: Option<Row>
    var cell: Option<Cell>
    var link: Option<OpenLink>
    var secondaryDepth: nat

    function Value(): Catalog
      reads this
    {
      Catalog(hasCatalogTable, rows, catalogDepth, row, cell, link, secondaryDepth)
    }

    constructor ()
      ensures Value() == EMPTY_CATALOG
    {
      hasCatalogTable, rows, catalogDepth := false, [], 0;
      row, cell, link, secondaryDepth := None, None, None, 0;
    }

    method HandleStartTag(tag: string, attributes: Attributes)
      modifies this
      ensures Value() == OnStartTag(old(Value()), tag, attributes)
    {
      if tag == "table" {
        if catalogDepth > 0 {
          catalogDepth := catalogDepth + 1;
        } else if attributes.id == CATALOG_ID {
          hasCatalogTable := true;
          catalogDepth := 1;
        }
        return;
      }
      if catalogDepth == 0 {
        return;
      }
      if tag == "tr" && row.None? {
        row := Some([]);
      } else if IsCellTag(tag) && row.Some? && cell.None? {
        cell := Some(Cell(tag, CellColspan(attributes.colspan), [], [], [], []));
      } else if tag == "a" && cell.Some? && link.None? {
        link := Some(OpenLink(attributes.href, []));
      } else if tag == "font" && cell.Some? {
        secondaryDepth := secondaryDepth + 1;
      }
    }

    method HandleEndTag(tag: string)
      modifies this
      ensures Value() == OnEndTag(old(Value()), tag)
    {
      if catalogDepth == 0 {
        return;
      }
      if tag == "a" && link.Some? && cell.Some? {
        cell := Some(cell.value.(links := cell.value.links + [Link(link.value.href, Joined(link.value.parts))]));
        link := None;
      } else if tag == "font" && secondaryDepth > 0 {
        secondaryDepth := secondaryDepth - 1;
      } else if IsCellTag(tag) && cell.Some? && row.Some? {
        row := Some(row.value + [cell.value]);
        cell, link, secondaryDepth := None, None, 0;
      } else if tag == "tr" && row.Some? {
        rows := rows + [row.value];
        row, cell, link, secondaryDepth := None, None, None, 0;
      } else if tag == "table" {
        catalogDepth := catalogDepth - 1;
      }
    }

    method HandleData(text: string)
      modifies this
      ensures Value() == OnData(old(Value()), text)
    {
      if cell.None? || text == "" {
        return;
      }
      cell := Some(cell.value.(parts := cell.value.parts + [text]));
      if secondaryDepth > 0 {
        cell := Some(cell.value.(secondary := cell.value.secondary + [text]));
      } else {
        cell := Some(cell.value.(primary := cell.value.primary + [text]));
      }
      if link.Some? {
        link := Some(link.value.(parts := link.value.parts + [text]));
      }
    }
  }

  lemma {:induction false} FeedAppend(catalog: Catalog, first: seq<Event>, second: seq<Event>)
    ensures Feed(catalog, first + second) == Feed(Feed(catalog, first), second)
    decreases |first|
  {
    if first == [] {
      assert first + second == second;
    } else {
      assert (first + second)[1..] == first[1..] + second;
      FeedAppend(Step(catalog, first[0]), first[1..], second);
    }
  }

  lemma FeedOne(catalog: Catalog, event: Event)
    ensures Feed(catalog, [event]) == Step(catalog, event)
  {
    assert [event][1..] == [];
    assert Feed(Step(catalog, event), []) == Step(catalog, event);
  }

  // ----- What any event sequence keeps -----

  /** `parts` interleaves the two others, keeping the order of each. */
  ghost predicate IsMerge(parts: seq<string>, primary: seq<string>, secondary: seq<string>)
    decreases |parts|
  {
    if parts == [] then primary == [] && secondary == []
    else
      var front, last := parts[..|parts| - 1], parts[|parts| - 1];
      || (primary != [] && primary[|primary| - 1] == last && IsMerge(front, primary[..|primary| - 1], secondary))
      || (secondary != [] && secondary[|secondary| - 1] == last
          && IsMerge(front, primary, secondary[..|secondary| - 1]))
  }

  ghost predicate Merged(cell: Cell) {
    IsMerge(cell.parts, cell.primary, cell.secondary) && IsCellTag(cell.tag) && cell.colspan <= 9
  }

  ghost predicate MergedRow(row: Row) {
    forall cell :: cell in row ==> Merged(cell)
  }

  /** A link is open only inside a cell, a cell only inside a row, a row only after the
      catalog table was found; every cell's text is split into its two parts. */
  ghost predicate Consistent(catalog: Catalog) {
    && (catalog.link.Some? ==> catalog.cell.Some?)
    && (catalog.secondary > 0 ==> catalog.cell.Some?)
    && (catalog.cell.Some? ==> catalog.row.Some?)
    && (catalog.row.Some? || catalog.depth > 0 || catalog.rows != [] ==> catalog.found)
    && (catalog.cell.Some? ==> Merged(catalog.cell.value))
    && (catalog.row.Some? ==> MergedRow(catalog.row.value))
    && (forall row :: row in catalog.rows ==> MergedRow(row))
  }

  lemma MergeStep(cell: Cell, text: string)
    requires Merged(cell)
    ensures Merged(cell.(parts := cell.parts + [text], primary := cell.primary + [text]))
    ensures Merged(cell.(parts := cell.parts + [text], secondary := cell.secondary + [text]))
  {
    assert (cell.parts + [text])[..|cell.parts|] == cell.parts;
    assert (cell.primary + [text])[..|cell.primary|] == cell.primary;
    assert (cell.secondary + [text])[..|cell.secondary|] == cell.secondary;
  }

  lemma StepIsConsistent(catalog: Catalog, event: Event)
    requires Consistent(catalog)
    ensures Consistent(Step(catalog, event))
  {
    if event.Data? {
      if catalog.cell.Some? {
        MergeStep(catalog.cell.value, event.text);
      }
      hide Merged;
    } else if event.StartTag? {
    } else {
      EndTagIsConsistent(catalog, event.tag);
    }
  }

  lemma EndTagIsConsistent(catalog: Catalog, tag: string)
    requires Consistent(catalog)
    ensures Consistent(OnEndTag(catalog, tag))
  {
    hide IsMerge, Joined;
  }

  /** Whatever events arrive, well nested or not. */
  lemma {:induction false} AnyEventsAreConsistent(catalog: Catalog, events: seq<Event>)
    requires Consistent(catalog)
    ensures Consistent(Feed(catalog, events))
    decreases |events|
  {
    hide Consistent, Step;
    if events != [] {
      StepIsConsistent(catalog, events[0]);
      AnyEventsAreConsistent(Step(catalog, events[0]), events[1..]);
    }
  }

  /** The table elements open after some events, counting from those open before. */
  function TablesOpen(open: int, events: seq<Event>): int
    decreases |events|
  {
    if events == [] then open
    else
      var event := events[0];
      var change := if event.Data? || event.tag != "table" then 0 else if event.StartTag? then 1 else -1;
      TablesOpen(open + change, events[1..])
  }

  /** Whether some table stays open throughout. */
  predicate StaysOpen(open: int, events: seq<Event>) {
    forall n :: 0 <= n <= |events| ==> TablesOpen(open, events[..n]) > 0
  }

  lemma StaysOpenStep(open: int, events: seq<Event>)
    requires events != [] && StaysOpen(open, events)
    ensures open > 0 && StaysOpen(TablesOpen(open, events[..1]), events[1..])
    ensures TablesOpen(open, events) == TablesOpen(TablesOpen(open, events[..1]), events[1..])
  {
    assert TablesOpen(open, events[..0]) > 0;
    assert events[..1][1..] == [];
    forall n | 0 <= n <= |events[1..]| ensures TablesOpen(TablesOpen(open, events[..1]), events[1..][..n]) > 0 {
      assert TablesOpen(open, events[..n + 1]) > 0;
      assert events[..n + 1][1..] == events[1..][..n];
    }
  }

  /** The catalog ends at the end tag of its own table: for any events, as long as tables
      stay open the parser counts them all. */
  lemma {:induction false} CatalogCountsItsTables(catalog: Catalog, events: seq<Event>)
    requires StaysOpen(catalog.depth, events)
    ensures Feed(catalog, events).depth == TablesOpen(catalog.depth, events)
    ensures Feed(catalog, events).found == catalog.found
    decreases |events|
  {
    if events != [] {
      StaysOpenStep(catalog.depth, events);
      assert events[..1][1..] == [];
      CatalogCountsItsTables(Step(catalog, events[0]), events[1..]);
    }
  }

  // ----- Catalog tables -----

  /** The content of a cell. */
  datatype Node =
    | Text(text: string)
    | Void(tag: string, attributes: Attributes)
    | Element(tag: string, attributes: Attributes, children: seq<Node>)

  predicate IsStructural(tag: string) {
    tag == "table" || tag == "tr" || IsCellTag(tag)
  }

  predicate IsPlain(tag: string) {
    !IsStructural(tag) && tag != "a" && tag != "font"
  }

  /** No table structure inside a cell, and no anchor inside an anchor. */
  predicate WellFormed(node: Node, inAnchor: bool)
    decreases node
  {
    match node
    case Text(_) => true
    case Void(tag, _) => IsPlain(tag)
    case Element(tag, _, children) =>
      && !IsStructural(tag) && !(inAnchor && tag == "a")
      && forall child :: child in children ==> WellFormed(child, inAnchor || tag == "a")
  }

  function NodeEvents(node: Node): seq<Event>
    decreases node
  {
    match node
    case Text(text) => [Data(text)]
    case Void(tag, attributes) => [StartTag(tag, attributes)]
    case Element(tag, attributes, children) => [StartTag(tag, attributes)] + Events(children) + [EndTag(tag)]
  }

  function Events(nodes: seq<Node>): seq<Event>
    decreases nodes
  {
    if nodes == [] then [] else NodeEvents(nodes[0]) + Events(nodes[1..])
  }

  /** Which texts are wanted: all, those inside a font element, or those outside. */
  datatype Selection = All | InFont | OutsideFont

  function NodeTexts(node: Node, inFont: bool, selection: Selection): seq<string>
    decreases node
  {
    match node
    case Text(text) =>
      if text == "" || (selection.InFont? && !inFont) || (selection.OutsideFont? && inFont) then [] else [text]
    case Void(_, _) => []
    case Element(tag, _, children) => Texts(children, inFont || tag == "font", selection)
  }

  function Texts(nodes: seq<Node>, inFont: bool, selection: Selection): seq<string>
    decreases nodes
  {
    if nodes == [] then []
    else NodeTexts(nodes[0], inFont, selection) + Texts(nodes[1..], inFont, selection)
  }

  function NodeLinks(node: Node): seq<Link>
    decreases node
  {
    if !node.Element? then []
    else if node.tag == "a" then [Link(node.attributes.href, Joined(Texts(node.children, false, All)))]
    else Links(node.children)
  }

  function Links(nodes: seq<Node>): seq<Link>
    decreases nodes
  {
    if nodes == [] then [] else NodeLinks(nodes[0]) + Links(nodes[1..])
  }

  /** Content read inside an open cell: the catalog is unchanged but for the cell's text
      and links, and the text of a link open around the content. */
  ghost predicate Reads(before: Catalog, after: Catalog, all: seq<string>, primary: seq<string>, secondary: seq<string>,
                        links: seq<Link>)
    requires before.cell.Some?
  {
    var cell := before.cell.value;
    after == before.(
      cell := Some(cell.(parts := cell.parts + all, primary := cell.primary + primary,
                         secondary := cell.secondary + secondary, links := cell.links + links)),
      link := if before.link.Some? then Some(before.link.value.(parts := before.link.value.parts + all)) else None)
  }

  lemma ReadsNothing(catalog: Catalog)
    requires catalog.cell.Some?
    ensures Reads(catalog, catalog, [], [], [], [])
  {
    var cell := catalog.cell.value;
    assert cell.parts + [] == cell.parts && cell.primary + [] == cell.primary;
    assert cell.secondary + [] == cell.secondary && cell.links + [] == cell.links;
    assert catalog.link.Some? ==> catalog.link.value.parts + [] == catalog.link.value.parts;
  }

  lemma ReadsCompose(a: Catalog, b: Catalog, c: Catalog, all: seq<string>, moreAll: seq<string>, primary: seq<string>,
                     morePrimary: seq<string>, secondary: seq<string>, moreSecondary: seq<string>, links: seq<Link>,
                     moreLinks: seq<Link>)
    requires a.cell.Some? && Reads(a, b, all, primary, secondary, links)
    requires Reads(b, c, moreAll, morePrimary, moreSecondary, moreLinks)
    ensures Reads(a, c, all + moreAll, primary + morePrimary, secondary + moreSecondary, links + moreLinks)
  {
    var cell := a.cell.value;
    assert (cell.parts + all) + moreAll == cell.parts + (all + moreAll);
    assert (cell.primary + primary) + morePrimary == cell.primary + (primary + morePrimary);
    assert (cell.secondary + secondary) + moreSecondary == cell.secondary + (secondary + moreSecondary);
    assert (cell.links + links) + moreLinks == cell.links + (links + moreLinks);
    assert a.link.Some? ==> (a.link.value.parts + all) + moreAll == a.link.value.parts + (all + moreAll);
  }

  lemma {:induction false} NoLinksInAnchor(nodes: seq<Node>)
    requires forall node :: node in nodes ==> WellFormed(node, true)
    ensures Links(nodes) == []
    decreases nodes
  {
    if nodes != [] {
      assert WellFormed(nodes[0], true);
      if nodes[0].Element? {
        NoLinksInAnchor(nodes[0].children);
      }
      NoLinksInAnchor(nodes[1..]);
    }
  }

  lemma {:induction false} AllTextsIgnoreFont(nodes: seq<Node>, a: bool, b: bool)
    ensures Texts(nodes, a, All) == Texts(nodes, b, All)
    decreases nodes
  {
    if nodes != [] {
      if nodes[0].Element? {
        AllTextsIgnoreFont(nodes[0].children, a || nodes[0].tag == "font", b || nodes[0].tag == "font");
      }
      AllTextsIgnoreFont(nodes[1..], a, b);
    }
  }

  ghost predicate ReadsNodes(before: Catalog, after: Catalog, nodes: seq<Node>)
    requires before.cell.Some?
  {
    Reads(before, after, Texts(nodes, before.secondary > 0, All), Texts(nodes, before.secondary > 0, OutsideFont),
          Texts(nodes, before.secondary > 0, InFont), Links(nodes))
  }

  ghost predicate ReadsNode(before: Catalog, after: Catalog, node: Node)
    requires before.cell.Some?
  {
    Reads(before, after, NodeTexts(node, before.secondary > 0, All), NodeTexts(node, before.secondary > 0, OutsideFont),
          NodeTexts(node, before.secondary > 0, InFont), NodeLinks(node))
  }

  lemma FeedElement(catalog: Catalog, tag: string, attributes: Attributes, inside: seq<Event>)
    ensures Feed(catalog, [StartTag(tag, attributes)] + inside + [EndTag(tag)])
         == OnEndTag(Feed(OnStartTag(catalog, tag, attributes), inside), tag)
  {
    FeedAppend(catalog, [StartTag(tag, attributes)], inside);
    FeedAppend(catalog, [StartTag(tag, attributes)] + inside, [EndTag(tag)]);
    FeedOne(catalog, StartTag(tag, attributes));
    FeedOne(Feed(OnStartTag(catalog, tag, attributes), inside), EndTag(tag));
  }

  lemma ReadsText(catalog: Catalog, text: string)
    requires catalog.cell.Some?
    ensures ReadsNode(catalog, OnData(catalog, text), Text(text))
  {
    if text == "" {
      ReadsNothing(catalog);
    } else {
      var cell := catalog.cell.value;
      assert cell.primary + [] == cell.primary && cell.secondary + [] == cell.secondary;
      assert cell.links + [] == cell.links;
    }
  }

  /** Closing an element inside a cell that was filled with its children. */
  lemma ReadsElement(catalog: Catalog, node: Node, filled: Catalog)
    requires catalog.cell.Some? && catalog.depth > 0 && node.Element? && WellFormed(node, catalog.link.Some?)
    requires ReadsNodes(OnStartTag(catalog, node.tag, node.attributes), filled, node.children)
    ensures ReadsNode(catalog, OnEndTag(filled, node.tag), node)
  {
    hide Texts, Links, Joined;
    if node.tag == "a" {
      assert "a" != "font";
      ClosesAnchor(catalog, node, filled);
    }
  }

  lemma ClosesAnchor(catalog: Catalog, node: Node, filled: Catalog)
    requires catalog.cell.Some? && catalog.depth > 0 && node.Element? && node.tag == "a"
    requires WellFormed(node, catalog.link.Some?)
    requires ReadsNodes(OnStartTag(catalog, node.tag, node.attributes), filled, node.children)
    ensures ReadsNode(catalog, OnEndTag(filled, node.tag), node)
  {
    hide Texts, Links, Joined;
    NoLinksInAnchor(node.children);
    AllTextsIgnoreFont(node.children, catalog.secondary > 0, false);
    var inside := Texts(node.children, catalog.secondary > 0, All);
    assert [] + inside == inside;
    assert catalog.cell.value.links + [] == catalog.cell.value.links;
  }

  lemma {:induction false} ReadsOneNode(catalog: Catalog, node: Node)
    requires catalog.cell.Some? && catalog.depth > 0 && WellFormed(node, catalog.link.Some?)
    ensures ReadsNode(catalog, Feed(catalog, NodeEvents(node)), node)
    decreases node, 1
  {
    match node
    case Text(text) =>
      FeedOne(catalog, Data(text));
      ReadsText(catalog, text);
    case Void(tag, attributes) =>
      FeedOne(catalog, StartTag(tag, attributes));
      ReadsNothing(catalog);
    case Element(tag, attributes, children) =>
      var entered := OnStartTag(catalog, tag, attributes);
      ReadsContent(entered, children);
      FeedElement(catalog, tag, attributes, Events(children));
      ReadsElement(catalog, node, Feed(entered, Events(children)));
  }

  /** The content of a cell is read as the texts and links of its tree. */
  lemma {:induction false} ReadsContent(catalog: Catalog, nodes: seq<Node>)
    requires catalog.cell.Some? && catalog.depth > 0
    requires forall node :: node in nodes ==> WellFormed(node, catalog.link.Some?)
    ensures ReadsNodes(catalog, Feed(catalog, Events(nodes)), nodes)
    decreases nodes, 0
  {
    if nodes == [] {
      ReadsNothing(catalog);
    } else {
      var node, rest, font := nodes[0], nodes[1..], catalog.secondary > 0;
      var middle := Feed(catalog, NodeEvents(node));
      ReadsOneNode(catalog, node);
      FeedAppend(catalog, NodeEvents(node), Events(rest));
      ReadsContent(middle, rest);
      ReadsCompose(catalog, middle, Feed(middle, Events(rest)), NodeTexts(node, font, All), Texts(rest, font, All),
                   NodeTexts(node, font, OutsideFont), Texts(rest, font, OutsideFont), NodeTexts(node, font, InFont),
                   Texts(rest, font, InFont), NodeLinks(node), Links(rest));
    }
  }

  datatype CellTree = CellTree(tag: string, attributes: Attributes, content: seq<Node>)

  /** Parts of a row or a table: an event that belongs to no part, or a part. */
  datatype Piece<T> = Noise(event: Event) | Part(value: T)

  datatype RowTree = RowTree(attributes: Attributes, cells: seq<Piece<CellTree>>)

  predicate IsNoise(event: Event) {
    event.Data? || !IsStructural(event.tag)
  }

  predicate WellFormedCell(cell: CellTree) {
    IsCellTag(cell.tag) && forall node :: node in cell.content ==> WellFormed(node, false)
  }

  predicate WellFormedRow(row: RowTree) {
    forall piece :: piece in row.cells ==> if piece.Noise? then IsNoise(piece.event) else WellFormedCell(piece.value)
  }

  predicate WellFormedTable(table: seq<Piece<RowTree>>) {
    forall piece :: piece in table ==> if piece.Noise? then IsNoise(piece.event) else WellFormedRow(piece.value)
  }

  function CellEvents(cell: CellTree): seq<Event> {
    [StartTag(cell.tag, cell.attributes)] + Events(cell.content) + [EndTag(cell.tag)]
  }

  function RowPieceEvents(cells: seq<Piece<CellTree>>): seq<Event> {
    if cells == [] then []
    else (match cells[0] case Noise(event) => [event] case Part(cell) => CellEvents(cell)) + RowPieceEvents(cells[1..])
  }

  function RowEvents(row: RowTree): seq<Event> {
    [StartTag("tr", row.attributes)] + RowPieceEvents(row.cells) + [EndTag("tr")]
  }

  function TablePieceEvents(table: seq<Piece<RowTree>>): seq<Event> {
    if table == [] then []
    else (match table[0] case Noise(event) => [event] case Part(row) => RowEvents(row)) + TablePieceEvents(table[1..])
  }

  function TableEvents(attributes: Attributes, table: seq<Piece<RowTree>>): seq<Event> {
    [StartTag("table", attributes)] + TablePieceEvents(table) + [EndTag("table")]
  }

  function CellOf(cell: CellTree): Cell {
    Cell(cell.tag, CellColspan(cell.attributes.colspan), Texts(cell.content, false, All),
         Texts(cell.content, false, OutsideFont), Texts(cell.content, false, InFont), Links(cell.content))
  }

  function CellsOf(cells: seq<Piece<CellTree>>): Row {
    if cells == [] then []
    else (match cells[0] case Noise(_) => [] case Part(cell) => [CellOf(cell)]) + CellsOf(cells[1..])
  }

  function RowsOf(table: seq<Piece<RowTree>>): seq<Row> {
    if table == [] then []
    else (match table[0] case Noise(_) => [] case Part(row) => [CellsOf(row.cells)]) + RowsOf(table[1..])
  }

  ghost predicate BetweenCells(catalog: Catalog) {
    catalog.depth > 0 && catalog.cell.None? && catalog.link.None? && catalog.secondary == 0
  }

  lemma NoiseIsIgnored(catalog: Catalog, event: Event)
    requires BetweenCells(catalog) && IsNoise(event)
    ensures Step(catalog, event) == catalog
  {
  }

  lemma ReadsCell(catalog: Catalog, cell: CellTree)
    requires BetweenCells(catalog) && catalog.row.Some? && WellFormedCell(cell)
    ensures Feed(catalog, CellEvents(cell)) == catalog.(row := Some(catalog.row.value + [CellOf(cell)]))
  {
    hide Texts, Links, Feed, Events, CellColspan;
    FeedElement(catalog, cell.tag, cell.attributes, Events(cell.content));
    var entered := OnStartTag(catalog, cell.tag, cell.attributes);
    ReadsContent(entered, cell.content);
    var filled := Feed(entered, Events(cell.content));
    assert [] + CellOf(cell).parts == CellOf(cell).parts && [] + CellOf(cell).primary == CellOf(cell).primary;
    assert [] + CellOf(cell).secondary == CellOf(cell).secondary && [] + CellOf(cell).links == CellOf(cell).links;
    assert filled.cell == Some(CellOf(cell));
  }

  lemma {:induction false} ReadsRowPieces(catalog: Catalog, cells: seq<Piece<CellTree>>)
    requires BetweenCells(catalog) && catalog.row.Some?
    requires forall piece :: piece in cells ==>
      if piece.Noise? then IsNoise(piece.event) else WellFormedCell(piece.value)
    ensures Feed(catalog, RowPieceEvents(cells)) == catalog.(row := Some(catalog.row.value + CellsOf(cells)))
    decreases |cells|
  {
    hide CellEvents, WellFormedCell, IsNoise, CellOf, Step;
    if cells == [] {
      assert catalog.row.value + [] == catalog.row.value;
    } else {
      var piece, rest := cells[0], cells[1..];
      assert piece in cells;
      var events := match piece case Noise(event) => [event] case Part(cell) => CellEvents(cell);
      var read := match piece case Noise(_) => [] case Part(cell) => [CellOf(cell)];
      FeedAppend(catalog, events, RowPieceEvents(rest));
      if piece.Noise? {
        FeedOne(catalog, piece.event);
        NoiseIsIgnored(catalog, piece.event);
        assert catalog.row.value + [] == catalog.row.value;
      } else {
        ReadsCell(catalog, piece.value);
      }
      var middle := catalog.(row := Some(catalog.row.value + read));
      assert Feed(catalog, events) == middle;
      ReadsRowPieces(middle, rest);
      assert (catalog.row.value + read) + CellsOf(rest) == catalog.row.value + (read + CellsOf(rest));
    }
  }

  lemma ReadsRow(catalog: Catalog, row: RowTree)
    requires BetweenCells(catalog) && catalog.row.None? && WellFormedRow(row)
    ensures Feed(catalog, RowEvents(row)) == catalog.(rows := catalog.rows + [CellsOf(row.cells)])
  {
    hide Feed, RowPieceEvents, CellsOf;
    FeedElement(catalog, "tr", row.attributes, RowPieceEvents(row.cells));
    ReadsRowPieces(OnStartTag(catalog, "tr", row.attributes), row.cells);
    assert [] + CellsOf(row.cells) == CellsOf(row.cells);
  }

  lemma {:induction false} ReadsTablePieces(catalog: Catalog, table: seq<Piece<RowTree>>)
    requires BetweenCells(catalog) && catalog.row.None? && WellFormedTable(table)
    ensures Feed(catalog, TablePieceEvents(table)) == catalog.(rows := catalog.rows + RowsOf(table))
    decreases |table|
  {
    hide RowEvents, WellFormedRow, IsNoise, CellsOf, Step;
    if table == [] {
      assert catalog.rows + [] == catalog.rows;
    } else {
      var piece, rest := table[0], table[1..];
      assert piece in table;
      var events := match piece case Noise(event) => [event] case Part(row) => RowEvents(row);
      var read := match piece case Noise(_) => [] case Part(row) => [CellsOf(row.cells)];
      FeedAppend(catalog, events, TablePieceEvents(rest));
      if piece.Noise? {
        FeedOne(catalog, piece.event);
        NoiseIsIgnored(catalog, piece.event);
        assert catalog.rows + [] == catalog.rows;
      } else {
        ReadsRow(catalog, piece.value);
      }
      var middle := catalog.(rows := catalog.rows + read);
      assert Feed(catalog, events) == middle;
      ReadsTablePieces(middle, rest);
      assert (catalog.rows + read) + RowsOf(rest) == catalog.rows + (read + RowsOf(rest));
    }
  }

  /** Events of the page around the catalog table; other tables are allowed. */
  predicate IsOutside(event: Event) {
    !(event.StartTag? && event.tag == "table" && event.attributes.id == CATALOG_ID)
  }

  lemma {:induction false} OutsideIsIgnored(catalog: Catalog, events: seq<Event>)
    requires catalog.depth == 0 && catalog.cell.None?
    requires forall event :: event in events ==> IsOutside(event)
    ensures Feed(catalog, events) == catalog
    decreases |events|
  {
    if events != [] {
      assert Step(catalog, events[0]) == catalog by { assert IsOutside(events[0]); }
      OutsideIsIgnored(catalog, events[1..]);
    }
  }

  /** The round trip: a page with one well-formed catalog table is read as that table's
      rows, whatever surrounds the table. */
  lemma TableRoundTrip(before: seq<Event>, attributes: Attributes, table: seq<Piece<RowTree>>, after: seq<Event>)
    requires WellFormedTable(table) && attributes.id == CATALOG_ID
    requires forall event :: event in before + after ==> IsOutside(event)
    ensures Feed(EMPTY_CATALOG, before + TableEvents(attributes, table) + after)
         == EMPTY_CATALOG.(found := true, rows := RowsOf(table))
  {
    hide Feed, RowsOf, TablePieceEvents, WellFormedTable;
    assert forall event :: event in before ==> event in before + after;
    assert forall event :: event in after ==> event in before + after;
    FeedAppend(EMPTY_CATALOG, before + TableEvents(attributes, table), after);
    FeedAppend(EMPTY_CATALOG, before, TableEvents(attributes, table));
    OutsideIsIgnored(EMPTY_CATALOG, before);
    FeedElement(EMPTY_CATALOG, "table", attributes, TablePieceEvents(table));
    ReadsTablePieces(OnStartTag(EMPTY_CATALOG, "table", attributes), table);
    assert [] + RowsOf(table) == RowsOf(table);
    OutsideIsIgnored(EMPTY_CATALOG.(found := true, rows := RowsOf(table)), after);
  }
}
