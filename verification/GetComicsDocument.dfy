/** The event-driven GetComics document parser: a stack of open elements, the open
    link, and the release groups of download controls. */
module GetComicsDocument {
  import opened Results
  import opened Sequences

  /** Parser callbacks; attribute values are stripped and text is whitespace-normalized. */
  datatype Event =
    | StartTag(tag: string, attributes: Attributes)
    | EndTag(tag: string)
    | Data(text: string)

  datatype Attributes = Attributes(href: string, classes: set<string>, title: string)

  datatype Link = Link(href: string, classes: set<string>, title: string, text: string, context: set<string>)

  datatype OpenLink = OpenLink(attributes: Attributes, context: set<string>, parts: seq<string>)

  datatype Group = Group(texts: seq<string>, links: seq<Link>)

  datatype Context = Context(tag: string, classes: set<string>)

  datatype Document = Document(
    links: seq<Link>,
    allClasses: set<string>,
    textParts: seq<string>,
    contexts: seq<Context>,
    open: Option<OpenLink>,
    groups: seq<Group>,
    active: Option<nat>,
    blockTag: Option<string>,
    blockParts: seq<string>)

  const EMPTY_DOCUMENT := Document([], {}, [], [], None, [], None, None, [])

  const VOID_TAGS := {"area", "base", "br", "col", "embed", "hr", "img", "input", "link", "meta", "source"}
  const BLOCK_TAGS := {"h1", "h2", "h3", "h4", "h5", "h6", "p"}

  /** Whether a block of text describes a release; the title evidence it looks for is
      not part of this model. */
  type Evidence = string -> bool

  function ContextClasses(contexts: seq<Context>): set<string> {
    if contexts == [] then {}
    else ContextClasses(contexts[..|contexts| - 1]) + contexts[|contexts| - 1].classes
  }

  predicate IsControl(classes: set<string>) {
    exists c :: c in classes && "aio-" <= c
  }

  function ClosedLink(open: OpenLink): Link {
    Link(open.attributes.href, open.attributes.classes, open.attributes.title, Joined(open.parts), open.context)
  }

  /** The contexts left once the innermost element with the tag, and everything entered
      inside it, is closed; all of them when there is none. */
  function CloseContext(contexts: seq<Context>, tag: string): seq<Context> {
    if forall i :: 0 <= i < |contexts| ==> contexts[i].tag != tag then contexts
    else if contexts[|contexts| - 1].tag == tag then contexts[..|contexts| - 1]
    else CloseContext(contexts[..|contexts| - 1], tag)
  }

  function OnStartTag(doc: Document, tag: string, attributes: Attributes): Document {
    var contexts :=
      if tag in VOID_TAGS then doc.contexts else doc.contexts + [Context(tag, attributes.classes)];
    var startsBlock := tag in BLOCK_TAGS && doc.blockTag.None?;
    doc.(allClasses := doc.allClasses + attributes.classes,
         contexts := contexts,
         blockTag := if startsBlock then Some(tag) else doc.blockTag,
         blockParts := if startsBlock then [] else doc.blockParts,
         open := if tag == "a" then Some(OpenLink(attributes, ContextClasses(contexts), [])) else doc.open)
  }

  function AppendLink(groups: seq<Group>, at: nat, link: Link): seq<Group>
    requires at < |groups|
  {
    groups[at := groups[at].(links := groups[at].links + [link])]
  }

  function AppendText(groups: seq<Group>, at: nat, text: string): seq<Group>
    requires at < |groups|
  {
    groups[at := groups[at].(texts := groups[at].texts + [text])]
  }

  predicate ValidActive(doc: Document) {
    doc.active.Some? ==> doc.active.value < |doc.groups|
  }

  /** The part of an end tag that closes the open link. */
  function CloseLink(doc: Document, tag: string): Document
    requires ValidActive(doc)
  {
    if tag == "a" && doc.open.Some? then
      var link := ClosedLink(doc.open.value);
      var groups :=
        if !IsControl(link.classes) then doc.groups
        else if doc.active.Some? then AppendLink(doc.groups, doc.active.value, link)
        else doc.groups + [Group([], [link])];
      doc.(links := doc.links + [link], groups := groups, open := None)
    else
      doc
  }

  /** The part of an end tag that closes the open text block. */
  function CloseBlock(doc: Document, evidence: Evidence, tag: string): Document
    requires ValidActive(doc)
  {
    if doc.blockTag == Some(tag) then
      var text := Joined(doc.blockParts);
      var closed := doc.(blockTag := None, blockParts := []);
      if text == "" || !evidence(text) then closed
      else if doc.active.None? || doc.groups[doc.active.value].links != [] then
        closed.(groups := doc.groups + [Group([text], [])], active := Some(|doc.groups|))
      else
        closed.(groups := AppendText(doc.groups, doc.active.value, text))
    else
      doc
  }

  function OnEndTag(doc: Document, evidence: Evidence, tag: string): Document
    requires ValidActive(doc)
  {
    var closed := CloseBlock(CloseLink(doc, tag), evidence, tag);
    closed.(contexts := CloseContext(closed.contexts, tag))
  }

  function OnData(doc: Document, text: string): Document {
    if text == "" then doc
    else
      doc.(textParts := doc.textParts + [text],
           blockParts := if doc.blockTag.Some? then doc.blockParts + [text] else doc.blockParts,
           open := if doc.open.Some? then Some(doc.open.value.(parts := doc.open.value.parts + [text])) else None)
  }

  function Step(doc: Document, evidence: Evidence, event: Event): (next: Document)
    requires ValidActive(doc)
    ensures ValidActive(next)
  {
    match event
    case StartTag(tag, attributes) => OnStartTag(doc, tag, attributes)
    case EndTag(tag) => OnEndTag(doc, evidence, tag)
    case Data(text) => OnData(doc, text)
  }

  function Feed(doc: Document, evidence: Evidence, events: seq<Event>): (next: Document)
    requires ValidActive(doc)
    ensures ValidActive(next)
    decreases |events|
  {
    if events == [] then doc else Feed(Step(doc, evidence, events[0]), evidence, events[1..])
  }

  class DocumentParser {
    const evidence: Evidence
    var links: seq<Link>
    var allClasses: set<string>
    var textParts: seq<string>
    var contexts: seq<Context>
    var open: Option<OpenLink>
    var groups: seq<Group>
    var active: Option<nat>
    var blockTag: Option<string>
    var blockParts: seq<string>

    function Value(): Document
      reads this
    {
      Document(links, allClasses, textParts, contexts, open, groups, active, blockTag, blockParts)
    }

    ghost predicate Valid()
      reads this
    {
      ValidActive(Value())
    }

    constructor (evidence: Evidence)
      ensures Valid() && Value() == EMPTY_DOCUMENT && this.evidence == evidence
    {
      this.evidence := evidence;
      links, allClasses, textParts, contexts := [], {}, [], [];
      open, groups, active, blockTag, blockParts := None, [], None, None, [];
    }

    method HandleStartTag(tag: string, attributes: Attributes)
      requires Valid()
      modifies this
      ensures Valid() && Value() == OnStartTag(old(Value()), tag, attributes)
    {
      allClasses := allClasses + attributes.classes;
      if tag !in VOID_TAGS {
        contexts := contexts + [Context(tag, attributes.classes)];
      }
      if tag in BLOCK_TAGS && blockTag.None? {
        blockTag := Some(tag);
        blockParts := [];
      }
      if tag == "a" {
        open := Some(OpenLink(attributes, ContextClasses(contexts), []));
      }
    }

    method StartReleaseGroup() returns (at: nat)
      modifies this`groups
      ensures at == |old(groups)| && groups == old(groups) + [Group([], [])]
    {
      at := |groups|;
      groups := groups + [Group([], [])];
    }

    method FinishLink(tag: string)
      requires Valid()
      modifies this
      ensures Valid() && Value() == CloseLink(old(Value()), tag)
    {
      if tag == "a" && open.Some? {
        var link := ClosedLink(open.value);
        links := links + [link];
        if IsControl(link.classes) {
          if active.Some? {
            groups := AppendLink(groups, active.value, link);
          } else {
            var at := StartReleaseGroup();
            groups := AppendLink(groups, at, link);
            assert [] + [link] == [link];
            assert groups == old(groups) + [Group([], [link])];
          }
        }
        open := None;
      }
    }

    method FinishBlock(tag: string)
      requires Valid()
      modifies this
      ensures Valid() && Value() == CloseBlock(old(Value()), evidence, tag)
    {
      if blockTag == Some(tag) {
        var text := Joined(blockParts);
        if text != "" && evidence(text) {
          if active.None? || groups[active.value].links != [] {
            var at := StartReleaseGroup();
            active := Some(at);
            assert [] + [text] == [text];
            assert AppendText(groups, at, text) == old(groups) + [Group([text], [])];
          }
          groups := AppendText(groups, active.value, text);
        }
        blockTag := None;
        blockParts := [];
      }
    }

    method HandleEndTag(tag: string)
      requires Valid()
      modifies this
      ensures Valid() && Value() == OnEndTag(old(Value()), evidence, tag)
    {
      hide CloseLink, CloseBlock;
      FinishLink(tag);
      FinishBlock(tag);
      CloseContexts(tag);
    }

    /** The search from the top of the stack for the element to close. */
    method CloseContexts(tag: string)
      requires Valid()
      modifies this`contexts
      ensures contexts == CloseContext(old(contexts), tag)
    {
      var index := |contexts|;
      while index > 0
        invariant 0 <= index <= |contexts|
        invariant contexts == old(contexts)
        invariant forall i :: index <= i < |contexts| ==> contexts[i].tag != tag
      {
        index := index - 1;
        if contexts[index].tag == tag {
          CloseContextAt(contexts, tag, index);
          contexts := contexts[..index];
          return;
        }
      }
    }

    method HandleData(text: string)
      requires Valid()
      modifies this
      ensures Valid() && Value() == OnData(old(Value()), text)
    {
      if text == "" {
        return;
      }
      textParts := textParts + [text];
      if blockTag.Some? {
        blockParts := blockParts + [text];
      }
      if open.Some? {
        open := Some(open.value.(parts := open.value.parts + [text]));
      }
    }
  }

  lemma {:induction false} CloseContextAt(contexts: seq<Context>, tag: string, at: nat)
    requires at < |contexts| && contexts[at].tag == tag
    requires forall i :: at < i < |contexts| ==> contexts[i].tag != tag
    ensures CloseContext(contexts, tag) == contexts[..at]
  {
    if at < |contexts| - 1 {
      var front := contexts[..|contexts| - 1];
      CloseContextAt(front, tag, at);
      assert front[..at] == contexts[..at];
    }
  }

  lemma {:induction false} FeedAppend(doc: Document, evidence: Evidence, first: seq<Event>, second: seq<Event>)
    requires ValidActive(doc)
    ensures Feed(doc, evidence, first + second) == Feed(Feed(doc, evidence, first), evidence, second)
    decreases |first|
  {
    if first == [] {
      assert first + second == second;
    } else {
      assert (first + second)[1..] == first[1..] + second;
      FeedAppend(Step(doc, evidence, first[0]), evidence, first[1..], second);
    }
  }

  // ----- Element trees -----

  /** A void element has a start tag alone, or an end tag too when it is written with a
      closing slash; the second form is an element without children. */
  datatype Node =
    | Text(text: string)
    | Void(tag: string, attributes: Attributes)
    | Element(tag: string, attributes: Attributes, children: seq<Node>)

  predicate WellFormed(node: Node) {
    match node
    case Text(_) => true
    case Void(tag, _) => tag in VOID_TAGS
    case Element(tag, _, children) =>
      if tag in VOID_TAGS then children == [] else forall child :: child in children ==> WellFormed(child)
  }

  function NodeEvents(node: Node): seq<Event>
    decreases node
  {
    match node
    case Text(text) => [Data(text)]
    case Void(tag, attributes) => [StartTag(tag, attributes)]
    case Element(tag, attributes, children) => [StartTag(tag, attributes)] + Events(children) + [EndTag(tag)]
  }

  function Events(nodes: seq<Node>): seq<Event>
    decreases nodes
  {
    if nodes == [] then [] else NodeEvents(nodes[0]) + Events(nodes[1..])
  }

  predicate NodeHasAnchor(node: Node)
    decreases node
  {
    node.Element? && (node.tag == "a" || HasAnchor(node.children))
  }

  predicate HasAnchor(nodes: seq<Node>)
    decreases nodes
  {
    nodes != [] && (NodeHasAnchor(nodes[0]) || HasAnchor(nodes[1..]))
  }

  function NodeTexts(node: Node): seq<string>
    decreases node
  {
    match node
    case Text(text) => if text == "" then [] else [text]
    case Void(_, _) => []
    case Element(_, _, children) => Texts(children)
  }

  function Texts(nodes: seq<Node>): seq<string>
    decreases nodes
  {
    if nodes == [] then [] else NodeTexts(nodes[0]) + Texts(nodes[1..])
  }

  /** The anchors with no anchor inside them, in closing order, each with the classes of
      itself and its ancestors as its context. */
  function NodeAnchors(node: Node, context: set<string>): seq<Link>
    decreases node
  {
    if !node.Element? then []
    else
      var inner := context + node.attributes.classes;
      if node.tag == "a" && !HasAnchor(node.children) then
        [Link(node.attributes.href, node.attributes.classes, node.attributes.title, Joined(Texts(node.children)),
              inner)]
      else
        Anchors(node.children, inner)
  }

  function Anchors(nodes: seq<Node>, context: set<string>): seq<Link>
    decreases nodes
  {
    if nodes == [] then [] else NodeAnchors(nodes[0], context) + Anchors(nodes[1..], context)
  }

  function NodeClasses(node: Node): set<string>
    decreases node
  {
    match node
    case Text(_) => {}
    case Void(_, attributes) => attributes.classes
    case Element(_, attributes, children) => attributes.classes + Classes(children)
  }

  function Classes(nodes: seq<Node>): set<string>
    decreases nodes
  {
    if nodes == [] then {} else NodeClasses(nodes[0]) + Classes(nodes[1..])
  }

  /** The open link after some content: gone if the content held an anchor, otherwise
      longer by the content's texts. */
  function ExtendOpen(open: Option<OpenLink>, hasAnchor: bool, texts: seq<string>): Option<OpenLink> {
    if hasAnchor || open.None? then None
    else Some(open.value.(parts := open.value.parts + texts))
  }

  ghost predicate Reads(before: Document, after: Document, links: seq<Link>, hasAnchor: bool, texts: seq<string>,
                        classes: set<string>) {
    && after.contexts == before.contexts
    && after.links == before.links + links
    && after.open == ExtendOpen(before.open, hasAnchor, texts)
    && after.textParts == before.textParts + texts
    && after.allClasses == before.allClasses + classes
  }

  /** No void element is ever on the stack. */
  predicate NoVoidOpen(doc: Document) {
    forall i :: 0 <= i < |doc.contexts| ==> doc.contexts[i].tag !in VOID_TAGS
  }

  lemma AnchorsAreNeitherVoidNorBlocks()
    ensures "a" !in VOID_TAGS && "a" !in BLOCK_TAGS
  {
    assert |"a"| == 1;
    assert forall tag :: tag in VOID_TAGS || tag in BLOCK_TAGS ==> |tag| != 1 || tag == "p";
    assert "p"[0] != "a"[0];
  }

  lemma ExtendByNothing(open: Option<OpenLink>)
    ensures ExtendOpen(open, false, []) == open
  {
    if open.Some? {
      assert open.value.parts + [] == open.value.parts;
    }
  }

  /** Reading one stretch of content and then another reads their concatenation. */
  lemma ReadsCompose(a: Document, b: Document, c: Document, links: seq<Link>, moreLinks: seq<Link>, anchor: bool,
                     moreAnchor: bool, texts: seq<string>, moreTexts: seq<string>, classes: set<string>,
                     moreClasses: set<string>)
    requires Reads(a, b, links, anchor, texts, classes)
    requires Reads(b, c, moreLinks, moreAnchor, moreTexts, moreClasses)
    ensures Reads(a, c, links + moreLinks, anchor || moreAnchor, texts + moreTexts, classes + moreClasses)
  {
    assert (a.links + links) + moreLinks == a.links + (links + moreLinks);
    assert (a.textParts + texts) + moreTexts == a.textParts + (texts + moreTexts);
    if a.open.Some? {
      assert (a.open.value.parts + texts) + moreTexts == a.open.value.parts + (texts + moreTexts);
    }
  }

  lemma {:induction false} ReadsNode(doc: Document, evidence: Evidence, node: Node)
    requires ValidActive(doc) && NoVoidOpen(doc) && WellFormed(node)
    ensures Reads(doc, Feed(doc, evidence, NodeEvents(node)), NodeAnchors(node, ContextClasses(doc.contexts)),
                  NodeHasAnchor(node), NodeTexts(node), NodeClasses(node))
    decreases node, 1
  {
    match node
    case Text(text) =>
      ExtendByNothing(doc.open);
    case Void(tag, attributes) =>
      AnchorsAreNeitherVoidNorBlocks();
      ExtendByNothing(doc.open);
    case Element(tag, attributes, children) =>
      var entered := Step(doc, evidence, StartTag(tag, attributes));
      FeedElement(doc, evidence, tag, attributes, Events(children));
      if tag in VOID_TAGS {
        AnchorsAreNeitherVoidNorBlocks();
        ReadsClosedVoid(doc, evidence, tag, attributes);
      } else {
        ReadsForest(entered, evidence, children);
        ReadsElement(doc, evidence, node, Feed(entered, evidence, Events(children)));
      }
  }

  lemma FeedElement(doc: Document, evidence: Evidence, tag: string, attributes: Attributes, inside: seq<Event>)
    requires ValidActive(doc)
    ensures Feed(doc, evidence, [StartTag(tag, attributes)] + inside + [EndTag(tag)])
         == Step(Feed(Step(doc, evidence, StartTag(tag, attributes)), evidence, inside), evidence, EndTag(tag))
  {
    FeedAppend(doc, evidence, [StartTag(tag, attributes)], inside);
    FeedAppend(doc, evidence, [StartTag(tag, attributes)] + inside, [EndTag(tag)]);
  }

  /** Closing an element that was filled with its children. */
  lemma ReadsElement(doc: Document, evidence: Evidence, node: Node, filled: Document)
    requires ValidActive(doc) && ValidActive(filled) && node.Element? && node.tag !in VOID_TAGS
    requires var entered := OnStartTag(doc, node.tag, node.attributes);
      Reads(entered, filled, Anchors(node.children, ContextClasses(entered.contexts)), HasAnchor(node.children),
            Texts(node.children), Classes(node.children))
    ensures Reads(doc, OnEndTag(filled, evidence, node.tag), NodeAnchors(node, ContextClasses(doc.contexts)),
                  NodeHasAnchor(node), NodeTexts(node), NodeClasses(node))
  {
    hide CloseBlock, Joined, IsControl;
    CloseContextAt(filled.contexts, node.tag, |doc.contexts|);
    assert filled.contexts[..|doc.contexts|] == doc.contexts;
    BlocksDoNotNavigate(CloseLink(filled, node.tag), evidence, node.tag);
    if node.tag == "a" && !HasAnchor(node.children) {
      assert [] + Texts(node.children) == Texts(node.children);
      NoAnchorsWithoutAnchor(node.children, ContextClasses(doc.contexts) + node.attributes.classes);
    }
  }

  /** The end tag of a void element matches nothing on the stack. */
  lemma ReadsClosedVoid(doc: Document, evidence: Evidence, tag: string, attributes: Attributes)
    requires ValidActive(doc) && NoVoidOpen(doc) && tag in VOID_TAGS
    ensures var closed := OnEndTag(OnStartTag(doc, tag, attributes), evidence, tag);
      Reads(doc, closed, [], false, [], attributes.classes)
  {
    hide CloseBlock, Joined, IsControl;
    AnchorsAreNeitherVoidNorBlocks();
    ExtendByNothing(doc.open);
    var entered := OnStartTag(doc, tag, attributes);
    BlocksDoNotNavigate(CloseLink(entered, tag), evidence, tag);
    assert CloseContext(entered.contexts, tag) == doc.contexts;
  }

  lemma BlocksDoNotNavigate(doc: Document, evidence: Evidence, tag: string)
    requires ValidActive(doc)
    ensures var next := CloseBlock(doc, evidence, tag);
      && next.contexts == doc.contexts && next.links == doc.links && next.open == doc.open
      && next.textParts == doc.textParts && next.allClasses == doc.allClasses
  {
  }

  lemma {:induction false} NoAnchorsInNode(node: Node, context: set<string>)
    requires !NodeHasAnchor(node)
    ensures NodeAnchors(node, context) == []
    decreases node, 1
  {
    if node.Element? {
      NoAnchorsWithoutAnchor(node.children, context + node.attributes.classes);
    }
  }

  lemma {:induction false} NoAnchorsWithoutAnchor(nodes: seq<Node>, context: set<string>)
    requires !HasAnchor(nodes)
    ensures Anchors(nodes, context) == []
    decreases nodes, 0
  {
    if nodes != [] {
      NoAnchorsInNode(nodes[0], context);
      NoAnchorsWithoutAnchor(nodes[1..], context);
    }
  }

  /** The events of a forest leave the stack as it was and record exactly the forest's
      innermost anchors. */
  lemma {:induction false} ReadsForest(doc: Document, evidence: Evidence, nodes: seq<Node>)
    requires ValidActive(doc) && NoVoidOpen(doc) && forall node :: node in nodes ==> WellFormed(node)
    ensures Reads(doc, Feed(doc, evidence, Events(nodes)), Anchors(nodes, ContextClasses(doc.contexts)),
                  HasAnchor(nodes), Texts(nodes), Classes(nodes))
    decreases nodes, 0
  {
    if nodes == [] {
      ExtendByNothing(doc.open);
      assert doc.links + [] == doc.links && doc.textParts + [] == doc.textParts;
    } else {
      var node, rest, context := nodes[0], nodes[1..], ContextClasses(doc.contexts);
      var middle := Feed(doc, evidence, NodeEvents(node));
      ReadsNode(doc, evidence, node);
      FeedAppend(doc, evidence, NodeEvents(node), Events(rest));
      ReadsForest(middle, evidence, rest);
      ReadsCompose(doc, middle, Feed(middle, evidence, Events(rest)),
                   NodeAnchors(node, context), Anchors(rest, context), NodeHasAnchor(node), HasAnchor(rest),
                   NodeTexts(node), Texts(rest), NodeClasses(node), Classes(rest));
    }
  }

  /** Parsing a page: every anchor without an anchor inside it is recorded once, in
      closing order, with the classes of itself and its ancestors. */
  lemma ParsingReadsTheTree(evidence: Evidence, nodes: seq<Node>)
    requires forall node :: node in nodes ==> WellFormed(node)
    ensures var doc := Feed(EMPTY_DOCUMENT, evidence, Events(nodes));
      && doc.links == Anchors(nodes, {})
      && doc.contexts == [] && doc.open.None?
      && doc.textParts == Texts(nodes) && doc.allClasses == Classes(nodes)
  {
    ReadsForest(EMPTY_DOCUMENT, evidence, nodes);
  }

  lemma {:induction false} CloseContextPrefix(contexts: seq<Context>, tag: string)
    ensures CloseContext(contexts, tag) <= contexts
  {
    if (exists i :: 0 <= i < |contexts| && contexts[i].tag == tag) && contexts[|contexts| - 1].tag != tag {
      CloseContextPrefix(contexts[..|contexts| - 1], tag);
    }
  }

  /** No events, well nested or not, put a void element on the stack. */
  lemma {:induction false} AnyEventsOpenNoVoid(doc: Document, evidence: Evidence, events: seq<Event>)
    requires ValidActive(doc) && NoVoidOpen(doc)
    ensures NoVoidOpen(Feed(doc, evidence, events))
    decreases |events|
  {
    hide CloseBlock, Joined, IsControl;
    if events != [] {
      var next := Step(doc, evidence, events[0]);
      if events[0].EndTag? {
        var tag := events[0].tag;
        BlocksDoNotNavigate(CloseLink(doc, tag), evidence, tag);
        CloseContextPrefix(doc.contexts, tag);
        assert next.contexts == CloseContext(doc.contexts, tag);
      }
      AnyEventsOpenNoVoid(next, evidence, events[1..]);
    }
  }

  // ----- Release groups -----

  datatype Milestone = Metadata(text: string) | Control(link: Link)

  /** What one event contributes to the page's sequence of release milestones: a closed
      download control, or a closed block of release metadata. */
  function Emitted(doc: Document, evidence: Evidence, event: Event): seq<Milestone> {
    if !event.EndTag? then []
    else if event.tag == "a" && doc.open.Some? && IsControl(doc.open.value.attributes.classes) then
      [Control(ClosedLink(doc.open.value))]
    else if doc.blockTag == Some(event.tag) && Joined(doc.blockParts) != "" && evidence(Joined(doc.blockParts)) then
      [Metadata(Joined(doc.blockParts))]
    else
      []
  }

  function Milestones(doc: Document, evidence: Evidence, events: seq<Event>): seq<Milestone>
    requires ValidActive(doc)
    decreases |events|
  {
    if events == [] then []
    else Emitted(doc, evidence, events[0]) + Milestones(Step(doc, evidence, events[0]), evidence, events[1..])
  }

  function TextMilestones(texts: seq<string>): seq<Milestone> {
    if texts == [] then [] else TextMilestones(texts[..|texts| - 1]) + [Metadata(texts[|texts| - 1])]
  }

  function LinkMilestones(links: seq<Link>): seq<Milestone> {
    if links == [] then [] else LinkMilestones(links[..|links| - 1]) + [Control(links[|links| - 1])]
  }

  function GroupMilestones(group: Group): seq<Milestone> {
    TextMilestones(group.texts) + LinkMilestones(group.links)
  }

  /** The groups read back in order: each group's texts, then its links. */
  function Flatten(groups: seq<Group>): seq<Milestone> {
    if groups == [] then [] else Flatten(groups[..|groups| - 1]) + GroupMilestones(groups[|groups| - 1])
  }

  /** How a page's milestones are split into groups: nothing is lost, repeated or
      reordered; controls before any metadata stand alone; and a group with metadata is
      followed by another only once it holds a control. */
  ghost predicate Splits(milestones: seq<Milestone>, groups: seq<Group>) {
    Flatten(groups) == milestones && Shaped(groups)
  }

  ghost predicate Shaped(groups: seq<Group>) {
    && (forall i :: 0 <= i < |groups| && groups[i].texts == [] ==> |groups[i].links| == 1)
    && (forall i, j :: 0 <= i < j < |groups| && groups[j].texts == [] ==> groups[i].texts == [])
    && (forall i :: 0 <= i < |groups| - 1 && groups[i].texts != [] ==> groups[i].links != [])
  }

  /** Adding one milestone to the groups so far. */
  function AddMilestone(groups: seq<Group>, milestone: Milestone): seq<Group> {
    var last := |groups| - 1;
    match milestone
    case Metadata(text) =>
      if groups != [] && groups[last].texts != [] && groups[last].links == [] then AppendText(groups, last, text)
      else groups + [Group([text], [])]
    case Control(link) =>
      if groups != [] && groups[last].texts != [] then AppendLink(groups, last, link)
      else groups + [Group([], [link])]
  }

  /** The active group is the last one, and only once some metadata was seen. */
  ghost predicate ActiveIsLast(doc: Document) {
    doc.active == if doc.groups != [] && doc.groups[|doc.groups| - 1].texts != [] then Some(|doc.groups| - 1) else None
  }

  ghost predicate Tracked(doc: Document) {
    && ValidActive(doc) && ActiveIsLast(doc)
    && (doc.blockTag.Some? ==> doc.blockTag.value in BLOCK_TAGS)
  }

  lemma CloseLinkAdds(doc: Document)
    requires Tracked(doc) && doc.open.Some?
    ensures var next := CloseLink(doc, "a");
      && Tracked(next)
      && next.groups == (if IsControl(doc.open.value.attributes.classes)
                         then AddMilestone(doc.groups, Control(ClosedLink(doc.open.value))) else doc.groups)
  {
  }

  lemma CloseBlockAdds(doc: Document, evidence: Evidence, tag: string)
    requires Tracked(doc) && doc.blockTag == Some(tag)
    ensures var text := Joined(doc.blockParts); var next := CloseBlock(doc, evidence, tag);
      && Tracked(next)
      && next.groups == if text != "" && evidence(text) then AddMilestone(doc.groups, Metadata(text)) else doc.groups
  {
  }

  lemma EndTagAddsMilestones(doc: Document, evidence: Evidence, tag: string)
    requires Tracked(doc)
    ensures Tracked(OnEndTag(doc, evidence, tag))
    ensures var emitted := Emitted(doc, evidence, EndTag(tag));
      && |emitted| <= 1
      && OnEndTag(doc, evidence, tag).groups
         == if emitted == [] then doc.groups else AddMilestone(doc.groups, emitted[0])
  {
    hide Joined, IsControl, AddMilestone, AppendLink, AppendText, CloseContext, ContextClasses;
    AnchorsAreNeitherVoidNorBlocks();
    if tag == "a" {
      assert doc.blockTag != Some(tag);
      if doc.open.Some? {
        CloseLinkAdds(doc);
      }
      hide CloseLink;
      assert CloseBlock(CloseLink(doc, tag), evidence, tag) == CloseLink(doc, tag);
    } else if doc.blockTag == Some(tag) {
      CloseBlockAdds(doc, evidence, tag);
    }
  }

  lemma StepAddsMilestones(doc: Document, evidence: Evidence, event: Event)
    requires Tracked(doc)
    ensures Tracked(Step(doc, evidence, event))
    ensures |Emitted(doc, evidence, event)| <= 1
    ensures Step(doc, evidence, event).groups
         == if Emitted(doc, evidence, event) == [] then doc.groups
            else AddMilestone(doc.groups, Emitted(doc, evidence, event)[0])
  {
    hide Joined, IsControl, AddMilestone, OnEndTag, ContextClasses;
    if event.EndTag? {
      EndTagAddsMilestones(doc, evidence, event.tag);
    }
  }

  lemma FlattenAppend(groups: seq<Group>, group: Group)
    ensures Flatten(groups + [group]) == Flatten(groups) + GroupMilestones(group)
  {
    assert (groups + [group])[..|groups|] == groups;
  }

  lemma TextAppended(texts: seq<string>, text: string)
    ensures TextMilestones(texts + [text]) == TextMilestones(texts) + [Metadata(text)]
  {
    assert (texts + [text])[..|texts|] == texts;
  }

  lemma LinkAppended(links: seq<Link>, link: Link)
    ensures LinkMilestones(links + [link]) == LinkMilestones(links) + [Control(link)]
  {
    assert (links + [link])[..|links|] == links;
  }

  lemma LastGrows(groups: seq<Group>, group: Group, milestone: Milestone)
    requires groups != []
    requires GroupMilestones(group) == GroupMilestones(groups[|groups| - 1]) + [milestone]
    ensures Flatten(groups[|groups| - 1 := group]) == Flatten(groups) + [milestone]
  {
    var last := |groups| - 1;
    assert (Flatten(groups[..last]) + GroupMilestones(groups[last])) + [milestone]
        == Flatten(groups[..last]) + (GroupMilestones(groups[last]) + [milestone]);
  }

  lemma GroupWithText(group: Group, text: string)
    requires group.links == []
    ensures GroupMilestones(group.(texts := group.texts + [text])) == GroupMilestones(group) + [Metadata(text)]
  {
    TextAppended(group.texts, text);
  }

  lemma GroupWithLink(group: Group, link: Link)
    ensures GroupMilestones(group.(links := group.links + [link])) == GroupMilestones(group) + [Control(link)]
  {
    LinkAppended(group.links, link);
    assert TextMilestones(group.texts) + (LinkMilestones(group.links) + [Control(link)])
        == (TextMilestones(group.texts) + LinkMilestones(group.links)) + [Control(link)];
  }

  lemma OneMilestoneGroups(text: string, link: Link)
    ensures GroupMilestones(Group([text], [])) == [Metadata(text)]
    ensures GroupMilestones(Group([], [link])) == [Control(link)]
  {
    TextAppended([], text);
    LinkAppended([], link);
    assert [] + [text] == [text] && [] + [link] == [link];
  }

  lemma AddFlattens(groups: seq<Group>, milestone: Milestone)
    ensures Flatten(AddMilestone(groups, milestone)) == Flatten(groups) + [milestone]
  {
    hide GroupMilestones, Flatten;
    var last := |groups| - 1;
    match milestone
    case Metadata(text) =>
      if groups != [] && groups[last].texts != [] && groups[last].links == [] {
        GroupWithText(groups[last], text);
        LastGrows(groups, groups[last].(texts := groups[last].texts + [text]), milestone);
      } else {
        OneMilestoneGroups(text, Link("", {}, "", "", {}));
        FlattenAppend(groups, Group([text], []));
      }
    case Control(link) =>
      if groups != [] && groups[last].texts != [] {
        GroupWithLink(groups[last], link);
        LastGrows(groups, groups[last].(links := groups[last].links + [link]), milestone);
      } else {
        OneMilestoneGroups("", link);
        FlattenAppend(groups, Group([], [link]));
      }
  }

  lemma AddKeepsShape(groups: seq<Group>, milestone: Milestone)
    requires Shaped(groups)
    ensures Shaped(AddMilestone(groups, milestone))
  {
  }

  lemma AddKeepsSplit(milestones: seq<Milestone>, groups: seq<Group>, milestone: Milestone)
    requires Splits(milestones, groups)
    ensures Splits(milestones + [milestone], AddMilestone(groups, milestone))
  {
    hide Shaped, AddMilestone;
    AddFlattens(groups, milestone);
    AddKeepsShape(groups, milestone);
  }

  lemma {:induction false} FeedKeepsSplit(doc: Document, evidence: Evidence, events: seq<Event>, seen: seq<Milestone>)
    requires Tracked(doc) && Splits(seen, doc.groups)
    ensures Splits(seen + Milestones(doc, evidence, events), Feed(doc, evidence, events).groups)
    decreases |events|
  {
    hide Splits, AddMilestone, Emitted, OnEndTag, OnStartTag;
    if events == [] {
      assert seen + [] == seen;
    } else {
      var emitted := Emitted(doc, evidence, events[0]);
      var next := Step(doc, evidence, events[0]);
      StepAddsMilestones(doc, evidence, events[0]);
      if emitted != [] {
        AddKeepsSplit(seen, doc.groups, emitted[0]);
        assert emitted == [emitted[0]];
      } else {
        assert seen + emitted == seen;
      }
      FeedKeepsSplit(next, evidence, events[1..], seen + emitted);
      assert (seen + emitted) + Milestones(next, evidence, events[1..])
          == seen + Milestones(doc, evidence, events);
    }
  }

  /** For any event sequence, well nested or not, the release groups split the page's
      milestones. */
  lemma GroupsSplitTheMilestones(evidence: Evidence, events: seq<Event>)
    ensures Splits(Milestones(EMPTY_DOCUMENT, evidence, events), Feed(EMPTY_DOCUMENT, evidence, events).groups)
  {
    FeedKeepsSplit(EMPTY_DOCUMENT, evidence, events, []);
    assert [] + Milestones(EMPTY_DOCUMENT, evidence, events) == Milestones(EMPTY_DOCUMENT, evidence, events);
  }

  lemma GroupEnds(group: Group)
    ensures group.links != [] ==>
      GroupMilestones(group) == GroupMilestones(group.(links := group.links[..|group.links| - 1]))
                                + [Control(group.links[|group.links| - 1])]
    ensures group.links == [] && group.texts != [] ==>
      GroupMilestones(group) == GroupMilestones(group.(texts := group.texts[..|group.texts| - 1]))
                                + [Metadata(group.texts[|group.texts| - 1])]
    ensures GroupMilestones(group) == [] <==> group.texts == [] && group.links == []
  {
    if group.links != [] {
      var front := group.links[..|group.links| - 1];
      assert TextMilestones(group.texts) + (LinkMilestones(front) + [Control(group.links[|group.links| - 1])])
          == (TextMilestones(group.texts) + LinkMilestones(front)) + [Control(group.links[|group.links| - 1])];
    }
  }

  lemma LastMilestone(front: seq<Milestone>, milestone: Milestone, before: seq<Milestone>, last: Milestone)
    requires front + [milestone] == before + [last]
    ensures front == before && milestone == last
  {
    var all := front + [milestone];
    assert all[|all| - 1] == milestone && all[|all| - 1] == last;
    assert all[..|all| - 1] == front && all[..|all| - 1] == before;
  }

  /** A split always arises by adding its last milestone to a split of the others. */
  lemma SplitUndo(front: seq<Milestone>, milestone: Milestone, groups: seq<Group>) returns (before: seq<Group>)
    requires Splits(front + [milestone], groups)
    ensures Splits(front, before) && groups == AddMilestone(before, milestone)
  {
    var last := groups[|groups| - 1];
    if last.links != [] {
      before := LastControlUndo(front, milestone, groups);
    } else {
      before := LastMetadataUndo(front, milestone, groups);
    }
  }

  lemma LastControlUndo(front: seq<Milestone>, milestone: Milestone, groups: seq<Group>) returns (before: seq<Group>)
    requires Splits(front + [milestone], groups) && groups != [] && groups[|groups| - 1].links != []
    ensures Splits(front, before) && groups == AddMilestone(before, milestone)
  {
    hide Flatten, GroupMilestones, Shaped;
    var at, last := |groups| - 1, groups[|groups| - 1];
    var link := last.links[|last.links| - 1];
    var shorter := last.(links := last.links[..|last.links| - 1]);
    assert last.links == shorter.links + [link];
    GroupEnds(last);
    GroupEnds(shorter);
    UndoFlattens(front, milestone, groups, shorter, Control(link));
    assert groups == groups[..at] + [last];
    LastGroupShape(groups);
    if last.texts == [] {
      before := groups[..at];
      assert [] + [link] == [link];
    } else {
      before := groups[at := shorter];
    }
    UndoneShape(groups, before);
  }

  lemma LastMetadataUndo(front: seq<Milestone>, milestone: Milestone, groups: seq<Group>) returns (before: seq<Group>)
    requires Splits(front + [milestone], groups) && groups != [] && groups[|groups| - 1].links == []
    ensures Splits(front, before) && groups == AddMilestone(before, milestone)
  {
    hide Flatten, GroupMilestones, Shaped;
    var at, last := |groups| - 1, groups[|groups| - 1];
    LastGroupShape(groups);
    var text := last.texts[|last.texts| - 1];
    var shorter := last.(texts := last.texts[..|last.texts| - 1]);
    assert last.texts == shorter.texts + [text];
    GroupEnds(last);
    GroupEnds(shorter);
    UndoFlattens(front, milestone, groups, shorter, Metadata(text));
    assert groups == groups[..at] + [last];
    before := if |last.texts| == 1 then groups[..at] else groups[at := shorter];
    UndoneShape(groups, before);
  }

  /** What the shape of the groups says about the last one. */
  lemma LastGroupShape(groups: seq<Group>)
    requires Shaped(groups) && groups != []
    ensures var last := groups[|groups| - 1];
      && (last.texts == [] ==> |last.links| == 1 && (|groups| > 1 ==> groups[|groups| - 2].texts == []))
      && (|groups| > 1 && groups[|groups| - 2].texts != [] ==> groups[|groups| - 2].links != [])
  {
  }

  lemma UndoFlattens(front: seq<Milestone>, milestone: Milestone, groups: seq<Group>, shorter: Group, last: Milestone)
    requires groups != [] && Flatten(groups) == front + [milestone]
    requires GroupMilestones(groups[|groups| - 1]) == GroupMilestones(shorter) + [last]
    ensures milestone == last && Flatten(groups[|groups| - 1 := shorter]) == front
    ensures GroupMilestones(shorter) == [] ==> Flatten(groups[..|groups| - 1]) == front
  {
    var before := Flatten(groups[..|groups| - 1]);
    assert before + (GroupMilestones(shorter) + [last]) == (before + GroupMilestones(shorter)) + [last];
    LastMilestone(front, milestone, before + GroupMilestones(shorter), last);
    assert before + [] == before;
  }

  lemma UndoneShape(groups: seq<Group>, before: seq<Group>)
    requires Shaped(groups) && groups != []
    requires before == groups[..|groups| - 1]
      || (|before| == |groups| && before[..|groups| - 1] == groups[..|groups| - 1]
          && before[|groups| - 1].texts != [] && groups[|groups| - 1].texts != [])
    ensures Shaped(before)
  {
    assert forall i :: 0 <= i < |groups| - 1 ==> groups[..|groups| - 1][i] == groups[i];
    assert forall i :: 0 <= i < |groups| - 1 ==> before[i] == groups[i];
  }

  /** The milestones determine the groups: no other grouping splits them. */
  lemma {:induction false} SplitIsUnique(milestones: seq<Milestone>, a: seq<Group>, b: seq<Group>)
    requires Splits(milestones, a) && Splits(milestones, b)
    ensures a == b
    decreases |milestones|
  {
    if milestones == [] {
    } else {
      var front, last := milestones[..|milestones| - 1], milestones[|milestones| - 1];
      assert milestones == front + [last];
      var x := SplitUndo(front, last, a);
      var y := SplitUndo(front, last, b);
      SplitIsUnique(front, x, y);
    }
  }

  // ----- Conservation of download controls -----

  predicate IsControlLink(link: Link) {
    exists c :: c in link.classes && |c| >= 4 && c[..4] == "aio-"
  }

  function GroupLinks(groups: seq<Group>): seq<Link> {
    if groups == [] then [] else GroupLinks(groups[..|groups| - 1]) + groups[|groups| - 1].links
  }

  lemma GroupLinksAppend(groups: seq<Group>, group: Group)
    ensures GroupLinks(groups + [group]) == GroupLinks(groups) + group.links
  {
    assert (groups + [group])[..|groups|] == groups;
  }

  lemma GroupLinksReplaceLast(groups: seq<Group>, group: Group)
    requires groups != []
    ensures GroupLinks(groups[|groups| - 1 := group]) == GroupLinks(groups[..|groups| - 1]) + group.links
  {
    assert groups[|groups| - 1 := group][..|groups| - 1] == groups[..|groups| - 1];
  }

  lemma AddConservesLinks(groups: seq<Group>, milestone: Milestone)
    ensures GroupLinks(AddMilestone(groups, milestone))
         == GroupLinks(groups) + if milestone.Control? then [milestone.link] else []
  {
    hide GroupLinks;
    var added, last := AddMilestone(groups, milestone), |groups| - 1;
    if |added| == |groups| {
      GroupLinksReplaceLast(groups, added[last]);
      GroupLinksReplaceLast(groups, groups[last]);
      assert groups[last := groups[last]] == groups;
      assert added == groups[last := added[last]];
      if milestone.Control? {
        assert (GroupLinks(groups[..last]) + groups[last].links) + [milestone.link]
            == GroupLinks(groups[..last]) + (groups[last].links + [milestone.link]);
      } else {
        assert GroupLinks(groups) + [] == GroupLinks(groups);
      }
    } else {
      GroupLinksAppend(groups, added[|groups|]);
    }
  }

  lemma StepConservesControls(doc: Document, evidence: Evidence, event: Event)
    requires Tracked(doc) && GroupLinks(doc.groups) == Filter(doc.links, IsControlLink)
    ensures var next := Step(doc, evidence, event);
      Tracked(next) && GroupLinks(next.groups) == Filter(next.links, IsControlLink)
  {
    hide GroupLinks, Filter, AddMilestone;
    StepAddsMilestones(doc, evidence, event);
    AnchorsAreNeitherVoidNorBlocks();
    var emitted := Emitted(doc, evidence, event);
    if emitted != [] {
      AddConservesLinks(doc.groups, emitted[0]);
      assert GroupLinks(doc.groups) + [] == GroupLinks(doc.groups);
    }
    if event == EndTag("a") && doc.open.Some? {
      var link := ClosedLink(doc.open.value);
      FilterStep(doc.links, link, IsControlLink);
      assert Filter(doc.links, IsControlLink) + [] == Filter(doc.links, IsControlLink);
    }
  }

  lemma {:induction false} FeedConservesControls(doc: Document, evidence: Evidence, events: seq<Event>)
    requires Tracked(doc) && GroupLinks(doc.groups) == Filter(doc.links, IsControlLink)
    ensures var next := Feed(doc, evidence, events); GroupLinks(next.groups) == Filter(next.links, IsControlLink)
    decreases |events|
  {
    hide Step, GroupLinks, Filter;
    if events != [] {
      StepConservesControls(doc, evidence, events[0]);
      FeedConservesControls(Step(doc, evidence, events[0]), evidence, events[1..]);
    }
  }

  /** For any event sequence, the links of all groups together are exactly the download
      controls among the page's links, in document order. */
  lemma GroupsHoldTheControls(evidence: Evidence, events: seq<Event>)
    ensures var doc := Feed(EMPTY_DOCUMENT, evidence, events);
      GroupLinks(doc.groups) == Filter(doc.links, IsControlLink)
  {
    FeedConservesControls(EMPTY_DOCUMENT, evidence, events);
  }
}
