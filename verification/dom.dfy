/** An immutable model of the parsed page and of the BeautifulSoup calls the
    extractors make on it: `find`, `find_all`, `get`, `get_text(strip=True)`,
    `.string` and `find_parent('blockquote')`. */
module Dom {
  import opened Wrappers
  import opened Seqs
  import opened PyStr

  /** A text node, or an element with its tag name, its `class` list (the one
      multi-valued attribute), its other attributes and its children. */
  datatype Node =
    | Text(text: string)
    | Element(tag: string, classes: seq<string>, attrs: map<string, string>, children: seq<Node>)

  /** A node reached by a search, with `quoted` true when one of its proper
      ancestors, all the way up to the document, is a `<blockquote>` — what
      `node.find_parent('blockquote')` reports. */
  datatype Hit = Hit(node: Node, quoted: bool)

  /** The searches the routes perform. */
  datatype Query =
    | Tag(name: string)                          // find_all('p')
    | Classed(name: string, anyOf: seq<string>)  // find_all('a', class_='post-item'), class_=['reply', 'edit']
    | Labelled(name: string, caption: string)      // find('a', string='下页')

  /** The document a search starts from. */
  function Root(doc: Node): Hit {
    Hit(doc, false)
  }

  /** `tag.string`: the text of a node whose only content, through a chain of
      single children, is one string. */
  function StringOf(n: Node): (r: Option<string>)
    ensures n.Text? ==> r == Some(n.text)
    ensures r.Some? && n.Element? ==> |n.children| == 1 && r == StringOf(n.children[0])
    ensures n.Element? && |n.children| != 1 ==> r.None?
    decreases n
  {
    match n
    case Text(s) => Some(s)
    case Element(_, _, _, kids) => if |kids| == 1 then StringOf(kids[0]) else None
  }

  predicate Matches(n: Node, q: Query) {
    && n.Element?
    && n.tag == q.name
    && match q
       case Tag(_) => true
       case Classed(_, anyOf) => exists c :: c in anyOf && c in n.classes
       case Labelled(_, caption) => StringOf(n) == Some(caption)
  }

  /** Every node strictly below `h.node`, in document order (`.descendants`). */
  function Below(h: Hit): seq<Hit>
    decreases h.node
  {
    match h.node
    case Text(_) => []
    case Element(tag, _, _, kids) => Forest(kids, h.quoted || tag == "blockquote")
  }

  /** The nodes of a list of siblings and of their subtrees, in document order. */
  function Forest(kids: seq<Node>, quoted: bool): seq<Hit>
    decreases kids
  {
    if kids == [] then []
    else [Hit(kids[0], quoted)] + Below(Hit(kids[0], quoted)) + Forest(kids[1..], quoted)
  }

  /** `h.find_all(...)`: the matching nodes below `h`, in document order. */
  function FindAll(h: Hit, q: Query): (r: seq<Hit>)
    ensures forall k :: 0 <= k < |r| ==> Matches(r[k].node, q) && r[k] in Below(h)
    ensures forall k :: 0 <= k < |Below(h)| && Matches(Below(h)[k].node, q) ==> Below(h)[k] in r
  {
    Filter(Below(h), (x: Hit) => Matches(x.node, q))
  }

  /** `find_all` searches in document order: below an element come the first
      child (when it matches), then the first child's own matches, then the
      matches among the later siblings and their subtrees. */
  lemma FindAllPreorder(tag: string, classes: seq<string>, attrs: map<string, string>, kids: seq<Node>, quoted: bool, q: Query)
    requires kids != []
    ensures var inner := quoted || tag == "blockquote";
      var first := Hit(kids[0], inner);
      FindAll(Hit(Element(tag, classes, attrs, kids), quoted), q)
        == (if Matches(kids[0], q) then [first] else [])
           + FindAll(first, q)
           + FindAll(Hit(Element(tag, classes, attrs, kids[1..]), quoted), q)
  {
    var inner := quoted || tag == "blockquote";
    var first := Hit(kids[0], inner);
    var m := (x: Hit) => Matches(x.node, q);
    assert Below(Hit(Element(tag, classes, attrs, kids), quoted))
      == [first] + Below(first) + Forest(kids[1..], inner);
    assert Below(Hit(Element(tag, classes, attrs, kids[1..]), quoted)) == Forest(kids[1..], inner);
    FilterAppend([first] + Below(first), Forest(kids[1..], inner), m);
    FilterAppend([first], Below(first), m);
  }

  /** `h.find(...)`: the first match in document order, if any. */
  function Find(h: Hit, q: Query): (r: Option<Hit>)
    ensures r.None? <==> forall k :: 0 <= k < |Below(h)| ==> !Matches(Below(h)[k].node, q)
    ensures r.Some? ==> Matches(r.value.node, q) && r.value == FindAll(h, q)[0]
  {
    var all := FindAll(h, q);
    if all == [] then None else Some(all[0])
  }

  /** `tag.get(key)`: a single-valued attribute. */
  function Attr(n: Node, key: string): (r: Option<string>)
    ensures r.Some? <==> n.Element? && key in n.attrs
    ensures r.Some? ==> r.value == n.attrs[key]
  {
    if n.Element? && key in n.attrs then Some(n.attrs[key]) else None
  }

  /** `tag.get('class')[0]` for an element found by class. */
  function FirstClass(n: Node): (r: string)
    ensures n.Element? && |n.classes| > 0 ==> r == n.classes[0]
  {
    if n.Element? && |n.classes| > 0 then n.classes[0] else ""
  }

  /** An element found by class has a class list, so `get('class')[0]` never
      fails on it and gives one of its classes. */
  lemma FirstClassOfMatch(n: Node, name: string, anyOf: seq<string>)
    requires Matches(n, Classed(name, anyOf))
    ensures n.Element? && |n.classes| > 0 && FirstClass(n) == n.classes[0]
  {
    var c :| c in anyOf && c in n.classes;
  }

  /** `tag.get_text(strip=True)`: each string below the node stripped of
      surrounding whitespace, concatenated with no separator. */
  function GetText(n: Node): (r: string)
    ensures StringOf(n).Some? ==> r == Strip(StringOf(n).value)
    decreases n
  {
    match n
    case Text(s) => Strip(s)
    case Element(_, _, _, kids) =>
      assert |kids| == 1 ==> kids[1..] == [] && ForestText(kids) == GetText(kids[0]) + ForestText(kids[1..]);
      ForestText(kids)
  }

  function ForestText(kids: seq<Node>): string
    decreases kids
  {
    if kids == [] then "" else GetText(kids[0]) + ForestText(kids[1..])
  }

  /** The stripped strings of the text nodes among `hits`, concatenated. */
  function TextsOf(hits: seq<Hit>): string
    decreases |hits|
  {
    if hits == [] then ""
    else (if hits[0].node.Text? then Strip(hits[0].node.text) else "") + TextsOf(hits[1..])
  }

  lemma {:induction false} TextsOfAppend(a: seq<Hit>, b: seq<Hit>)
    ensures TextsOf(a + b) == TextsOf(a) + TextsOf(b)
    decreases |a|
  {
    if a == [] {
      assert a + b == b;
    } else {
      assert (a + b)[0] == a[0];
      assert (a + b)[1..] == a[1..] + b;
      TextsOfAppend(a[1..], b);
    }
  }

  /** `get_text` reads exactly the text nodes of the document-order walk: the
      recursive definition agrees with the descendants `find_all` searches. */
  lemma {:induction false} GetTextByWalk(h: Hit)
    requires h.node.Element?
    ensures GetText(h.node) == TextsOf(Below(h))
    decreases h.node, 1
  {
    ForestTextByWalk(h.node.children, h.quoted || h.node.tag == "blockquote");
  }

  lemma {:induction false} ForestTextByWalk(kids: seq<Node>, quoted: bool)
    ensures ForestText(kids) == TextsOf(Forest(kids, quoted))
    decreases kids, 0
  {
    if kids != [] {
      var first := Hit(kids[0], quoted);
      var below, rest := Below(first), Forest(kids[1..], quoted);
      assert Forest(kids, quoted) == ([first] + below) + rest;
      TextsOfAppend([first] + below, rest);
      TextsOfAppend([first], below);
      assert GetText(kids[0]) == TextsOf([first]) + TextsOf(below) by {
        if kids[0].Element? {
          GetTextByWalk(first);
          assert TextsOf([first]) == "";
        } else {
          assert below == [];
        }
      }
      ForestTextByWalk(kids[1..], quoted);
    }
  }

  /** Quoting is inherited: below a quoted node, or below a `<blockquote>`,
      every node is quoted. */
  lemma {:induction false} QuotedBelow(h: Hit)
    requires h.quoted || (h.node.Element? && h.node.tag == "blockquote")
    ensures forall k :: 0 <= k < |Below(h)| ==> Below(h)[k].quoted
    decreases h.node, 1
  {
    if h.node.Element? {
      QuotedForest(h.node.children);
    }
  }

  lemma {:induction false} QuotedForest(kids: seq<Node>)
    ensures forall k :: 0 <= k < |Forest(kids, true)| ==> Forest(kids, true)[k].quoted
    decreases kids, 0
  {
    if kids != [] {
      QuotedBelow(Hit(kids[0], true));
      QuotedForest(kids[1..]);
    }
  }

  /** No element of the subtree is a `<blockquote>`. */
  predicate Unquoting(n: Node)
    decreases n
  {
    match n
    case Text(_) => true
    case Element(tag, _, _, kids) => tag != "blockquote" && forall k :: 0 <= k < |kids| ==> Unquoting(kids[k])
  }

  /** Conversely, below an unquoted node whose subtree has no `<blockquote>`,
      nothing is quoted. */
  lemma {:induction false} UnquotedBelow(h: Hit)
    requires !h.quoted && Unquoting(h.node)
    ensures forall k :: 0 <= k < |Below(h)| ==> !Below(h)[k].quoted
    decreases h.node, 1
  {
    if h.node.Element? {
      UnquotedForest(h.node.children);
    }
  }

  lemma {:induction false} UnquotedForest(kids: seq<Node>)
    requires forall k :: 0 <= k < |kids| ==> Unquoting(kids[k])
    ensures forall k :: 0 <= k < |Forest(kids, false)| ==> !Forest(kids, false)[k].quoted
    decreases kids, 0
  {
    if kids != [] {
      UnquotedBelow(Hit(kids[0], false));
      UnquotedForest(kids[1..]);
    }
  }
}
