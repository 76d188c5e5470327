/** The part of the DOM the filter touches: text nodes and elements with
    ordered children. */
module DomTree {
  import opened Seqs

  datatype Node = Text(data: string) | Element(name: string, children: seq<Node>)

  /** `node.nodeName`. */
  function NodeName(n: Node): string {
    match n
    case Text(_) => "#text"
    case Element(name, _) => name
  }

  /** `node.childElementCount`; a text node has none (the property is
      `undefined` there, and `undefined > 0` is false). */
  function ChildElementCount(n: Node): (r: nat)
    ensures r > 0 ==> n.Element?
  {
    match n
    case Text(_) => 0
    case Element(_, cs) => |Filter(cs, (c: Node) => c.Element?)|
  }

  /** `node.textContent`: the text of every text node below, in document
      order. */
  function TextContent(n: Node): string {
    match n
    case Text(d) => d
    case Element(_, cs) => Concat(seq(|cs|, i requires 0 <= i < |cs| => TextContent(cs[i])))
  }

  /** The data of the text nodes a `TreeWalker` showing text visits, in
      document order. */
  function Texts(n: Node): seq<string> {
    match n
    case Text(d) => [d]
    case Element(_, cs) => Concat(seq(|cs|, i requires 0 <= i < |cs| => Texts(cs[i])))
  }

  /** The same elements in the same places; only text data may differ. */
  predicate SameShape(a: Node, b: Node) {
    match a
    case Text(_) => b.Text?
    case Element(name, cs) =>
      && b.Element? && b.name == name && |b.children| == |cs|
      && forall i :: 0 <= i < |cs| ==> SameShape(cs[i], b.children[i])
  }

  /** A text node's data and the names of the elements above it,
      outermost first. Cleaning rewrites text data only, so these names
      stay the same while a tree is walked. */
  datatype Located = Located(data: string, ancestors: seq<string>)

  function DataOf(t: Located): string {
    t.data
  }

  /** The text nodes below `n`, in document order, each with the names of
      its ancestors; `above` names the ancestors of `n` itself. */
  function LocatedTexts(n: Node, above: seq<string>): seq<Located> {
    match n
    case Text(d) => [Located(d, above)]
    case Element(name, cs) =>
      Concat(seq(|cs|, i requires 0 <= i < |cs| => LocatedTexts(cs[i], above + [name])))
  }

  /** Dropping the ancestors leaves the texts a `TreeWalker` visits. */
  lemma {:induction false} LocatedData(n: Node, above: seq<string>)
    ensures MapSeq(LocatedTexts(n, above), DataOf) == Texts(n)
  {
    match n
    case Text(_) =>
    case Element(name, cs) =>
      var parts := seq(|cs|, i requires 0 <= i < |cs| => LocatedTexts(cs[i], above + [name]));
      forall i | 0 <= i < |cs|
        ensures MapSeq(parts[i], DataOf) == Texts(cs[i])
      {
        LocatedData(cs[i], above + [name]);
      }
      ConcatMap(parts, DataOf);
      assert MapEach(parts, DataOf) == seq(|cs|, i requires 0 <= i < |cs| => Texts(cs[i]));
  }

  /** Rewrites the data of every text node with `f`, which sees the text
      and its ancestors, leaving every element in place. */
  function MapTexts(n: Node, above: seq<string>, f: Located -> string): (r: Node)
    ensures SameShape(n, r)
    ensures Texts(r) == MapSeq(LocatedTexts(n, above), f)
  {
    match n
    case Text(d) => Text(f(Located(d, above)))
    case Element(name, cs) =>
      var rs := seq(|cs|, i requires 0 <= i < |cs| => MapTexts(cs[i], above + [name], f));
      var parts := seq(|cs|, i requires 0 <= i < |cs| => LocatedTexts(cs[i], above + [name]));
      ConcatMap(parts, f);
      assert seq(|rs|, i requires 0 <= i < |rs| => Texts(rs[i])) == MapEach(parts, f);
      Element(name, rs)
  }

  /** Rewriting with a function that changes no text changes nothing. */
  lemma {:induction false} MapTextsIdentity(n: Node, above: seq<string>, f: Located -> string)
    requires forall t :: f(t) == t.data
    ensures MapTexts(n, above, f) == n
  {
    match n
    case Text(_) =>
    case Element(name, cs) =>
      forall i | 0 <= i < |cs|
        ensures MapTexts(cs[i], above + [name], f) == cs[i]
      {
        MapTextsIdentity(cs[i], above + [name], f);
      }
      assert MapTexts(n, above, f).children == cs;
  }
}
