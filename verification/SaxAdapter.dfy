/** The adapter from the XML parser's callbacks to the content handler: an element stack, the
    attributes of the element being started, and namespace prefixes with their URIs. */
module SaxAdapter {
  import opened Octets

  datatype Attribute = Attribute(name: string, value: string)

  datatype Binding = Binding(prefix: string, uri: string)

  /** What the parser reports. */
  datatype Callback =
    | Begin(name: string)
    | AttributeValue(name: string, value: string)
    | AttributesEnd
    | Content(text: string)
    | End(name: string)

  /** What the content handler hears. */
  datatype Sax =
    | StartElement(uri: string, local: string, name: string, attributes: seq<Attribute>)
    | Characters(text: string)
    | EndElement(name: string)

  const XMLNS: string := "xmlns:"
  /** The descriptor handed out when a lookup finds nothing. */
  const NOTHING: string := " "

  function Declared(a: Attribute): seq<Binding> {
    if XMLNS <= a.name then [Binding(a.name[|XMLNS|..], a.value)] else []
  }

  function DeclaredBy(attributes: seq<Attribute>): seq<Binding> {
    if attributes == [] then [] else Declared(attributes[0]) + DeclaredBy(attributes[1..])
  }

  function Folded(s: string): (r: string)
    ensures |r| == |s| && forall i :: 0 <= i < |s| ==> r[i] == Lower(s[i])
  {
    seq(|s|, i requires 0 <= i < |s| => Lower(s[i]))
  }

  /** How the array of prefixes is searched: its comparison folds case unless told otherwise. */
  predicate SamePrefix(a: string, b: string) { Folded(a) == Folded(b) }

  /** GetURI: the first binding of the prefix, in any letter case. */
  function Lookup(bindings: seq<Binding>, prefix: string): string {
    if bindings == [] then NOTHING
    else if SamePrefix(bindings[0].prefix, prefix) then bindings[0].uri
    else Lookup(bindings[1..], prefix)
  }

  function Colon(name: string): (i: nat)
    ensures i <= |name|
  {
    if name == "" || name[0] == ':' then 0 else 1 + Colon(name[1..])
  }

  predicate HasPrefix(name: string) { 0 < Colon(name) < |name| }

  function PrefixOf(name: string): string { name[..Colon(name)] }

  /** The start event of an element under the given bindings. */
  function Started(bindings: seq<Binding>, name: string, attributes: seq<Attribute>): Sax {
    if HasPrefix(name) then
      StartElement(Lookup(bindings, PrefixOf(name)), name[Colon(name) + 1..], name, attributes)
    else StartElement("", "", name, attributes)
  }

  /** The start event by the parts of a name: prefix, local name, and the two ways to have neither. */
  lemma StartOf(bindings: seq<Binding>, prefix: string, local: string, attributes: seq<Attribute>)
    requires ':' !in prefix
    ensures prefix != "" ==>
              Started(bindings, prefix + ":" + local, attributes)
              == StartElement(Lookup(bindings, prefix), local, prefix + ":" + local, attributes)
    ensures Started(bindings, prefix, attributes) == StartElement("", "", prefix, attributes)
    ensures Started(bindings, ":" + local, attributes) == StartElement("", "", ":" + local, attributes)
  {
    var name := prefix + ":" + local;
    ColonAt(name, |prefix|);
    ColonAt(prefix, |prefix|);
    ColonAt(":" + local, 0);
    assert name[..|prefix|] == prefix && name[|prefix| + 1..] == local;
  }

  lemma {:induction false} ColonAt(name: string, i: nat)
    requires i <= |name| && ':' !in name[..i] && (i < |name| ==> name[i] == ':')
    ensures Colon(name) == i
  {
    if i > 0 {
      assert name[0] == name[..i][0] && name[1..][..i - 1] == name[..i][1..];
      ColonAt(name[1..], i - 1);
    }
  }

  predicate IsFirst(bindings: seq<Binding>, k: nat, prefix: string)
    requires k < |bindings|
  {
    SamePrefix(bindings[k].prefix, prefix) && forall j :: 0 <= j < k ==> !SamePrefix(bindings[j].prefix, prefix)
  }

  /** A lookup gives the URI of the first binding of the prefix in any letter case, and a single space
      without one; attributes named "xmlns:" and a prefix bind that prefix, no others bind anything. */
  lemma {:induction false} LookupIs(bindings: seq<Binding>, prefix: string)
    ensures (forall k :: 0 <= k < |bindings| ==> !SamePrefix(bindings[k].prefix, prefix)) ==>
              Lookup(bindings, prefix) == " "
    ensures forall k :: 0 <= k < |bindings| && IsFirst(bindings, k, prefix) ==>
              Lookup(bindings, prefix) == bindings[k].uri
    ensures forall a: Attribute ::
              Declared(a) == if "xmlns:" <= a.name then [Binding(a.name[6..], a.value)] else []
  {
    hide SamePrefix;
    if bindings != [] {
      var rest := bindings[1..];
      LookupIs(rest, prefix);
      if forall k :: 0 <= k < |bindings| ==> !SamePrefix(bindings[k].prefix, prefix) {
        forall k | 0 <= k < |rest| ensures !SamePrefix(rest[k].prefix, prefix) {
          assert rest[k] == bindings[k + 1];
        }
      }
      forall k | 0 <= k < |bindings| && IsFirst(bindings, k, prefix)
        ensures Lookup(bindings, prefix) == bindings[k].uri
      {
        if k > 0 {
          assert rest[k - 1] == bindings[k];
          assert forall j :: 0 <= j < k - 1 ==> rest[j] == bindings[j + 1];
          assert IsFirst(rest, k - 1, prefix);
        }
      }
    }
  }

  /** The observer's state with what the handler has heard so far. */
  datatype State = State(elements: seq<string>, attributes: seq<Attribute>, bindings: seq<Binding>, heard: seq<Sax>)

  function TopOf(elements: seq<string>): string {
    if elements == [] then NOTHING else elements[|elements| - 1]
  }

  function Step(s: State, c: Callback): State {
    match c
    case Begin(name) => s.(elements := s.elements + [name], attributes := [])
    case AttributeValue(name, value) =>
      var a := Attribute(name, value);
      s.(attributes := s.attributes + [a], bindings := s.bindings + Declared(a))
    case AttributesEnd => s.(heard := s.heard + [Started(s.bindings, TopOf(s.elements), s.attributes)])
    case Content(text) => s.(heard := s.heard + [Characters(text)])
    case End(name) =>
      s.(elements := if s.elements == [] then [] else s.elements[..|s.elements| - 1],
         heard := s.heard + [EndElement(name)])
  }

  /** Callbacks without an element: a start of a name of one space, and an end that pops nothing. */
  lemma OnAnEmptyStack(s: State, name: string)
    requires s.elements == []
    ensures Step(s, AttributesEnd) == s.(heard := s.heard + [StartElement("", "", " ", s.attributes)])
    ensures Step(s, End(name)) == s.(heard := s.heard + [EndElement(name)])
  {
    StartOf(s.bindings, " ", "", s.attributes);
  }

  function Run(s: State, cs: seq<Callback>): State
    decreases |cs|
  {
    if cs == [] then s else Run(Step(s, cs[0]), cs[1..])
  }

  // ----- the callbacks as they are written

  class Observer {
    var elements: seq<string>
    var attributeNames: seq<string>
    var attributeValues: seq<string>
    var extensions: seq<string>
    var uris: seq<string>
    var heard: seq<Sax>

    ghost predicate Valid() reads this {
      |attributeNames| == |attributeValues| && |extensions| == |uris|
    }

    ghost function View(): State
      requires Valid()
      reads this
    {
      State(elements,
            seq(|attributeNames|,
                k requires 0 <= k < |attributeNames| && |attributeNames| == |attributeValues| reads this =>
              Attribute(attributeNames[k], attributeValues[k])),
            seq(|extensions|, k requires 0 <= k < |extensions| && |extensions| == |uris| reads this =>
              Binding(extensions[k], uris[k])),
            heard)
    }

    method BeginElementCB(name: string)
      requires Valid()
      modifies this
      ensures Valid() && View() == Step(old(View()), Begin(name))
    {
      elements := elements + [name];
      attributeNames, attributeValues := [], [];
    }

    method AttributeValueCB(name: string, value: string)
      requires Valid()
      modifies this
      ensures Valid() && View() == Step(old(View()), AttributeValue(name, value))
    {
      attributeNames := attributeNames + [name];
      attributeValues := attributeValues + [value];
      if |name| >= |XMLNS| && name[..|XMLNS|] == XMLNS {
        extensions := extensions + [name[|XMLNS|..]];
        uris := uris + [value];
      }
    }

    /** GetURI over the parallel arrays. */
    method GetURI(extension: string) returns (uri: string)
      requires Valid()
      ensures uri == Lookup(View().bindings, extension)
    {
      ghost var bindings := View().bindings;
      for i := 0 to |extensions|
        invariant Lookup(bindings, extension) == Lookup(bindings[i..], extension)
      {
        assert bindings[i..][1..] == bindings[i + 1..];
        if SamePrefix(extensions[i], extension) {
          return uris[i];
        }
      }
      return NOTHING;
    }

    method AttributesEndCB()
      requires Valid()
      modifies this`heard
      ensures Valid() && View() == Step(old(View()), AttributesEnd)
    {
      var name := TopOf(elements);
      var attributes := CollectAttributes();
      var local, uri := "", "";
      var index := Colon(name);
      if 0 < index < |name| {
        local := name[index + 1..];
        uri := GetURI(name[..index]);
      }
      heard := heard + [StartElement(uri, local, name, attributes)];
    }

    method CollectAttributes() returns (attributes: seq<Attribute>)
      requires Valid()
      ensures attributes == View().attributes
    {
      attributes := [];
      for i := 0 to |attributeNames|
        invariant |attributes| == i
        invariant forall k :: 0 <= k < i ==> attributes[k] == Attribute(attributeNames[k], attributeValues[k])
      {
        attributes := attributes + [Attribute(attributeNames[i], attributeValues[i])];
      }
    }

    method ContentCB(text: string)
      requires Valid()
      modifies this`heard
      ensures Valid() && View() == Step(old(View()), Content(text))
    {
      heard := heard + [Characters(text)];
    }

    method EndElementCB(name: string)
      requires Valid()
      modifies this`elements, this`heard
      ensures Valid() && View() == Step(old(View()), End(name))
    {
      if |elements| > 0 {
        elements := elements[..|elements| - 1];
      }
      heard := heard + [EndElement(name)];
    }
  }

  // ----- whole elements

  datatype Tree = Node(name: string, attributes: seq<Attribute>, children: Forest)
  datatype Forest = Nil | Child(tree: Tree, rest: Forest) | Text(text: string, rest: Forest)

  function AttributeCallbacks(attributes: seq<Attribute>): seq<Callback> {
    if attributes == [] then []
    else [AttributeValue(attributes[0].name, attributes[0].value)] + AttributeCallbacks(attributes[1..])
  }

  function Callbacks(t: Tree): seq<Callback> {
    [Begin(t.name)] + AttributeCallbacks(t.attributes) + [AttributesEnd] + ForestCallbacks(t.children) + [End(t.name)]
  }

  function ForestCallbacks(f: Forest): seq<Callback> {
    match f
    case Nil => []
    case Child(t, rest) => Callbacks(t) + ForestCallbacks(rest)
    case Text(text, rest) => [Content(text)] + ForestCallbacks(rest)
  }

  /** All bindings an element declares, itself and inside, in document order. */
  function TreeBindings(t: Tree): seq<Binding> { DeclaredBy(t.attributes) + ForestBindings(t.children) }

  function ForestBindings(f: Forest): seq<Binding> {
    match f
    case Nil => []
    case Child(t, rest) => TreeBindings(t) + ForestBindings(rest)
    case Text(_, rest) => ForestBindings(rest)
  }

  /** What the handler hears of an element when `bindings` have been declared in front of it. */
  function Hears(t: Tree, bindings: seq<Binding>): seq<Sax> {
    var inside := bindings + DeclaredBy(t.attributes);
    [Started(inside, t.name, t.attributes)] + ForestHears(t.children, inside) + [EndElement(t.name)]
  }

  function ForestHears(f: Forest, bindings: seq<Binding>): seq<Sax> {
    match f
    case Nil => []
    case Child(t, rest) => Hears(t, bindings) + ForestHears(rest, bindings + TreeBindings(t))
    case Text(text, rest) => [Characters(text)] + ForestHears(rest, bindings)
  }

  lemma {:induction false} RunAppends(s: State, a: seq<Callback>, b: seq<Callback>)
    ensures Run(s, a + b) == Run(Run(s, a), b)
    decreases |a|
  {
    if a == [] {
      assert a + b == b;
    } else {
      assert (a + b)[1..] == a[1..] + b;
      RunAppends(Step(s, a[0]), a[1..], b);
    }
  }

  lemma RunFirst(s: State, c: Callback, rest: seq<Callback>)
    ensures Run(s, [c] + rest) == Run(Step(s, c), rest)
  {
    assert ([c] + rest)[1..] == rest;
  }

  lemma {:induction false} RunAttributes(s: State, attributes: seq<Attribute>)
    ensures Run(s, AttributeCallbacks(attributes)) ==
            s.(attributes := s.attributes + attributes, bindings := s.bindings + DeclaredBy(attributes))
    decreases |attributes|
  {
    hide Run, Declared;
    if attributes == [] {
      RunNothing(s);
      assert s.attributes + [] == s.attributes && s.bindings + [] == s.bindings;
    } else {
      var a, rest := attributes[0], attributes[1..];
      var c := AttributeValue(a.name, a.value);
      RunFirst(s, c, AttributeCallbacks(rest));
      RunAttributes(Step(s, c), rest);
      assert attributes == [a] + rest;
      assert s.attributes + [a] + rest == s.attributes + ([a] + rest);
      Associate(s.bindings, Declared(a), DeclaredBy(rest));
    }
  }

  lemma RunOne(s: State, c: Callback)
    ensures Run(s, [c]) == Step(s, c)
  {
    assert [c][1..] == [];
  }

  /** The adapter preserves the tree: an element's callbacks leave the element stack as it was, and
      the handler hears the element: its start with exactly its own attributes, its contents in
      order, its end. */
  lemma {:induction false} TreeIsHeard(s: State, t: Tree)
    ensures var r := Run(s, Callbacks(t));
            && r.elements == s.elements
            && r.bindings == s.bindings + TreeBindings(t)
            && r.heard == s.heard + Hears(t, s.bindings)
    decreases t, 0
  {
    hide Run, Step, Started, DeclaredBy;
    var name, cs := t.name, t.attributes;
    var s1 := Opened(s, name, cs);
    ForestIsHeard(s1, t.children);
    var s2 := Run(s1, ForestCallbacks(t.children));
    var front := [Begin(name)] + AttributeCallbacks(cs) + [AttributesEnd];
    RunAppends(s, front + ForestCallbacks(t.children), [End(name)]);
    RunAppends(s, front, ForestCallbacks(t.children));
    RunOne(s2, End(name));
    ClosedBy(s2, s.elements, name);
    Associate(s.bindings, DeclaredBy(cs), ForestBindings(t.children));
    var inside := s.bindings + DeclaredBy(cs);
    AssociateHeard(s.heard, [Started(inside, name, cs)], ForestHears(t.children, inside), [EndElement(name)]);
  }

  /** The state behind an element's start. */
  lemma Opened(s: State, name: string, attributes: seq<Attribute>) returns (r: State)
    ensures r == Run(s, [Begin(name)] + AttributeCallbacks(attributes) + [AttributesEnd])
    ensures var inside := s.bindings + DeclaredBy(attributes);
            r == State(s.elements + [name], attributes, inside, s.heard + [Started(inside, name, attributes)])
  {
    hide Run, Started, DeclaredBy;
    var cs := AttributeCallbacks(attributes);
    RunAppends(s, [Begin(name)] + cs, [AttributesEnd]);
    RunAppends(s, [Begin(name)], cs);
    RunOne(s, Begin(name));
    var s1 := Step(s, Begin(name));
    RunAttributes(s1, attributes);
    assert [] + attributes == attributes;
    RunOne(Run(s1, cs), AttributesEnd);
    r := Step(Run(s1, cs), AttributesEnd);
    assert TopOf(s.elements + [name]) == name;
  }

  lemma ClosedBy(s: State, before: seq<string>, name: string)
    requires s.elements == before + [name]
    ensures Step(s, End(name)) == s.(elements := before, heard := s.heard + [EndElement(name)])
  {
    assert (before + [name])[..|before|] == before;
  }

  lemma Associate(a: seq<Binding>, b: seq<Binding>, c: seq<Binding>)
    ensures a + b + c == a + (b + c)
  {
  }

  lemma AssociateHeard(h: seq<Sax>, a: seq<Sax>, b: seq<Sax>, c: seq<Sax>)
    ensures h + a + b + c == h + (a + b + c)
  {
  }

  lemma {:induction false} ForestIsHeard(s: State, f: Forest)
    ensures var r := Run(s, ForestCallbacks(f));
            && r.elements == s.elements
            && r.bindings == s.bindings + ForestBindings(f)
            && r.heard == s.heard + ForestHears(f, s.bindings)
    decreases f, 1
  {
    hide Run, Callbacks, Hears, TreeBindings;
    match f
    case Nil =>
      RunNothing(s);
      assert s.bindings + [] == s.bindings && s.heard + [] == s.heard;
    case Child(t, rest) =>
      TreeIsHeard(s, t);
      var r := Run(s, Callbacks(t));
      ForestIsHeard(r, rest);
      RunAppends(s, Callbacks(t), ForestCallbacks(rest));
      Associate(s.bindings, TreeBindings(t), ForestBindings(rest));
      AssociateHeard(s.heard, Hears(t, s.bindings), ForestHears(rest, r.bindings), []);
      assert s.heard + Hears(t, s.bindings) + ForestHears(rest, r.bindings)
          == s.heard + (Hears(t, s.bindings) + ForestHears(rest, r.bindings));
    case Text(text, rest) =>
      RunOne(s, Content(text));
      var r := Step(s, Content(text));
      ForestIsHeard(r, rest);
      RunAppends(s, [Content(text)], ForestCallbacks(rest));
      assert s.heard + [Characters(text)] + ForestHears(rest, s.bindings)
          == s.heard + ([Characters(text)] + ForestHears(rest, s.bindings));
  }

  lemma RunNothing(s: State)
    ensures Run(s, []) == s
  {
  }
}
