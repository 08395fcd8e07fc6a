/** Namespace scoping against the adapter's single list of bindings. */
module SaxNamespaces {
  import opened SaxAdapter

  /** The innermost binding of a prefix among those in scope. */
  function Innermost(scope: seq<Binding>, prefix: string): string
    decreases |scope|
  {
    if scope == [] then NOTHING
    else
      var last := scope[|scope| - 1];
      if last.prefix == prefix then last.uri else Innermost(scope[..|scope| - 1], prefix)
  }

  function StartedInScope(scope: seq<Binding>, name: string, attributes: seq<Attribute>): Sax {
    if HasPrefix(name) then
      StartElement(Innermost(scope, PrefixOf(name)), name[Colon(name) + 1..], name, attributes)
    else StartElement("", "", name, attributes)
  }

  /** The events with proper scoping of prefixes: an element sees its own bindings and its ancestors'. */
  function ScopedHears(t: Tree, scope: seq<Binding>): seq<Sax> {
    var inside := scope + DeclaredBy(t.attributes);
    [StartedInScope(inside, t.name, t.attributes)] + ScopedForest(t.children, inside) + [EndElement(t.name)]
  }

  function ScopedForest(f: Forest, scope: seq<Binding>): seq<Sax> {
    match f
    case Nil => []
    case Child(t, rest) => ScopedHears(t, scope) + ScopedForest(rest, scope)
    case Text(text, rest) => [Characters(text)] + ScopedForest(rest, scope)
  }

  predicate Binds(bindings: seq<Binding>, prefix: string) {
    exists k :: 0 <= k < |bindings| && bindings[k].prefix == prefix
  }

  /** Every prefix used by an element is declared on it or on an ancestor. */
  predicate InScope(t: Tree, scope: seq<Binding>) {
    var inside := scope + DeclaredBy(t.attributes);
    (HasPrefix(t.name) ==> Binds(inside, PrefixOf(t.name))) && ForestInScope(t.children, inside)
  }

  predicate ForestInScope(f: Forest, scope: seq<Binding>) {
    match f
    case Nil => true
    case Child(t, rest) => InScope(t, scope) && ForestInScope(rest, scope)
    case Text(_, rest) => ForestInScope(rest, scope)
  }

  /** Bindings of the same prefix, in the same letters or in others, have the same URI. */
  ghost predicate OneUri(bindings: seq<Binding>) {
    forall i, j :: 0 <= i < j < |bindings| && SamePrefix(bindings[i].prefix, bindings[j].prefix) ==>
      bindings[i].uri == bindings[j].uri
  }

  /** The first binding of a prefix stands for all of them. */
  lemma {:induction false} FirstOfOne(bindings: seq<Binding>, k: nat)
    requires OneUri(bindings) && k < |bindings|
    ensures Lookup(bindings, bindings[k].prefix) == bindings[k].uri
  {
    hide SamePrefix;
    if k > 0 && !SamePrefix(bindings[0].prefix, bindings[k].prefix) {
      FirstOfOne(bindings[1..], k - 1);
    }
    SameAsItself(bindings[k].prefix);
  }

  lemma SameAsItself(prefix: string)
    ensures SamePrefix(prefix, prefix)
  {
  }

  lemma {:induction false} InnermostIsBound(scope: seq<Binding>, prefix: string)
    requires Binds(scope, prefix)
    ensures Binding(prefix, Innermost(scope, prefix)) in scope
    decreases |scope|
  {
    var front, last := scope[..|scope| - 1], scope[|scope| - 1];
    if last.prefix != prefix {
      var k :| 0 <= k < |scope| && scope[k].prefix == prefix;
      assert front[k].prefix == prefix;
      InnermostIsBound(front, prefix);
    }
  }

  lemma SameStart(bindings: seq<Binding>, scope: seq<Binding>, name: string, attributes: seq<Attribute>)
    requires OneUri(bindings) && forall b :: b in scope ==> b in bindings
    requires HasPrefix(name) ==> Binds(scope, PrefixOf(name))
    ensures Started(bindings, name, attributes) == StartedInScope(scope, name, attributes)
  {
    if HasPrefix(name) {
      InnermostIsBound(scope, PrefixOf(name));
      var b := Binding(PrefixOf(name), Innermost(scope, PrefixOf(name)));
      var k :| 0 <= k < |bindings| && bindings[k] == b;
      FirstOfOne(bindings, k);
    }
  }

  lemma OneInFront(a: seq<Binding>, b: seq<Binding>)
    requires OneUri(a + b)
    ensures OneUri(a)
  {
    forall i, j | 0 <= i < j < |a| && SamePrefix(a[i].prefix, a[j].prefix) ensures a[i].uri == a[j].uri {
      assert a[i] == (a + b)[i] && a[j] == (a + b)[j];
    }
  }

  /** When all bindings of a prefix have one URI and each prefix is used in its scope, the adapter's
      unscoped list gives every prefix the URI that scoping gives it. */
  lemma {:induction false} UrisAreScoped(t: Tree, bindings: seq<Binding>, scope: seq<Binding>)
    requires OneUri(bindings + TreeBindings(t)) && InScope(t, scope)
    requires forall b :: b in scope ==> b in bindings
    ensures Hears(t, bindings) == ScopedHears(t, scope)
    decreases t, 0
  {
    hide OneUri, Binds, Started, StartedInScope, DeclaredBy, HasPrefix, PrefixOf;
    var declared := DeclaredBy(t.attributes);
    Associate(bindings, declared, ForestBindings(t.children));
    OneInFront(bindings + declared, ForestBindings(t.children));
    SameStart(bindings + declared, scope + declared, t.name, t.attributes);
    ForestUrisAreScoped(t.children, bindings + declared, scope + declared);
  }

  lemma {:induction false} ForestUrisAreScoped(f: Forest, bindings: seq<Binding>, scope: seq<Binding>)
    requires OneUri(bindings + ForestBindings(f)) && ForestInScope(f, scope)
    requires forall b :: b in scope ==> b in bindings
    ensures ForestHears(f, bindings) == ScopedForest(f, scope)
    decreases f, 1
  {
    hide OneUri, InScope, Hears, ScopedHears, TreeBindings;
    match f
    case Nil =>
    case Child(t, rest) =>
      Associate(bindings, TreeBindings(t), ForestBindings(rest));
      OneInFront(bindings + TreeBindings(t), ForestBindings(rest));
      UrisAreScoped(t, bindings, scope);
      ForestUrisAreScoped(rest, bindings + TreeBindings(t), scope);
    case Text(text, rest) =>
      ForestUrisAreScoped(rest, bindings, scope);
  }

  // ----- the other way round

  /** The element, or one inside it, uses the prefix of `b` and means the URI of `b` by it. */
  predicate Uses(t: Tree, scope: seq<Binding>, b: Binding) {
    var inside := scope + DeclaredBy(t.attributes);
    || (HasPrefix(t.name) && PrefixOf(t.name) == b.prefix && Innermost(inside, b.prefix) == b.uri)
    || ForestUses(t.children, inside, b)
  }

  predicate ForestUses(f: Forest, scope: seq<Binding>, b: Binding) {
    match f
    case Nil => false
    case Child(t, rest) => Uses(t, scope, b) || ForestUses(rest, scope, b)
    case Text(_, rest) => ForestUses(rest, scope, b)
  }

  /** No binding is declared in vain: the declaring element, or one inside it, uses it. */
  ghost predicate AllUsed(t: Tree, scope: seq<Binding>) {
    && (forall b :: b in DeclaredBy(t.attributes) ==> Uses(t, scope, b))
    && AllUsedInForest(t.children, scope + DeclaredBy(t.attributes))
  }

  ghost predicate AllUsedInForest(f: Forest, scope: seq<Binding>) {
    match f
    case Nil => true
    case Child(t, rest) => AllUsed(t, scope) && AllUsedInForest(rest, scope)
    case Text(_, rest) => AllUsedInForest(rest, scope)
  }

  lemma {:induction false} SameLength(t: Tree, bindings: seq<Binding>, scope: seq<Binding>)
    ensures |Hears(t, bindings)| == |ScopedHears(t, scope)|
    decreases t, 0
  {
    SameLengthForest(t.children, bindings + DeclaredBy(t.attributes), scope + DeclaredBy(t.attributes));
  }

  lemma {:induction false} SameLengthForest(f: Forest, bindings: seq<Binding>, scope: seq<Binding>)
    ensures |ForestHears(f, bindings)| == |ScopedForest(f, scope)|
    decreases f, 1
  {
    match f
    case Nil =>
    case Child(t, rest) =>
      SameLength(t, bindings, scope);
      SameLengthForest(rest, bindings + TreeBindings(t), scope);
    case Text(_, rest) => SameLengthForest(rest, bindings, scope);
  }

  lemma SplitEvents(a: seq<Sax>, b: seq<Sax>, c: seq<Sax>, d: seq<Sax>)
    requires a + b == c + d && |a| == |c|
    ensures a == c && b == d
  {
    assert (a + b)[..|a|] == (c + d)[..|a|] && (a + b)[|a|..] == (c + d)[|a|..];
  }

  /** The same events mean the same start and the same inside. */
  lemma SameTree(t: Tree, bindings: seq<Binding>, scope: seq<Binding>)
    requires Hears(t, bindings) == ScopedHears(t, scope)
    ensures var d := DeclaredBy(t.attributes);
            && Started(bindings + d, t.name, t.attributes) == StartedInScope(scope + d, t.name, t.attributes)
            && ForestHears(t.children, bindings + d) == ScopedForest(t.children, scope + d)
  {
    hide Started, StartedInScope, DeclaredBy, ForestHears, ScopedForest;
    var d := DeclaredBy(t.attributes);
    var a, b := [Started(bindings + d, t.name, t.attributes)], ForestHears(t.children, bindings + d);
    var x, y := [StartedInScope(scope + d, t.name, t.attributes)], ScopedForest(t.children, scope + d);
    SameLengthForest(t.children, bindings + d, scope + d);
    SplitEvents(a + b, [EndElement(t.name)], x + y, [EndElement(t.name)]);
    SplitEvents(a, b, x, y);
    assert a[0] == x[0];
  }

  lemma SameForest(t: Tree, rest: Forest, bindings: seq<Binding>, scope: seq<Binding>)
    requires ForestHears(Child(t, rest), bindings) == ScopedForest(Child(t, rest), scope)
    ensures Hears(t, bindings) == ScopedHears(t, scope)
    ensures ForestHears(rest, bindings + TreeBindings(t)) == ScopedForest(rest, scope)
  {
    hide Hears, ScopedHears, TreeBindings;
    SameLength(t, bindings, scope);
    SplitEvents(Hears(t, bindings), ForestHears(rest, bindings + TreeBindings(t)),
                ScopedHears(t, scope), ScopedForest(rest, scope));
  }

  lemma SameText(text: string, rest: Forest, bindings: seq<Binding>, scope: seq<Binding>)
    requires ForestHears(Text(text, rest), bindings) == ScopedForest(Text(text, rest), scope)
    ensures ForestHears(rest, bindings) == ScopedForest(rest, scope)
  {
    SplitEvents([Characters(text)], ForestHears(rest, bindings), [Characters(text)], ScopedForest(rest, scope));
  }

  /** Some binding of the prefix is there. */
  ghost predicate Bound(bindings: seq<Binding>, prefix: string) {
    exists k :: 0 <= k < |bindings| && SamePrefix(bindings[k].prefix, prefix)
  }

  /** Later bindings do not change what a bound prefix is looked up to. */
  lemma {:induction false} LookupStays(a: seq<Binding>, b: seq<Binding>, prefix: string)
    requires Bound(a, prefix)
    ensures Lookup(a + b, prefix) == Lookup(a, prefix) && Bound(a + b, prefix)
  {
    hide SamePrefix;
    var k :| 0 <= k < |a| && SamePrefix(a[k].prefix, prefix);
    assert (a + b)[k] == a[k];
    if !SamePrefix(a[0].prefix, prefix) {
      assert a[1..][k - 1] == a[k];
      assert (a + b)[1..] == a[1..] + b;
      LookupStays(a[1..], b, prefix);
    }
  }

  /** Where the adapter gives every element its scoped URI, a binding that is used has the URI of the
      first binding of its prefix. */
  lemma {:induction false} UsedIsFirst(t: Tree, bindings: seq<Binding>, scope: seq<Binding>, b: Binding)
    requires Hears(t, bindings) == ScopedHears(t, scope) && Uses(t, scope, b)
    requires Bound(bindings + DeclaredBy(t.attributes), b.prefix)
    ensures Lookup(bindings + DeclaredBy(t.attributes), b.prefix) == b.uri
    decreases t, 0
  {
    hide Bound, DeclaredBy, Lookup, Innermost, HasPrefix, PrefixOf, Hears, ScopedHears, ForestUses;
    var d := DeclaredBy(t.attributes);
    SameTree(t, bindings, scope);
    if !(HasPrefix(t.name) && PrefixOf(t.name) == b.prefix && Innermost(scope + d, b.prefix) == b.uri) {
      UsedInForestIsFirst(t.children, bindings + d, scope + d, b);
    }
  }

  lemma {:induction false} UsedInForestIsFirst(f: Forest, bindings: seq<Binding>, scope: seq<Binding>, b: Binding)
    requires ForestHears(f, bindings) == ScopedForest(f, scope) && ForestUses(f, scope, b) && Bound(bindings, b.prefix)
    ensures Lookup(bindings, b.prefix) == b.uri
    decreases f, 1
  {
    hide Bound, DeclaredBy, Lookup, Hears, ScopedHears, Uses, TreeBindings, ForestHears, ScopedForest;
    match f
    case Nil =>
    case Child(t, rest) =>
      SameForest(t, rest, bindings, scope);
      if Uses(t, scope, b) {
        LookupStays(bindings, DeclaredBy(t.attributes), b.prefix);
        UsedIsFirst(t, bindings, scope, b);
      } else {
        LookupStays(bindings, TreeBindings(t), b.prefix);
        UsedInForestIsFirst(rest, bindings + TreeBindings(t), scope, b);
      }
    case Text(text, rest) =>
      SameText(text, rest, bindings, scope);
      UsedInForestIsFirst(rest, bindings, scope, b);
  }

  /** Every binding of `some` is looked up among `all` to its own URI. */
  ghost predicate AsFirst(some: seq<Binding>, all: seq<Binding>) {
    forall b :: b in some ==> Bound(all, b.prefix) && Lookup(all, b.prefix) == b.uri
  }

  lemma AsFirstStays(some: seq<Binding>, all: seq<Binding>, more: seq<Binding>)
    requires AsFirst(some, all)
    ensures AsFirst(some, all + more)
  {
    hide Bound, Lookup;
    forall b | b in some ensures Bound(all + more, b.prefix) && Lookup(all + more, b.prefix) == b.uri {
      LookupStays(all, more, b.prefix);
    }
  }

  lemma BoundWhereDeclared(bindings: seq<Binding>, d: seq<Binding>, b: Binding)
    requires b in d
    ensures Bound(bindings + d, b.prefix)
  {
    var k :| 0 <= k < |d| && d[k] == b;
    assert (bindings + d)[|bindings| + k] == b;
    SameAsItself(b.prefix);
  }

  lemma {:induction false} AllAsFirst(t: Tree, bindings: seq<Binding>, scope: seq<Binding>)
    requires Hears(t, bindings) == ScopedHears(t, scope) && AllUsed(t, scope)
    ensures AsFirst(TreeBindings(t), bindings + TreeBindings(t))
    decreases t, 0
  {
    hide Bound, DeclaredBy, Lookup, Hears, ScopedHears, Uses, ForestBindings, AllUsedInForest, Started, StartedInScope;
    var d, inner := DeclaredBy(t.attributes), ForestBindings(t.children);
    SameTree(t, bindings, scope);
    forall b | b in d ensures Bound(bindings + d, b.prefix) && Lookup(bindings + d, b.prefix) == b.uri {
      BoundWhereDeclared(bindings, d, b);
      UsedIsFirst(t, bindings, scope, b);
    }
    AsFirstStays(d, bindings + d, inner);
    AllInForestAsFirst(t.children, bindings + d, scope + d);
    Associate(bindings, d, inner);
  }

  lemma {:induction false} AllInForestAsFirst(f: Forest, bindings: seq<Binding>, scope: seq<Binding>)
    requires ForestHears(f, bindings) == ScopedForest(f, scope) && AllUsedInForest(f, scope)
    ensures AsFirst(ForestBindings(f), bindings + ForestBindings(f))
    decreases f, 1
  {
    hide Bound, Lookup, Hears, ScopedHears, AllUsed, TreeBindings, ForestHears, ScopedForest;
    match f
    case Nil =>
    case Child(t, rest) =>
      SameForest(t, rest, bindings, scope);
      AllAsFirst(t, bindings, scope);
      AllInForestAsFirst(rest, bindings + TreeBindings(t), scope);
      AsFirstStays(TreeBindings(t), bindings + TreeBindings(t), ForestBindings(rest));
      Associate(bindings, TreeBindings(t), ForestBindings(rest));
    case Text(text, rest) =>
      SameText(text, rest, bindings, scope);
      AllInForestAsFirst(rest, bindings, scope);
  }

  lemma {:induction false} SameLookup(bindings: seq<Binding>, p: string, q: string)
    requires SamePrefix(p, q)
    ensures Lookup(bindings, p) == Lookup(bindings, q)
  {
    if bindings != [] {
      SameLookup(bindings[1..], p, q);
    }
  }

  lemma OneUriOfFirst(all: seq<Binding>)
    requires AsFirst(all, all)
    ensures OneUri(all)
  {
    hide Bound, Lookup, SamePrefix;
    forall i, j | 0 <= i < j < |all| && SamePrefix(all[i].prefix, all[j].prefix) ensures all[i].uri == all[j].uri {
      SameLookup(all, all[i].prefix, all[j].prefix);
      assert all[i] in all && all[j] in all;
    }
  }

  /** Scoping of prefixes, exactly: in a document that uses each prefix in its scope and declares none
      in vain, the adapter gives every prefix the URI that scoping gives it if and only if all bindings of a
      prefix, in whatever letters, have one URI. */
  lemma ScopingIsExact(t: Tree)
    requires InScope(t, []) && AllUsed(t, [])
    ensures Hears(t, []) == ScopedHears(t, []) <==> OneUri(TreeBindings(t))
  {
    hide *;
    var all := TreeBindings(t);
    assert [] + all == all;
    if OneUri(all) {
      UrisAreScoped(t, [], []);
    }
    if Hears(t, []) == ScopedHears(t, []) {
      AllAsFirst(t, [], []);
      OneUriOfFirst(all);
    }
  }

  // ----- default namespaces

  const XMLNS_ALONE: string := "xmlns"

  /** The default namespace inside an element: the last one it declares, else the one around it. */
  function DefaultIn(attributes: seq<Attribute>, outer: string): string {
    if attributes == [] then outer
    else DefaultIn(attributes[1..], if attributes[0].name == XMLNS_ALONE then attributes[0].value else outer)
  }

  /** The start event of XML scoping: a prefix means its innermost binding, no prefix the default. */
  function XmlStarted(scope: seq<Binding>, default: string, name: string, attributes: seq<Attribute>): Sax {
    if HasPrefix(name) then StartedInScope(scope, name, attributes)
    else StartElement(default, "", name, attributes)
  }

  function XmlHears(t: Tree, scope: seq<Binding>, outer: string): seq<Sax> {
    var inside, default := scope + DeclaredBy(t.attributes), DefaultIn(t.attributes, outer);
    [XmlStarted(inside, default, t.name, t.attributes)] + XmlForest(t.children, inside, default) + [EndElement(t.name)]
  }

  function XmlForest(f: Forest, scope: seq<Binding>, default: string): seq<Sax> {
    match f
    case Nil => []
    case Child(t, rest) => XmlHears(t, scope, default) + XmlForest(rest, scope, default)
    case Text(text, rest) => [Characters(text)] + XmlForest(rest, scope, default)
  }

  /** Every element without a prefix is in no namespace. */
  predicate NoDefault(t: Tree, outer: string) {
    var default := DefaultIn(t.attributes, outer);
    (!HasPrefix(t.name) ==> default == "") && ForestNoDefault(t.children, default)
  }

  predicate ForestNoDefault(f: Forest, default: string) {
    match f
    case Nil => true
    case Child(t, rest) => NoDefault(t, default) && ForestNoDefault(rest, default)
    case Text(_, rest) => ForestNoDefault(rest, default)
  }

  lemma {:induction false} XmlLength(t: Tree, bindings: seq<Binding>, scope: seq<Binding>, outer: string)
    ensures |Hears(t, bindings)| == |XmlHears(t, scope, outer)|
    decreases t, 0
  {
    var d := DeclaredBy(t.attributes);
    XmlLengthForest(t.children, bindings + d, scope + d, DefaultIn(t.attributes, outer));
  }

  lemma {:induction false} XmlLengthForest(f: Forest, bindings: seq<Binding>, scope: seq<Binding>, default: string)
    ensures |ForestHears(f, bindings)| == |XmlForest(f, scope, default)|
    decreases f, 1
  {
    match f
    case Nil =>
    case Child(t, rest) =>
      XmlLength(t, bindings, scope, default);
      XmlLengthForest(rest, bindings + TreeBindings(t), scope, default);
    case Text(_, rest) => XmlLengthForest(rest, bindings, scope, default);
  }

  /** Two runs of events, each in two pieces of the same lengths. */
  lemma EqualInPieces(a: seq<Sax>, b: seq<Sax>, c: seq<Sax>, d: seq<Sax>)
    requires |a| == |c|
    ensures a + b == c + d <==> a == c && b == d
  {
    if a + b == c + d {
      SplitEvents(a, b, c, d);
    }
  }

  lemma EqualAround(x: Sax, b: seq<Sax>, y: Sax, d: seq<Sax>, end: Sax)
    requires |b| == |d|
    ensures [x] + b + [end] == [y] + d + [end] <==> x == y && b == d
  {
    EqualInPieces([x] + b, [end], [y] + d, [end]);
    EqualInPieces([x], b, [y], d);
    assert [x] == [y] <==> x == y;
  }

  /** The adapter's start has the URI of XML scoping if and only if it has that of its prefix and, for
      a name without a prefix, there is no default namespace. */
  lemma StartIsXml(bindings: seq<Binding>, scope: seq<Binding>, default: string, name: string,
                   attributes: seq<Attribute>)
    ensures Started(bindings, name, attributes) == XmlStarted(scope, default, name, attributes)
            <==> && Started(bindings, name, attributes) == StartedInScope(scope, name, attributes)
                 && (!HasPrefix(name) ==> default == "")
  {
  }

  lemma {:induction false} HearsXml(t: Tree, bindings: seq<Binding>, scope: seq<Binding>, outer: string)
    ensures Hears(t, bindings) == XmlHears(t, scope, outer)
            <==> Hears(t, bindings) == ScopedHears(t, scope) && NoDefault(t, outer)
    decreases t, 0
  {
    hide DeclaredBy, DefaultIn, Started, StartedInScope, XmlStarted, HasPrefix, ForestHears, ScopedForest, XmlForest;
    var d, default := DeclaredBy(t.attributes), DefaultIn(t.attributes, outer);
    var here, there := bindings + d, scope + d;
    SameLengthForest(t.children, here, there);
    XmlLengthForest(t.children, here, there, default);
    var x := Started(here, t.name, t.attributes);
    EqualAround(x, ForestHears(t.children, here), XmlStarted(there, default, t.name, t.attributes),
                XmlForest(t.children, there, default), EndElement(t.name));
    EqualAround(x, ForestHears(t.children, here), StartedInScope(there, t.name, t.attributes),
                ScopedForest(t.children, there), EndElement(t.name));
    StartIsXml(here, there, default, t.name, t.attributes);
    ForestHearsXml(t.children, here, there, default);
  }

  lemma {:induction false} ForestHearsXml(f: Forest, bindings: seq<Binding>, scope: seq<Binding>, default: string)
    ensures ForestHears(f, bindings) == XmlForest(f, scope, default)
            <==> ForestHears(f, bindings) == ScopedForest(f, scope) && ForestNoDefault(f, default)
    decreases f, 1
  {
    hide Hears, ScopedHears, XmlHears, NoDefault, TreeBindings;
    match f
    case Nil =>
    case Child(t, rest) =>
      var inner := bindings + TreeBindings(t);
      SameLength(t, bindings, scope);
      XmlLength(t, bindings, scope, default);
      EqualInPieces(Hears(t, bindings), ForestHears(rest, inner),
                    XmlHears(t, scope, default), XmlForest(rest, scope, default));
      EqualInPieces(Hears(t, bindings), ForestHears(rest, inner), ScopedHears(t, scope), ScopedForest(rest, scope));
      HearsXml(t, bindings, scope, default);
      ForestHearsXml(rest, inner, scope, default);
    case Text(text, rest) =>
      var c := [Characters(text)];
      EqualInPieces(c, ForestHears(rest, bindings), c, XmlForest(rest, scope, default));
      EqualInPieces(c, ForestHears(rest, bindings), c, ScopedForest(rest, scope));
      ForestHearsXml(rest, bindings, scope, default);
  }

  /** XML scoping, defaults included: when all bindings of a prefix have one URI and every prefix is used
      in its scope, the adapter agrees on every element exactly when none without a prefix has a default
      namespace. */
  lemma XmlUrisAreScoped(t: Tree)
    requires OneUri(TreeBindings(t)) && InScope(t, [])
    ensures Hears(t, []) == XmlHears(t, [], "") <==> NoDefault(t, "")
  {
    hide *;
    assert [] + TreeBindings(t) == TreeBindings(t);
    UrisAreScoped(t, [], []);
    HearsXml(t, [], [], "");
  }

  /** XML scoping, exactly: in a document that uses each prefix in its scope and declares none in vain,
      the adapter gives every element the URI that XML gives it if and only if all bindings of a prefix,
      in whatever letters, have one URI and no element without a prefix has a default namespace. */
  lemma XmlScopingIsExact(t: Tree)
    requires InScope(t, []) && AllUsed(t, [])
    ensures Hears(t, []) == XmlHears(t, [], "") <==> OneUri(TreeBindings(t)) && NoDefault(t, "")
  {
    hide *;
    ScopingIsExact(t);
    HearsXml(t, [], [], "");
  }

  /** The element y with xmlns="u": the adapter says it is in no namespace, XML that it is in "u". */
  lemma DefaultIsMissed()
    ensures var t := Node("y", [Attribute("xmlns", "u")], Nil);
            && InScope(t, []) && AllUsed(t, []) && OneUri(TreeBindings(t)) && !NoDefault(t, "")
            && Hears(t, []) == [StartElement("", "", "y", t.attributes), EndElement("y")]
            && XmlHears(t, [], "") == [StartElement("u", "", "y", t.attributes), EndElement("y")]
  {
    ColonAfterFirst();
    var a := Attribute("xmlns", "u");
    assert [a][1..] == [] && |XMLNS| > |a.name|;
    assert DeclaredBy([a]) == [] && DefaultIn([a], "") == "u";
  }

  /** A prefix bound again inside, in the same letters or in others, keeps its outer URI. */
  lemma ReboundPrefixIsMissed(prefix: string)
    requires SamePrefix(prefix, "a")
    ensures var inner := Node("a:x", [Attribute("xmlns:a", "inner")], Nil);
            var outer := Node("y", [Attribute(XMLNS + prefix, "outer")], Child(inner, Nil));
            && InScope(outer, [])
            && Hears(outer, [])[1] == StartElement("outer", "x", "a:x", inner.attributes)
            && ScopedHears(outer, [])[1] == StartElement("inner", "x", "a:x", inner.attributes)
  {
    hide *;
    var a, b := Attribute(XMLNS + prefix, "outer"), Attribute("xmlns:a", "inner");
    var inner := Node("a:x", [b], Nil);
    var outer := Node("y", [a], Child(inner, Nil));
    var first, both := [Binding(prefix, "outer")], [Binding(prefix, "outer"), Binding("a", "inner")];
    ReboundBindings(prefix, a, b);
    ReboundLookup(prefix, b);
    InnerEvents(inner, first, both);
    OuterEvents(outer, inner, first);
  }

  lemma ReboundBindings(prefix: string, a: Attribute, b: Attribute)
    requires a == Attribute(XMLNS + prefix, "outer") && b == Attribute("xmlns:a", "inner")
    ensures [] + DeclaredBy([a]) == [Binding(prefix, "outer")]
    ensures [Binding(prefix, "outer")] + DeclaredBy([b]) == [Binding(prefix, "outer"), Binding("a", "inner")]
  {
    assert XMLNS <= a.name && a.name[6..] == prefix && XMLNS <= b.name && b.name[6..] == "a";
    assert DeclaredBy([a]) == [Binding(prefix, "outer")] && DeclaredBy([b]) == [Binding("a", "inner")];
  }

  lemma ReboundLookup(prefix: string, b: Attribute)
    requires SamePrefix(prefix, "a")
    ensures var both := [Binding(prefix, "outer"), Binding("a", "inner")];
            && HasPrefix("a:x") && PrefixOf("a:x") == "a" && !HasPrefix("y") && Binds(both, "a")
            && Started(both, "a:x", [b]) == StartElement("outer", "x", "a:x", [b])
            && StartedInScope(both, "a:x", [b]) == StartElement("inner", "x", "a:x", [b])
  {
    hide SamePrefix;
    ColonAfterFirst();
    var both := [Binding(prefix, "outer"), Binding("a", "inner")];
    assert both[1].prefix == "a";
    assert "a:x"[..1] == "a" && "a:x"[2..] == "x";
    assert Lookup(both, "a") == "outer" && Innermost(both, "a") == "inner";
  }

  lemma InnerEvents(inner: Tree, scope: seq<Binding>, both: seq<Binding>)
    requires inner.children == Nil && scope + DeclaredBy(inner.attributes) == both
    requires HasPrefix(inner.name) && Binds(both, PrefixOf(inner.name))
    ensures |Hears(inner, scope)| == |ScopedHears(inner, scope)| > 0 && InScope(inner, scope)
    ensures Hears(inner, scope)[0] == Started(both, inner.name, inner.attributes)
    ensures ScopedHears(inner, scope)[0] == StartedInScope(both, inner.name, inner.attributes)
  {
    hide DeclaredBy, Started, StartedInScope, HasPrefix, PrefixOf, Binds;
  }

  lemma OuterEvents(outer: Tree, inner: Tree, scope: seq<Binding>)
    requires outer.children == Child(inner, Nil) && [] + DeclaredBy(outer.attributes) == scope
    requires !HasPrefix(outer.name) && InScope(inner, scope)
    requires |Hears(inner, scope)| == |ScopedHears(inner, scope)| > 0
    ensures InScope(outer, []) && |Hears(outer, [])| > 1 && |ScopedHears(outer, [])| > 1
    ensures Hears(outer, [])[1] == Hears(inner, scope)[0] && ScopedHears(outer, [])[1] == ScopedHears(inner, scope)[0]
  {
    hide DeclaredBy, Started, StartedInScope, HasPrefix;
    var f := Child(inner, Nil);
    assert ForestInScope(f, scope);
    assert ForestHears(f, scope)[0] == Hears(inner, scope)[0];
    assert ScopedForest(f, scope)[0] == ScopedHears(inner, scope)[0];
  }

  lemma ColonAfterFirst()
    ensures Colon("a:x") == 1 && Colon("y") == 1
  {
    assert "a:x"[1..] == ":x" && "y"[1..] == "";
  }
}
