/** The tables a dictionary file comes to: its lines grouped by heading, and each group sorted by
    token with an index that sorts it by name. */
module DictTables {
  import opened Octets
  import opened TokenOrder
  import opened BubbleSort

  const TAG_TABLE_HEADING := "TAGS_FOR_CODE_PAGE"
  const ATTR_TABLE_HEADING := "ATTRIBUTES_FOR_CODE_PAGE"
  const NO_STRINGS := "NO_STRINGS"

  datatype Kind = Tag | Attribute

  /** The three items of a line: a heading with its code page and option, or a token and a name. */
  datatype Line = Line(item1: string, item2: string, item3: string)

  predicate IsHeading(l: Line) { l.item1 == TAG_TABLE_HEADING || l.item1 == ATTR_TABLE_HEADING }

  function KindOf(l: Line): Kind { if l.item1 == TAG_TABLE_HEADING then Tag else Attribute }

  predicate WantsStrings(l: Line) { l.item3 != NO_STRINGS }

  /** The words of the file format. */
  lemma WordsOfALine(l: Line)
    ensures IsHeading(l) <==> l.item1 == "TAGS_FOR_CODE_PAGE" || l.item1 == "ATTRIBUTES_FOR_CODE_PAGE"
    ensures KindOf(l) == Tag <==> l.item1 == "TAGS_FOR_CODE_PAGE"
    ensures !WantsStrings(l) <==> l.item3 == "NO_STRINGS"
  {
  }

  type Entry = Row<string>

  function EntryOf(l: Line): Entry { (l.item1, l.item2) }

  /** One table of the output before it is sorted. */
  datatype Group = Group(kind: Kind, page: string, useStrings: bool, entries: seq<Entry>)

  /** The groups flushed by the rest of the lines: at every heading and, if anything is left, at the
      end. `heading` is the last heading seen, `entries` what has been collected. */
  function GroupsFrom(heading: Option<Line>, entries: seq<Entry>, lines: seq<Line>): seq<Group>
    decreases |lines|
  {
    if lines == [] then
      if heading.None? || entries == [] then []
      else [Group(KindOf(heading.value), heading.value.item2, WantsStrings(heading.value), entries)]
    else if IsHeading(lines[0]) then
      if heading.None? then GroupsFrom(Some(lines[0]), entries, lines[1..])
      else [Group(KindOf(heading.value), heading.value.item2, WantsStrings(lines[0]), entries)]
           + GroupsFrom(Some(lines[0]), [], lines[1..])
    else GroupsFrom(heading, entries + [EntryOf(lines[0])], lines[1..])
  }

  function Groups(lines: seq<Line>): seq<Group> { GroupsFrom(None, [], lines) }

  // ----- the same by sections

  /** A heading and the entry lines behind it. */
  datatype Section = Section(heading: Line, entries: seq<Line>)

  /** The lines as entry lines in front of the first heading, and sections. */
  function Sections(lines: seq<Line>): (seq<Line>, seq<Section>) {
    if lines == [] then ([], [])
    else
      var (lead, sections) := Sections(lines[1..]);
      if IsHeading(lines[0]) then ([], [Section(lines[0], lead)] + sections)
      else ([lines[0]] + lead, sections)
  }

  function Flatten(sections: seq<Section>): seq<Line> {
    if sections == [] then [] else [sections[0].heading] + sections[0].entries + Flatten(sections[1..])
  }

  /** The sections are the lines again, cut at the headings and nowhere else. */
  lemma {:induction false} SectionsAreTheLines(lines: seq<Line>)
    ensures var (lead, sections) := Sections(lines);
            && lines == lead + Flatten(sections)
            && (forall l :: l in lead ==> !IsHeading(l))
            && (forall k :: 0 <= k < |sections| ==> IsHeading(sections[k].heading))
            && (forall k, l :: 0 <= k < |sections| && l in sections[k].entries ==> !IsHeading(l))
  {
    hide IsHeading;
    if lines != [] {
      SectionsAreTheLines(lines[1..]);
      var (lead, sections) := Sections(lines[1..]);
      assert lines == [lines[0]] + lines[1..];
      if IsHeading(lines[0]) {
        assert ([Section(lines[0], lead)] + sections)[1..] == sections;
      }
    }
  }

  function EntriesOf(lines: seq<Line>): (r: seq<Entry>)
    ensures |r| == |lines| && forall k :: 0 <= k < |r| ==> r[k] == EntryOf(lines[k])
  {
    seq(|lines|, k requires 0 <= k < |lines| => EntryOf(lines[k]))
  }

  /** One group per section: kind and page of its heading; the string option of the next heading,
      which is the one read when the table is flushed; its own entries, the first section's with the
      entries in front of it. An empty last section is not flushed. */
  function GroupsOfSections(entries: seq<Entry>, sections: seq<Section>): seq<Group>
    decreases |sections|
  {
    if sections == [] then []
    else
      var all := entries + EntriesOf(sections[0].entries);
      var flag := WantsStrings(sections[if |sections| > 1 then 1 else 0].heading);
      if |sections| == 1 && all == [] then []
      else [Group(KindOf(sections[0].heading), sections[0].heading.item2, flag, all)]
           + GroupsOfSections([], sections[1..])
  }

  lemma {:induction false} GroupsFromSections(heading: Option<Line>, entries: seq<Entry>, lines: seq<Line>)
    ensures var (lead, sections) := Sections(lines);
            GroupsFrom(heading, entries, lines) ==
            match heading
            case None => GroupsOfSections(entries + EntriesOf(lead), sections)
            case Some(h) => GroupsOfSections(entries, [Section(h, lead)] + sections)
    decreases |lines|
  {
    var (lead, sections) := Sections(lines);
    if lines == [] {
      NoEntries(entries);
      if heading.Some? {
        assert [Section(heading.value, [])] + [] == [Section(heading.value, [])];
      }
    } else if IsHeading(lines[0]) {
      var rest := Sections(lines[1..]);
      if heading.None? {
        GroupsFromSections(Some(lines[0]), entries, lines[1..]);
        NoEntries(entries);
      } else {
        GroupsFromSections(Some(lines[0]), [], lines[1..]);
        NoEntries(entries);
        assert ([Section(heading.value, [])] + sections)[1..] == sections;
      }
    } else {
      var e := EntryOf(lines[0]);
      GroupsFromSections(heading, entries + [e], lines[1..]);
      var (lead', rest) := Sections(lines[1..]);
      assert EntriesOf([lines[0]] + lead') == [e] + EntriesOf(lead');
      assert entries + EntriesOf(lead) == (entries + [e]) + EntriesOf(lead');
      if heading.Some? {
        var a, b := [Section(heading.value, lead)] + sections, [Section(heading.value, lead')] + sections;
        assert a[1..] == b[1..] && entries + EntriesOf(a[0].entries) == (entries + [e]) + EntriesOf(b[0].entries);
        SameGroups(entries, entries + [e], a, b);
      }
    }
  }

  lemma NoEntries(entries: seq<Entry>)
    ensures entries + EntriesOf([]) == entries
  {
  }

  lemma SameGroups(x: seq<Entry>, y: seq<Entry>, a: seq<Section>, b: seq<Section>)
    requires |a| == |b| > 0 && a[1..] == b[1..] && a[0].heading == b[0].heading
    requires x + EntriesOf(a[0].entries) == y + EntriesOf(b[0].entries)
    ensures GroupsOfSections(x, a) == GroupsOfSections(y, b)
  {
    assert |a| > 1 ==> a[1] == a[1..][0] && b[1] == b[1..][0];
  }

  /** Grouping of a whole file: by the nearest heading in front, and by the first heading for the
      entries that have none in front. */
  lemma GroupsByHeading(lines: seq<Line>)
    ensures var (lead, sections) := Sections(lines);
            Groups(lines) == GroupsOfSections(EntriesOf(lead), sections)
  {
    GroupsFromSections(None, [], lines);
    var (lead, sections) := Sections(lines);
    assert [] + EntriesOf(lead) == EntriesOf(lead);
  }

  /** All entry lines of a file, in order. */
  function AllEntries(lines: seq<Line>): seq<Entry> {
    if lines == [] then []
    else (if IsHeading(lines[0]) then [] else [EntryOf(lines[0])]) + AllEntries(lines[1..])
  }

  function EntriesIn(groups: seq<Group>): seq<Entry> {
    if groups == [] then [] else groups[0].entries + EntriesIn(groups[1..])
  }

  lemma {:induction false} GroupsConserve(heading: Option<Line>, entries: seq<Entry>, lines: seq<Line>)
    requires heading.Some? || exists l :: l in lines && IsHeading(l)
    ensures EntriesIn(GroupsFrom(heading, entries, lines)) == entries + AllEntries(lines)
    decreases |lines|
  {
    hide IsHeading, WantsStrings, KindOf, EntryOf;
    if lines == [] {
      assert entries + [] == entries;
    } else {
      assert lines == [lines[0]] + lines[1..];
      var rest := AllEntries(lines[1..]);
      if !IsHeading(lines[0]) {
        var e := EntryOf(lines[0]);
        GroupsConserve(heading, entries + [e], lines[1..]);
        assert (entries + [e]) + rest == entries + ([e] + rest);
      } else if heading.None? {
        GroupsConserve(Some(lines[0]), entries, lines[1..]);
        assert [] + rest == rest;
      } else {
        GroupsConserve(Some(lines[0]), [], lines[1..]);
        assert [] + rest == rest;
        var g := Group(KindOf(heading.value), heading.value.item2, WantsStrings(lines[0]), entries);
        assert ([g] + GroupsFrom(Some(lines[0]), [], lines[1..]))[1..] == GroupsFrom(Some(lines[0]), [], lines[1..]);
      }
    }
  }

  /** Entry conservation: in any file with a heading, the tables hold every entry exactly once. */
  lemma EntriesAreConserved(lines: seq<Line>)
    requires exists l :: l in lines && IsHeading(l)
    ensures EntriesIn(Groups(lines)) == AllEntries(lines)
  {
    GroupsConserve(None, [], lines);
    assert [] + AllEntries(lines) == AllEntries(lines);
  }

  /** Table k in closed form. */
  lemma {:induction false} TableOfHeading(entries: seq<Entry>, sections: seq<Section>, k: nat)
    requires k < |GroupsOfSections(entries, sections)|
    ensures k < |sections|
    ensures GroupsOfSections(entries, sections)[k] ==
            Group(KindOf(sections[k].heading), sections[k].heading.item2,
                  WantsStrings(sections[if k + 1 < |sections| then k + 1 else k].heading),
                  (if k == 0 then entries else []) + EntriesOf(sections[k].entries))
    decreases k
  {
    hide KindOf, WantsStrings, EntriesOf;
    if k > 0 {
      TableOfHeading([], sections[1..], k - 1);
    }
  }

  /** Table k of a file is a tag table exactly when heading k is that of a tag table, and an attribute
      table exactly when it is the other one; it has the page of that heading, and the entries behind
      it. */
  lemma KindOfTable(lines: seq<Line>, k: nat)
    requires k < |Groups(lines)|
    ensures var (lead, sections) := Sections(lines);
            && k < |sections|
            && (Groups(lines)[k].kind == Tag <==> sections[k].heading.item1 == "TAGS_FOR_CODE_PAGE")
            && (Groups(lines)[k].kind == Attribute <==> sections[k].heading.item1 == "ATTRIBUTES_FOR_CODE_PAGE")
            && Groups(lines)[k].page == sections[k].heading.item2
            && Groups(lines)[k].entries == (if k == 0 then EntriesOf(lead) else []) + EntriesOf(sections[k].entries)
  {
    hide KindOf, IsHeading, WantsStrings, Sections, Groups, GroupsOfSections;
    var (lead, sections) := Sections(lines);
    GroupsByHeading(lines);
    SectionsAreTheLines(lines);
    TableOfHeading(EntriesOf(lead), sections, k);
    WordsOfALine(sections[k].heading);
  }

  /** Every heading gets its table, but for a last one without any entries. */
  lemma TablesOfHeadings(lines: seq<Line>)
    ensures var (lead, sections) := Sections(lines);
            var n := |sections|;
            |Groups(lines)| ==
            if n > 0 && sections[n - 1].entries == [] && (n == 1 ==> lead == []) then n - 1 else n
  {
    hide Sections, Groups, GroupsOfSections;
    var (lead, sections) := Sections(lines);
    GroupsByHeading(lines);
    CountOfGroups(EntriesOf(lead), sections);
  }

  lemma {:induction false} CountOfGroups(entries: seq<Entry>, sections: seq<Section>)
    ensures var n := |sections|;
            |GroupsOfSections(entries, sections)| ==
            if n > 0 && sections[n - 1].entries == [] && (n == 1 ==> entries == []) then n - 1 else n
    decreases |sections|
  {
    hide KindOf, WantsStrings;
    if sections != [] {
      CountOfGroups([], sections[1..]);
      assert |entries + EntriesOf(sections[0].entries)| == |entries| + |sections[0].entries|;
    }
  }

  /** NO_STRINGS is read off the next heading, and off its own for the last table. So documented as an
      option of the table it heads, it takes effect on that table exactly when the next heading asks for
      the same, or there is none. */
  lemma OptionOfTheNextHeading(lines: seq<Line>, k: nat)
    requires k < |Groups(lines)|
    ensures k < |Sections(lines).1|
    ensures var sections := Sections(lines).1;
            var read := sections[if k + 1 < |sections| then k + 1 else k].heading.item3;
            && (Groups(lines)[k].useStrings <==> read != "NO_STRINGS")
            && ((Groups(lines)[k].useStrings <==> sections[k].heading.item3 != "NO_STRINGS")
                <==> (sections[k].heading.item3 == "NO_STRINGS" <==> read == "NO_STRINGS"))
  {
    GroupsByHeading(lines);
    var (lead, sections) := Sections(lines);
    TableOfHeading(EntriesOf(lead), sections, k);
  }

  /** A table headed NO_STRINGS, and a heading without it behind: the table gets strings. */
  lemma NoStringsIsMissed(lines: seq<Line>)
    requires lines == [Line("TAGS_FOR_CODE_PAGE", "0", "NO_STRINGS"), Line("0x05", "a", ""),
                       Line("TAGS_FOR_CODE_PAGE", "1", "")]
    ensures |Groups(lines)| > 0 && Groups(lines)[0].entries == [("0x05", "a")]
    ensures !WantsStrings(lines[0]) && Groups(lines)[0].useStrings
  {
    var e, rest := EntryOf(lines[1]), lines[1..];
    assert rest[0] == lines[1] && rest[1..] == [lines[2]] && [lines[2]][1..] == [] && [] + [e] == [e];
    assert IsHeading(lines[0]) && !IsHeading(lines[1]) && IsHeading(lines[2]);
    hide IsHeading, KindOf;
    var h := Some(lines[0]);
    assert GroupsFrom(h, [e], [lines[2]])[0] == Group(KindOf(lines[0]), "0", WantsStrings(lines[2]), [e]);
    assert GroupsFrom(h, [], rest) == GroupsFrom(h, [e], [lines[2]]);
    assert Groups(lines) == GroupsFrom(h, [], rest);
  }

  // ----- one table

  function LowerToken(t: string): (r: string)
    ensures |r| == |t| && forall k :: 0 <= k < |t| ==> r[k] == Lower(t[k])
  {
    seq(|t|, k requires 0 <= k < |t| => Lower(t[k]))
  }

  predicate IsLetter(c: char) { 'a' <= c <= 'z' }

  /** What the compiler checks of a token: four characters, and no letter but x and a to f. */
  predicate TokenOk(t: string) {
    |t| == 4 && forall k :: 0 <= k < 4 ==> var c := Lower(t[k]); IsLetter(c) ==> c == 'x' || 'a' <= c <= 'f'
  }

  /** The check rejects exactly other lengths and the letters g to w, y and z in either case. So among
      "0x" and two letters or digits that are no x, exactly the hexadecimal tokens pass. */
  lemma TokenCheck(t: string)
    ensures TokenOk(t) <==>
              |t| == 4 && forall k :: 0 <= k < 4 ==>
                !('g' <= t[k] <= 'w' || 'y' <= t[k] <= 'z' || 'G' <= t[k] <= 'W' || 'Y' <= t[k] <= 'Z')
    ensures |t| == 4 && t[0] == '0' && (t[1] == 'x' || t[1] == 'X')
            && (forall k :: 2 <= k < 4 ==> (IsLetter(Lower(t[k])) && Lower(t[k]) != 'x') || '0' <= t[k] <= '9')
            ==> (TokenOk(t) <==> IsHexToken(LowerToken(t)))
  {
  }

  function Lowered(entries: seq<Entry>): (r: seq<Entry>)
    ensures |r| == |entries|
    ensures forall k :: 0 <= k < |r| ==> r[k] == (LowerToken(entries[k].0), entries[k].1)
  {
    seq(|entries|, k requires 0 <= k < |entries| => (LowerToken(entries[k].0), entries[k].1))
  }

  function Upto(n: nat): (r: seq<int>)
    ensures |r| == n && forall k :: 0 <= k < n ==> r[k] == k
  {
    seq(n, k => k)
  }

  function Values<T>(rows: seq<Row<T>>): (r: seq<T>)
    ensures |r| == |rows| && forall k :: 0 <= k < |r| ==> r[k] == rows[k].1
  {
    seq(|rows|, k requires 0 <= k < |rows| => rows[k].1)
  }

  /** The printed table: rows by token, and the name table's index. */
  datatype Table = Table(kind: Kind, page: string, rows: seq<Entry>, index: seq<int>)

  function RowsOf(entries: seq<Entry>): (r: seq<Entry>)
    ensures |r| == |entries|
  {
    BubbleSorted(Lowered(entries))
  }

  function IndexOf(rows: seq<Entry>, useStrings: bool): (r: seq<int>)
    ensures |r| == |rows|
  {
    if useStrings then Values(BubbleSorted(Zip(Values(rows), Upto(|rows|))))
    else seq(|rows|, _ => 0)
  }

  function TableOf(g: Group): Table {
    Table(g.kind, g.page, RowsOf(g.entries), IndexOf(RowsOf(g.entries), g.useStrings))
  }

  /** The token table: the entries with their tokens in lower case, each exactly once, in
      non-decreasing numeric order of the tokens, and in file order where tokens are equal. */
  lemma TokenTableIsSorted(entries: seq<Entry>, key: string)
    requires forall k :: 0 <= k < |entries| ==> IsHexToken(LowerToken(entries[k].0))
    ensures var rows := RowsOf(entries);
            && multiset(rows) == multiset(Lowered(entries))
            && (forall k :: 0 <= k < |rows| ==> IsHexToken(rows[k].0))
            && (forall a, b :: 0 <= a < b < |rows| ==> HexValue(rows[a].0) <= HexValue(rows[b].0))
            && WithKey(rows, key) == WithKey(Lowered(entries), key)
  {
    hide BubbleSorted, LowerToken, Le, HexValue, IsHexToken, WithKey;
    var rows, lowered := RowsOf(entries), Lowered(entries);
    BubbleSortIsStable(lowered, key);
    BubbleSorts(lowered);
    forall k | 0 <= k < |rows| ensures IsHexToken(rows[k].0) {
      assert rows[k] in multiset(rows);
      assert rows[k] in lowered;
    }
    forall a, b | 0 <= a < b < |rows| ensures HexValue(rows[a].0) <= HexValue(rows[b].0) {
      HexOrder(rows[a].0, rows[b].0);
    }
  }

  /** The name index: every row number exactly once, and read through it the names of the token
      table come in non-decreasing order. Without strings it is all zeros. */
  lemma NameIndexIsSorted(rows: seq<Entry>)
    ensures var index := IndexOf(rows, true);
            && |index| == |rows|
            && multiset(index) == multiset(Upto(|rows|))
            && (forall k :: 0 <= k < |index| ==> 0 <= index[k] < |rows|)
            && (forall a, b :: 0 <= a < b < |index| && 0 <= index[a] < |rows| && 0 <= index[b] < |rows| ==>
                  Le(rows[index[a]].1, rows[index[b]].1))
    ensures forall k :: 0 <= k < |rows| ==> IndexOf(rows, false)[k] == 0
  {
    hide BubbleSorted, Le, WithKey;
    var before := Zip(Values(rows), Upto(|rows|));
    var after := BubbleSorted(before);
    BubbleSortIsStable(before, "");
    BubbleSorts(before);
    forall k | 0 <= k < |after| ensures 0 <= after[k].1 < |rows| && after[k].0 == rows[after[k].1].1 {
      assert after[k] in multiset(after);
      assert after[k] in before;
    }
    ValuesOfSameRows(after, before);
    assert Values(before) == Upto(|rows|);
  }

  lemma RowTakenOut(b: seq<Row<int>>, m: nat)
    requires m < |b|
    ensures var c := b[..m] + b[m + 1..];
            && multiset(b) == multiset(c) + multiset{b[m]}
            && multiset(Values(b)) == multiset(Values(c)) + multiset{b[m].1}
  {
    hide Values;
    var x, y := b[..m], b[m + 1..];
    assert b == x + ([b[m]] + y);
    assert Values([b[m]]) == [b[m].1];
    ValuesAppend(x, [b[m]] + y);
    ValuesAppend([b[m]], y);
    ValuesAppend(x, y);
  }

  lemma ValuesAppend(a: seq<Row<int>>, b: seq<Row<int>>)
    ensures Values(a + b) == Values(a) + Values(b)
  {
  }

  lemma {:induction false} ValuesOfSameRows(a: seq<Row<int>>, b: seq<Row<int>>)
    requires multiset(a) == multiset(b)
    ensures multiset(Values(a)) == multiset(Values(b))
    decreases |a|
  {
    hide Values;
    SameSize(a, b);
    if a == [] {
      assert b == [];
    } else {
      var m := RowOf(b, a, 0);
      RowTakenOut(a, 0);
      RowTakenOut(b, m);
      var c, d := a[..0] + a[0 + 1..], b[..m] + b[m + 1..];
      SameRest(multiset(a), multiset(b), multiset(c), multiset(d), a[0]);
      ValuesOfSameRows(c, d);
    }
  }

  lemma RowOf(b: seq<Row<int>>, a: seq<Row<int>>, i: nat) returns (m: nat)
    requires multiset(a) == multiset(b) && i < |a|
    ensures m < |b| && b[m] == a[i]
  {
    assert a[i] in multiset(a);
    assert a[i] in b;
    m :| 0 <= m < |b| && b[m] == a[i];
  }

  lemma SameRest(a: multiset<Row<int>>, b: multiset<Row<int>>, c: multiset<Row<int>>, d: multiset<Row<int>>,
                 x: Row<int>)
    requires a == b && a == c + multiset{x} && b == d + multiset{x}
    ensures c == d
  {
    assert c == a - multiset{x} && d == b - multiset{x};
  }

  lemma SameSize(a: seq<Row<int>>, b: seq<Row<int>>)
    requires multiset(a) == multiset(b)
    ensures |a| == |b|
  {
    assert |multiset(a)| == |a| && |multiset(b)| == |b|;
  }

  // ----- code pages

  const TABLE_SIZE: nat := 255

  datatype CodePage = CodePage(num: int, size: int)

  /** What a group needs to be printed: room in the scratch tables, tokens that pass the check, and
      a code page inside the page table. */
  predicate Printable(g: Group, number: string -> int) {
    && |g.entries| <= TABLE_SIZE
    && (forall k :: 0 <= k < |g.entries| ==> TokenOk(g.entries[k].0))
    && 0 <= number(g.page) < TABLE_SIZE
  }

  function TablesOf(groups: seq<Group>): (r: seq<Table>)
    ensures |r| == |groups| && forall k :: 0 <= k < |r| ==> r[k] == TableOf(groups[k])
  {
    seq(|groups|, k requires 0 <= k < |groups| => TableOf(groups[k]))
  }

  ghost predicate AllPrintable(groups: seq<Group>, number: string -> int) {
    forall k :: 0 <= k < |groups| ==> Printable(groups[k], number)
  }

  /** cache_codepage for one group, if it is of the kind the table is for. */
  function CachedOne(pages: seq<CodePage>, g: Group, kind: Kind, number: string -> int): (r: seq<CodePage>)
    requires |pages| == TABLE_SIZE && Printable(g, number)
    ensures |r| == TABLE_SIZE
  {
    if g.kind == kind then pages[number(g.page) := CodePage(number(g.page), |g.entries|)] else pages
  }

  /** The page table of one kind after the groups have been cached in order. */
  ghost function Cached(pages: seq<CodePage>, groups: seq<Group>, kind: Kind, number: string -> int): (r: seq<CodePage>)
    requires |pages| == TABLE_SIZE && AllPrintable(groups, number)
    ensures |r| == TABLE_SIZE
  {
    if groups == [] then pages
    else
      var n := |groups| - 1;
      CachedOne(Cached(pages, groups[..n], kind, number), groups[n], kind, number)
  }

  ghost predicate IsPageOf(groups: seq<Group>, k: nat, kind: Kind, number: string -> int, i: int) {
    k < |groups| && groups[k].kind == kind && number(groups[k].page) == i
  }

  /** The last of the groups with a page. */
  ghost predicate IsLastOf(groups: seq<Group>, k: nat, kind: Kind, number: string -> int, i: int) {
    IsPageOf(groups, k, kind, number, i) && forall m: nat :: k < m ==> !IsPageOf(groups, m, kind, number, i)
  }

  lemma LastInFront(groups: seq<Group>, k: nat, kind: Kind, number: string -> int, i: int)
    requires groups != [] && k < |groups| - 1 && IsLastOf(groups, k, kind, number, i)
    ensures IsLastOf(groups[..|groups| - 1], k, kind, number, i)
    ensures !IsPageOf(groups, |groups| - 1, kind, number, i)
  {
    var front := groups[..|groups| - 1];
    forall m: nat | k < m ensures !IsPageOf(front, m, kind, number, i) {
      assert !IsPageOf(groups, m, kind, number, i);
    }
  }

  lemma OneCached(before: seq<CodePage>, g: Group, kind: Kind, number: string -> int, i: nat)
    requires |before| == TABLE_SIZE && Printable(g, number) && i < TABLE_SIZE
    ensures CachedOne(before, g, kind, number)[i] ==
            if g.kind == kind && number(g.page) == i then CodePage(i, |g.entries|) else before[i]
  {
  }

  /** The cached size of a page is the number of entries of the last table for it, and a page without a
      table is not touched. */
  lemma {:induction false} CachedSizes(pages: seq<CodePage>, groups: seq<Group>, kind: Kind, number: string -> int,
                                       i: nat)
    requires |pages| == TABLE_SIZE && AllPrintable(groups, number) && i < TABLE_SIZE
    ensures forall k: nat :: IsLastOf(groups, k, kind, number, i) ==>
              Cached(pages, groups, kind, number)[i] == CodePage(i, |groups[k].entries|)
    ensures (forall k: nat :: !IsPageOf(groups, k, kind, number, i)) ==>
              Cached(pages, groups, kind, number)[i] == pages[i]
  {
    hide Printable, IsLastOf;
    if groups != [] {
      var n := |groups| - 1;
      var front := groups[..n];
      CachedSizes(pages, front, kind, number, i);
      OneCached(Cached(pages, front, kind, number), groups[n], kind, number, i);
      forall k: nat | IsLastOf(groups, k, kind, number, i)
        ensures k <= n && Cached(pages, groups, kind, number)[i] == CodePage(i, |groups[k].entries|)
      {
        LastIsPage(groups, k, kind, number, i);
        if k < n {
          LastInFront(groups, k, kind, number, i);
        }
      }
      if forall k: nat :: !IsPageOf(groups, k, kind, number, i) {
        assert !IsPageOf(groups, n, kind, number, i);
        forall k: nat ensures !IsPageOf(front, k, kind, number, i) {
          assert !IsPageOf(groups, k, kind, number, i);
        }
      }
    } else {
      forall k: nat | IsLastOf(groups, k, kind, number, i) ensures false {
        LastIsPage(groups, k, kind, number, i);
      }
    }
  }

  lemma LastIsPage(groups: seq<Group>, k: nat, kind: Kind, number: string -> int, i: int)
    requires IsLastOf(groups, k, kind, number, i)
    ensures k < |groups| && IsPageOf(groups, k, kind, number, i)
  {
  }
}
