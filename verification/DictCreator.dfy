/** The dictionary compiler's table machinery over its scratch arrays. */
module DictCreator {
  import opened Octets
  import opened TokenOrder
  import opened BubbleSort
  import opened DictTables
  import opened CodePages

  lemma OneMoreGroup(tags: seq<CodePage>, attrs: seq<CodePage>, done: seq<Group>, g: Group, number: string -> int)
    requires |tags| == |attrs| == TABLE_SIZE && AllPrintable(done, number) && Printable(g, number)
    ensures AllPrintable(done + [g], number)
    ensures Cached(tags, done + [g], Tag, number) == CachedOne(Cached(tags, done, Tag, number), g, Tag, number)
    ensures Cached(attrs, done + [g], Attribute, number)
            == CachedOne(Cached(attrs, done, Attribute, number), g, Attribute, number)
    ensures TablesOf(done + [g]) == TablesOf(done) + [TableOf(g)]
  {
    hide Printable, TableOf, CachedOne;
    assert (done + [g])[..|done|] == done;
    assert TablesOf(done + [g]) == TablesOf(done) + [TableOf(g)];
  }

  lemma GroupsStep(heading: Option<Line>, entries: seq<Entry>, lines: seq<Line>, i: nat)
    requires i < |lines|
    ensures var l, rest := lines[i], lines[i + 1..];
            GroupsFrom(heading, entries, lines[i..]) ==
            if !IsHeading(l) then GroupsFrom(heading, entries + [EntryOf(l)], rest)
            else if heading.None? then GroupsFrom(Some(l), entries, rest)
            else [Group(KindOf(heading.value), heading.value.item2, WantsStrings(l), entries)]
                 + GroupsFrom(Some(l), [], rest)
  {
    assert lines[i..][1..] == lines[i + 1..];
  }

  lemma LastGroup(heading: Option<Line>, entries: seq<Entry>, none: seq<Line>)
    requires none == []
    ensures GroupsFrom(heading, entries, none) ==
            if heading.None? || entries == [] then []
            else [Group(KindOf(heading.value), heading.value.item2, WantsStrings(heading.value), entries)]
  {
  }

  /** More entries than the scratch tables hold end up in a group that cannot be printed. */
  lemma {:induction false} TooManyEntries(heading: Option<Line>, entries: seq<Entry>, lines: seq<Line>)
    requires |entries| > TABLE_SIZE && (heading.Some? || exists l :: l in lines && IsHeading(l))
    ensures var groups := GroupsFrom(heading, entries, lines);
            |groups| > 0 && |groups[0].entries| > TABLE_SIZE
    decreases |lines|
  {
    hide IsHeading;
    if lines != [] {
      assert lines == [lines[0]] + lines[1..];
      if !IsHeading(lines[0]) {
        TooManyEntries(heading, entries + [EntryOf(lines[0])], lines[1..]);
      } else if heading.None? {
        TooManyEntries(Some(lines[0]), entries, lines[1..]);
      }
    }
  }

  /** process_entry on full scratch tables. */
  lemma Overrun(heading: Option<Line>, entries: seq<Entry>, lines: seq<Line>, i: nat, done: seq<Group>,
                number: string -> int)
    requires i < |lines| && |entries| == TABLE_SIZE && !IsHeading(lines[i])
    requires Groups(lines) == done + GroupsFrom(heading, entries + [EntryOf(lines[i])], lines[i + 1..])
    requires heading.Some? <==> exists l :: l in lines[..i] && IsHeading(l)
    ensures (exists l :: l in lines && IsHeading(l)) ==> !AllPrintable(Groups(lines), number)
  {
    hide IsHeading, GroupsFrom;
    if exists l :: l in lines && IsHeading(l) {
      assert lines == lines[..i] + ([lines[i]] + lines[i + 1..]);
      TooManyEntries(heading, entries + [EntryOf(lines[i])], lines[i + 1..]);
      assert !Printable(Groups(lines)[|done|], number);
    }
  }

  class Creator {
    const tokens: array<string>
    const names: array<string>
    const sortedIndexes: array<int>
    const tagPages: array<CodePage>
    const attrPages: array<CodePage>
    var tables: seq<Table>

    ghost predicate Valid()
    {
      && tokens.Length == names.Length == sortedIndexes.Length == TABLE_SIZE
      && tagPages.Length == attrPages.Length == TABLE_SIZE
      && tokens != names && tagPages != attrPages
    }

    /** The first n entries collected so far, numbered in order. */
    ghost predicate Collected(n: nat, entries: seq<Entry>)
      requires Valid()
      reads tokens, names, sortedIndexes
    {
      && n == |entries| <= TABLE_SIZE
      && Zip(tokens[..n], names[..n]) == entries
      && sortedIndexes[..n] == Upto(n)
    }

    lemma NothingCollected()
      requires Valid()
      ensures Collected(0, [])
    {
    }

    constructor ()
      ensures Valid() && tables == []
      ensures forall i :: 0 <= i < TABLE_SIZE ==> tagPages[i].num == -1 && attrPages[i].num == -1
      ensures fresh(tokens) && fresh(names) && fresh(sortedIndexes) && fresh(tagPages) && fresh(attrPages)
    {
      tokens := new string[TABLE_SIZE];
      names := new string[TABLE_SIZE];
      sortedIndexes := new int[TABLE_SIZE];
      tagPages := new CodePage[TABLE_SIZE](_ => CodePage(-1, 0));
      attrPages := new CodePage[TABLE_SIZE](_ => CodePage(-1, 0));
      tables := [];
    }

    /** process_entry. */
    method ProcessEntry(i: nat, token: string, name: string, ghost entries: seq<Entry>)
      requires Valid() && Collected(i, entries) && i < TABLE_SIZE
      modifies tokens, names, sortedIndexes
      ensures Collected(i + 1, entries + [(token, name)])
    {
      hide Zip;
      tokens[i] := token;
      names[i] := name;
      sortedIndexes[i] := i;
      ghost var z := Zip(tokens[..i + 1], names[..i + 1]);
      assert forall k :: 0 <= k < i ==> z[k] == entries[k];
      assert z == entries + [(token, name)];
    }

    /** One token to lower case, checking its letters. */
    static method LowerOne(token: string) returns (ok: bool, r: string)
      ensures ok == TokenOk(token) && (ok ==> r == LowerToken(token))
    {
      r := token;
      if |token| != 4 {
        return false, r;
      }
      for j := 0 to 4
        invariant |r| == 4
        invariant forall k :: 0 <= k < 4 ==> r[k] == if k < j then Lower(token[k]) else token[k]
        invariant forall k :: 0 <= k < j ==>
                    var c := Lower(token[k]); IsLetter(c) ==> c == 'x' || 'a' <= c <= 'f'
      {
        r := r[j := Lower(r[j])];
        if r[j] != 'x' && IsLetter(r[j]) {
          if r[j] < 'a' || r[j] > 'f' {
            return false, r;
          }
        }
      }
      ok := true;
    }

    method LowerTokens(n: nat, ghost entries: seq<Entry>) returns (ok: bool)
      requires Valid() && Collected(n, entries)
      modifies tokens
      ensures ok == forall k :: 0 <= k < n ==> TokenOk(entries[k].0)
      ensures ok ==> Collected(n, Lowered(entries))
    {
      hide Zip, TokenOk, LowerToken;
      ghost var z := Zip(tokens[..n], names[..n]);
      assert forall k :: 0 <= k < n ==> z[k] == (tokens[k], names[k]);
      for i := 0 to n
        invariant forall k :: 0 <= k < i ==> TokenOk(entries[k].0) && tokens[k] == LowerToken(entries[k].0)
        invariant forall k :: i <= k < n ==> tokens[k] == entries[k].0
      {
        var fine, token := LowerOne(tokens[i]);
        if !fine {
          return false;
        }
        tokens[i] := token;
      }
      z := Zip(tokens[..n], names[..n]);
      assert z == Lowered(entries);
      ok := true;
    }

    /** print_token_table: rows by token, then the index by name. */
    method PrintTokenTable(n: nat, useStrings: bool, ghost entries: seq<Entry>) returns (ok: bool, rows: seq<Entry>)
      requires Valid() && Collected(n, entries)
      modifies tokens, names, sortedIndexes
      ensures ok == forall k :: 0 <= k < n ==> TokenOk(entries[k].0)
      ensures ok ==> rows == RowsOf(entries)
      ensures ok && useStrings ==> sortedIndexes[..n] == IndexOf(rows, true)
    {
      hide Zip, TokenOk, Lowered, BubbleSorted, Values, Upto;
      rows := [];
      ok := LowerTokens(n, entries);
      if !ok {
        return;
      }
      SortRows(tokens, names, n);
      rows := Zip(tokens[..n], names[..n]);
      assert rows == RowsOf(entries);
      if useStrings {
        assert names[..n] == Values(rows);
        SortRows(names, sortedIndexes, n);
        ghost var sorted := Zip(names[..n], sortedIndexes[..n]);
        assert sortedIndexes[..n] == Values(sorted);
      }
    }

    /** print_name_table. */
    method PrintNameTable(n: nat, useStrings: bool) returns (index: seq<int>)
      requires Valid() && n <= TABLE_SIZE
      ensures index == if useStrings then sortedIndexes[..n] else seq(n, _ => 0)
    {
      index := [];
      for i := 0 to n
        invariant |index| == i
        invariant forall k :: 0 <= k < i ==> index[k] == if useStrings then sortedIndexes[k] else 0
      {
        index := index + [if useStrings then sortedIndexes[i] else 0];
      }
    }

    /** cache_codepage; a page number outside the table ends the program. */
    static method CacheCodepage(pages: array<CodePage>, num: int, n: nat) returns (ok: bool)
      requires pages.Length == TABLE_SIZE
      modifies pages
      ensures ok == (0 <= num < 255)
      ensures pages[..] == if ok then old(pages[..])[num := CodePage(num, n)] else old(pages[..])
    {
      ok := 0 <= num < TABLE_SIZE;
      if ok {
        pages[num] := CodePage(num, n);
      }
    }

    /** What has been printed and cached so far; `tags` and `attrs` are the page tables at the start. */
    ghost predicate Printed(done: seq<Group>, number: string -> int, tags: seq<CodePage>, attrs: seq<CodePage>)
      requires Valid()
      reads this, tagPages, attrPages
    {
      && |tags| == |attrs| == TABLE_SIZE && AllPrintable(done, number)
      && tables == TablesOf(done)
      && tagPages[..] == Cached(tags, done, Tag, number)
      && attrPages[..] == Cached(attrs, done, Attribute, number)
    }

    /** The tables stand under their headings. */
    ghost predicate KindsAreRight(lines: seq<Line>) reads this {
      var sections := Sections(lines).1;
      |tables| <= |sections| && forall k :: 0 <= k < |tables| ==>
        && (tables[k].kind == Tag <==> sections[k].heading.item1 == "TAGS_FOR_CODE_PAGE")
        && (tables[k].kind == Attribute <==> sections[k].heading.item1 == "ATTRIBUTES_FOR_CODE_PAGE")
        && tables[k].page == sections[k].heading.item2
    }

    lemma PagesAreRight(lines: seq<Line>, number: string -> int, tags: seq<CodePage>, attrs: seq<CodePage>)
      requires Valid() && Printed(Groups(lines), number, tags, attrs)
      ensures KindsAreRight(lines)
      ensures Fresh(tags) ==> PagesUnder(lines, "TAGS_FOR_CODE_PAGE", number, tagPages[..])
      ensures Fresh(attrs) ==> PagesUnder(lines, "ATTRIBUTES_FOR_CODE_PAGE", number, attrPages[..])
    {
      hide Groups, Sections, Cached, AllPrintable, PagesUnder, Fresh;
      if Fresh(tags) {
        PagesByHeading(tags, lines, number);
      }
      if Fresh(attrs) {
        PagesByHeading(attrs, lines, number);
      }
      forall k: nat | k < |tables|
        ensures k < |Sections(lines).1|
        ensures var h := Sections(lines).1[k].heading;
                && (tables[k].kind == Tag <==> h.item1 == "TAGS_FOR_CODE_PAGE")
                && (tables[k].kind == Attribute <==> h.item1 == "ATTRIBUTES_FOR_CODE_PAGE")
                && tables[k].page == h.item2
      {
        KindOfTable(lines, k);
      }
      TablesOfHeadings(lines);
    }

    lemma NothingPrinted(number: string -> int)
      requires Valid() && tables == []
      ensures Printed([], number, tagPages[..], attrPages[..])
    {
    }

    /** The three calls that flush the current table. */
    method Flush(n: nat, kind: Kind, page: string, useStrings: bool, number: string -> int, ghost entries: seq<Entry>,
                 ghost done: seq<Group>, ghost tags: seq<CodePage>, ghost attrs: seq<CodePage>)
      returns (ok: bool)
      requires Valid() && Collected(n, entries) && Printed(done, number, tags, attrs)
      modifies this`tables, tokens, names, sortedIndexes, tagPages, attrPages
      ensures ok == Printable(Group(kind, page, useStrings, entries), number)
      ensures ok ==> Printed(done + [Group(kind, page, useStrings, entries)], number, tags, attrs)
    {
      hide Zip, TokenOk, Lowered, BubbleSorted, Values, Upto;
      ghost var g := Group(kind, page, useStrings, entries);
      var rows;
      ok, rows := PrintTokenTable(n, useStrings, entries);
      if !ok {
        return;
      }
      var index := PrintNameTable(n, useStrings);
      assert index == IndexOf(rows, useStrings);
      tables := tables + [Table(kind, page, rows, index)];
      ok := CacheCodepage(if kind == Tag then tagPages else attrPages, number(page), n);
      if ok {
        OneMoreGroup(tags, attrs, done, g, number);
      }
    }

    /** process_content: the line loop. It succeeds exactly when there is a heading and every group
        can be printed, and then prints the table of each group in order and caches its size. */
    method ProcessContent(lines: seq<Line>, number: string -> int) returns (ok: bool)
      requires Valid() && tables == []
      modifies this`tables, tokens, names, sortedIndexes, tagPages, attrPages
      ensures ok == ((exists l :: l in lines && IsHeading(l)) && AllPrintable(Groups(lines), number))
      ensures ok ==> Printed(Groups(lines), number, old(tagPages[..]), old(attrPages[..]))
      ensures ok && Fresh(old(tagPages[..])) ==> PagesUnder(lines, "TAGS_FOR_CODE_PAGE", number, tagPages[..])
      ensures ok && Fresh(old(attrPages[..])) ==> PagesUnder(lines, "ATTRIBUTES_FOR_CODE_PAGE", number, attrPages[..])
      ensures ok ==> KindsAreRight(lines)
    {
      hide GroupsFrom, Printed, Printable, IsHeading, Collected, Fresh, PagesUnder, KindsAreRight;
      var heading: Option<Line> := None;
      var n := 0;
      ghost var entries: seq<Entry> := [];
      ghost var done: seq<Group> := [];
      ghost var tags, attrs := tagPages[..], attrPages[..];
      NothingPrinted(number);
      NothingCollected();
      for i := 0 to |lines|
        invariant Collected(n, entries) && n == |entries| <= TABLE_SIZE
        invariant Groups(lines) == done + GroupsFrom(heading, entries, lines[i..])
        invariant heading.Some? <==> exists l :: l in lines[..i] && IsHeading(l)
        invariant AllPrintable(done, number) && Printed(done, number, tags, attrs)
      {
        var l := lines[i];
        GroupsStep(heading, entries, lines, i);
        assert lines[..i + 1] == lines[..i] + [l];
        if IsHeading(l) {
          if heading.Some? {
            ghost var g := Group(KindOf(heading.value), heading.value.item2, WantsStrings(l), entries);
            FlushedFirst(done, g, GroupsFrom(Some(l), [], lines[i + 1..]), number);
            ok := Flush(n, KindOf(heading.value), heading.value.item2, WantsStrings(l), number, entries,
                        done, tags, attrs);
            if !ok {
              return;
            }
            done := done + [g];
            n := 0;
            entries := [];
            NothingCollected();
          }
          heading := Some(l);
        } else {
          if n == TABLE_SIZE {
            Overrun(heading, entries, lines, i, done, number);
            return false;
          }
          ProcessEntry(n, l.item1, l.item2, entries);
          entries := entries + [EntryOf(l)];
          n := n + 1;
        }
      }
      assert lines[..|lines|] == lines;
      LastGroup(heading, entries, lines[|lines|..]);
      if heading.None? {
        return false;
      }
      ok := true;
      if n > 0 {
        ghost var g := Group(KindOf(heading.value), heading.value.item2, WantsStrings(heading.value), entries);
        FlushedFirst(done, g, [], number);
        ok := Flush(n, KindOf(heading.value), heading.value.item2, WantsStrings(heading.value), number, entries,
                    done, tags, attrs);
        assert Groups(lines) == done + [g];
      } else {
        assert Groups(lines) == done;
      }
      if ok {
        PagesAreRight(lines, number, tags, attrs);
      }
    }
  }

  /** The group flushed next decides, together with the rest, whether all can be printed. */
  lemma FlushedFirst(done: seq<Group>, g: Group, rest: seq<Group>, number: string -> int)
    requires AllPrintable(done, number)
    ensures done + ([g] + rest) == (done + [g]) + rest
    ensures AllPrintable(done + [g], number) <==> Printable(g, number)
    ensures !Printable(g, number) ==> !AllPrintable(done + ([g] + rest), number)
  {
    assert (done + [g])[|done|] == g && (done + ([g] + rest))[|done|] == g;
  }
}
