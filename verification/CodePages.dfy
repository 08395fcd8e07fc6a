/** The code page tables of the dictionary: which pages a file uses, and where a reader of the
    dictionary finds the tables of a page. */
module CodePages {
  import opened Octets
  import opened DictTables

  /** The pages among the first `n` slots that something was cached in. */
  ghost function Used(cp: seq<CodePage>, n: nat): set<nat>
    requires n <= |cp|
  {
    set i: nat | i < n && cp[i].num != -1
  }

  lemma UsedStep(cp: seq<CodePage>, n: nat)
    requires n < |cp|
    ensures Used(cp, n + 1) == Used(cp, n) + if cp[n].num != -1 then {n} else {}
    ensures |Used(cp, n + 1)| == |Used(cp, n)| + if cp[n].num != -1 then 1 else 0
  {
  }

  /** get_num_codepages: how many pages are used, and the last of them. */
  method GetNumCodepages(cp: array<CodePage>) returns (n: nat, max: nat)
    ensures n == |Used(cp[..], cp.Length)|
    ensures n == 0 ==> max == 0 && Used(cp[..], cp.Length) == {}
    ensures n > 0 ==> max in Used(cp[..], cp.Length) && forall i :: i in Used(cp[..], cp.Length) ==> i <= max
  {
    n, max := 0, 0;
    for i := 0 to cp.Length
      invariant n == |Used(cp[..], i)|
      invariant n == 0 ==> max == 0
      invariant n > 0 ==> max in Used(cp[..], i)
      invariant forall k :: k in Used(cp[..], i) ==> k <= max
    {
      UsedStep(cp[..], i);
      assert cp[..][i] == cp[i];
      if cp[i].num != -1 {
        max := i;
        n := n + 1;
      }
    }
  }

  /** One row per page up to the last one used; None is a row of zeros. */
  ghost predicate IsPageTable(cp: seq<CodePage>, rows: seq<Option<CodePage>>) {
    && |rows| <= |cp|
    && (forall i :: 0 <= i < |rows| ==> rows[i] == if cp[i].num == -1 then None else Some(cp[i]))
    && (forall i :: |rows| <= i < |cp| ==> cp[i].num == -1)
    && (rows != [] ==> rows[|rows| - 1].Some?)
  }

  /** print_codepage_tables for one of the two page tables. */
  method PrintCodepageTable(cp: array<CodePage>) returns (rows: seq<Option<CodePage>>)
    ensures IsPageTable(cp[..], rows)
  {
    var n, max := GetNumCodepages(cp);
    rows := [];
    if n == 0 {
      forall i: nat | i < cp.Length ensures cp[i].num == -1 {
        assert i !in Used(cp[..], cp.Length);
      }
      return;
    }
    var i := 0;
    while i <= max && i < cp.Length
      invariant |rows| == i <= max + 1
      invariant forall k :: 0 <= k < i ==> rows[k] == if cp[k].num == -1 then None else Some(cp[k])
    {
      rows := rows + [if cp[i].num == -1 then None else Some(cp[i])];
      i := i + 1;
    }
    forall k: nat | |rows| <= k < cp.Length ensures cp[k].num == -1 {
      assert k !in Used(cp[..], cp.Length);
    }
  }

  ghost predicate Fresh(pages: seq<CodePage>) { forall i :: 0 <= i < |pages| ==> pages[i].num == -1 }

  /** A slot is used exactly when a group of the file has that page, and it bears its own number. */
  lemma {:induction false} UsedPages(pages: seq<CodePage>, groups: seq<Group>, kind: Kind, number: string -> int,
                                     i: nat)
    requires |pages| == TABLE_SIZE && Fresh(pages) && AllPrintable(groups, number) && i < TABLE_SIZE
    ensures var cp := Cached(pages, groups, kind, number);
            && (cp[i].num == -1 || cp[i].num == i)
            && (cp[i].num != -1 <==> exists k: nat :: IsPageOf(groups, k, kind, number, i))
  {
    hide Printable;
    if groups == [] {
      assert forall k: nat :: !IsPageOf(groups, k, kind, number, i);
    } else {
      var n := |groups| - 1;
      var front := groups[..n];
      UsedPages(pages, front, kind, number, i);
      forall k: nat | k < n ensures IsPageOf(front, k, kind, number, i) == IsPageOf(groups, k, kind, number, i) {
      }
      PageOfLast(groups, kind, number, i);
      OneCached(Cached(pages, front, kind, number), groups[n], kind, number, i);
    }
  }

  lemma PageOfLast(groups: seq<Group>, kind: Kind, number: string -> int, i: nat)
    requires groups != []
    ensures var n := |groups| - 1;
            (exists k: nat :: IsPageOf(groups, k, kind, number, i))
            <==> IsPageOf(groups, n, kind, number, i) || exists k: nat :: k < n && IsPageOf(groups, k, kind, number, i)
  {
    if k: nat :| IsPageOf(groups, k, kind, number, i) {
      assert k == |groups| - 1 || k < |groups| - 1;
    }
  }

  /** The page table of a file: the row of a page is filled exactly when the file has a table for that
      page, then names that page, and its size is the number of entries of the last table for it; pages
      past the end of the table are pages the file does not have. */
  lemma RowsAreThePages(pages: seq<CodePage>, groups: seq<Group>, kind: Kind, number: string -> int,
                        rows: seq<Option<CodePage>>, i: nat)
    requires |pages| == TABLE_SIZE && Fresh(pages) && AllPrintable(groups, number) && i < TABLE_SIZE
    requires IsPageTable(Cached(pages, groups, kind, number), rows)
    ensures i < |rows| && rows[i].Some? <==> exists k: nat :: IsPageOf(groups, k, kind, number, i)
    ensures i < |rows| && rows[i].Some? ==> rows[i].value.num == i
    ensures forall k: nat :: IsLastOf(groups, k, kind, number, i) ==>
              i < |rows| && rows[i] == Some(CodePage(i, |groups[k].entries|))
  {
    hide Cached, AllPrintable, IsPageOf, IsLastOf;
    UsedPages(pages, groups, kind, number, i);
    CachedSizes(pages, groups, kind, number, i);
    forall k: nat | IsLastOf(groups, k, kind, number, i) ensures IsPageOf(groups, k, kind, number, i) {
      LastIsPage(groups, k, kind, number, i);
    }
  }

  /** The file has a table for page `i` under a heading of the given name. */
  ghost predicate HasTable(lines: seq<Line>, heading: string, number: string -> int, i: nat) {
    exists k: nat :: k < |Groups(lines)| && k < |Sections(lines).1|
      && Sections(lines).1[k].heading.item1 == heading && number(Sections(lines).1[k].heading.item2) == i
  }

  /** The slots of a page table are used exactly for the tables under the headings of one name. */
  ghost predicate PagesUnder(lines: seq<Line>, heading: string, number: string -> int, cp: seq<CodePage>) {
    |cp| == 255 && forall i: nat :: i < 255 ==>
      && (cp[i].num != -1 <==> HasTable(lines, heading, number, i))
      && (cp[i].num == -1 || cp[i].num == i)
  }

  lemma SlotIsUsed(pages: seq<CodePage>, lines: seq<Line>, kind: Kind, heading: string, number: string -> int, i: nat)
    requires |pages| == TABLE_SIZE && Fresh(pages) && AllPrintable(Groups(lines), number) && i < TABLE_SIZE
    requires heading == if kind == Tag then "TAGS_FOR_CODE_PAGE" else "ATTRIBUTES_FOR_CODE_PAGE"
    ensures var cp := Cached(pages, Groups(lines), kind, number);
            && (cp[i].num != -1 <==> HasTable(lines, heading, number, i))
            && (cp[i].num == -1 || cp[i].num == i)
  {
    hide Cached, AllPrintable, Groups, Sections;
    UsedPages(pages, Groups(lines), kind, number, i);
    forall k: nat | k < |Groups(lines)|
      ensures k < |Sections(lines).1|
      ensures var h := Sections(lines).1[k].heading;
              IsPageOf(Groups(lines), k, kind, number, i) <==> h.item1 == heading && number(h.item2) == i
    {
      KindOfTable(lines, k);
    }
  }

  /** Tag tables fill the tag pages and attribute tables the attribute pages. */
  lemma PagesByHeading(pages: seq<CodePage>, lines: seq<Line>, number: string -> int)
    requires |pages| == TABLE_SIZE && Fresh(pages) && AllPrintable(Groups(lines), number)
    ensures PagesUnder(lines, "TAGS_FOR_CODE_PAGE", number, Cached(pages, Groups(lines), Tag, number))
    ensures PagesUnder(lines, "ATTRIBUTES_FOR_CODE_PAGE", number, Cached(pages, Groups(lines), Attribute, number))
  {
    hide Cached, AllPrintable, Groups, HasTable, Fresh;
    forall i: nat | i < TABLE_SIZE
      ensures var cp := Cached(pages, Groups(lines), Tag, number);
              && (cp[i].num != -1 <==> HasTable(lines, "TAGS_FOR_CODE_PAGE", number, i))
              && (cp[i].num == -1 || cp[i].num == i)
    {
      SlotIsUsed(pages, lines, Tag, "TAGS_FOR_CODE_PAGE", number, i);
    }
    forall i: nat | i < TABLE_SIZE
      ensures var cp := Cached(pages, Groups(lines), Attribute, number);
              && (cp[i].num != -1 <==> HasTable(lines, "ATTRIBUTES_FOR_CODE_PAGE", number, i))
              && (cp[i].num == -1 || cp[i].num == i)
    {
      SlotIsUsed(pages, lines, Attribute, "ATTRIBUTES_FOR_CODE_PAGE", number, i);
    }
  }
}
