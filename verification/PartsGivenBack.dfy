/** What comes back for parts written by others: the parts of any multipart text with either end of
    line, read as their header lines and bodies. */
module PartsGivenBack {
  import opened Octets
  import opened Segmentation
  import opened DelimiterScan
  import opened BodyPartParser
  import opened HeaderFields
  import opened PastTheEnd
  import opened MultipartParser

  /** The six header names and what each of them is for. */
  predicate NameOf(name: string, f: Field) {
    match f
    case ContentBase => name == "Content-Base:"
    case ContentLocation => name == "Content-Location:"
    case ContentTransferEncoding => name == "Content-Transfer-Encoding:" || name == "Content-Encoding:"
    case ContentType => name == "Content-Type:"
    case ContentId => name == "Content-ID:"
  }

  predicate SameUpToCase(a: string, b: string) {
    |a| == |b| && forall i :: 0 <= i < |a| ==> Lower(a[i]) == Lower(b[i])
  }

  lemma EntryOf(name: string, f: Field) returns (k: FieldIndex)
    requires NameOf(name, f)
    ensures FIELDS[k] == (name, f)
  {
    k := if name == "Content-Base:" then 0 else if name == "Content-Location:" then 1
         else if name == "Content-Transfer-Encoding:" then 2 else if name == "Content-Encoding:" then 3
         else if name == "Content-Type:" then 4 else 5;
  }

  lemma SpelledIsProper(l: HeaderLine)
    requires l.FieldLine? && l.lead == "" && SameUpToCase(l.name, FIELDS[l.k].0)
    requires l.value != "" && l.value[0] != ' ' && !HasBreak(l.value)
    ensures Proper(l) && LineText(l) == l.name + Spaces(l.spaces) + l.value
  {
    NamesArePlain(l.k);
    CaseEqualPointwise(l.name, FIELDS[l.k].0);
    hide StrNCaseEqual;
    NoBreakInSum(l.name, Spaces(l.spaces));
    NoBreakInSum(l.name + Spaces(l.spaces), l.value);
    assert "" + l.name == l.name;
  }

  lemma SameFront(a: string, b: string, tail: string)
    requires a + tail == b + tail
    ensures a == b
  {
    assert |a| == |b|;
    assert a == (a + tail)[..|a|] && b == (b + tail)[..|b|];
  }

  /** A part with a single header line. */
  lemma OneLineRecovered(l: HeaderLine, eol: Eol, body: string)
    requires Proper(l)
    ensures var mem := eol + (LineText(l) + eol) + eol + body;
            ScanFrom(mem, |mem|, eol, 0, None, EMPTY_PART) ==
            if LoneAngle(l) then Panicked
            else Parsed(Part(Some(LineText(l)), Some(body), FieldsAfter(map[], l, None)))
  {
    hide ScanFrom, Proper, LineText, LoneAngle, FieldsAfter, Held;
    var lines := [l];
    assert lines[0] == l && lines[1..] == [];
    assert Block(lines, eol) == LineText(l) + eol + Block(lines[1..], eol) == LineText(l) + eol;
    FieldsStep(map[], None, lines);
    AnyLoneAngleStep(lines);
    assert !AnyLoneAngle(lines[1..]);
    HeadersAreRecovered(lines, eol, body);
    var mem := eol + (LineText(l) + eol) + eol + body;
    var got := ScanFrom(mem, |mem|, eol, 0, None, EMPTY_PART);
    if got.Parsed? {
      SameFront(got.part.headers.value, LineText(l), eol);
    }
  }

  /** Each of the six names, in any letter case, sets its own field to the value behind the spaces; a
      Content-ID is given without its angle brackets. */
  lemma NameSetsItsField(name: string, f: Field, spelled: string, value: string, eol: Eol, body: string)
    requires NameOf(name, f) && SameUpToCase(spelled, name)
    requires value != "" && value[0] != ' ' && !HasBreak(value)
    ensures var text := spelled + " " + (if f == ContentId then "<" + value + ">" else value);
            var mem := eol + (text + eol) + eol + body;
            ScanFrom(mem, |mem|, eol, 0, None, EMPTY_PART)
            == Parsed(Part(Some(text), Some(body), map[f := Some(value)]))
  {
    var k := EntryOf(name, f);
    var shown := if f == ContentId then "<" + value + ">" else value;
    var l := FieldLine("", k, spelled, 1, shown);
    hide ScanFrom, HasBreak, SameUpToCase, NameOf, Proper, LineText;
    assert !HasBreak(shown) by { ShownHasNoBreak(value); }
    SpelledIsProper(l);
    assert LineText(l) == spelled + " " + shown by { assert Spaces(1) == " "; }
    ShownIsHeld(l, f, value);
    OneLineRecovered(l, eol, body);
  }

  lemma ShownHasNoBreak(value: string)
    requires !HasBreak(value)
    ensures !HasBreak("<" + value + ">")
  {
  }

  lemma ShownIsHeld(l: HeaderLine, f: Field, value: string)
    requires l.FieldLine? && FIELDS[l.k].1 == f && value != ""
    requires l.value == if f == ContentId then "<" + value + ">" else value
    ensures !LoneAngle(l) && FieldsAfter(map[], l, None) == map[f := Some(value)]
  {
  }

  // ----- a part inside a multipart text

  /** The choice of the end of line is unique, so it may be read off the text. */
  lemma EolIs(s: string, boundary: string, d: nat)
    requires FirstAt(s, boundary, d)
    ensures EolOf(s, boundary) ==
            if d + 2 + |boundary| < |s| && s[d + 2 + |boundary|] == '\n' then "\n" else "\r\n"
  {
    EolIsChosen(s, boundary);
  }

  /** Part `k` of a multipart text, when it consists of an end of line, header lines, an empty line and
      a body: it panics exactly for a lone '<', and is otherwise given back with that header block, that
      body and the fields of those lines. The end of line is LF when an LF stands behind the first
      delimiter and CRLF when not. */
  lemma PartIsGivenBack(s: string, boundary: string, d: seq<nat>, k: nat, eol: Eol, lines: seq<HeaderLine>,
                        body: string)
    requires IsMultipart(s, boundary, d) && k < |d| - 1
    requires eol == if s[d[0] + 2 + |boundary|] == '\n' then "\n" else "\r\n"
    requires lines != [] && AllProper(lines)
    requires d[k] + 2 + |boundary| <= d[k + 1]
    requires s[d[k] + 2 + |boundary|..d[k + 1]] == eol + Block(lines, eol) + eol + body
    ensures EolOf(s, boundary) == eol
    ensures var got := PartOf(s, eol, Segment(d[k] + 2 + |boundary|, d[k + 1]));
            && (got.Panicked? <==> AnyLoneAngle(lines))
            && (got.Parsed? ==>
                  && got.part.body == Some(body)
                  && got.part.fields == FieldsOf(map[], None, lines)
                  && got.part.headers.Some? && got.part.headers.value + eol == Block(lines, eol))
  {
    hide EolOf, CaseMatchAt, ScanFrom, AllProper, AnyLoneAngle, Block, FieldsOf, EndsAtHyphens, LineEndAt;
    FirstOfMultipart(s, boundary, d);
    EolIs(s, boundary, d[0]);
    var a, b := d[k] + 2 + |boundary|, d[k + 1];
    HyphensBehindPart(s, boundary, d, k);
    PartParsesAlone(s[a..], b - a, eol, 0, None, EMPTY_PART);
    assert s[a..][..b - a] == s[a..b];
    HeadersAreRecovered(lines, eol, body);
  }

  lemma FirstOfMultipart(s: string, boundary: string, d: seq<nat>)
    requires IsMultipart(s, boundary, d)
    ensures FirstAt(s, boundary, d[0]) && d[0] + 2 + |boundary| < |s|
  {
    hide CaseMatchAt, EolOf, LineEndAt;
    assert d[0] in d && d[0] <= d[|d| - 1];
    forall i | 0 <= i < d[0] ensures !DelimiterAt(s, boundary, i) {
      assert i !in d;
    }
  }

  lemma HyphensBehindPart(s: string, boundary: string, d: seq<nat>, k: nat)
    requires IsMultipart(s, boundary, d) && k < |d| - 1 && d[k] + 2 + |boundary| <= d[k + 1]
    ensures var a := d[k] + 2 + |boundary|;
            a <= d[k + 1] <= |s| && EndsAtHyphens(s[a..], d[k + 1] - a)
  {
    hide CaseMatchAt, EolOf, LineEndAt;
    assert d[k + 1] in d && d[k + 1] <= d[|d| - 1];
    assert DelimiterAt(s, boundary, d[k + 1]);
  }

  const LF_PART: string := "\nContent-Type: a\n\nxy\n"

  lemma DelimitersOfLfText(s: string, i: nat)
    requires s == "--b" + LF_PART + "--b--"
    ensures DelimiterAt(s, "b", i) <==> i == 0 || i == 24
  {
    assert |s| == 29;
    if HyphensAt(s, i) {
      assert i == 0 || i == 24 || i == 27;
    }
    assert s[2..3] == "b" && s[26..27] == "b";
    CaseEqualReflexive("b");
  }

  lemma LfTextIsMultipart(s: string)
    requires s == "--b" + LF_PART + "--b--"
    ensures EolOf(s, "b") == "\n" && IsMultipart(s, "b", [0, 24])
  {
    hide DelimiterAt, EolOf;
    forall i: nat ensures DelimiterAt(s, "b", i) <==> i == 0 || i == 24 {
      DelimitersOfLfText(s, i);
    }
    assert |s| == 29 && s[3] == '\n' && s[27] == '-' && s[28] == '-';
    EolIs(s, "b", 0);
  }

  lemma LfPartIs()
    ensures LF_PART == "\n" + ("Content-Type:" + " " + "a" + "\n") + "\n" + "xy\n" && |LF_PART| == 21
    ensures "Content-Type:" + " " + "a" == "Content-Type: a"
  {
  }

  lemma LfSlices(s: string)
    requires s == "--b" + LF_PART + "--b--"
    ensures EolOf(s, "b") == "\n" && SegmentsOf(s, "b") == [Segment(3, 24)]
  {
    hide IsMultipart, EolOf, SegmentsOf, LF_PART;
    LfTextIsMultipart(s);
    var d: seq<nat> := [0, 24];
    ExactParse(s, "b", d);
    assert PartsFrom(d, Width("b"), 0) == [Segment(3, 24)] by {
      assert PartsFrom(d, Width("b"), 1) == [];
    }
    assert Segmentation.Length(d, Width("b"), 0) == 21;
  }

  lemma LfPartIsGivenBack(s: string)
    requires s == "--b" + LF_PART + "--b--" && |s| == 29
    ensures PartOf(s, "\n", Segment(3, 24))
            == Parsed(Part(Some("Content-Type: a"), Some("xy\n"), map[ContentType := Some("a")]))
  {
    hide IsMultipart, EolOf, ScanFrom, EndsAtHyphens, LF_PART, EMPTY_PART;
    LfTextIsMultipart(s);
    LfPartIs();
    var d: seq<nat> := [0, 24];
    HyphensBehindPart(s, "b", d, 0);
    PartParsesAlone(s[3..], 21, "\n", 0, None, EMPTY_PART);
    assert s[3..][..21] == LF_PART;
    NameSetsItsField("Content-Type:", ContentType, "Content-Type:", "a", "\n", "xy\n");
  }

  /** A text with LFs only: "Content-Type: a" and "xy" come back as they were written. */
  lemma LfTextIsGivenBack(s: string)
    requires s == "--b" + "\nContent-Type: a\n\nxy\n" + "--b--"
    ensures EolOf(s, "b") == "\n" && SegmentsOf(s, "b") == [Segment(3, 24)]
    ensures PartOf(s, "\n", Segment(3, 24))
            == Parsed(Part(Some("Content-Type: a"), Some("xy\n"), map[ContentType := Some("a")]))
  {
    assert |s| == 29 && s == "--b" + LF_PART + "--b--";
    hide *;
    LfSlices(s);
    LfPartIsGivenBack(s);
  }

  // ----- headers without an end of line

  /** A header name for field `f` stands at `i` or behind it. */
  ghost predicate NameBehind(mem: string, i: nat, f: Field) {
    exists m: nat :: i <= m < |mem| && HeaderAt(mem, m).Some? && FIELDS[HeaderAt(mem, m).value].1 == f
  }

  lemma NameHereOrBehind(mem: string, i: nat, f: Field)
    requires i < |mem|
    ensures NameBehind(mem, i, f) <==>
              (HeaderAt(mem, i).Some? && FIELDS[HeaderAt(mem, i).value].1 == f) || NameBehind(mem, i + 1, f)
  {
    hide HeaderAt;
  }

  /** Where no line ends any more, every name still counts, one inside another header's value too, and
      all of them get the value read last. */
  lemma {:induction false} NamesWithoutEnd(mem: string, eol: Eol, i: nat, kept: Option<string>, p: Part)
    requires forall j :: i <= j && j + |eol| <= |mem| ==> !LineEndAt(mem, eol, j)
    ensures var got := ScanFrom(mem, |mem|, eol, i, kept, p);
            && got.Parsed? && got.part.headers == p.headers && got.part.body == p.body
            && forall f :: FieldOf(got.part, f) == if NameBehind(mem, i, f) then kept else FieldOf(p, f)
    decreases |mem| - i
  {
    hide HeaderAt, ScanFrom, NameBehind, SkipSpaces, LineEndAt, BlankAt;
    ScanStep(mem, |mem|, eol, i, kept, p);
    if i >= |mem| {
      forall f ensures !NameBehind(mem, i, f) {
        NoNameBehind(mem, i, f);
      }
    } else {
      NoBlankLeft(mem, eol, i);
      forall f ensures NameBehind(mem, i, f) <==>
          (HeaderAt(mem, i).Some? && FIELDS[HeaderAt(mem, i).value].1 == f) || NameBehind(mem, i + 1, f)
      {
        NameHereOrBehind(mem, i, f);
      }
      if HeaderAt(mem, i).Some? {
        var k := HeaderAt(mem, i).value;
        assert k < |FIELDS|;
        NamesWithoutEnd(mem, eol, i + 1, kept, p.(fields := p.fields[FIELDS[k].1 := kept]));
      } else {
        NamesWithoutEnd(mem, eol, i + 1, kept, p);
      }
    }
  }

  lemma NoNameBehind(mem: string, i: nat, f: Field)
    requires i >= |mem|
    ensures !NameBehind(mem, i, f)
  {
  }

  /** A blank line is two LFs, or two CRLFs when the end of line is CRLF; it is left out whole. */
  lemma BlankIsTwoBreaks(mem: string, eol: Eol, i: nat)
    ensures BlankAt(mem, eol, i) <==>
              || (i + 1 < |mem| && mem[i] == '\n' && mem[i + 1] == '\n')
              || (eol == "\r\n" && i + 3 < |mem| && mem[i] == '\r' && mem[i + 1] == '\n'
                  && mem[i + 2] == '\r' && mem[i + 3] == '\n')
    ensures BlankAt(mem, eol, i) ==> BlankLength(mem, eol, i) == if mem[i] == '\n' then 2 else 4
  {
    if i + 2 <= |mem| {
      assert mem[i..i + 2][0] == mem[i] && mem[i..i + 2][1] == mem[i + 1];
    }
    if eol == "\r\n" {
      assert eol + eol == "\r\n\r\n";
      if i + 4 <= |mem| {
        var four := mem[i..i + 4];
        assert four[0] == mem[i] && four[1] == mem[i + 1] && four[2] == mem[i + 2] && four[3] == mem[i + 3];
        assert MatchAt(mem, i, eol + eol) <==> four == "\r\n\r\n";
      }
    } else {
      assert eol + eol == LF + LF;
    }
    assert LF + LF == "\n\n";
  }

  lemma NoBlankLeft(mem: string, eol: Eol, i: nat)
    requires forall j :: i <= j && j + |eol| <= |mem| ==> !LineEndAt(mem, eol, j)
    ensures !BlankAt(mem, eol, i)
  {
    BlankIsTwoBreaks(mem, eol, i);
    if BlankAt(mem, eol, i) {
      assert i + |eol| <= |mem|;
      assert mem[i] != '\n' ==> mem[i..i + 2] == eol;
      assert LineEndAt(mem, eol, i);
    }
  }
}
