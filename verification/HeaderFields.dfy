/** What a header block is read as: every block of lines that are not empty, recognised fields in any
    letter case and order with other lines between them. */
module HeaderFields {
  import opened Octets
  import opened BodyPartParser
  import opened HeaderSplit

  type FieldIndex = k: nat | k < |FIELDS|

  /** One header line. A field line is what stands in front of the first name of the table in it
      (nothing, in a proper header), that name as spelled, spaces, and the value. */
  datatype HeaderLine =
    | FieldLine(lead: string, k: FieldIndex, name: string, spaces: nat, value: string)
    | OtherLine(text: string)

  predicate HasBreak(s: string) { '\r' in s || '\n' in s }

  ghost predicate NoNameBefore(s: string, n: nat) { forall i :: 0 <= i < n ==> HeaderAt(s, i).None? }

  /** A line taken apart rightly: no line break, and no name in front of the one it is split at. */
  ghost predicate Proper(l: HeaderLine) {
    && LineText(l) != "" && !HasBreak(LineText(l))
    && match l
       case OtherLine(text) => NoNameBefore(text, |text|)
       case FieldLine(lead, k, name, _, value) =>
         && NoNameBefore(LineText(l), |lead|)
         && |name| == NameLength(k) && StrNCaseEqual(name, FIELDS[k].0)
         && (value != "" ==> value[0] != ' ')
  }

  /** A Content-ID of a single '<'. */
  predicate LoneAngle(l: HeaderLine) {
    l.FieldLine? && FIELDS[l.k].1 == ContentId && l.value == "<"
  }

  function Spaces(n: nat): (r: string)
    ensures |r| == n && forall i :: 0 <= i < n ==> r[i] == ' '
  {
    seq(n, _ => ' ')
  }

  function LineText(l: HeaderLine): string {
    match l
    case OtherLine(text) => text
    case FieldLine(lead, _, name, spaces, value) => lead + name + Spaces(spaces) + value
  }

  function Block(lines: seq<HeaderLine>, eol: Eol): string {
    if lines == [] then "" else LineText(lines[0]) + eol + Block(lines[1..], eol)
  }

  /** The value descriptor behind a line: a Content-ID loses its first and last octet, or leaves the
      descriptor alone when it does not start with '<'. */
  function Held(l: HeaderLine, kept: Option<string>): Option<string> {
    if l.OtherLine? then kept
    else if FIELDS[l.k].1 != ContentId then Some(l.value)
    else if |l.value| >= 2 && l.value[0] == '<' then Some(l.value[1..|l.value| - 1])
    else kept
  }

  function FieldsAfter(fields: map<Field, Option<string>>, l: HeaderLine, kept: Option<string>)
    : map<Field, Option<string>>
  {
    if l.OtherLine? then fields else fields[FIELDS[l.k].1 := Held(l, kept)]
  }

  function FieldsOf(fields: map<Field, Option<string>>, kept: Option<string>, lines: seq<HeaderLine>)
    : map<Field, Option<string>>
    decreases |lines|
  {
    if lines == [] then fields
    else FieldsOf(FieldsAfter(fields, lines[0], kept), Held(lines[0], kept), lines[1..])
  }

  // ----- every line is one of these

  lemma {:induction false} FirstName(text: string, i: nat) returns (r: Option<nat>)
    requires i <= |text|
    ensures r.Some? ==> i <= r.value < |text| && HeaderAt(text, r.value).Some?
    ensures forall m :: i <= m < (if r.Some? then r.value else |text|) ==> HeaderAt(text, m).None?
    decreases |text| - i
  {
    hide HeaderAt;
    if i == |text| {
      r := None;
    } else if HeaderAt(text, i).Some? {
      r := Some(i);
    } else {
      r := FirstName(text, i + 1);
    }
  }

  /** Every line without line breaks can be taken apart rightly. */
  lemma EveryLineIsProper(text: string) returns (l: HeaderLine)
    requires text != "" && !HasBreak(text)
    ensures LineText(l) == text && Proper(l)
  {
    hide HeaderAt, StrNCaseEqual, SkipSpaces;
    var first := FirstName(text, 0);
    if first.None? {
      l := OtherLine(text);
    } else {
      var a, k := first.value, HeaderAt(text, first.value).value;
      var b := a + NameLength(k);
      var c := SkipSpaces(text, b);
      l := FieldLine(text[..a], k, text[a..b], c - b, text[c..]);
      assert text[b..c] == Spaces(c - b);
      FourPieces(text, a, b, c);
    }
  }

  lemma FourPieces(text: string, a: nat, b: nat, c: nat)
    requires a <= b <= c <= |text|
    ensures text[..a] + text[a..b] + text[b..c] + text[c..] == text
  {
  }

  /** Two different names of the table part ways before either ends. */
  lemma NamesDiffer(a: nat, b: nat) returns (q: nat)
    requires a < |FIELDS| && b < |FIELDS| && a != b
    ensures q < NameLength(a) && q < NameLength(b)
    ensures Lower(FIELDS[a].0[q]) != Lower(FIELDS[b].0[q])
  {
    q := if (a == 2 && b == 4) || (a == 4 && b == 2) then 9 else 8;
    if
    case a == 0 => case a == 1 => case a == 2 =>
    case a == 3 => case a == 4 => case a == 5 =>
  }

  /** At most one name stands at a position. */
  lemma OneNameStands(mem: string, i: nat, a: nat, b: nat)
    requires a < |FIELDS| && b < |FIELDS| && a != b && CaseMatchAt(mem, i, FIELDS[b].0)
    ensures !CaseMatchAt(mem, i, FIELDS[a].0)
  {
    hide CaseMatchAt;
    var q := NamesDiffer(a, b);
    NamesArePlain(a);
    NamesArePlain(b);
    CaseMatchIndex(mem, i, FIELDS[b].0, q);
    if CaseMatchAt(mem, i, FIELDS[a].0) {
      CaseMatchIndex(mem, i, FIELDS[a].0, q);
    }
  }

  lemma {:induction false} HeaderFromIs(mem: string, i: nat, from: nat, k: nat)
    requires from <= k < |FIELDS| && CaseMatchAt(mem, i, FIELDS[k].0)
    ensures HeaderFrom(mem, i, from) == Some(k)
    decreases k - from
  {
    hide CaseMatchAt;
    if from < k {
      OneNameStands(mem, i, from, k);
      HeaderFromIs(mem, i, from + 1, k);
    }
  }

  lemma {:induction false} SkipsExactly(mem: string, i: nat, j: nat)
    requires i <= j <= |mem| && (j < |mem| ==> mem[j] != ' ')
    requires forall m :: i <= m < j ==> mem[m] == ' '
    ensures SkipSpaces(mem, i) == j
    decreases j - i
  {
    if i < j {
      SkipsExactly(mem, i + 1, j);
    }
  }

  lemma {:induction false} ValueEndsAt(mem: string, n: nat, eol: Eol, from: nat, end: nat)
    requires from <= end && end + |eol| <= n <= |mem| && MatchAt(mem, end, eol)
    requires forall m :: from <= m < end ==> mem[m] != '\r' && mem[m] != '\n'
    ensures ValueEnd(mem, n, eol, from) == Some(end)
    decreases end - from
  {
    if from < end {
      NoLineEndAt(mem, eol, from);
      ValueEndsAt(mem, n, eol, from + 1, end);
    }
  }

  lemma NoLineEndAt(mem: string, eol: Eol, i: nat)
    requires i < |mem| && mem[i] != '\r' && mem[i] != '\n'
    ensures !LineEndAt(mem, eol, i)
  {
  }

  lemma PiecesOf(x: string, y: string, z: string, v: string, u: string)
    ensures var a, b, c := |x|, |x| + |y|, |x| + |y| + |z|;
            var d := c + |v|;
            var t := x + y + z + v + u;
            t[0..a] == x && t[a..b] == y && t[b..c] == z && t[c..d] == v && t[d..|t|] == u
  {
  }

  /** A line stands at `i` with its end of line. */
  ghost predicate Stands(mem: string, eol: Eol, i: nat, l: HeaderLine) {
    i + |LineText(l)| + |eol| <= |mem| && mem[i..i + |LineText(l)| + |eol|] == LineText(l) + eol
  }

  /** The pieces of a field line that stands at `i`. */
  lemma LinePieces(mem: string, eol: Eol, i: nat, l: HeaderLine)
    requires l.FieldLine? && Stands(mem, eol, i, l)
    ensures var a := i + |l.lead|;
            var b := a + |l.name|;
            var c := b + l.spaces;
            var d := c + |l.value|;
            && d == i + |LineText(l)| && d + |eol| <= |mem|
            && mem[a..b] == l.name && mem[b..c] == Spaces(l.spaces) && mem[c..d] == l.value && MatchAt(mem, d, eol)
  {
    hide MatchAt;
    SlicesOf(mem, i, l.lead, l.name, Spaces(l.spaces), l.value, eol);
    var d := i + |LineText(l)|;
    assert MatchAt(mem, d, eol) by { SliceMatches(mem, d, eol); }
  }

  lemma SliceMatches(mem: string, d: nat, u: string)
    requires d + |u| <= |mem| && mem[d..d + |u|] == u
    ensures MatchAt(mem, d, u)
  {
  }

  lemma SlicesOf(mem: string, i: nat, x: string, y: string, z: string, v: string, u: string)
    requires var t := x + y + z + v + u; i + |t| <= |mem| && mem[i..i + |t|] == t
    ensures var a, b, c := i + |x|, i + |x| + |y|, i + |x| + |y| + |z|;
            var d := c + |v|;
            && d + |u| <= |mem|
            && mem[a..b] == y && mem[b..c] == z && mem[c..d] == v && mem[d..d + |u|] == u
  {
    var t := x + y + z + v + u;
    var a, b, c := |x|, |x| + |y|, |x| + |y| + |z|;
    PiecesOf(x, y, z, v, u);
    SliceOfSlice(mem, i, t, a, b);
    SliceOfSlice(mem, i, t, b, c);
    SliceOfSlice(mem, i, t, c, c + |v|);
    SliceOfSlice(mem, i, t, c + |v|, |t|);
  }

  lemma OctetsOfLine(mem: string, eol: Eol, i: nat, l: HeaderLine)
    requires Stands(mem, eol, i, l) && !HasBreak(LineText(l))
    ensures var end := i + |LineText(l)|;
            && MatchAt(mem, end, eol) && (mem[end] == '\r' || mem[end] == '\n')
            && forall m :: i <= m < end ==> mem[m] == LineText(l)[m - i] && mem[m] != '\r' && mem[m] != '\n'
  {
    hide LineText;
    TextAndBreak(mem, i, LineText(l), eol);
    forall m | i <= m < i + |LineText(l)| ensures mem[m] != '\r' && mem[m] != '\n' {
      assert LineText(l)[m - i] in LineText(l);
    }
  }

  lemma TextAndBreak(mem: string, i: nat, t: string, eol: Eol)
    requires i + |t| + |eol| <= |mem| && mem[i..i + |t| + |eol|] == t + eol
    ensures MatchAt(mem, i + |t|, eol) && mem[i + |t|] == eol[0]
    ensures forall m :: i <= m < i + |t| ==> mem[m] == t[m - i]
  {
    var u := mem[i..i + |t| + |eol|];
    assert forall m :: 0 <= m < |t| ==> mem[i + m] == u[m] == t[m];
    SliceOfSlice(mem, i, t + eol, |t|, |t| + |eol|);
    assert (t + eol)[|t|..|t| + |eol|] == eol;
    assert mem[i + |t|] == u[|t|];
  }

  /** A name that stands at an octet of a line stands there within the line. */
  lemma NameWithinLine(mem: string, eol: Eol, i: nat, l: HeaderLine, m: nat)
    requires Stands(mem, eol, i, l) && !HasBreak(LineText(l)) && m < |LineText(l)|
    requires HeaderAt(mem, i + m).Some?
    ensures HeaderAt(LineText(l), m).Some?
  {
    hide StrNCaseEqual, LineText, HeaderAt;
    var t, k := LineText(l), HeaderAt(mem, i + m).value;
    var n := NameLength(k);
    OctetsOfLine(mem, eol, i, l);
    if m + n > |t| {
      NoLineEndInName(mem, eol, i + m, i + |t|);
      assert false;
    }
    SliceOfSlice(mem, i, t + eol, m, m + n);
    assert (t + eol)[m..m + n] == t[m..m + n];
    assert t[m..m + n] == mem[i + m..i + m + n];
    assert CaseMatchAt(t, m, FIELDS[k].0);
    NameStandsSo(t, m, k);
  }

  lemma NameStandsSo(t: string, m: nat, k: nat)
    requires k < |FIELDS| && CaseMatchAt(t, m, FIELDS[k].0)
    ensures HeaderAt(t, m) == Some(k)
  {
    HeaderFromIs(t, m, 0, k);
  }

  // ----- the scan, line by line

  /** Where neither a name nor a line break stands the scan only moves on. */
  lemma {:induction false} ScanOver(mem: string, n: nat, eol: Eol, i: nat, j: nat, value: Option<string>, p: Part)
    requires i <= j <= n <= |mem|
    requires forall m :: i <= m < j ==> HeaderAt(mem, m).None? && mem[m] != '\r' && mem[m] != '\n'
    ensures ScanFrom(mem, n, eol, i, value, p) == ScanFrom(mem, n, eol, j, value, p)
    decreases j - i
  {
    hide ScanFrom, HeaderAt, BlankAt;
    if i < j {
      NoBlankAtPlain(mem, eol, i);
      ScanStep(mem, n, eol, i, value, p);
      ScanOver(mem, n, eol, i + 1, j, value, p);
    }
  }

  /** The scan reaches the name of a field line, and passes another line to its end. */
  lemma ScanLead(mem: string, n: nat, eol: Eol, i: nat, l: HeaderLine, upto: nat, value: Option<string>, p: Part)
    requires Stands(mem, eol, i, l) && !HasBreak(LineText(l)) && i + |LineText(l)| + |eol| <= n <= |mem|
    requires upto <= |LineText(l)| && NoNameBefore(LineText(l), upto)
    ensures ScanFrom(mem, n, eol, i, value, p) == ScanFrom(mem, n, eol, i + upto, value, p)
  {
    hide ScanFrom, HeaderAt, LineText, Stands;
    OctetsOfLine(mem, eol, i, l);
    forall m | i <= m < i + upto ensures HeaderAt(mem, m).None? {
      if HeaderAt(mem, m).Some? {
        NameWithinLine(mem, eol, i, l, m - i);
      }
    }
    ScanOver(mem, n, eol, i, i + upto, value, p);
  }

  /** What the scan finds at the name of a field line. */
  lemma NameIsFound(mem: string, n: nat, eol: Eol, i: nat, l: HeaderLine)
    requires Proper(l) && l.FieldLine? && Stands(mem, eol, i, l) && i + |LineText(l)| + |eol| <= n <= |mem|
    ensures var at := i + |l.lead|;
            var start := at + |l.name| + l.spaces;
            && HeaderAt(mem, at) == Some(l.k) && SkipSpaces(mem, at + NameLength(l.k)) == start
            && ValueEnd(mem, n, eol, start) == Some(i + |LineText(l)|)
            && start + |l.value| == i + |LineText(l)| && mem[start..start + |l.value|] == l.value
            && (l.value == "" ==> mem[start] != '<')
  {
    hide StrNCaseEqual, HeaderFrom, HeaderAt, SkipSpaces, ValueEnd, LineEndAt, Stands, LineText;
    LinePieces(mem, eol, i, l);
    OctetsOfLine(mem, eol, i, l);
    var a := i + |l.lead|;
    NameStandsSo(mem, a, l.k);
    var b := a + |l.name|;
    var c := b + l.spaces;
    forall m | b <= m < c ensures mem[m] == ' ' {
      assert mem[m] == mem[b..c][m - b];
    }
    assert l.value != "" ==> mem[c] == mem[c..c + |l.value|][0];
    SkipsExactly(mem, b, c);
    ValueEndsAt(mem, n, eol, c, c + |l.value|);
  }

  lemma ValueIsHeld(mem: string, n: nat, eol: Eol, start: nat, l: HeaderLine, kept: Option<string>)
    requires l.FieldLine? && start + |l.value| <= n <= |mem| && mem[start..start + |l.value|] == l.value
    requires ValueEnd(mem, n, eol, start) == Some(start + |l.value|) && (l.value == "" ==> mem[start] != '<')
    ensures ValueOf(mem, n, eol, l.k, start, kept) == if LoneAngle(l) then None else Some(Held(l, kept))
  {
    hide ValueEnd, LineEndAt;
    if |l.value| > 0 {
      assert mem[start] == mem[start..start + |l.value|][0];
      if |l.value| >= 2 {
        SliceOfSlice(mem, start, l.value, 1, |l.value| - 1);
      }
    }
  }

  /** One line: the scan takes its field, if it has one, and comes to its end of line, or panics at a
      lone '<'. */
  lemma ScanLine(mem: string, n: nat, eol: Eol, i: nat, l: HeaderLine, value: Option<string>, p: Part)
    requires Proper(l) && Stands(mem, eol, i, l) && i + |LineText(l)| + |eol| <= n <= |mem|
    ensures ScanFrom(mem, n, eol, i, value, p) ==
            if LoneAngle(l) then Panicked
            else ScanFrom(mem, n, eol, i + |LineText(l)|, Held(l, value), p.(fields := FieldsAfter(p.fields, l, value)))
  {
    hide *;
    LeadOf(l);
    if l.OtherLine? {
      ScanLead(mem, n, eol, i, l, |LineText(l)|, value, p);
      OtherHoldsNothing(l, value, p.fields);
    } else {
      ScanLead(mem, n, eol, i, l, |l.lead|, value, p);
      ScanField(mem, n, eol, i, l, value, p);
    }
  }

  lemma LeadOf(l: HeaderLine)
    requires Proper(l)
    ensures var lead := if l.OtherLine? then |LineText(l)| else |l.lead|;
            lead <= |LineText(l)| && NoNameBefore(LineText(l), lead)
    ensures !HasBreak(LineText(l))
  {
    hide NoNameBefore, StrNCaseEqual;
  }

  lemma OtherHoldsNothing(l: HeaderLine, value: Option<string>, fields: map<Field, Option<string>>)
    requires l.OtherLine?
    ensures !LoneAngle(l) && Held(l, value) == value && FieldsAfter(fields, l, value) == fields
  {
  }

  /** The scan at the name of a field line. */
  lemma ScanField(mem: string, n: nat, eol: Eol, i: nat, l: HeaderLine, value: Option<string>, p: Part)
    requires Proper(l) && l.FieldLine? && Stands(mem, eol, i, l) && i + |LineText(l)| + |eol| <= n <= |mem|
    ensures ScanFrom(mem, n, eol, i + |l.lead|, value, p) ==
            if LoneAngle(l) then Panicked
            else ScanFrom(mem, n, eol, i + |LineText(l)|, Held(l, value), p.(fields := FieldsAfter(p.fields, l, value)))
  {
    hide *;
    NameIsFound(mem, n, eol, i, l);
    var at := i + |l.lead|;
    var start := at + |l.name| + l.spaces;
    ValueIsHeld(mem, n, eol, start, l, value);
    FieldStep(mem, n, eol, at, l.k, start, i + |LineText(l)|, value, p);
    AfterField(p.fields, l, value);
  }

  lemma AfterField(fields: map<Field, Option<string>>, l: HeaderLine, kept: Option<string>)
    requires l.FieldLine?
    ensures FieldsAfter(fields, l, kept) == fields[FIELDS[l.k].1 := Held(l, kept)]
  {
  }

  lemma FieldStep(mem: string, n: nat, eol: Eol, at: nat, k: FieldIndex, start: nat, end: nat,
                  value: Option<string>, p: Part)
    requires at < n <= |mem| && HeaderAt(mem, at) == Some(k) && SkipSpaces(mem, at + NameLength(k)) == start
    requires ValueEnd(mem, n, eol, start) == Some(end)
    ensures var v := ValueOf(mem, n, eol, k, start, value);
            ScanFrom(mem, n, eol, at, value, p) ==
            if v.None? then Panicked
            else ScanFrom(mem, n, eol, end, v.value, p.(fields := p.fields[FIELDS[k].1 := v.value]))
  {
    hide ScanFrom, HeaderAt, SkipSpaces, ValueEnd, ValueOf, NameLength;
    ScanStep(mem, n, eol, at, value, p);
  }

  /** The scan at the end of a line in front of another header: nothing happens. */
  lemma ScanLineEnd(mem: string, n: nat, eol: Eol, j: nat, value: Option<string>, p: Part)
    requires j + |eol| < n <= |mem| && MatchAt(mem, j, eol)
    requires mem[j + |eol|] != '\r' && mem[j + |eol|] != '\n'
    ensures ScanFrom(mem, n, eol, j, value, p) == ScanFrom(mem, n, eol, j + |eol|, value, p)
  {
    hide ScanFrom, BlankAt;
    assert mem[j] == eol[0] && (|eol| == 2 ==> mem[j + 1] == eol[1]);
    SingleBreak(mem, eol, j);
    NoNameAtOther(mem, j);
    ScanStep(mem, n, eol, j, value, p);
    if |eol| == 2 {
      NoNameAtOther(mem, j + 1);
      ScanStep(mem, n, eol, j + 1, value, p);
    }
  }

  lemma SingleBreak(mem: string, eol: Eol, j: nat)
    requires j + |eol| < |mem| && MatchAt(mem, j, eol)
    requires mem[j + |eol|] != '\r' && mem[j + |eol|] != '\n'
    ensures !BlankAt(mem, eol, j) && (|eol| == 2 ==> !BlankAt(mem, eol, j + 1))
  {
    assert mem[j] == eol[0] && (|eol| == 2 ==> mem[j + 1] == eol[1]);
  }

  /** No name starts with anything but a C. */
  lemma NoNameAtOther(mem: string, j: nat)
    requires j < |mem| && Lower(mem[j]) != 'c'
    ensures HeaderAt(mem, j).None?
  {
    hide HeaderAt, CaseMatchAt;
    if HeaderAt(mem, j).Some? {
      var k := HeaderAt(mem, j).value;
      NamesArePlain(k);
      CaseMatchIndex(mem, j, FIELDS[k].0, 0);
    }
  }

  ghost predicate AllProper(lines: seq<HeaderLine>) {
    forall m :: 0 <= m < |lines| ==> Proper(lines[m])
  }

  predicate AnyLoneAngle(lines: seq<HeaderLine>) {
    exists m :: 0 <= m < |lines| && LoneAngle(lines[m])
  }

  lemma AnyLoneAngleStep(lines: seq<HeaderLine>)
    requires lines != []
    ensures AnyLoneAngle(lines) <==> LoneAngle(lines[0]) || AnyLoneAngle(lines[1..])
    ensures AllProper(lines) ==> Proper(lines[0]) && AllProper(lines[1..])
  {
    hide Proper, LoneAngle;
    if AnyLoneAngle(lines) {
      var m :| 0 <= m < |lines| && LoneAngle(lines[m]);
      assert m > 0 ==> lines[m] == lines[1..][m - 1];
    }
    if AnyLoneAngle(lines[1..]) {
      var m :| 0 <= m < |lines| - 1 && LoneAngle(lines[1..][m]);
      assert lines[1..][m] == lines[m + 1];
    }
  }

  /** What the scan makes of a block behind which an empty line and a body stand. */
  function BlockOutcome(mem: string, eol: Eol, lines: seq<HeaderLine>, body: string, value: Option<string>, p: Part)
    : Outcome
    requires |eol| + |body| + 2 * |eol| <= |mem|
  {
    if AnyLoneAngle(lines) then Panicked
    else Parsed(p.(headers := Some(mem[|eol|..|mem| - |body| - 2 * |eol|]), body := Some(body),
                   fields := FieldsOf(p.fields, value, lines)))
  }

  /** The scan from the first line of a block that an empty line and a body follow. */
  lemma {:induction false} ScanBlock(mem: string, eol: Eol, i: nat, lines: seq<HeaderLine>, body: string,
                                     value: Option<string>, p: Part)
    requires |eol| <= i <= |mem| && lines != [] && AllProper(lines)
    requires mem[i..] == Block(lines, eol) + eol + body
    ensures 3 * |eol| + |body| <= |mem|
    ensures ScanFrom(mem, |mem|, eol, i, value, p) == BlockOutcome(mem, eol, lines, body, value, p)
    decreases |lines|
  {
    hide ScanFrom, Proper, LineText, Held, LoneAngle, AnyLoneAngle, Stands, AllProper, FieldsAfter, Block, MatchAt;
    var l, rest, n := lines[0], lines[1..], |mem|;
    var j := i + |LineText(l)|;
    AnyLoneAngleStep(lines);
    BlockFirst(mem, eol, i, lines, body);
    ScanLine(mem, n, eol, i, l, value, p);
    var v, q := Held(l, value), p.(fields := FieldsAfter(p.fields, l, value));
    FieldsStep(p.fields, value, lines);
    hide FieldsOf;
    if rest == [] {
      assert !AnyLoneAngle(rest) by { NoneOfNone(rest); }
      ScanBlankLine(mem, n, eol, j, body, v, q);
    } else {
      AnyLoneAngleStep(rest);
      FirstOfLine(rest[0]);
      ScanLineEnd(mem, n, eol, j, v, q);
      ScanBlock(mem, eol, j + |eol|, rest, body, v, q);
    }
  }

  lemma FieldsStep(fields: map<Field, Option<string>>, kept: Option<string>, lines: seq<HeaderLine>)
    requires lines != []
    ensures var f := FieldsAfter(fields, lines[0], kept);
            && FieldsOf(fields, kept, lines) == FieldsOf(f, Held(lines[0], kept), lines[1..])
            && (lines[1..] == [] ==> FieldsOf(fields, kept, lines) == f)
  {
  }

  lemma NoneOfNone(lines: seq<HeaderLine>)
    requires lines == []
    ensures !AnyLoneAngle(lines)
  {
  }

  /** The text of a block taken apart behind its first line. */
  lemma BlockFirst(mem: string, eol: Eol, i: nat, lines: seq<HeaderLine>, body: string)
    requires i <= |mem| && lines != [] && mem[i..] == Block(lines, eol) + eol + body
    ensures var t := LineText(lines[0]);
            var j := i + |t|;
            && Stands(mem, eol, i, lines[0]) && j + |eol| <= |mem| && MatchAt(mem, j, eol)
            && mem[j + |eol|..] == Block(lines[1..], eol) + eol + body
            && i + |t| + 2 * |eol| + |body| <= |mem|
            && (lines[1..] == [] ==> mem[j + |eol|..] == eol + body)
            && (lines[1..] != [] && |LineText(lines[1])| > 0 ==>
                  j + |eol| < |mem| && mem[j + |eol|] == LineText(lines[1])[0])
  {
    hide LineText, Block;
    var t, rest := LineText(lines[0]) + eol, Block(lines[1..], eol) + eol + body;
    BlockUnfolds(lines, eol, body);
    SuffixSplits(mem, i, t, rest);
    SliceOfSlice(mem, i, t, |LineText(lines[0])|, |t|);
    assert t[|LineText(lines[0])|..|t|] == eol;
    if lines[1..] != [] {
      BlockUnfolds(lines[1..], eol, body);
      assert |LineText(lines[1])| > 0 ==> mem[i + |t|..][0] == LineText(lines[1])[0];
    }
  }

  lemma BlockUnfolds(lines: seq<HeaderLine>, eol: Eol, body: string)
    requires lines != []
    ensures Block(lines, eol) + eol + body == (LineText(lines[0]) + eol) + (Block(lines[1..], eol) + eol + body)
    ensures lines[1..] == [] ==> Block(lines[1..], eol) + eol + body == eol + body
  {
    hide LineText;
  }

  lemma SuffixSplits(mem: string, i: nat, t: string, rest: string)
    requires i <= |mem| && mem[i..] == t + rest
    ensures i + |t| <= |mem| && mem[i..i + |t|] == t && mem[i + |t|..] == rest
  {
    assert mem[i..i + |t|] == mem[i..][..|t|];
    assert mem[i + |t|..] == mem[i..][|t|..];
  }

  lemma FirstOfLine(l: HeaderLine)
    requires Proper(l)
    ensures |LineText(l)| > 0 && LineText(l)[0] != '\r' && LineText(l)[0] != '\n'
  {
    hide NoNameBefore, StrNCaseEqual;
    assert LineText(l)[0] in LineText(l);
  }

  /** The scan at the end of the last line: the empty line splits the part. */
  lemma ScanBlankLine(mem: string, n: nat, eol: Eol, j: nat, body: string, value: Option<string>, p: Part)
    requires n == |mem| && |eol| <= j && j + |eol| <= n && MatchAt(mem, j, eol) && mem[j + |eol|..] == eol + body
    ensures ScanFrom(mem, n, eol, j, value, p) ==
            Parsed(p.(headers := Some(mem[|eol|..j]), body := Some(body)))
  {
    hide ScanFrom, HeaderAt;
    assert mem[j] == eol[0];
    NoNameAtOther(mem, j);
    ScanStep(mem, n, eol, j, value, p);
    TwoBreaks(mem, eol, j, body);
  }

  lemma TwoBreaks(mem: string, eol: Eol, j: nat, body: string)
    requires j + |eol| <= |mem| && MatchAt(mem, j, eol) && mem[j + |eol|..] == eol + body
    ensures MatchAt(mem, j, eol + eol) && mem[j + 2 * |eol|..|mem|] == body
  {
    SuffixSplits(mem, j + |eol|, eol, body);
    assert mem[j..j + 2 * |eol|] == mem[j..j + |eol|] + mem[j + |eol|..j + |eol| + |eol|];
  }

  /** Header recovery: a part made of any header lines, an empty line and a body panics exactly when
      one of them is a lone '<'. Otherwise it parses to that header block, that body, and exactly the
      fields of its field lines: the last of a kind counts, and a Content-ID that does not start with
      '<' gets the value of the field line before it. */
  lemma HeadersAreRecovered(lines: seq<HeaderLine>, eol: Eol, body: string)
    requires lines != [] && AllProper(lines)
    ensures var mem := eol + Block(lines, eol) + eol + body;
            var got := ScanFrom(mem, |mem|, eol, 0, None, EMPTY_PART);
            && (got.Panicked? <==> AnyLoneAngle(lines))
            && (got.Parsed? ==>
                  && got.part.body == Some(body)
                  && got.part.fields == FieldsOf(map[], None, lines)
                  && got.part.headers.Some? && got.part.headers.value + eol == Block(lines, eol))
  {
    hide ScanFrom, Proper, LineText, AllProper, AnyLoneAngle, Block;
    var mem, block := eol + Block(lines, eol) + eol + body, Block(lines, eol);
    assert mem[|eol|..] == block + eol + body;
    assert MatchAt(mem, 0, eol) by { assert mem[0..|eol|] == eol; }
    AnyLoneAngleStep(lines);
    BlockEndsLine(lines, eol);
    FirstOfLine(lines[0]);
    BlockStarts(lines, eol);
    assert mem[|eol|] == block[0];
    ScanLineEnd(mem, |mem|, eol, 0, None, EMPTY_PART);
    ScanBlock(mem, eol, |eol|, lines, body, None, EMPTY_PART);
    BlockInside(eol, block, body);
  }

  // ----- values that are not the header's own

  /** What a header sets is its own value, whatever value came before it, if and only if its value
      ends inside the part and, for a Content-ID, starts with '<'. */
  lemma ValueIsOwn(mem: string, n: nat, eol: Eol, k: nat, start: nat)
    requires n <= |mem| && k < |FIELDS|
    ensures (forall a, b :: ValueOf(mem, n, eol, k, start, a) == ValueOf(mem, n, eol, k, start, b))
            <==> ValueEnd(mem, n, eol, start).Some? && (FIELDS[k].1 != ContentId || mem[start] == '<')
  {
    var a, b: Option<string> := None, Some("");
    assert ValueEnd(mem, n, eol, start).None? ==>
        ValueOf(mem, n, eol, k, start, a) != ValueOf(mem, n, eol, k, start, b);
    if ValueEnd(mem, n, eol, start).Some? && FIELDS[k].1 == ContentId && mem[start] != '<' {
      assert ValueOf(mem, n, eol, k, start, a) != ValueOf(mem, n, eol, k, start, b);
    }
  }

  const TYPE_THEN_ID: seq<HeaderLine> :=
    [FieldLine("", 4, "Content-Type:", 1, "a"), FieldLine("", 5, "Content-ID:", 1, "b")]

  /** "Content-Type: a" and "Content-ID: b": the Content-ID comes out as "a". */
  lemma IdTakesTypesValue(eol: Eol)
    ensures var mem := eol + Block(TYPE_THEN_ID, eol) + eol;
            var got := ScanFrom(mem, |mem|, eol, 0, None, EMPTY_PART);
            && LineText(TYPE_THEN_ID[1]) == "Content-ID: b"
            && got.Parsed? && got.part.fields == map[ContentType := Some("a"), ContentId := Some("a")]
  {
    hide *;
    TypeThenId();
    HeadersAreRecovered(TYPE_THEN_ID, eol, "");
    var mem := eol + Block(TYPE_THEN_ID, eol) + eol;
    assert mem + "" == mem;
  }

  lemma TypeThenId()
    ensures TYPE_THEN_ID != [] && AllProper(TYPE_THEN_ID) && !AnyLoneAngle(TYPE_THEN_ID)
    ensures FieldsOf(map[], None, TYPE_THEN_ID) == map[ContentType := Some("a"), ContentId := Some("a")]
    ensures |TYPE_THEN_ID| == 2 && LineText(TYPE_THEN_ID[1]) == "Content-ID: b"
  {
    hide Proper, LineText;
    var lines := TYPE_THEN_ID;
    ProperField(lines[0]);
    ProperField(lines[1]);
    TextOfId(lines[1]);
    FieldsStep(map[], None, lines);
    var f := FieldsAfter(map[], lines[0], None);
    FieldsStep(f, Some("a"), lines[1..]);
    assert lines[1..] == [lines[1]] && lines[1..][1..] == [];
  }

  lemma TextOfId(l: HeaderLine)
    requires l == FieldLine("", 5, "Content-ID:", 1, "b")
    ensures LineText(l) == "Content-ID: b"
  {
    assert Spaces(1) == " ";
  }

  /** A field line in the spelling of the table, behind octets with which no name starts. */
  lemma ProperField(l: HeaderLine)
    requires l.FieldLine? && l.name == FIELDS[l.k].0 && !HasBreak(l.lead)
    requires forall i :: 0 <= i < |l.lead| ==> Lower(l.lead[i]) != 'c'
    requires l.value != "" && l.value[0] != ' ' && !HasBreak(l.value)
    ensures Proper(l)
  {
    CaseEqualReflexive(l.name);
    NamesArePlain(l.k);
    hide StrNCaseEqual, HeaderAt;
    var a := |l.lead|;
    forall i | 0 <= i < a ensures HeaderAt(LineText(l), i).None? {
      assert LineText(l)[i] == l.lead[i];
      NoNameAtOther(LineText(l), i);
    }
    NoBreakInSum(l.lead, l.name);
    NoBreakInSum(l.lead + l.name, Spaces(l.spaces));
    NoBreakInSum(l.lead + l.name + Spaces(l.spaces), l.value);
  }

  lemma NoBreakInSum(a: string, b: string)
    ensures HasBreak(a + b) <==> HasBreak(a) || HasBreak(b)
  {
  }

  const X_CONTENT_TYPE: seq<HeaderLine> := [FieldLine("X-", 4, "Content-Type:", 1, "a")]

  /** A name counts wherever it stands: "X-Content-Type: a" sets the content type. */
  lemma NameInsideALine(eol: Eol)
    ensures var mem := eol + Block(X_CONTENT_TYPE, eol) + eol;
            var got := ScanFrom(mem, |mem|, eol, 0, None, EMPTY_PART);
            && LineText(X_CONTENT_TYPE[0]) == "X-Content-Type: a"
            && got.Parsed? && got.part.fields == map[ContentType := Some("a")]
  {
    hide *;
    OnlyTheXLine();
    HeadersAreRecovered(X_CONTENT_TYPE, eol, "");
    var mem := eol + Block(X_CONTENT_TYPE, eol) + eol;
    assert mem + "" == mem;
  }

  lemma OnlyTheXLine()
    ensures |X_CONTENT_TYPE| == 1 && AllProper(X_CONTENT_TYPE) && !AnyLoneAngle(X_CONTENT_TYPE)
    ensures FieldsOf(map[], None, X_CONTENT_TYPE) == map[ContentType := Some("a")]
    ensures LineText(X_CONTENT_TYPE[0]) == "X-Content-Type: a"
  {
    hide Proper, LineText;
    var lines := X_CONTENT_TYPE;
    ProperField(lines[0]);
    TextOfX(lines[0]);
    FieldsStep(map[], None, lines);
    assert lines[1..] == [];
  }

  lemma TextOfX(l: HeaderLine)
    requires l == FieldLine("X-", 4, "Content-Type:", 1, "a")
    ensures LineText(l) == "X-Content-Type: a"
  {
    assert Spaces(1) == " ";
  }

  lemma BlockStarts(lines: seq<HeaderLine>, eol: Eol)
    requires lines != [] && |LineText(lines[0])| > 0
    ensures |Block(lines, eol)| > |eol| && Block(lines, eol)[0] == LineText(lines[0])[0]
  {
    hide LineText;
  }

  /** The block without its last end of line, cut out of the part. */
  lemma BlockInside(eol: Eol, block: string, body: string)
    requires |eol| <= |block|
    ensures var mem := eol + block + eol + body;
            mem[|eol|..|mem| - |body| - 2 * |eol|] == block[..|block| - |eol|]
  {
  }

  lemma {:induction false} BlockEndsLine(lines: seq<HeaderLine>, eol: Eol)
    requires lines != []
    ensures |eol| <= |Block(lines, eol)| && Block(lines, eol)[|Block(lines, eol)| - |eol|..] == eol
    decreases |lines|
  {
    hide LineText;
    if |lines| > 1 {
      BlockEndsLine(lines[1..], eol);
    }
  }
}
