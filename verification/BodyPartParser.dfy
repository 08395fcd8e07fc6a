/** Splitting one body part into header fields, header block and body. The part is the first `n`
    octets of `mem`; comparisons may look past the part, up to the end of the whole buffer. */
module BodyPartParser {
  import opened Octets

  datatype Field = ContentBase | ContentLocation | ContentTransferEncoding | ContentType | ContentId

  const FIELDS: seq<(string, Field)> := [
    ("Content-Base:", ContentBase), ("Content-Location:", ContentLocation),
    ("Content-Transfer-Encoding:", ContentTransferEncoding), ("Content-Encoding:", ContentTransferEncoding),
    ("Content-Type:", ContentType), ("Content-ID:", ContentId)]

  /** A body part as its descriptors; None is the null descriptor. */
  datatype Part = Part(headers: Option<string>, body: Option<string>, fields: map<Field, Option<string>>)

  const EMPTY_PART := Part(None, None, map[])

  /** A negative descriptor length stops the program. */
  datatype Outcome = Parsed(part: Part) | Panicked

  class BodyPart {
    var headers: Option<string>
    var body: Option<string>
    var fields: map<Field, Option<string>>
    var url: Option<string>

    function View(): Part reads this { Part(headers, body, fields) }

    constructor ()
      ensures View() == EMPTY_PART && url == None
    {
      headers, body, fields, url := None, None, map[], None;
    }
  }

  /** The first header name of the table, from entry `k` on, that stands at `i`. */
  function HeaderFrom(mem: string, i: nat, k: nat): (r: Option<nat>)
    ensures r.Some? ==> k <= r.value < |FIELDS| && CaseMatchAt(mem, i, FIELDS[r.value].0)
    ensures r.None? ==> forall m :: k <= m < |FIELDS| ==> !CaseMatchAt(mem, i, FIELDS[m].0)
    decreases |FIELDS| - k
  {
    if k >= |FIELDS| then None
    else if CaseMatchAt(mem, i, FIELDS[k].0) then Some(k)
    else HeaderFrom(mem, i, k + 1)
  }

  function HeaderAt(mem: string, i: nat): (r: Option<nat>)
    ensures r.Some? ==> r.value < |FIELDS| && CaseMatchAt(mem, i, FIELDS[r.value].0)
  {
    HeaderFrom(mem, i, 0)
  }

  function NameLength(k: nat): nat requires k < |FIELDS| { |FIELDS[k].0| }

  /** Every header name starts with a C and has neither line breaks nor NULs. */
  lemma NamesArePlain(k: nat)
    requires k < |FIELDS|
    ensures NameLength(k) > 0 && Lower(FIELDS[k].0[0]) == 'c' && '\0' !in FIELDS[k].0
    ensures forall m :: 0 <= m < NameLength(k) ==> '-' <= FIELDS[k].0[m] <= 'y'
  {
    if
    case k == 0 => case k == 1 => case k == 2 =>
    case k == 3 => case k == 4 => case k == 5 =>
  }

  function SkipSpaces(mem: string, i: nat): (j: nat)
    ensures i <= j && (j < |mem| ==> mem[j] != ' ') && (i <= |mem| ==> j <= |mem|)
    ensures forall k :: i <= k < j && k < |mem| ==> mem[k] == ' '
    decreases |mem| - i
  {
    if i < |mem| && mem[i] == ' ' then SkipSpaces(mem, i + 1) else i
  }

  /** Where the header value that starts at `j` ends, if an end of line follows inside the part. */
  function ValueEnd(mem: string, n: nat, eol: Eol, j: nat): (r: Option<nat>)
    requires n <= |mem|
    ensures r.Some? ==> j <= r.value && r.value + |eol| <= n && LineEndAt(mem, eol, r.value)
    ensures forall k :: j <= k < (if r.Some? then r.value else n + 1 - |eol|) ==> !LineEndAt(mem, eol, k)
    decreases n - j
  {
    if j + |eol| > n then None
    else if LineEndAt(mem, eol, j) then Some(j)
    else ValueEnd(mem, n, eol, j + 1)
  }

  /** The value descriptor after a header: kept from the previous header when the value does not
      end, or when a Content-ID does not start with '<'. */
  function ValueOf(mem: string, n: nat, eol: Eol, k: nat, start: nat, kept: Option<string>): Option<Option<string>>
    requires n <= |mem| && k < |FIELDS|
  {
    match ValueEnd(mem, n, eol, start)
    case None => Some(kept)
    case Some(j) =>
      if FIELDS[k].1 != ContentId then Some(Some(mem[start..j]))
      else if mem[start] != '<' then Some(kept)
      else if j - start < 2 then None
      else Some(Some(mem[start + 1..j - 1]))
  }

  predicate BlankAt(mem: string, eol: Eol, i: nat) {
    MatchAt(mem, i, eol + eol) || MatchAt(mem, i, LF + LF)
  }

  function BlankLength(mem: string, eol: Eol, i: nat): nat {
    if MatchAt(mem, i, eol + eol) then 2 * |eol| else 2
  }

  /** What the blank line at `i` makes of the part: the body behind it, and in front of it the
      headers without the end of line the part is taken to start with. */
  function SplitAt(mem: string, n: nat, eol: Eol, i: nat, p: Part): Outcome
    requires n <= |mem| && i < n
  {
    var after := i + BlankLength(mem, eol, i);
    if after > n || 0 < i < |eol| then Panicked
    else
      var q := p.(body := Some(mem[after..n]));
      Parsed(if i == 0 then q else q.(headers := Some(mem[|eol|..i])))
  }

  /** The scan of ParseBodyPartL from position `i`: a recognised header sets its field and the scan
      jumps to the end of its value; the first blank line it meets ends it. */
  function ScanFrom(mem: string, n: nat, eol: Eol, i: nat, value: Option<string>, p: Part): Outcome
    requires n <= |mem|
    decreases n - i
  {
    if i >= n then Parsed(p)
    else match HeaderAt(mem, i)
      case None => if BlankAt(mem, eol, i) then SplitAt(mem, n, eol, i, p) else ScanFrom(mem, n, eol, i + 1, value, p)
      case Some(k) =>
        var start := SkipSpaces(mem, i + NameLength(k));
        match ValueOf(mem, n, eol, k, start, value)
        case None => Panicked
        case Some(v) =>
          var end := ValueEnd(mem, n, eol, start);
          ScanFrom(mem, n, eol, if end.Some? then end.value else i + 1, v, p.(fields := p.fields[FIELDS[k].1 := v]))
  }

  lemma HeaderIsNoBlank(mem: string, eol: Eol, i: nat)
    requires HeaderAt(mem, i).Some?
    ensures !BlankAt(mem, eol, i) && i < |mem|
  {
    var k := HeaderAt(mem, i).value;
    assert Lower(mem[i]) == 'c';
  }

  lemma ScanStep(mem: string, n: nat, eol: Eol, i: nat, value: Option<string>, p: Part)
    requires n <= |mem|
    ensures i >= n ==> ScanFrom(mem, n, eol, i, value, p) == Parsed(p)
    ensures i < n && HeaderAt(mem, i).None? ==>
              ScanFrom(mem, n, eol, i, value, p) ==
              if BlankAt(mem, eol, i) then SplitAt(mem, n, eol, i, p) else ScanFrom(mem, n, eol, i + 1, value, p)
    ensures i < n && HeaderAt(mem, i).Some? ==>
              var k := HeaderAt(mem, i).value;
              var start := SkipSpaces(mem, i + NameLength(k));
              var v := ValueOf(mem, n, eol, k, start, value);
              var end := ValueEnd(mem, n, eol, start);
              ScanFrom(mem, n, eol, i, value, p) ==
              if v.None? then Panicked
              else ScanFrom(mem, n, eol, if end.Some? then end.value else i + 1, v.value,
                            p.(fields := p.fields[FIELDS[k].1 := v.value]))
  {
  }

  /** Past the spaces behind a header name. */
  method SkipSpacesAt(mem: string, i: nat) returns (startPos: nat)
    ensures startPos == SkipSpaces(mem, i)
  {
    startPos := i;
    while startPos < |mem| && mem[startPos] == ' '
      invariant SkipSpaces(mem, i) == SkipSpaces(mem, startPos)
    {
      startPos := startPos + 1;
    }
  }

  /** The value descriptor once the end of the value is found at `j`. */
  method TakeValue(mem: string, k: nat, startPos: nat, j: nat, kept: Option<string>)
    returns (panicked: bool, value: Option<string>)
    requires k < |FIELDS| && startPos <= j < |mem| && (mem[j] == '\r' || mem[j] == '\n')
    ensures (if panicked then None else Some(value)) ==
            if FIELDS[k].1 != ContentId then Some(Some(mem[startPos..j]))
            else if mem[startPos] != '<' then Some(kept)
            else if j - startPos < 2 then None
            else Some(Some(mem[startPos + 1..j - 1]))
  {
    panicked, value := false, kept;
    if FIELDS[k].1 == ContentId {
      if mem[startPos] == '<' {
        var length := j - startPos - 2;
        if length < 0 {
          panicked := true;
          return;
        }
        value := Some(mem[startPos + 1..startPos + 1 + length]);
      }
    } else {
      value := Some(mem[startPos..j]);
    }
  }

  /** The value of header `k` found at `i`: the inner scan, which also moves `i` to just before the
      end of line so that the outer scan meets it next. */
  method ReadValue(mem: string, n: nat, eol: Eol, k: nat, i: nat, kept: Option<string>)
    returns (panicked: bool, value: Option<string>, rewound: nat)
    requires i < n <= |mem| && k < |FIELDS|
    ensures var start := SkipSpaces(mem, i + NameLength(k));
            var end := ValueEnd(mem, n, eol, start);
            && ValueOf(mem, n, eol, k, start, kept) == (if panicked then None else Some(value))
            && (!panicked ==> rewound + 1 == if end.Some? then end.value else i + 1)
  {
    hide LineEndAt, SkipSpaces;
    panicked, value, rewound := false, kept, i;
    var startPos := SkipSpacesAt(mem, i + NameLength(k));
    NamesArePlain(k);
    var j := startPos;
    while j + |eol| <= n
      invariant j >= startPos && value == kept && rewound == i && !panicked
      invariant ValueEnd(mem, n, eol, startPos) == ValueEnd(mem, n, eol, j)
      decreases n - j
    {
      if LineEndAt(mem, eol, j) {
        LineEndIsOctet(mem, eol, j);
        panicked, value := TakeValue(mem, k, startPos, j, kept);
        rewound := j - 1;
        return;
      }
      j := j + 1;
    }
  }

  /** Fill in a new body part from its octets. Decoding of the body and the URL come after this. */
  method ParseBodyPart(mem: string, n: nat, eol: Eol, part: BodyPart) returns (panicked: bool)
    requires n <= |mem| && part.View() == EMPTY_PART
    modifies part
    ensures ScanFrom(mem, n, eol, 0, None, EMPTY_PART) ==
            if panicked then Panicked else Parsed(part.View())
  {
    hide ScanFrom, HeaderAt, MatchAt, CaseMatchAt, BlankAt, BlankLength, LineEndAt, ValueOf, ValueEnd, SkipSpaces;
    panicked := false;
    var value: Option<string> := None;
    var i := 0;
    while i < n
      invariant !panicked
      invariant ScanFrom(mem, n, eol, 0, None, EMPTY_PART) == ScanFrom(mem, n, eol, i, value, part.View())
      decreases n - i
    {
      var at := i;
      var found := HeaderAt(mem, i);
      ScanStep(mem, n, eol, i, value, part.View());
      if found.Some? {
        HeaderIsNoBlank(mem, eol, i);
        panicked, value, i := ReadValue(mem, n, eol, found.value, i, value);
        if panicked {
          return;
        }
        part.fields := part.fields[FIELDS[found.value].1 := value];
      }
      if BlankAt(mem, eol, at) {
        var length := BlankLength(mem, eol, at);
        var lengthBody := n - (i + length);
        if lengthBody < 0 {
          return true;
        }
        part.body := Some(mem[at + length..at + length + lengthBody]);
        if i != 0 {
          var lengthHeaders := n - lengthBody - |eol| - length;
          if lengthHeaders < 0 {
            return true;
          }
          part.headers := Some(mem[|eol|..|eol| + lengthHeaders]);
        }
        return;
      }
      i := i + 1;
    }
    ScanStep(mem, n, eol, i, value, part.View());
  }
}
