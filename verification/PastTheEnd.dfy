/** The comparisons of ParseBodyPartL look past the part into the rest of the buffer. Behind a part
    that a delimiter ends this is harmless. */
module PastTheEnd {
  import opened Octets
  import opened BodyPartParser

  /** The part is the whole buffer, or two hyphens stand right behind it. */
  predicate EndsAtHyphens(mem: string, n: nat) {
    n == |mem| || (n + 1 < |mem| && mem[n] == '-' && mem[n + 1] == '-')
  }

  lemma NamesHaveNoTwoHyphens(k: nat, m: nat)
    requires k < |FIELDS| && m < NameLength(k) && FIELDS[k].0[m] == '-'
    ensures m + 1 < NameLength(k) && FIELDS[k].0[m + 1] != '-'
  {
    if
    case k == 0 => case k == 1 => case k == 2 =>
    case k == 3 => case k == 4 => case k == 5 =>
  }

  /** No header name reaches across the two hyphens. */
  lemma NameStaysInside(mem: string, n: nat, i: nat, k: nat)
    requires i < n && EndsAtHyphens(mem, n) && k < |FIELDS| && CaseMatchAt(mem, i, FIELDS[k].0)
    ensures i + NameLength(k) <= n
  {
    hide CaseMatchAt;
    var name := FIELDS[k].0;
    NamesArePlain(k);
    if n < i + |name| {
      CaseMatchIndex(mem, i, name, n - i);
      NamesHaveNoTwoHyphens(k, n - i);
      CaseMatchIndex(mem, i, name, n + 1 - i);
    }
  }

  lemma {:induction false} SameHeader(mem: string, n: nat, i: nat, k: nat)
    requires i < n <= |mem| && EndsAtHyphens(mem, n)
    ensures HeaderFrom(mem, i, k) == HeaderFrom(mem[..n], i, k)
    decreases |FIELDS| - k
  {
    if k < |FIELDS| {
      var name := FIELDS[k].0;
      if CaseMatchAt(mem, i, name) {
        NameStaysInside(mem, n, i, k);
        assert mem[..n][i..i + |name|] == mem[i..i + |name|];
      } else if i + |name| <= n {
        assert mem[..n][i..i + |name|] == mem[i..i + |name|];
      }
      SameHeader(mem, n, i, k + 1);
    }
  }

  lemma SameHeaderAt(mem: string, n: nat, i: nat)
    requires i < n <= |mem| && EndsAtHyphens(mem, n)
    ensures HeaderAt(mem, i) == HeaderAt(mem[..n], i)
  {
    SameHeader(mem, n, i, 0);
  }

  lemma {:induction false} SameSkip(mem: string, n: nat, i: nat)
    requires i <= n <= |mem| && EndsAtHyphens(mem, n)
    ensures SkipSpaces(mem, i) == SkipSpaces(mem[..n], i) <= n
    decreases n - i
  {
    if i < n && mem[i] == ' ' {
      SameSkip(mem, n, i + 1);
    }
  }

  lemma SameLineEnd(mem: string, n: nat, eol: Eol, j: nat)
    requires n <= |mem| && j + |eol| <= n
    ensures LineEndAt(mem, eol, j) == LineEndAt(mem[..n], eol, j)
  {
    assert mem[..n][j..j + |eol|] == mem[j..j + |eol|];
  }

  lemma {:induction false} SameValueEnd(mem: string, n: nat, eol: Eol, j: nat)
    requires n <= |mem|
    ensures ValueEnd(mem, n, eol, j) == ValueEnd(mem[..n], n, eol, j)
    decreases n - j
  {
    if j + |eol| <= n {
      SameLineEnd(mem, n, eol, j);
      if !LineEndAt(mem, eol, j) {
        SameValueEnd(mem, n, eol, j + 1);
      }
    }
  }

  lemma SameMatch(mem: string, n: nat, i: nat, literal: string)
    requires i < n <= |mem| && EndsAtHyphens(mem, n) && '-' !in literal
    ensures MatchAt(mem, i, literal) == MatchAt(mem[..n], i, literal)
  {
    if i + |literal| <= n {
      assert mem[..n][i..i + |literal|] == mem[i..i + |literal|];
    } else if i + |literal| <= |mem| {
      assert mem[i..i + |literal|][n - i] == mem[n];
    }
  }

  lemma SameBlank(mem: string, n: nat, eol: Eol, i: nat)
    requires i < n <= |mem| && EndsAtHyphens(mem, n)
    ensures BlankAt(mem, eol, i) == BlankAt(mem[..n], eol, i)
    ensures BlankLength(mem, eol, i) == BlankLength(mem[..n], eol, i)
    ensures BlankAt(mem, eol, i) ==> i + BlankLength(mem, eol, i) <= n
  {
    SameMatch(mem, n, i, eol + eol);
    SameMatch(mem, n, i, LF + LF);
  }

  lemma SameSplitAt(mem: string, n: nat, eol: Eol, i: nat, p: Part)
    requires i < n <= |mem| && EndsAtHyphens(mem, n) && BlankAt(mem, eol, i)
    ensures SplitAt(mem, n, eol, i, p) == SplitAt(mem[..n], n, eol, i, p)
  {
    SameBlank(mem, n, eol, i);
    var after := i + BlankLength(mem, eol, i);
    assert mem[..n][after..n] == mem[after..n];
    if |eol| <= i {
      assert mem[..n][|eol|..i] == mem[|eol|..i];
    }
  }

  lemma SameValue(mem: string, n: nat, eol: Eol, k: nat, start: nat, kept: Option<string>)
    requires n <= |mem| && k < |FIELDS|
    ensures ValueOf(mem, n, eol, k, start, kept) == ValueOf(mem[..n], n, eol, k, start, kept)
  {
    SameValueEnd(mem, n, eol, start);
    var end := ValueEnd(mem, n, eol, start);
    if end.Some? {
      assert mem[..n][start..end.value] == mem[start..end.value];
      if end.value - start >= 2 {
        assert mem[..n][start + 1..end.value - 1] == mem[start + 1..end.value - 1];
      }
    }
  }

  lemma SameHeaderStep(mem: string, n: nat, eol: Eol, i: nat, value: Option<string>)
    requires i < n <= |mem| && EndsAtHyphens(mem, n) && HeaderAt(mem, i).Some?
    ensures HeaderAt(mem, i) == HeaderAt(mem[..n], i)
    ensures var k := HeaderAt(mem, i).value;
            var start := SkipSpaces(mem, i + NameLength(k));
            && i < start && start == SkipSpaces(mem[..n], i + NameLength(k))
            && ValueEnd(mem, n, eol, start) == ValueEnd(mem[..n], n, eol, start)
            && ValueOf(mem, n, eol, k, start, value) == ValueOf(mem[..n], n, eol, k, start, value)
  {
    hide HeaderAt, CaseMatchAt, ValueEnd, ValueOf, SkipSpaces, EndsAtHyphens, NameLength;
    SameHeaderAt(mem, n, i);
    var k := HeaderAt(mem, i).value;
    NameStaysInside(mem, n, i, k);
    NamesArePlain(k);
    SameSkip(mem, n, i + NameLength(k));
    var start := SkipSpaces(mem, i + NameLength(k));
    SameValue(mem, n, eol, k, start, value);
    SameValueEnd(mem, n, eol, start);
  }

  /** Looking past a part that a delimiter ends changes nothing: the part parses as it would alone. */
  lemma {:induction false} PartParsesAlone(mem: string, n: nat, eol: Eol, i: nat, value: Option<string>, p: Part)
    requires n <= |mem| && EndsAtHyphens(mem, n)
    ensures ScanFrom(mem, n, eol, i, value, p) == ScanFrom(mem[..n], n, eol, i, value, p)
    decreases n - i
  {
    hide ScanFrom, BlankAt, ValueEnd, ValueOf, SkipSpaces, HeaderAt, SplitAt, EndsAtHyphens, NameLength;
    ScanStep(mem, n, eol, i, value, p);
    ScanStep(mem[..n], n, eol, i, value, p);
    if i < n {
      if HeaderAt(mem, i).Some? {
        SameHeaderStep(mem, n, eol, i, value);
        var k := HeaderAt(mem, i).value;
        var start := SkipSpaces(mem, i + NameLength(k));
        var v := ValueOf(mem, n, eol, k, start, value);
        var end := ValueEnd(mem, n, eol, start);
        if v.Some? {
          PartParsesAlone(mem, n, eol, if end.Some? then end.value else i + 1, v.value,
                          p.(fields := p.fields[FIELDS[k].1 := v.value]));
        }
      } else {
        SameHeaderAt(mem, n, i);
        SameBlank(mem, n, eol, i);
        if BlankAt(mem, eol, i) {
          SameSplitAt(mem, n, eol, i, p);
        } else {
          PartParsesAlone(mem, n, eol, i + 1, value, p);
        }
      }
    }
  }
}
