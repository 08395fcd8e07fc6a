/** Octet strings and the C string comparisons the sources apply to them.
    An octet is a `char`; nothing proved here depends on a char being below 256. */
module Octets {

  const CRLF: string := "\r\n"
  const LF: string := "\n"
  const HYPHENS: string := "--"

  /** The two end-of-line values a multipart entity can be parsed with. */
  type Eol = e: string | e == "\r\n" || e == "\n" witness "\n"

  datatype Option<+T> = None | Some(value: T) {
    function GetOr(default: T): T {
      match this
      case None => default
      case Some(v) => v
    }
  }

  /** `tolower` in the C locale. */
  function Lower(c: char): char {
    if 'A' <= c <= 'Z' then (c as int + 32) as char else c
  }

  /** Two characters agree up to letter case when they are the same or the two cases of a letter. */
  lemma SameLetter(c: char, d: char)
    ensures Lower(c) == Lower(d) <==>
              || c == d
              || ('A' <= c <= 'Z' && d as int == c as int + 32)
              || ('A' <= d <= 'Z' && c as int == d as int + 32)
  {
  }

  /** `strncasecmp(a, b, |b|) == 0` for two runs of the same length: a common NUL ends the comparison. */
  predicate StrNCaseEqual(a: string, b: string)
    requires |a| == |b|
  {
    |a| == 0 || (Lower(a[0]) == Lower(b[0]) && (a[0] == '\0' || StrNCaseEqual(a[1..], b[1..])))
  }

  /** `literal` stands at `i`; false when it would run past the end of the buffer. */
  predicate MatchAt(s: string, i: nat, literal: string) {
    i + |literal| <= |s| && s[i..i + |literal|] == literal
  }

  /** The end-of-line test: the chosen one, or a lone LF. */
  predicate LineEndAt(s: string, eol: Eol, i: nat) {
    MatchAt(s, i, eol) || (i < |s| && s[i] == '\n')
  }

  lemma LineEndIsOctet(s: string, eol: Eol, i: nat)
    requires LineEndAt(s, eol, i)
    ensures i < |s| && (s[i] == '\r' || s[i] == '\n')
  {
    assert MatchAt(s, i, eol) ==> s[i] == s[i..i + |eol|][0];
  }

  /** `literal` stands at `i` up to letter case. */
  predicate CaseMatchAt(s: string, i: nat, literal: string) {
    i + |literal| <= |s| && StrNCaseEqual(s[i..i + |literal|], literal)
  }

  lemma {:induction false} CaseEqualReflexive(a: string)
    ensures StrNCaseEqual(a, a)
  {
    if |a| > 0 {
      CaseEqualReflexive(a[1..]);
    }
  }

  /** Without NULs in the pattern, a match is a match at every place. */
  lemma {:induction false} CaseEqualPointwise(a: string, b: string)
    requires |a| == |b| && '\0' !in b
    ensures StrNCaseEqual(a, b) <==> forall k :: 0 <= k < |a| ==> Lower(a[k]) == Lower(b[k])
  {
    if |a| > 0 {
      if Lower(a[0]) == Lower(b[0]) {
        assert a[0] != '\0';
        CaseEqualPointwise(a[1..], b[1..]);
        if StrNCaseEqual(a[1..], b[1..]) {
          forall k | 0 <= k < |a| ensures Lower(a[k]) == Lower(b[k]) {
            if k > 0 { assert a[k] == a[1..][k - 1] && b[k] == b[1..][k - 1]; }
          }
        } else {
          var k :| 0 <= k < |a| - 1 && Lower(a[1..][k]) != Lower(b[1..][k]);
          assert Lower(a[k + 1]) != Lower(b[k + 1]);
        }
      }
    }
  }

  /** A common NUL ends the comparison: what stands behind it does not count. */
  lemma {:induction false} NulEndsComparison(a: string, b: string, n: nat)
    requires n < |a| == |b| && a[n] == b[n] == '\0'
    ensures StrNCaseEqual(a, b) <==> StrNCaseEqual(a[..n], b[..n])
  {
    if n > 0 {
      NulEndsComparison(a[1..], b[1..], n - 1);
      assert a[1..][..n - 1] == a[..n][1..] && b[1..][..n - 1] == b[..n][1..];
    }
  }

  lemma CaseMatchIndex(s: string, i: nat, literal: string, m: nat)
    requires CaseMatchAt(s, i, literal) && '\0' !in literal && m < |literal|
    ensures i + m < |s| && Lower(s[i + m]) == Lower(literal[m])
  {
    CaseEqualPointwise(s[i..i + |literal|], literal);
    assert s[i..i + |literal|][m] == s[i + m];
  }

  lemma SliceOfSlice(s: string, a: nat, t: string, x: nat, y: nat)
    requires a + |t| <= |s| && s[a..a + |t|] == t && x <= y <= |t|
    ensures s[a + x..a + y] == t[x..y]
  {
    forall k | x <= k < y ensures s[a + k] == t[k] {
      assert s[a..a + |t|][k] == s[a + k];
    }
  }
}
