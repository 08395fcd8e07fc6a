/** The order of strcmp, and what it means for tokens written as hexadecimal numbers. */
module TokenOrder {

  /** strcmp(a, b) <= 0. */
  predicate Le(a: string, b: string) {
    a == "" || (b != "" && (a[0] < b[0] || (a[0] == b[0] && Le(a[1..], b[1..]))))
  }

  lemma {:induction false} LeTotal(a: string, b: string)
    ensures Le(a, b) || Le(b, a)
  {
    if a != "" && b != "" {
      LeTotal(a[1..], b[1..]);
    }
  }

  lemma {:induction false} LeTransitive(a: string, b: string, c: string)
    requires Le(a, b) && Le(b, c)
    ensures Le(a, c)
  {
    if a != "" {
      if a[0] == b[0] == c[0] {
        LeTransitive(a[1..], b[1..], c[1..]);
      }
    }
  }

  lemma {:induction false} LeAntisymmetric(a: string, b: string)
    requires Le(a, b) && Le(b, a)
    ensures a == b
  {
    if a != "" {
      LeAntisymmetric(a[1..], b[1..]);
      assert a == [a[0]] + a[1..] && b == [b[0]] + b[1..];
    }
  }

  predicate IsHexDigit(c: char) { '0' <= c <= '9' || 'a' <= c <= 'f' }

  function HexDigit(c: char): nat
    requires IsHexDigit(c)
  {
    if c <= '9' then c as nat - '0' as nat else c as nat - 'a' as nat + 10
  }

  /** "0x??" in lower case. */
  predicate IsHexToken(t: string) {
    |t| == 4 && t[0] == '0' && t[1] == 'x' && IsHexDigit(t[2]) && IsHexDigit(t[3])
  }

  function HexValue(t: string): nat
    requires IsHexToken(t)
  {
    16 * HexDigit(t[2]) + HexDigit(t[3])
  }

  /** Sorting lower-case tokens as strings sorts them as numbers. */
  lemma HexOrder(a: string, b: string)
    requires IsHexToken(a) && IsHexToken(b)
    ensures Le(a, b) <==> HexValue(a) <= HexValue(b)
  {
    assert Le(a, b) == Le(a[1..], b[1..]) == Le(a[1..][1..], b[1..][1..]);
    var x, y := a[1..][1..], b[1..][1..];
    assert x == [a[2], a[3]] && y == [b[2], b[3]];
    assert Le(x[1..], y[1..]) == (a[3] <= b[3]) by {
      assert x[1..] == [a[3]] && y[1..] == [b[3]] && x[1..][1..] == "" == y[1..][1..];
    }
  }
}
