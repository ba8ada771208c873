/** Character and string helpers that the file server relies on: ASCII
    lower-casing (str.lower), code-point lexicographic order (Python's `<=`
    on str) and str.join. */
module Text {

  /** Lower-cases an ASCII capital letter and leaves every other character alone. */
  function LowerChar(c: char): char
  {
    if 'A' <= c <= 'Z' then (c as int + 32) as char else c
  }

  /** str.lower(), restricted to ASCII letters. */
  function Lower(s: string): (r: string)
    ensures |r| == |s|
    ensures forall i :: 0 <= i < |s| ==> r[i] == LowerChar(s[i])
  {
    seq(|s|, i requires 0 <= i < |s| => LowerChar(s[i]))
  }

  lemma LowerCharFixes(c: char)
    ensures LowerChar(LowerChar(c)) == LowerChar(c)
    ensures LowerChar(c) == '.' <==> c == '.'
    ensures LowerChar(c) == '/' <==> c == '/'
  {
  }

  /** Lower-casing twice is lower-casing once. */
  lemma LowerIdempotent(s: string)
    ensures Lower(Lower(s)) == Lower(s)
  {
    forall i | 0 <= i < |s| ensures Lower(Lower(s))[i] == Lower(s)[i] {
      LowerCharFixes(s[i]);
    }
  }

  /** Python's `a <= b` on strings: lexicographic on code points. */
  predicate LexLe(a: string, b: string)
  {
    a == [] || (b != [] && (a[0] < b[0] || (a[0] == b[0] && LexLe(a[1..], b[1..]))))
  }

  lemma {:induction false} LexLeTotal(a: string, b: string)
    ensures LexLe(a, b) || LexLe(b, a)
  {
    if a != [] && b != [] && a[0] == b[0] {
      LexLeTotal(a[1..], b[1..]);
    }
  }

  lemma {:induction false} LexLeTransitive(a: string, b: string, c: string)
    requires LexLe(a, b) && LexLe(b, c)
    ensures LexLe(a, c)
  {
    if a != [] && b != [] && c != [] && a[0] == b[0] && b[0] == c[0] {
      LexLeTransitive(a[1..], b[1..], c[1..]);
    }
  }

  /** `sep.join(parts)`. */
  function Join(sep: string, parts: seq<string>): (r: string)
    ensures parts != [] ==> |parts[0]| <= |r| && r[..|parts[0]|] == parts[0]
    decreases |parts|
  {
    if |parts| == 0 then ""
    else if |parts| == 1 then parts[0]
    else Join(sep, parts[..|parts| - 1]) + sep + parts[|parts| - 1]
  }

  /** Joining one more part extends the previous join by the separator and that part. */
  lemma JoinSnoc(sep: string, parts: seq<string>, i: nat)
    requires 0 < i < |parts|
    ensures Join(sep, parts[..i + 1]) == Join(sep, parts[..i]) + sep + parts[i]
  {
    assert parts[..i + 1][..i] == parts[..i];
  }

  /** The join of a prefix of `parts` is a prefix of the join of a longer prefix. */
  lemma {:induction false} JoinPrefix(sep: string, parts: seq<string>, i: nat, j: nat)
    requires 0 < i <= j <= |parts|
    ensures |Join(sep, parts[..i])| <= |Join(sep, parts[..j])|
    ensures Join(sep, parts[..j])[..|Join(sep, parts[..i])|] == Join(sep, parts[..i])
  {
    if i < j {
      JoinPrefix(sep, parts, i, j - 1);
      JoinSnoc(sep, parts, j - 1);
    }
  }
}
