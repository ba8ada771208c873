/** `safe_filename` (app.py): deletes path separators and reserved
    characters, deletes control characters, trims dots and spaces from both
    ends, and falls back to "unnamed" when nothing is left. */
module Sanitize {

  /** The characters removed one after another by `str.replace(c, '')`. */
  const Dangerous: seq<char> := ['/', '\\', ':', '*', '?', '"', '<', '>', '|', '\0']

  const Fallback: string := "unnamed"

  /** The character class `[\x00-\x1f\x7f-\x9f]`. */
  predicate IsControl(c: char)
  {
    c as int < 0x20 || 0x7f <= c as int <= 0x9f
  }

  /** The characters `str.strip('. ')` removes. */
  predicate IsTrimmed(c: char)
  {
    c == '.' || c == ' '
  }

  /** A name `safe_filename` leaves as it is. */
  predicate IsClean(s: string)
  {
    && s != []
    && (forall i :: 0 <= i < |s| ==> s[i] !in Dangerous && !IsControl(s[i]))
    && !IsTrimmed(s[0])
    && !IsTrimmed(s[|s| - 1])
  }

  /** `s.replace(c, '')`. */
  function RemoveChar(s: string, c: char): (r: string)
    ensures c !in r
  {
    if s == [] then []
    else (if s[0] == c then [] else [s[0]]) + RemoveChar(s[1..], c)
  }

  /** `s` with every character listed in `cs` removed, the others kept in order. */
  function Without(s: string, cs: seq<char>): (r: string)
    ensures |r| <= |s|
    ensures forall i :: 0 <= i < |r| ==> r[i] !in cs && r[i] in s
    ensures forall i :: 0 <= i < |s| && s[i] !in cs ==> s[i] in r
  {
    if s == [] then []
    else
      var rest := Without(s[1..], cs);
      assert forall i :: 1 <= i < |s| ==> s[i] == s[1..][i - 1];
      (if s[0] in cs then [] else [s[0]]) + rest
  }

  /** `re.sub(r'[\x00-\x1f\x7f-\x9f]', '', s)`. */
  function DropControl(s: string): (r: string)
    ensures |r| <= |s|
    ensures forall i :: 0 <= i < |r| ==> !IsControl(r[i]) && r[i] in s
    ensures forall i :: 0 <= i < |s| && !IsControl(s[i]) ==> s[i] in r
  {
    if s == [] then []
    else
      var rest := DropControl(s[1..]);
      assert forall i :: 1 <= i < |s| ==> s[i] == s[1..][i - 1];
      (if IsControl(s[0]) then [] else [s[0]]) + rest
  }

  /** Leading part of `str.strip('. ')`. */
  function TrimStart(s: string): (r: string)
    ensures |r| <= |s| && r == s[|s| - |r|..]
    ensures r == [] || !IsTrimmed(r[0])
    ensures forall k :: 0 <= k < |s| - |r| ==> IsTrimmed(s[k])
  {
    if s != [] && IsTrimmed(s[0]) then TrimStart(s[1..]) else s
  }

  /** Trailing part of `str.strip('. ')`. */
  function TrimEnd(s: string): (r: string)
    ensures |r| <= |s| && r == s[..|r|]
    ensures r == [] || !IsTrimmed(r[|r| - 1])
    ensures forall k :: |r| <= k < |s| ==> IsTrimmed(s[k])
  {
    if s != [] && IsTrimmed(s[|s| - 1]) then TrimEnd(s[..|s| - 1]) else s
  }

  /** The number of dots and spaces `s` starts with. */
  function Leading(s: string): (n: nat)
    ensures n <= |s|
    ensures forall k :: 0 <= k < n ==> IsTrimmed(s[k])
    ensures n == |s| || !IsTrimmed(s[n])
  {
    if s != [] && IsTrimmed(s[0]) then 1 + Leading(s[1..]) else 0
  }

  /** `str.strip('. ')`: empty exactly when `s` holds only dots and spaces;
      otherwise it neither starts nor ends with one. It is the unbroken run of
      `s` that follows the leading dots and spaces, and only dots and spaces
      come after it. */
  function Strip(s: string): (r: string)
    ensures r == [] <==> forall k :: 0 <= k < |s| ==> IsTrimmed(s[k])
    ensures r != [] ==> !IsTrimmed(r[0]) && !IsTrimmed(r[|r| - 1])
    ensures forall k :: 0 <= k < |r| ==> r[k] in s
    ensures Leading(s) + |r| <= |s| && r == s[Leading(s)..][..|r|]
    ensures forall k :: Leading(s) + |r| <= k < |s| ==> IsTrimmed(s[k])
  {
    TrimBoth(s);
    TrimBothTail(s);
    TrimEnd(TrimStart(s))
  }

  /** What trimming both ends keeps: the run of `s` after its leading dots and
      spaces, less its trailing ones. */
  lemma TrimBoth(s: string)
    ensures TrimEnd(TrimStart(s)) == s[Leading(s)..][..|TrimEnd(TrimStart(s))|]
  {
    LeadingTrimStart(s);
    assert TrimStart(s) == s[Leading(s)..];
  }

  /** Only dots and spaces follow what trimming both ends keeps. */
  lemma TrimBothTail(s: string)
    ensures forall k :: Leading(s) + |TrimEnd(TrimStart(s))| <= k < |s| ==> IsTrimmed(s[k])
  {
    LeadingTrimStart(s);
    TrimmedAfterShift(s, Leading(s), TrimStart(s), |TrimEnd(TrimStart(s))|);
  }

  lemma TrimmedAfterShift(s: string, n: nat, t: string, m: nat)
    requires n <= |s| && t == s[n..] && m <= |t|
    requires forall k :: m <= k < |t| ==> IsTrimmed(t[k])
    ensures forall k :: n + m <= k < |s| ==> IsTrimmed(s[k])
  {
    forall k | n + m <= k < |s| ensures IsTrimmed(s[k]) {
      assert s[k] == t[k - n];
    }
  }

  lemma {:induction false} LeadingTrimStart(s: string)
    ensures Leading(s) == |s| - |TrimStart(s)|
  {
    if s != [] && IsTrimmed(s[0]) {
      LeadingTrimStart(s[1..]);
    }
  }

  /** What is left once the reserved and control characters are removed and
      the dots and spaces at both ends are stripped. */
  function Cleaned(filename: string): (t: string)
  {
    Strip(DropControl(Without(filename, Dangerous)))
  }

  /** The specification of `safe_filename`. */
  function SafeName(filename: string): (r: string)
    ensures IsClean(r)
    ensures r == Fallback || forall k :: 0 <= k < |r| ==> r[k] in filename
  {
    var t := Cleaned(filename);
    if t == [] then
      assert IsClean(Fallback) by { FallbackIsClean(); }
      Fallback
    else
      CleanedChars(filename);
      t
  }

  lemma FallbackIsClean()
    ensures IsClean(Fallback)
  {
    forall i | 0 <= i < |Fallback| ensures Fallback[i] !in Dangerous {
      assert 'a' <= Fallback[i] <= 'u';
    }
  }

  /** Every character that survives came from the input and is neither
      reserved nor a control character. */
  lemma CleanedChars(filename: string)
    ensures forall k :: 0 <= k < |Cleaned(filename)| ==>
              Cleaned(filename)[k] in filename &&
              Cleaned(filename)[k] !in Dangerous && !IsControl(Cleaned(filename)[k])
  {
    var w := Without(filename, Dangerous);
    var d := DropControl(w);
    var t := Strip(d);
    forall k | 0 <= k < |t| ensures t[k] in filename && t[k] !in Dangerous && !IsControl(t[k]) {
      var c := t[k];
      assert c in d;
      var i :| 0 <= i < |d| && d[i] == c;
      assert c in w && !IsControl(c);
      var j :| 0 <= j < |w| && w[j] == c;
      assert c in filename && c !in Dangerous;
    }
  }

  /** The loop of `safe_filename` over the reserved characters: removing them one
      at a time amounts to removing all of them at once. */
  lemma {:induction false} RemoveCharExtends(s: string, cs: seq<char>, c: char)
    ensures RemoveChar(Without(s, cs), c) == Without(s, cs + [c])
  {
    if s != [] {
      RemoveCharExtends(s[1..], cs, c);
      var rest := Without(s[1..], cs);
      if s[0] in cs {
        assert Without(s, cs) == rest;
      } else {
        assert Without(s, cs) == [s[0]] + rest;
        assert ([s[0]] + rest)[1..] == rest;
      }
    }
  }

  /** `safe_filename` as written: a loop of `replace` calls, then the regex, the
      strip and the fallback. */
  method SafeFilename(filename: string) returns (r: string)
    ensures r == SafeName(filename)
  {
    r := filename;
    assert Without(filename, []) == filename by { WithoutNothing(filename); }
    for i := 0 to |Dangerous|
      invariant r == Without(filename, Dangerous[..i])
    {
      RemoveCharExtends(filename, Dangerous[..i], Dangerous[i]);
      assert Dangerous[..i] + [Dangerous[i]] == Dangerous[..i + 1];
      r := RemoveChar(r, Dangerous[i]);
    }
    assert Dangerous[..|Dangerous|] == Dangerous;
    r := DropControl(r);
    r := Strip(r);
    if r == [] {
      r := Fallback;
    }
  }

  /** Removing characters works on each part of a string separately, so the
      kept characters stay in order and none is dropped or repeated. */
  lemma {:induction false} WithoutAppend(a: string, b: string, cs: seq<char>)
    ensures Without(a + b, cs) == Without(a, cs) + Without(b, cs)
  {
    if a == [] {
      assert a + b == b;
    } else {
      WithoutAppend(a[1..], b, cs);
      assert (a + b)[1..] == a[1..] + b;
      assert (a + b)[0] == a[0];
      var h := if a[0] in cs then [] else [a[0]];
      assert Without(a, cs) == h + Without(a[1..], cs);
      assert Without(a + b, cs) == h + Without(a[1..] + b, cs);
      ConcatAssoc(h, Without(a[1..], cs), Without(b, cs));
    }
  }

  /** The same for the control characters. */
  lemma {:induction false} DropControlAppend(a: string, b: string)
    ensures DropControl(a + b) == DropControl(a) + DropControl(b)
  {
    if a == [] {
      assert a + b == b;
    } else {
      DropControlAppend(a[1..], b);
      assert (a + b)[1..] == a[1..] + b;
      assert (a + b)[0] == a[0];
      var h := if IsControl(a[0]) then [] else [a[0]];
      assert DropControl(a) == h + DropControl(a[1..]);
      assert DropControl(a + b) == h + DropControl(a[1..] + b);
      ConcatAssoc(h, DropControl(a[1..]), DropControl(b));
    }
  }

  lemma ConcatAssoc(x: string, y: string, z: string)
    ensures x + (y + z) == (x + y) + z
  {
  }

  lemma {:induction false} TrimStartBefore(x: string, z: string)
    requires z != [] && !IsTrimmed(z[0])
    ensures TrimStart(x + z) == TrimStart(x) + z
  {
    if x == [] {
      assert x + z == z;
    } else if IsTrimmed(x[0]) {
      TrimStartBefore(x[1..], z);
      assert (x + z)[0] == x[0];
      assert (x + z)[1..] == x[1..] + z;
      assert TrimStart(x + z) == TrimStart(x[1..] + z);
    } else {
      assert (x + z)[0] == x[0];
    }
  }

  lemma {:induction false} TrimEndAfter(z: string, y: string)
    requires z != [] && !IsTrimmed(z[|z| - 1])
    ensures TrimEnd(z + y) == z + TrimEnd(y)
  {
    if y == [] {
      assert z + y == z;
    } else if IsTrimmed(y[|y| - 1]) {
      TrimEndAfter(z, y[..|y| - 1]);
      assert (z + y)[|z + y| - 1] == y[|y| - 1];
      assert (z + y)[..|z + y| - 1] == z + y[..|y| - 1];
      assert TrimEnd(z + y) == TrimEnd(z + y[..|y| - 1]);
    } else {
      assert (z + y)[|z + y| - 1] == y[|y| - 1];
    }
  }

  /** A kept character is never lost: around any character that is neither
      reserved, a control character, a dot nor a space, the result is what is
      kept of the text before it (less its leading dots and spaces), that
      character, and what is kept of the text after it (less its trailing ones). */
  lemma SafeNameKeepsMiddle(a: string, c: char, b: string)
    requires c !in Dangerous && !IsControl(c) && !IsTrimmed(c)
    ensures SafeName(a + [c] + b) ==
              TrimStart(DropControl(Without(a, Dangerous))) + [c] +
              TrimEnd(DropControl(Without(b, Dangerous)))
  {
    var x := DropControl(Without(a, Dangerous));
    var y := DropControl(Without(b, Dangerous));
    FilterAround(a, c, b);
    StripAround(x, c, y);
  }

  lemma FilterAround(a: string, c: char, b: string)
    requires c !in Dangerous && !IsControl(c)
    ensures DropControl(Without(a + [c] + b, Dangerous)) ==
              DropControl(Without(a, Dangerous)) + ([c] + DropControl(Without(b, Dangerous)))
  {
    var wa, wb := Without(a, Dangerous), Without(b, Dangerous);
    WithoutAppend(a + [c], b, Dangerous);
    WithoutAppend(a, [c], Dangerous);
    assert Without([c], Dangerous) == [c];
    DropControlAppend(wa + [c], wb);
    DropControlAppend(wa, [c]);
    assert DropControl([c]) == [c];
    ConcatAssoc(DropControl(wa), [c], DropControl(wb));
  }

  lemma StripAround(x: string, c: char, y: string)
    requires !IsTrimmed(c)
    ensures Strip(x + ([c] + y)) == TrimStart(x) + [c] + TrimEnd(y)
  {
    TrimStartBefore(x, [c] + y);
    ConcatAssoc(TrimStart(x), [c], y);
    TrimEndAfter(TrimStart(x) + [c], y);
  }

  lemma {:induction false} WithoutNothing(s: string)
    ensures Without(s, []) == s
  {
    if s != [] {
      WithoutNothing(s[1..]);
    }
  }

  lemma {:induction false} WithoutKeepsClean(s: string, cs: seq<char>)
    requires forall i :: 0 <= i < |s| ==> s[i] !in cs
    ensures Without(s, cs) == s
  {
    if s != [] {
      WithoutKeepsClean(s[1..], cs);
    }
  }

  lemma {:induction false} DropControlKeepsClean(s: string)
    requires forall i :: 0 <= i < |s| ==> !IsControl(s[i])
    ensures DropControl(s) == s
  {
    if s != [] {
      DropControlKeepsClean(s[1..]);
    }
  }

  /** A clean name passes through `safe_filename` unchanged. */
  lemma CleanIsFixed(s: string)
    requires IsClean(s)
    ensures SafeName(s) == s
  {
    WithoutKeepsClean(s, Dangerous);
    DropControlKeepsClean(s);
    assert TrimStart(s) == s;
    assert TrimEnd(s) == s;
  }

  /** `safe_filename` is idempotent. */
  lemma SafeNameIdempotent(filename: string)
    ensures SafeName(SafeName(filename)) == SafeName(filename)
  {
    CleanIsFixed(SafeName(filename));
  }

  /** The fallback name is used exactly when every character of the input is
      reserved, a control character, a dot or a space. */
  lemma FallbackExactly(filename: string)
    ensures Cleaned(filename) == [] <==>
              forall i :: 0 <= i < |filename| ==>
                filename[i] in Dangerous || IsControl(filename[i]) || IsTrimmed(filename[i])
  {
  }

  /** `rename` rejects an empty name after sanitising; that branch is never taken. */
  lemma RenameNameNeverEmpty(newName: string)
    ensures SafeName(newName) != []
  {
  }
}
