/**
 * String primitives of the JavaScript runtime that the quota engine relies on:
 * the whitespace class behind `\s` and `trim`, `split` on one character,
 * `join`, `includes`, `repeat` and the decimal rendering of integers in
 * template literals.
 */
module Text {

  /** JavaScript WhiteSpace and LineTerminator code points: what `\s` matches and `trim` drops. */
  predicate IsSpace(c: char) {
    c == ' ' || c == '\t' || c == '\n' || c == '\r' || c == '\U{000B}' || c == '\U{000C}'
    || c == '\U{00A0}' || c == '\U{1680}' || ('\U{2000}' <= c <= '\U{200A}')
    || c == '\U{2028}' || c == '\U{2029}' || c == '\U{202F}' || c == '\U{205F}'
    || c == '\U{3000}' || c == '\U{FEFF}'
  }

  /** The regular-expression class `\d`. */
  predicate IsDigit(c: char) {
    '0' <= c <= '9'
  }

  predicate AllSpace(s: string) {
    forall k :: 0 <= k < |s| ==> IsSpace(s[k])
  }

  /** The end of the run of whitespace that starts at `i`. */
  function SkipSpaces(s: string, i: nat): (j: nat)
    requires i <= |s|
    ensures i <= j <= |s|
    ensures AllSpace(s[i..j])
    ensures j < |s| ==> !IsSpace(s[j])
    decreases |s| - i
  {
    if i < |s| && IsSpace(s[i]) then SkipSpaces(s, i + 1) else i
  }

  /** The start of the run of whitespace that ends at `j`. */
  function SpaceStart(s: string, j: nat): (i: nat)
    requires j <= |s|
    ensures i <= j
    ensures AllSpace(s[i..j])
    ensures 0 < i ==> !IsSpace(s[i - 1])
  {
    if 0 < j && IsSpace(s[j - 1]) then
      var i := SpaceStart(s, j - 1);
      assert s[i..j] == s[i..j - 1] + [s[j - 1]];
      AllSpaceConcat(s[i..j - 1], [s[j - 1]]);
      i
    else j
  }

  lemma {:induction false} SkipSpacesTo(s: string, i: nat, j: nat)
    requires i <= j <= |s| && AllSpace(s[i..j]) && (j < |s| ==> !IsSpace(s[j]))
    ensures SkipSpaces(s, i) == j
    decreases j - i
  {
    if i < j {
      assert s[i] == s[i..j][0];
      assert s[i + 1..j] == s[i..j][1..];
      SkipSpacesTo(s, i + 1, j);
    }
  }

  lemma {:induction false} SpaceStartTo(s: string, i: nat, j: nat)
    requires 0 < i <= j <= |s| && AllSpace(s[i..j]) && !IsSpace(s[i - 1])
    ensures SpaceStart(s, j) == i
    decreases j - i
  {
    if i < j {
      assert s[j - 1] == s[i..j][j - 1 - i];
      assert s[i..j - 1] == s[i..j][..j - 1 - i];
      SpaceStartTo(s, i, j - 1);
    }
  }

  /**
   * `s.trim()`: empty exactly when `s` is all whitespace, and otherwise a slice
   * of `s` that starts and ends with a non-space.
   */
  function Trim(s: string): (r: string)
    ensures |r| <= |s|
    ensures r == [] <==> AllSpace(s)
    ensures r != [] ==> !IsSpace(r[0]) && !IsSpace(r[|r| - 1])
  {
    TrimFrom(s, SkipSpaces(s, 0))
  }

  function TrimFrom(s: string, i: nat): (r: string)
    requires i <= |s| && AllSpace(s[..i]) && (i < |s| ==> !IsSpace(s[i]))
    ensures |r| <= |s|
    ensures r == [] <==> AllSpace(s)
    ensures r != [] ==> !IsSpace(r[0]) && !IsSpace(r[|r| - 1])
  {
    if i == |s| then
      assert s[..i] == s;
      []
    else
      var j := SpaceStart(s, |s|);
      NonSpaceBefore(s, j, i);
      assert !AllSpace(s) by {
        assert !IsSpace(s[i]);
      }
      s[i..j]
  }

  /** What `trim` keeps is a slice of its input with only whitespace on either side. */
  lemma TrimIsSlice(s: string)
    ensures exists i, j :: 0 <= i <= j <= |s| && Trim(s) == s[i..j] && AllSpace(s[..i]) && AllSpace(s[j..])
  {
    var i := SkipSpaces(s, 0);
    if i == |s| {
      assert Trim(s) == s[i..i] && s[..i] == s[0..i];
    } else {
      var j := SpaceStart(s, |s|);
      NonSpaceBefore(s, j, i);
      assert Trim(s) == s[i..j] && s[..i] == s[0..i] && s[j..] == s[j..|s|];
    }
  }

  /** A non-space lies before any all-space tail. */
  lemma NonSpaceBefore(s: string, j: nat, i: nat)
    requires j <= |s| && AllSpace(s[j..|s|]) && i < |s| && !IsSpace(s[i])
    ensures i < j
  {
  }

  /** Whitespace around a text that is trimmed already is all that `trim` removes. */
  lemma TrimPadded(a: string, t: string, b: string)
    requires AllSpace(a) && AllSpace(b)
    requires t != [] && !IsSpace(t[0]) && !IsSpace(t[|t| - 1])
    ensures Trim(a + t + b) == t
  {
    var s := a + t + b;
    assert s[0..|a|] == a;
    assert s[|a|] == t[0];
    SkipSpacesTo(s, 0, |a|);
    assert s[|a| + |t|..|s|] == b;
    assert s[|a| + |t| - 1] == t[|t| - 1];
    SpaceStartTo(s, |a| + |t|, |s|);
    assert s[|a|..|a| + |t|] == t;
  }

  lemma AllSpaceConcat(a: string, b: string)
    ensures AllSpace(a + b) <==> AllSpace(a) && AllSpace(b)
  {
    assert forall k :: 0 <= k < |b| ==> b[k] == (a + b)[|a| + k];
    assert forall k :: 0 <= k < |a| ==> a[k] == (a + b)[k];
  }

  /** Trimming only removes characters. */
  lemma TrimChars(s: string)
    ensures forall c :: c in Trim(s) ==> c in s
  {
    var i := SkipSpaces(s, 0);
    if i < |s| {
      SliceChars(s, i, SpaceStart(s, |s|));
    }
  }

  lemma SliceChars(s: string, i: nat, j: nat)
    requires i <= j <= |s|
    ensures forall c :: c in s[i..j] ==> c in s
  {
    forall c | c in s[i..j] ensures c in s {
      var k :| 0 <= k < j - i && s[i..j][k] == c;
      assert s[i + k] == c;
    }
  }

  /** `s.includes(pat)` */
  predicate Contains(s: string, pat: string)
    decreases |s|
  {
    (|pat| <= |s| && s[..|pat|] == pat) || (s != [] && Contains(s[1..], pat))
  }

  /** The index of the first `c` in `s`, or `|s|` when there is none. */
  function IndexOf(s: string, c: char): (k: nat)
    ensures k <= |s|
    ensures k < |s| ==> s[k] == c
    ensures c !in s[..k]
  {
    if s == [] || s[0] == c then 0 else 1 + IndexOf(s[1..], c)
  }

  /** `s.split(sep)` for a one-character separator. */
  function Split(s: string, sep: char): (r: seq<string>)
    ensures |r| >= 1
    ensures forall k :: 0 <= k < |r| ==> sep !in r[k]
  {
    if s == [] then [""]
    else
      var t := Split(s[1..], sep);
      if s[0] == sep then [""] + t else [[s[0]] + t[0]] + t[1..]
  }

  /** `parts.join(sep)` */
  function Join(parts: seq<string>, sep: char): string {
    if |parts| == 0 then ""
    else if |parts| == 1 then parts[0]
    else parts[0] + [sep] + Join(parts[1..], sep)
  }

  lemma JoinConsChar(c: char, w: string, rest: seq<string>, sep: char)
    ensures Join([[c] + w] + rest, sep) == [c] + Join([w] + rest, sep)
  {
    var ps := [[c] + w] + rest;
    assert ps[1..] == rest;
    assert ([w] + rest)[1..] == rest;
  }

  /** Joining the pieces of a split restores the string. */
  lemma {:induction false} JoinSplit(s: string, sep: char)
    ensures Join(Split(s, sep), sep) == s
  {
    if s != [] {
      var t := Split(s[1..], sep);
      JoinSplit(s[1..], sep);
      if s[0] == sep {
        assert ([""] + t)[1..] == t;
      } else {
        JoinConsChar(s[0], t[0], t[1..], sep);
        assert [t[0]] + t[1..] == t;
      }
    }
  }

  /** Splitting a join of separator-free pieces gives the pieces back. */
  lemma {:induction false} SplitJoin(parts: seq<string>, sep: char)
    requires |parts| >= 1
    requires forall k :: 0 <= k < |parts| ==> sep !in parts[k]
    ensures Split(Join(parts, sep), sep) == parts
  {
    SplitFree(parts[0], sep);
    if |parts| > 1 {
      SplitJoin(parts[1..], sep);
      var rest := Join(parts[1..], sep);
      var tail := [sep] + rest;
      assert Join(parts, sep) == parts[0] + tail;
      SplitCons(sep, rest, sep);
      SplitGlue(parts[0], tail, "", parts[1..], sep);
      assert parts[0] + "" == parts[0];
      assert parts == [parts[0]] + parts[1..];
    }
  }

  /** A string without the separator splits into itself. */
  lemma {:induction false} SplitFree(s: string, sep: char)
    requires sep !in s
    ensures Split(s, sep) == [s]
  {
    if s != [] {
      assert sep !in s[1..];
      SplitFree(s[1..], sep);
      assert s == [s[0]] + s[1..];
    }
  }

  /** `split` of a string given by its first character. */
  lemma SplitCons(c: char, x: string, sep: char)
    ensures var t := Split(x, sep);
      Split([c] + x, sep) == if c == sep then [""] + t else [[c] + t[0]] + t[1..]
  {
    assert ([c] + x)[1..] == x;
  }

  /** How `split` distributes over a concatenation: the last piece of `a` and the first of `b` fuse. */
  lemma {:induction false} SplitConcat(a: string, b: string, sep: char)
    ensures var sa, sb := Split(a, sep), Split(b, sep);
      Split(a + b, sep) == sa[..|sa| - 1] + [sa[|sa| - 1] + sb[0]] + sb[1..]
  {
    var sa, sb := Split(a, sep), Split(b, sep);
    if a == [] {
      assert a + b == b;
      assert sa == [""] && sa[..0] == [];
      assert "" + sb[0] == sb[0];
      assert [sb[0]] + sb[1..] == sb;
    } else {
      var c, a' := a[0], a[1..];
      assert a == [c] + a';
      assert a + b == [c] + (a' + b);
      SplitConcat(a', b, sep);
      SplitCons(c, a', sep);
      SplitCons(c, a' + b, sep);
      var sa' := Split(a', sep);
      var t := Split(a' + b, sep);
      var n := |sa'|;
      assert t == sa'[..n - 1] + [sa'[n - 1] + sb[0]] + sb[1..];
      if c == sep {
        SplitConsSep(sa', t, sb);
      } else if n == 1 {
        SplitConsOne(c, sa', t, sb);
      } else {
        SplitConsMany(c, sa', t, sb);
      }
    }
  }

  /** Gluing `c` before a string whose first piece is `r` changes only that first piece. */
  lemma SplitGlue(c: string, t: string, r: string, v: seq<string>, sep: char)
    requires Split(t, sep) == [r] + v
    ensures Split(c + t, sep) == Split(c + r, sep) + v
  {
    SplitConcat(c, t, sep);
    assert sep !in Split(t, sep)[0];
    SplitFree(r, sep);
    SplitConcat(c, r, sep);
    var sc := Split(c, sep);
    var front := sc[..|sc| - 1] + [sc[|sc| - 1] + r];
    assert Split(c + r, sep) == front + [r][1..];
    assert [r][1..] == [] && front + [] == front;
    assert ([r] + v)[1..] == v;
  }

  lemma SplitConsSep(sa': seq<string>, t: seq<string>, sb: seq<string>)
    requires |sa'| >= 1 && |sb| >= 1
    requires t == sa'[..|sa'| - 1] + [sa'[|sa'| - 1] + sb[0]] + sb[1..]
    ensures var sa := [""] + sa';
      [""] + t == sa[..|sa| - 1] + [sa[|sa| - 1] + sb[0]] + sb[1..]
  {
    var sa := [""] + sa';
    assert sa[..|sa| - 1] == [""] + sa'[..|sa'| - 1];
  }

  lemma SplitConsOne(c: char, sa': seq<string>, t: seq<string>, sb: seq<string>)
    requires |sa'| == 1 && |sb| >= 1
    requires t == sa'[..0] + [sa'[0] + sb[0]] + sb[1..]
    ensures var sa := [[c] + sa'[0]] + sa'[1..];
      [[c] + t[0]] + t[1..] == sa[..|sa| - 1] + [sa[|sa| - 1] + sb[0]] + sb[1..]
  {
    assert t[0] == sa'[0] + sb[0];
    assert t[1..] == sb[1..];
    assert [c] + (sa'[0] + sb[0]) == ([c] + sa'[0]) + sb[0];
  }

  lemma SplitConsMany(c: char, sa': seq<string>, t: seq<string>, sb: seq<string>)
    requires |sa'| > 1 && |sb| >= 1
    requires t == sa'[..|sa'| - 1] + [sa'[|sa'| - 1] + sb[0]] + sb[1..]
    ensures var sa := [[c] + sa'[0]] + sa'[1..];
      [[c] + t[0]] + t[1..] == sa[..|sa| - 1] + [sa[|sa| - 1] + sb[0]] + sb[1..]
  {
    var n := |sa'|;
    var sa := [[c] + sa'[0]] + sa'[1..];
    var mid := sa'[1..n - 1];
    var fused := sa'[n - 1] + sb[0];
    assert sa'[..n - 1] == [sa'[0]] + mid;
    assert t == [sa'[0]] + (mid + [fused] + sb[1..]);
    assert t[1..] == mid + [fused] + sb[1..];
    assert sa[..|sa| - 1] == [[c] + sa'[0]] + mid;
    assert sa[|sa| - 1] == sa'[n - 1];
  }

  /** `c.repeat(n)` */
  function Repeat(c: char, n: nat): (r: string)
    ensures |r| == n && forall k :: 0 <= k < n ==> r[k] == c
  {
    if n == 0 then "" else [c] + Repeat(c, n - 1)
  }

  function DigitChar(d: nat): char
    requires d < 10
  {
    ('0' as int + d) as char
  }

  /** The decimal rendering `${n}` of a non-negative integer, no leading zeros. */
  function NatToString(n: nat): (r: string)
    ensures |r| >= 1 && (forall k :: 0 <= k < |r| ==> IsDigit(r[k]))
    ensures |r| > 1 ==> r[0] != '0'
  {
    if n < 10 then [DigitChar(n)] else NatToString(n / 10) + [DigitChar(n % 10)]
  }

  /** The value of a string of decimal digits. */
  function DigitsValue(s: string): int
    requires forall k :: 0 <= k < |s| ==> IsDigit(s[k])
  {
    if s == [] then 0 else 10 * DigitsValue(s[..|s| - 1]) + (s[|s| - 1] as int - '0' as int)
  }

  /** Reading back the decimal rendering gives the number. */
  lemma {:induction false} NatToStringValue(n: nat)
    ensures DigitsValue(NatToString(n)) == n
  {
    if n >= 10 {
      NatToStringValue(n / 10);
      var r := NatToString(n);
      assert r[..|r| - 1] == NatToString(n / 10);
      assert r[|r| - 1] as int - '0' as int == n % 10;
      assert n == 10 * (n / 10) + n % 10;
    }
  }

  /** The decimal rendering `${i}` of an integer. */
  function IntToString(i: int): (r: string)
    ensures |r| >= 1
    ensures i >= 0 ==> r == NatToString(i)
    ensures i < 0 ==> r == "-" + NatToString(-i)
  {
    if i < 0 then "-" + NatToString(-i) else NatToString(i)
  }

  /** The sequence in reverse order (`Array.prototype.reverse` on a copy). */
  function Reverse<T>(s: seq<T>): (r: seq<T>)
    ensures |r| == |s|
  {
    if s == [] then [] else [s[|s| - 1]] + Reverse(s[..|s| - 1])
  }

  lemma {:induction false} ReverseAt<T>(s: seq<T>, k: nat)
    requires k < |s|
    ensures Reverse(s)[k] == s[|s| - 1 - k]
  {
    if k > 0 {
      ReverseAt(s[..|s| - 1], k - 1);
    }
  }

  lemma {:induction false} ReverseConcat<T>(a: seq<T>, b: seq<T>)
    ensures Reverse(a + b) == Reverse(b) + Reverse(a)
  {
    if b == [] {
      assert a + b == a;
    } else {
      ReverseConcat(a, b[..|b| - 1]);
      assert (a + b)[..|a + b| - 1] == a + b[..|b| - 1];
    }
  }
}
