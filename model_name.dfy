/**
 * The display name of a model, `getQuotaModelName`: a fixed pipeline of six
 * rewrites that turns a raw identifier such as `claude-sonnet-4-5-20250929`
 * into `Sonnet 4.5`.
 */
module ModelName {
  import opened Wrappers
  import opened Text

  const VendorPrefix := "claude-"

  /** Step 1, `/^claude-/`: drop the vendor prefix. */
  function StripVendorPrefix(s: string): string {
    if |VendorPrefix| <= |s| && s[..|VendorPrefix|] == VendorPrefix then s[|VendorPrefix|..] else s
  }

  /** `/-\d{8}$/` matches: a dash and eight digits end the string. */
  predicate HasDateSuffix(s: string) {
    |s| >= 9 && s[|s| - 9] == '-' && forall k :: |s| - 8 <= k < |s| ==> IsDigit(s[k])
  }

  /** Step 2: drop a trailing `-YYYYMMDD`. */
  function StripDateSuffix(s: string): string {
    if HasDateSuffix(s) then s[..|s| - 9] else s
  }

  /** Step 3, `/-/g` to a space. */
  function HyphensToSpaces(s: string): (r: string)
    ensures |r| == |s|
    ensures forall k :: 0 <= k < |s| ==> r[k] == if s[k] == '-' then ' ' else s[k]
  {
    if s == [] then [] else [if s[0] == '-' then ' ' else s[0]] + HyphensToSpaces(s[1..])
  }

  /**
   * Step 4, `/(\d)\s+(\d)/g` to `$1.$2`: matches are taken left to right without
   * overlap, so the second digit of a match cannot start the next one.
   */
  function JoinVersions(s: string): (r: string)
    ensures forall c :: c in r ==> c in s || c == '.'
    decreases |s|
  {
    if s == [] then []
    else
      var j := SkipSpaces(s, 1);
      if IsDigit(s[0]) && 1 < j < |s| && IsDigit(s[j]) then
        assert s[j] in s;
        [s[0], '.', s[j]] + JoinVersions(s[j + 1..])
      else
        [s[0]] + JoinVersions(s[1..])
  }

  /** `(\d)\s+(\d)` matches at `k`: a digit, a run of whitespace, and a digit after the run. */
  predicate VersionPairAt(s: string, k: nat)
    requires k < |s|
  {
    IsDigit(s[k]) && var j := SkipSpaces(s, k + 1); k + 1 < j < |s| && IsDigit(s[j])
  }

  /** Step 4 leaves a text unchanged exactly when the expression matches nowhere in it. */
  lemma {:induction false} JoinVersionsUnchangedIff(s: string)
    ensures JoinVersions(s) == s <==> forall k :: 0 <= k < |s| ==> !VersionPairAt(s, k)
    decreases |s|
  {
    if s != [] {
      if VersionPairAt(s, 0) {
        var j := SkipSpaces(s, 1);
        assert IsSpace(s[1]) by { assert s[1] == s[1..j][0]; }
        assert JoinVersions(s)[1] == '.';
      } else {
        var t := s[1..];
        JoinVersionsUnchangedIff(t);
        assert JoinVersions(s) == [s[0]] + JoinVersions(t);
        assert JoinVersions(s) == s <==> JoinVersions(t) == t by {
          if JoinVersions(s) == s {
            assert JoinVersions(t) == JoinVersions(s)[1..];
          }
        }
        NoPairShift(s);
      }
    }
  }

  /** Past a first character that opens no match, the matches are those of the rest. */
  lemma NoPairShift(s: string)
    requires s != [] && !VersionPairAt(s, 0)
    ensures (forall k :: 0 <= k < |s| ==> !VersionPairAt(s, k)) <==> (forall k :: 0 <= k < |s[1..]| ==> !VersionPairAt(s[1..], k))
  {
    var t := s[1..];
    if forall k :: 0 <= k < |t| ==> !VersionPairAt(t, k) {
      forall k | 0 <= k < |s| ensures !VersionPairAt(s, k) {
        if k > 0 {
          PairAtShift(s, k);
          assert !VersionPairAt(t, k - 1);
        }
      }
    }
    if forall k :: 0 <= k < |s| ==> !VersionPairAt(s, k) {
      forall k | 0 <= k < |t| ensures !VersionPairAt(t, k) {
        PairAtShift(s, k + 1);
        assert !VersionPairAt(s, k + 1);
      }
    }
  }

  lemma PairAtShift(s: string, k: nat)
    requires 1 <= k < |s|
    ensures VersionPairAt(s, k) <==> VersionPairAt(s[1..], k - 1)
  {
    SkipSpacesShift(s, k + 1);
    assert s[k] == s[1..][k - 1];
    var j := SkipSpaces(s, k + 1);
    if j < |s| {
      assert s[j] == s[1..][j - 1];
    }
  }

  /** Skipping whitespace in `s` from `i` is skipping it in `s[1..]` from `i - 1`. */
  lemma {:induction false} SkipSpacesShift(s: string, i: nat)
    requires 1 <= i <= |s|
    ensures SkipSpaces(s, i) == 1 + SkipSpaces(s[1..], i - 1)
    decreases |s| - i
  {
    if i < |s| && IsSpace(s[i]) {
      SkipSpacesShift(s, i + 1);
    }
  }

  /** Step 5: everything from the first `·` on is cut and the rest trimmed. */
  function CutMarketingSuffix(s: string): (r: string)
    ensures '·' !in r
    ensures forall c :: c in r ==> c in s
    ensures '·' !in s ==> r == s
  {
    if '·' in s then
      var k := IndexOf(s, '·');
      TrimChars(s[..k]);
      SliceChars(s, 0, k);
      Trim(s[..k])
    else s
  }

  /**
   * With a `·`, step 5 keeps what precedes the first one, but for the
   * whitespace at its two ends.
   */
  lemma CutBeforeDelimiter(s: string)
    requires '·' in s
    ensures var k := IndexOf(s, '·');
      exists i, j :: 0 <= i <= j <= k && CutMarketingSuffix(s) == s[i..j] && AllSpace(s[..i]) && AllSpace(s[j..k])
    ensures var r := CutMarketingSuffix(s); r != [] ==> !IsSpace(r[0]) && !IsSpace(r[|r| - 1])
  {
    var k := IndexOf(s, '·');
    var p := s[..k];
    assert CutMarketingSuffix(s) == Trim(p);
    assert Trim(p) != [] ==> !IsSpace(Trim(p)[0]) && !IsSpace(Trim(p)[|Trim(p)| - 1]);
    assert exists i, j :: 0 <= i <= j <= k && Trim(p) == s[i..j] && AllSpace(s[..i]) && AllSpace(s[j..k]) by {
      TrimIsSlice(p);
      var i, j :| 0 <= i <= j <= |p| && Trim(p) == p[i..j] && AllSpace(p[..i]) && AllSpace(p[j..]);
      SlicesOfPrefix(s, k, i, j);
    }
  }

  lemma SlicesOfPrefix(s: string, k: nat, i: nat, j: nat)
    requires i <= j <= k <= |s|
    ensures s[..k][i..j] == s[i..j] && s[..k][..i] == s[..i] && s[..k][j..] == s[j..k]
  {
  }

  /** `toUpperCase` on a single character, for the ASCII letters. */
  function Upper(c: char): char {
    if 'a' <= c <= 'z' then (c as int - 32) as char else c
  }

  /** `word.charAt(0).toUpperCase() + word.slice(1)` */
  function Capitalize(w: string): string {
    if w == [] then [] else [Upper(w[0])] + w[1..]
  }

  function CapitalizeAll(ws: seq<string>): (r: seq<string>)
    ensures |r| == |ws|
  {
    if ws == [] then [] else [Capitalize(ws[0])] + CapitalizeAll(ws[1..])
  }

  /** Step 6: `split(' ')`, capitalise each word, `join(' ')`. */
  function TitleCase(s: string): string {
    Join(CapitalizeAll(Split(s, ' ')), ' ')
  }

  /** `getQuotaModelName` */
  function QuotaModelName(raw: string): string {
    TitleCase(CutMarketingSuffix(JoinVersions(HyphensToSpaces(StripDateSuffix(StripVendorPrefix(raw))))))
  }

  /**
   * Reference rule for step 6: a character is capitalised exactly when it opens
   * the text (`atStart`) or follows a space.
   */
  function CapitalizeWords(s: string, atStart: bool): (r: string)
    ensures |r| == |s|
  {
    if s == [] then [] else [if atStart then Upper(s[0]) else s[0]] + CapitalizeWords(s[1..], s[0] == ' ')
  }

  /** The word-wise `split`/`map`/`join` of step 6 is the character rule of CapitalizeWords. */
  lemma TitleCaseIsCapitalizeWords(s: string)
    ensures TitleCase(s) == CapitalizeWords(s, true)
  {
    TitleCaseRule(s);
  }

  lemma {:induction false} TitleCaseRule(s: string)
    ensures Join(CapitalizeAll(Split(s, ' ')), ' ') == CapitalizeWords(s, true)
    ensures var ws := Split(s, ' '); Join([ws[0]] + CapitalizeAll(ws[1..]), ' ') == CapitalizeWords(s, false)
    decreases |s|
  {
    if s != [] {
      var c, t := s[0], Split(s[1..], ' ');
      TitleCaseRule(s[1..]);
      var ws := Split(s, ' ');
      if c == ' ' {
        assert ws == [""] + t;
        assert CapitalizeAll(ws) == [""] + CapitalizeAll(t);
        assert [ws[0]] + CapitalizeAll(ws[1..]) == [""] + CapitalizeAll(t);
        assert ([""] + CapitalizeAll(t))[1..] == CapitalizeAll(t);
      } else {
        assert ws == [[c] + t[0]] + t[1..];
        assert ws[1..] == t[1..];
        assert CapitalizeAll(ws) == [[Upper(c)] + t[0]] + CapitalizeAll(t[1..]);
        JoinConsChar(Upper(c), t[0], CapitalizeAll(t[1..]), ' ');
        JoinConsChar(c, t[0], CapitalizeAll(t[1..]), ' ');
      }
    }
  }

  /** CapitalizeWords only changes lower-case letters, so a character that is no capital letter stays absent. */
  lemma {:induction false} CapitalizeWordsAvoids(s: string, atStart: bool, ch: char)
    requires ch !in s && !('A' <= ch <= 'Z')
    ensures ch !in CapitalizeWords(s, atStart)
  {
    if s != [] {
      assert ch !in s[1..];
      CapitalizeWordsAvoids(s[1..], s[0] == ' ', ch);
    }
  }

  /** The display name never holds a dash, nor the marketing delimiter `·`. */
  lemma NameHasNoDashOrDelimiter(raw: string)
    ensures '-' !in QuotaModelName(raw) && '·' !in QuotaModelName(raw)
  {
    var a := HyphensToSpaces(StripDateSuffix(StripVendorPrefix(raw)));
    assert '-' !in a;
    var b := JoinVersions(a);
    var c := CutMarketingSuffix(b);
    TitleCaseIsCapitalizeWords(c);
    CapitalizeWordsAvoids(c, true, '-');
    CapitalizeWordsAvoids(c, true, '·');
  }

  /**
   * The normaliser is not idempotent: step 4 does not reuse the digit a match
   * consumed, so `x-1-2-3` keeps a version pair that a second pass joins.
   */
  lemma NotIdempotent()
    ensures QuotaModelName("x-1-2-3") == "X 1.2 3"
    ensures QuotaModelName("X 1.2 3") == "X 1.2.3"
  {
    FirstPass('x', '1', '2', '3');
    SecondPass('X', '1', '2', '3');
  }

  /** `<x>-<a>-<b>-<c>` becomes `<X> <a>.<b> <c>`: the `b` joined to `a` cannot join `c`. */
  lemma FirstPass(x: char, a: char, b: char, c: char)
    requires !IsDigit(x) && !IsSpace(x) && x != '-' && x != '·'
    requires IsDigit(a) && IsDigit(b) && IsDigit(c)
    ensures QuotaModelName([x, '-', a, '-', b, '-', c]) == [Upper(x), ' ', a, '.', b, ' ', c]
  {
    var raw := [x, '-', a, '-', b, '-', c];
    assert raw[..|VendorPrefix|] != VendorPrefix by { assert raw[1] != VendorPrefix[1]; }
    assert StripDateSuffix(StripVendorPrefix(raw)) == raw;
    assert HyphensToSpaces(raw) == [x, ' ', a, ' ', b, ' ', c];
    FirstJoin(x, a, b, c);
    TitleOfVersions(x, a, b, ' ', c);
  }

  lemma FirstJoin(x: char, a: char, b: char, c: char)
    requires !IsDigit(x) && IsDigit(a) && IsDigit(b) && IsDigit(c)
    ensures JoinVersions([x, ' ', a, ' ', b, ' ', c]) == [x, ' ', a, '.', b, ' ', c]
  {
    FirstShapes(x, a, b, c);
    JoinVersionsLast(c);
    JoinVersionsDigitFree([' '], [c]);
    JoinVersionsPair(a, b, [' ', c]);
    JoinVersionsDigitFree([x, ' '], [a, ' ', b] + [' ', c]);
  }

  lemma FirstShapes(x: char, a: char, b: char, c: char)
    ensures [x, ' ', a, ' ', b, ' ', c] == [x, ' '] + ([a, ' ', b] + [' ', c])
    ensures [x, ' '] + ([a, '.', b] + [' ', c]) == [x, ' ', a, '.', b, ' ', c]
    ensures [' '] + [c] == [' ', c]
  {
  }

  lemma JoinVersionsLast(c: char)
    ensures JoinVersions([c]) == [c]
  {
    assert SkipSpaces([c], 1) == 1;
    assert [c][1..] == [];
  }

  /** A second pass over `<X> <a>.<b> <c>` joins `<b> <c>` as well. */
  lemma SecondPass(x: char, a: char, b: char, c: char)
    requires !IsDigit(x) && !IsSpace(x) && x != '-' && x != '·'
    requires IsDigit(a) && IsDigit(b) && IsDigit(c)
    ensures QuotaModelName([x, ' ', a, '.', b, ' ', c]) == [Upper(x), ' ', a, '.', b, '.', c]
  {
    var once := [x, ' ', a, '.', b, ' ', c];
    assert once[..|VendorPrefix|] != VendorPrefix by { assert once[1] != VendorPrefix[1]; }
    assert StripDateSuffix(StripVendorPrefix(once)) == once;
    HyphensToSpacesNoDash(once);
    SecondJoin(x, a, b, c);
    TitleOfVersions(x, a, b, '.', c);
  }

  lemma SecondJoin(x: char, a: char, b: char, c: char)
    requires !IsDigit(x) && IsDigit(a) && IsDigit(b) && IsDigit(c)
    ensures JoinVersions([x, ' ', a, '.', b, ' ', c]) == [x, ' ', a, '.', b, '.', c]
  {
    SecondShapes(x, a, b, c);
    JoinVersionsPair(b, c, []);
    JoinVersionsDigitFree(['.'], [b, ' ', c]);
    JoinAfterDigit(a, ['.'] + [b, ' ', c]);
    JoinVersionsDigitFree([x, ' '], [a] + (['.'] + [b, ' ', c]));
  }

  lemma SecondShapes(x: char, a: char, b: char, c: char)
    ensures [x, ' ', a, '.', b, ' ', c] == [x, ' '] + ([a] + (['.'] + [b, ' ', c]))
    ensures [x, ' '] + ([a] + (['.'] + ([b, '.', c] + []))) == [x, ' ', a, '.', b, '.', c]
    ensures [b, ' ', c] + [] == [b, ' ', c]
  {
  }

  /** A digit followed by no whitespace passes step 4 unchanged. */
  lemma JoinAfterDigit(a: char, t: string)
    requires t != [] && !IsSpace(t[0])
    ensures JoinVersions([a] + t) == [a] + JoinVersions(t)
  {
    var s := [a] + t;
    assert s[1] == t[0];
    assert SkipSpaces(s, 1) == 1;
    assert s[1..] == t;
  }

  /** Steps 5 and 6 on `<x> <a>.<b><q><c>`: only `x` is capitalised. */
  lemma TitleOfVersions(x: char, a: char, b: char, q: char, c: char)
    requires !IsSpace(x) && x != '·' && IsDigit(a) && IsDigit(b) && IsDigit(c) && (q == ' ' || q == '.')
    ensures TitleCase(CutMarketingSuffix([x, ' ', a, '.', b, q, c])) == [Upper(x), ' ', a, '.', b, q, c]
  {
    var s := [x, ' ', a, '.', b, q, c];
    assert '·' !in s;
    assert CutMarketingSuffix(s) == s;
    TitleCaseIsCapitalizeWords(s);
    var r := [a, '.', b, q, c];
    TitleShapes(x, a, b, q, c);
    CapitalizeWordsConcat([x, ' '], r, true);
    CapitalizeVersion(a, b, q, c);
    CapitalizeHead(x);
  }

  lemma TitleShapes(x: char, a: char, b: char, q: char, c: char)
    ensures [x, ' ', a, '.', b, q, c] == [x, ' '] + [a, '.', b, q, c]
    ensures [Upper(x), ' '] + [a, '.', b, q, c] == [Upper(x), ' ', a, '.', b, q, c]
  {
  }

  lemma CapitalizeHead(x: char)
    ensures CapitalizeWords([x, ' '], true) == [Upper(x), ' ']
  {
    assert [x, ' '][1..] == [' '];
  }

  /** `<a>.<b><q><c>` holds no lower-case letter: CapitalizeWords keeps it. */
  lemma CapitalizeVersion(a: char, b: char, q: char, c: char)
    requires IsDigit(a) && IsDigit(b) && IsDigit(c) && (q == ' ' || q == '.')
    ensures CapitalizeWords([a, '.', b, q, c], true) == [a, '.', b, q, c]
  {
    assert Upper(a) == a && Upper(c) == c;
    assert CapitalizeWords([c], q == ' ') == [c];
    assert CapitalizeWords([q, c], false) == [q, c];
    assert CapitalizeWords([b, q, c], false) == [b, q, c];
    assert CapitalizeWords(['.', b, q, c], false) == ['.', b, q, c];
  }

  /** CapitalizeWords over a concatenation: the second part starts after the first one's last character. */
  lemma {:induction false} CapitalizeWordsConcat(a: string, b: string, atStart: bool)
    ensures CapitalizeWords(a + b, atStart)
         == CapitalizeWords(a, atStart) + CapitalizeWords(b, if a == [] then atStart else a[|a| - 1] == ' ')
  {
    if a == [] {
      assert a + b == b;
    } else {
      assert (a + b)[1..] == a[1..] + b;
      CapitalizeWordsConcat(a[1..], b, a[0] == ' ');
    }
  }

  /** Without spaces only the opening character can change. */
  lemma {:induction false} CapitalizeWordsOneWord(w: string, atStart: bool)
    requires ' ' !in w
    ensures CapitalizeWords(w, atStart) == if atStart then Capitalize(w) else w
  {
    if w != [] {
      assert ' ' !in w[1..];
      CapitalizeWordsOneWord(w[1..], false);
    }
  }

  lemma {:induction false} HyphensToSpacesConcat(a: string, b: string)
    ensures HyphensToSpaces(a + b) == HyphensToSpaces(a) + HyphensToSpaces(b)
  {
    if a != [] {
      assert (a + b)[1..] == a[1..] + b;
      HyphensToSpacesConcat(a[1..], b);
    }
  }

  /** A stretch without digits passes step 4 unchanged. */
  lemma {:induction false} JoinVersionsDigitFree(p: string, q: string)
    requires forall k :: 0 <= k < |p| ==> !IsDigit(p[k])
    ensures JoinVersions(p + q) == p + JoinVersions(q)
  {
    if p != [] {
      var s := p + q;
      assert s[0] == p[0] && !IsDigit(p[0]);
      assert s[1..] == p[1..] + q;
      JoinVersionsDigitFree(p[1..], q);
      assert JoinVersions(s) == [p[0]] + JoinVersions(s[1..]);
      assert p + JoinVersions(q) == [p[0]] + (p[1..] + JoinVersions(q));
    } else {
      assert p + q == q;
    }
  }

  /** A family name as the vendor writes it: no dash, whitespace, digit or `·`. */
  predicate IsFamilyName(name: string) {
    name != [] && forall k :: 0 <= k < |name| ==>
      name[k] != '-' && !IsSpace(name[k]) && !IsDigit(name[k]) && name[k] != '·'
  }

  predicate IsDateStamp(date: string) {
    |date| == 8 && forall k :: 0 <= k < 8 ==> IsDigit(date[k])
  }

  /** The identifier `claude-<name>-<major>-<minor>`. */
  function VersionedId(name: string, major: char, minor: char): string {
    VendorPrefix + name + "-" + [major] + "-" + [minor]
  }

  lemma StripVendor(x: string)
    ensures StripVendorPrefix(VendorPrefix + x) == x
  {
    assert (VendorPrefix + x)[..|VendorPrefix|] == VendorPrefix;
  }

  /** A date suffix cannot reach back across a space. */
  lemma StripDateAfterSpace(p: string, x: string)
    requires p != [] && p[|p| - 1] == ' '
    ensures StripDateSuffix(p + x) == p + StripDateSuffix(x)
  {
    var s := p + x;
    if HasDateSuffix(s) {
      assert |s| - 9 >= |p| by {
        assert s[|p| - 1] == ' ';
        assert !IsDigit(s[|p| - 1]);
      }
      assert forall k :: |x| - 8 <= k < |x| ==> x[k] == s[|p| + k];
      assert HasDateSuffix(x);
      assert s[..|s| - 9] == p + x[..|x| - 9];
    } else {
      assert !HasDateSuffix(x);
    }
  }

  /** Steps 1 to 3 on `claude-<name>-<major>-<minor>` followed by `rest0`, which step 2 turns into `rest`. */
  lemma VersionedSpaced(name: string, major: char, minor: char, rest0: string, rest: string)
    requires IsFamilyName(name) && IsDigit(major) && IsDigit(minor)
    requires StripDateSuffix(name + "-" + [major] + "-" + [minor] + rest0) == name + "-" + [major] + "-" + [minor] + rest
    ensures HyphensToSpaces(StripDateSuffix(StripVendorPrefix(VersionedId(name, major, minor) + rest0)))
         == name + [' ', major, ' ', minor] + HyphensToSpaces(rest)
  {
    var core := name + "-" + [major] + "-" + [minor];
    assert VersionedId(name, major, minor) + rest0 == VendorPrefix + (core + rest0);
    StripVendor(core + rest0);
    HyphensToSpacesConcat(core, rest);
    VersionedHyphens(name, major, minor);
  }

  lemma VersionedHyphens(name: string, major: char, minor: char)
    requires IsFamilyName(name) && IsDigit(major) && IsDigit(minor)
    ensures HyphensToSpaces(name + "-" + [major] + "-" + [minor]) == name + [' ', major, ' ', minor]
  {
    var v := "-" + [major] + "-" + [minor];
    assert name + "-" + [major] + "-" + [minor] == name + v;
    HyphensToSpacesConcat(name, v);
    HyphensToSpacesNoDash(name);
    assert HyphensToSpaces(v) == [' ', major, ' ', minor];
  }

  lemma HyphensToSpacesNoDash(s: string)
    requires '-' !in s
    ensures HyphensToSpaces(s) == s
  {
  }

  /** Step 4 joins the version digits and leaves what follows to itself. */
  lemma VersionedJoined(name: string, major: char, minor: char, h: string)
    requires IsFamilyName(name) && IsDigit(major) && IsDigit(minor)
    ensures JoinVersions(name + [' ', major, ' ', minor] + h) == name + " " + [major, '.', minor] + JoinVersions(h)
  {
    var tail := [major, ' ', minor] + h;
    assert name + [' ', major, ' ', minor] + h == (name + [' ']) + tail;
    JoinVersionsDigitFree(name + [' '], tail);
    JoinVersionsPair(major, minor, h);
  }

  /** `<major> <minor>` is fused into `<major>.<minor>`. */
  lemma JoinVersionsPair(major: char, minor: char, h: string)
    requires IsDigit(major) && IsDigit(minor)
    ensures JoinVersions([major, ' ', minor] + h) == [major, '.', minor] + JoinVersions(h)
  {
    var tail := [major, ' ', minor] + h;
    assert tail[1..2] == [' '];
    SkipSpacesTo(tail, 1, 2);
    assert tail[3..] == h;
  }

  /** Step 6 on `<name> <major>.<minor>`. */
  lemma VersionedTitle(name: string, major: char, minor: char)
    requires IsFamilyName(name) && IsDigit(major) && IsDigit(minor)
    ensures TitleCase(name + " " + [major, '.', minor]) == Capitalize(name) + " " + [major, '.', minor]
  {
    var v := [major, '.', minor];
    var joined := name + " " + v;
    TitleCaseIsCapitalizeWords(joined);
    assert CapitalizeWords(name, true) == Capitalize(name) by {
      assert ' ' !in name;
      CapitalizeWordsOneWord(name, true);
    }
    assert CapitalizeWords(" " + v, false) == " " + v by {
      CapitalizeWordsConcat(" ", v, false);
      assert ' ' !in v;
      CapitalizeWordsOneWord(v, true);
      assert Capitalize(v) == v;
      assert CapitalizeWords(" ", false) == " ";
    }
    assert joined == name + (" " + v);
    assert name[|name| - 1] != ' ';
    CapitalizeWordsConcat(name, " " + v, true);
  }

  /** Step 2 on a versioned identifier: only a real `-YYYYMMDD` is dropped. */
  lemma VersionedDate(name: string, major: char, minor: char, date: string)
    requires IsDigit(major) && IsDigit(minor)
    requires date == [] || IsDateStamp(date)
    ensures var core := name + "-" + [major] + "-" + [minor];
      StripDateSuffix(core + (if date == [] then [] else "-" + date)) == core + []
  {
    var core := name + "-" + [major] + "-" + [minor];
    assert core[|core| - 2] == '-';
    assert core + [] == core;
    if date == [] {
      assert !HasDateSuffix(core);
    } else {
      var s := core + ("-" + date);
      assert s[|s| - 9] == '-';
      assert forall k :: |s| - 8 <= k < |s| ==> s[k] == date[k - |s| + 8];
      assert HasDateSuffix(s);
      assert s[..|s| - 9] == core;
    }
  }

  /**
   * `claude-<name>-<major>-<minor>`, with or without a `-YYYYMMDD` date, becomes
   * the capitalised name and `<major>.<minor>`.
   */
  lemma VersionedIdName(name: string, major: char, minor: char, date: string)
    requires IsFamilyName(name) && IsDigit(major) && IsDigit(minor)
    requires date == [] || IsDateStamp(date)
    ensures QuotaModelName(VersionedId(name, major, minor) + (if date == [] then [] else "-" + date))
         == Capitalize(name) + " " + [major, '.', minor]
  {
    var raw := VersionedId(name, major, minor) + (if date == [] then [] else "-" + date);
    VersionedDate(name, major, minor, date);
    VersionedSpaced(name, major, minor, if date == [] then [] else "-" + date, []);
    var spaced := name + [' ', major, ' ', minor];
    assert HyphensToSpaces(StripDateSuffix(StripVendorPrefix(raw))) == spaced + [];
    assert spaced + [] == spaced;
    VersionedFinish(name, major, minor);
  }

  /** Steps 4 to 6 on `<name> <major> <minor>`. */
  lemma VersionedFinish(name: string, major: char, minor: char)
    requires IsFamilyName(name) && IsDigit(major) && IsDigit(minor)
    ensures TitleCase(CutMarketingSuffix(JoinVersions(name + [' ', major, ' ', minor])))
         == Capitalize(name) + " " + [major, '.', minor]
  {
    VersionedJoined(name, major, minor, []);
    var joined := name + " " + [major, '.', minor];
    assert name + [' ', major, ' ', minor] + [] == name + [' ', major, ' ', minor];
    assert joined + [] == joined;
    assert '·' !in joined;
    VersionedTitle(name, major, minor);
  }

  lemma IndexOfAfter(p: string, c: char, q: string)
    requires c !in p
    ensures IndexOf(p + [c] + q, c) == |p|
  {
    if p != [] {
      assert (p + [c] + q)[1..] == p[1..] + [c] + q;
      IndexOfAfter(p[1..], c, q);
    }
  }

  /** Step 5 on `<text>` + ` · ` + anything, where `<text>` has no `·` and no whitespace at its ends. */
  lemma CutAtDelimiter(text: string, rest: string)
    requires text != [] && !IsSpace(text[0]) && !IsSpace(text[|text| - 1]) && '·' !in text
    ensures CutMarketingSuffix(text + " · " + rest) == text
  {
    var s := text + " · " + rest;
    assert s == (text + " ") + ['·'] + (" " + rest);
    assert '·' !in text + " ";
    IndexOfAfter(text + " ", '·', " " + rest);
    assert s[..|text| + 1] == text + " ";
    assert [] + text + " " == text + " ";
    TrimPadded([], text, " ");
  }

  /**
   * A marketing suffix after ` · ` is dropped whatever it holds:
   * `claude-<name>-<major>-<minor> · <anything>` becomes the capitalised name and `<major>.<minor>`.
   */
  lemma MarketingSuffixDropped(name: string, major: char, minor: char, suffix: string)
    requires IsFamilyName(name) && IsDigit(major) && IsDigit(minor)
    ensures QuotaModelName(VersionedId(name, major, minor) + " · " + suffix)
         == Capitalize(name) + " " + [major, '.', minor]
  {
    MarketingVersions(name, major, minor, suffix);
    MarketingCut(name, major, minor, JoinVersions(HyphensToSpaces(StripDateSuffix(suffix))));
  }

  /** Steps 1 to 4 with a marketing suffix. */
  lemma MarketingVersions(name: string, major: char, minor: char, suffix: string)
    requires IsFamilyName(name) && IsDigit(major) && IsDigit(minor)
    ensures JoinVersions(HyphensToSpaces(StripDateSuffix(StripVendorPrefix(VersionedId(name, major, minor) + " · " + suffix))))
         == name + " " + [major, '.', minor] + " · " + JoinVersions(HyphensToSpaces(StripDateSuffix(suffix)))
  {
    MarketingSpaced(name, major, minor, suffix);
    MarketingJoined(name, major, minor, HyphensToSpaces(StripDateSuffix(suffix)));
  }

  /** Steps 5 and 6 drop whatever follows the delimiter. */
  lemma MarketingCut(name: string, major: char, minor: char, x: string)
    requires IsFamilyName(name) && IsDigit(major) && IsDigit(minor)
    ensures TitleCase(CutMarketingSuffix(name + " " + [major, '.', minor] + " · " + x))
         == Capitalize(name) + " " + [major, '.', minor]
  {
    var joined := name + " " + [major, '.', minor];
    assert '·' !in joined;
    CutAtDelimiter(joined, x);
    VersionedTitle(name, major, minor);
  }

  /** Steps 1 to 3 with a marketing suffix: only the suffix can lose a date. */
  lemma MarketingSpaced(name: string, major: char, minor: char, suffix: string)
    requires IsFamilyName(name) && IsDigit(major) && IsDigit(minor)
    ensures HyphensToSpaces(StripDateSuffix(StripVendorPrefix(VersionedId(name, major, minor) + " · " + suffix)))
         == name + [' ', major, ' ', minor] + (" · " + HyphensToSpaces(StripDateSuffix(suffix)))
  {
    var core := name + "-" + [major] + "-" + [minor];
    var t1 := StripDateSuffix(suffix);
    var rest0, rest := " · " + suffix, " · " + t1;
    assert VersionedId(name, major, minor) + " · " + suffix == VersionedId(name, major, minor) + rest0;
    StripDateAfterSpace(core + " ", "· " + suffix);
    StripDateAfterSpace("· ", suffix);
    assert core + rest0 == (core + " ") + ("· " + suffix);
    assert core + rest == (core + " ") + ("· " + t1);
    VersionedSpaced(name, major, minor, rest0, rest);
    HyphensToSpacesConcat(" · ", t1);
    assert HyphensToSpaces(" · ") == " · ";
  }

  /** Step 4 with a marketing suffix: the delimiter holds no digit. */
  lemma MarketingJoined(name: string, major: char, minor: char, h: string)
    requires IsFamilyName(name) && IsDigit(major) && IsDigit(minor)
    ensures JoinVersions(name + [' ', major, ' ', minor] + (" · " + h))
         == name + " " + [major, '.', minor] + " · " + JoinVersions(h)
  {
    VersionedJoined(name, major, minor, " · " + h);
    DelimiterJoin(h);
    var joined := name + " " + [major, '.', minor];
    assert joined + (" · " + JoinVersions(h)) == joined + " · " + JoinVersions(h);
  }

  lemma DelimiterJoin(h: string)
    ensures JoinVersions(" · " + h) == " · " + JoinVersions(h)
  {
    JoinVersionsDigitFree(" · ", h);
  }

  /** The identifiers the suite pins down. */
  lemma SonnetName()
    ensures QuotaModelName("claude-sonnet-4-5-20250929") == "Sonnet 4.5"
  {
    SonnetId();
    VersionedIdName("sonnet", '4', '5', "20250929");
    SonnetDisplay();
  }

  lemma OpusName()
    ensures QuotaModelName("claude-opus-4-5-20251101") == "Opus 4.5"
  {
    OpusId();
    VersionedIdName("opus", '4', '5', "20251101");
    OpusDisplay();
  }

  lemma HaikuName()
    ensures QuotaModelName("claude-haiku-4-5") == "Haiku 4.5"
  {
    HaikuId();
    VersionedIdName("haiku", '4', '5', "");
    HaikuDisplay();
  }

  lemma SonnetUndatedName()
    ensures QuotaModelName("claude-sonnet-4-5") == "Sonnet 4.5"
  {
    SonnetUndatedId();
    VersionedIdName("sonnet", '4', '5', "");
    SonnetDisplay();
  }

  lemma SonnetWithMarketingSuffix()
    ensures QuotaModelName("claude-sonnet-4-5 · Best For Everyday Tasks") == "Sonnet 4.5"
  {
    SonnetId();
    SonnetMarketingId();
    MarketingSuffixDropped("sonnet", '4', '5', "Best For Everyday Tasks");
    SonnetDisplay();
  }

  lemma SonnetId()
    ensures IsFamilyName("sonnet") && IsDateStamp("20250929")
    ensures VersionedId("sonnet", '4', '5') + (if "20250929" == [] then [] else "-" + "20250929")
         == "claude-sonnet-4-5-20250929"
  {
  }

  lemma OpusId()
    ensures IsFamilyName("opus") && IsDateStamp("20251101")
    ensures VersionedId("opus", '4', '5') + (if "20251101" == [] then [] else "-" + "20251101")
         == "claude-opus-4-5-20251101"
  {
  }

  lemma HaikuId()
    ensures IsFamilyName("haiku")
    ensures VersionedId("haiku", '4', '5') + (if "" == [] then [] else "-" + "") == "claude-haiku-4-5"
  {
  }

  lemma SonnetUndatedId()
    ensures IsFamilyName("sonnet")
    ensures VersionedId("sonnet", '4', '5') + (if "" == [] then [] else "-" + "") == "claude-sonnet-4-5"
  {
  }

  lemma SonnetMarketingId()
    ensures VersionedId("sonnet", '4', '5') + " · " + "Best For Everyday Tasks"
         == "claude-sonnet-4-5 · Best For Everyday Tasks"
  {
    assert VersionedId("sonnet", '4', '5') == "claude-sonnet-4-5";
    assert "claude-sonnet-4-5" + " · " + "Best For Everyday Tasks" == "claude-sonnet-4-5 · Best For Everyday Tasks";
  }

  lemma SonnetDisplay()
    ensures Capitalize("sonnet") + " " + ['4', '.', '5'] == "Sonnet 4.5"
  {
  }

  lemma OpusDisplay()
    ensures Capitalize("opus") + " " + ['4', '.', '5'] == "Opus 4.5"
  {
  }

  lemma HaikuDisplay()
    ensures Capitalize("haiku") + " " + ['4', '.', '5'] == "Haiku 4.5"
  {
  }
}
