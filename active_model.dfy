/**
 * The tail of `getActiveModelFromProjectLogs`: once the newest log of the
 * current project has been read, its lines are searched newest first for the
 * output of a model switch, `Set model to <name> (<id>)`, and the id, or else
 * the name, is rendered by the model-name normaliser.
 */
module ActiveModel {
  import opened Wrappers
  import opened Text
  import opened LogEntry
  import opened ModelName

  /** The text `includes` looks for and the regular expression starts with. */
  const Marker := "Set model to"

  /** The `/i` comparison of two characters: the ASCII letters fold together. */
  predicate SameIgnoringCase(a: char, b: char) {
    Upper(a) == Upper(b)
  }

  /** The two texts agree character by character, ignoring case. */
  predicate EqualIgnoringCase(a: string, b: string)
    decreases |a|
  {
    |a| == |b| && (a == [] || (SameIgnoringCase(a[0], b[0]) && EqualIgnoringCase(a[1..], b[1..])))
  }

  /** `Set model to`, ignoring case, starts at `p`. */
  predicate MarkerAt(s: string, p: nat) {
    p + |Marker| <= |s| && EqualIgnoringCase(s[p..p + |Marker|], Marker)
  }

  predicate IsParen(c: char) {
    c == '(' || c == ')'
  }

  /** Some `)` at or after `i`. */
  predicate ClosesAfter(s: string, i: nat) {
    exists k :: i <= k < |s| && s[k] == ')'
  }

  /**
   * Where one match of `/Set model to\s+([^\(\)]+)(?:\(([^)]+)\))?/i` lies:
   * the marker at `at`, group 1 as `s[start..end]` and, when the optional part
   * took part, group 2 as `s[end + 1..close]`.
   */
  datatype Span = Span(at: nat, start: nat, end: nat, close: Option<nat>)

  /**
   * The match the backtracking engine settles on at `m.at`: `\s+` runs as far
   * as it can and gives back its last character only when group 1 could not
   * start otherwise, group 1 takes every character up to the next parenthesis,
   * and the parenthesised part is taken whenever it can be.
   */
  predicate IsMatchAt(s: string, m: Span) {
    var q := m.at + |Marker|;
    MarkerAt(s, m.at) &&
    q < m.start < m.end <= |s| &&
    AllSpace(s[q..m.start]) &&
    (IsSpace(s[m.start]) ==> m.end == m.start + 1) &&
    GroupsFrom(s, m)
  }

  /** Group 1 runs from `m.start` to the next parenthesis; the optional part follows it. */
  predicate GroupsFrom(s: string, m: Span) {
    (forall k :: m.start <= k < m.end && k < |s| ==> !IsParen(s[k])) &&
    (m.end < |s| ==> IsParen(s[m.end])) &&
    OptionalPart(s, m.end, m.close)
  }

  /** `(?:\(([^)]+)\))?` at `end`, taken when it can be: `(`, at least one character but `)`, then `)`. */
  predicate OptionalPart(s: string, end: nat, close: Option<nat>) {
    match close
    case Some(c) =>
      end + 1 < c < |s| && s[end] == '(' && s[c] == ')' &&
      forall k :: end < k < c ==> s[k] != ')'
    case None =>
      !(end + 1 < |s| && s[end] == '(' && s[end + 1] != ')' && ClosesAfter(s, end + 2))
  }

  /** The marker, then a whitespace character, then something group 1 can start with. */
  predicate CanMatchAt(s: string, p: nat) {
    var q := p + |Marker|;
    MarkerAt(s, p) && q + 1 < |s| && IsSpace(s[q]) && !IsParen(s[q + 1])
  }

  /** The first parenthesis at or after `i`, or `|s|`. */
  function FirstParen(s: string, i: nat): (j: nat)
    requires i <= |s|
    ensures i <= j <= |s|
    ensures forall k :: i <= k < j ==> !IsParen(s[k])
    ensures j < |s| ==> IsParen(s[j])
    decreases |s| - i
  {
    if i < |s| && !IsParen(s[i]) then FirstParen(s, i + 1) else i
  }

  /** The first `)` at or after `i`, or `|s|`. */
  function FirstClose(s: string, i: nat): (j: nat)
    requires i <= |s|
    ensures i <= j <= |s|
    ensures forall k :: i <= k < j ==> s[k] != ')'
    ensures j < |s| ==> s[j] == ')'
    decreases |s| - i
  {
    if i < |s| && s[i] != ')' then FirstClose(s, i + 1) else i
  }

  /** Where group 1 starts: after the whitespace run, or on its last character when a parenthesis or the end follows the run. */
  function GroupStart(s: string, p: nat): (start: nat)
    requires CanMatchAt(s, p)
    ensures var q := p + |Marker|; q < start < |s| && !IsParen(s[start]) && AllSpace(s[q..start])
    ensures IsSpace(s[start]) ==> start + 1 == |s| || IsParen(s[start + 1])
  {
    var q := p + |Marker|;
    var run := SkipSpaces(s, q);
    assert q < run by { assert !(s[q..q] + [s[q]] == s[q..q + 1] && !IsSpace(s[q])); }
    if run < |s| && !IsParen(s[run]) then run
    else
      assert q + 1 < run by {
        assert run != q + 1;
      }
      assert IsSpace(s[run - 1]) by { assert s[run - 1] == s[q..run][run - 1 - q]; }
      assert s[q..run - 1] == s[q..run][..run - 1 - q];
      run - 1
  }

  /** Group 1 from `start` on, then the optional parenthesised group. */
  function Group(s: string, p: nat, start: nat): (m: Span)
    requires start < |s| && !IsParen(s[start])
    ensures m.at == p && m.start == start && start < m.end <= |s|
    ensures GroupsFrom(s, m)
  {
    var end := FirstParen(s, start);
    if end + 1 < |s| && s[end] == '(' then
      var c := FirstClose(s, end + 1);
      if end + 1 < c < |s| then
        Span(p, start, end, Some(c))
      else
        NoCloseAfter(s, end + 1, c);
        Span(p, start, end, None)
    else
      Span(p, start, end, None)
  }

  lemma NoCloseAfter(s: string, i: nat, c: nat)
    requires i < |s| && c == FirstClose(s, i) && !(i < c < |s|)
    ensures s[i] == ')' || !ClosesAfter(s, i + 1)
  {
  }

  /**
   * The attempt to match at `p`: it fails unless the marker is followed by
   * whitespace and then by anything but a parenthesis, and otherwise finds a
   * match as `IsMatchAt` describes it.
   */
  function MatchAt(s: string, p: nat): (r: Option<Span>)
    ensures r.Some? ==> r.value.at == p && IsMatchAt(s, r.value)
  {
    if !CanMatchAt(s, p) then None
    else
      var start := GroupStart(s, p);
      var m := Group(s, p, start);
      assert IsSpace(s[start]) ==> m.end == start + 1 by {
        if IsSpace(s[start]) {
          FirstParenIs(s, start, start + 1);
        }
      }
      Some(m)
  }

  /** Any match at a point is the one `MatchAt` finds: the parse of the line is unambiguous. */
  lemma MatchAtComplete(s: string, m: Span)
    requires IsMatchAt(s, m)
    ensures MatchAt(s, m.at) == Some(m)
  {
    MatchCanStart(s, m);
    StartDetermined(s, m);
    FirstParenIs(s, m.start, m.end);
    match m.close {
      case Some(c) => FirstCloseIs(s, m.end + 1, c);
      case None =>
    }
  }

  lemma MatchCanStart(s: string, m: Span)
    requires IsMatchAt(s, m)
    ensures CanMatchAt(s, m.at)
  {
    var q := m.at + |Marker|;
    assert IsSpace(s[q]) by { assert s[q] == s[q..m.start][0]; }
    if q + 1 < m.start {
      assert IsSpace(s[q + 1]) by { assert s[q + 1] == s[q..m.start][1]; }
    }
  }

  lemma StartDetermined(s: string, m: Span)
    requires IsMatchAt(s, m) && CanMatchAt(s, m.at)
    ensures GroupStart(s, m.at) == m.start
  {
    var q := m.at + |Marker|;
    if IsSpace(s[m.start]) {
      assert s[q..m.start + 1] == s[q..m.start] + [s[m.start]];
      AllSpaceConcat(s[q..m.start], [s[m.start]]);
      SkipSpacesTo(s, q, m.start + 1);
    } else {
      SkipSpacesTo(s, q, m.start);
    }
  }

  lemma FirstParenIs(s: string, i: nat, j: nat)
    requires i <= j <= |s|
    requires forall k :: i <= k < j ==> !IsParen(s[k])
    requires j == |s| || IsParen(s[j])
    ensures FirstParen(s, i) == j
    decreases j - i
  {
    if i < j {
      FirstParenIs(s, i + 1, j);
    }
  }

  lemma FirstCloseIs(s: string, i: nat, j: nat)
    requires i <= j < |s|
    requires forall k :: i <= k < j ==> s[k] != ')'
    requires s[j] == ')'
    ensures FirstClose(s, i) == j
    decreases j - i
  {
    if i < j {
      FirstCloseIs(s, i + 1, j);
    }
  }

  /** `String.prototype.match` without the `g` flag: the leftmost match from `from` on. */
  function FindMatch(s: string, from: nat): (r: Option<Span>)
    requires from <= |s|
    ensures r.Some? ==> from <= r.value.at <= |s| && IsMatchAt(s, r.value)
    ensures r.Some? ==> forall p :: from <= p < r.value.at ==> MatchAt(s, p).None?
    ensures r.None? ==> forall p :: from <= p <= |s| ==> MatchAt(s, p).None?
    decreases |s| - from
  {
    var m := MatchAt(s, from);
    if m.Some? then m
    else if from == |s| then None
    else FindMatch(s, from + 1)
  }

  /** A match at the very start is the one `match` returns. */
  lemma FirstMatchAtStart(s: string)
    requires MatchAt(s, 0).Some?
    ensures FindMatch(s, 0) == MatchAt(s, 0)
  {
  }

  /** `p2 || p1`: the trimmed id when there is one, else the trimmed name. */
  function Target(s: string, m: Span): string
    requires m.start <= m.end <= |s|
    requires m.close.Some? ==> m.end < m.close.value <= |s|
  {
    var p1 := Trim(s[m.start..m.end]);
    var p2 := if m.close.Some? then Trim(s[m.end + 1..m.close.value]) else "";
    if p2 != [] then p2 else p1
  }

  /**
   * What one log line contributes: `None` when the scan goes on past it. An
   * empty line, a line `JSON.parse` rejects, a falsy `message.content`, a
   * truthy content that is not a string (`replace` throws and the line is
   * skipped), a content without `Set model to` and one the regular
   * expression does not match all go by.
   */
  function LineModel(line: string, parse: string -> Option<ProjectEntry>, strip: string -> string): Option<string> {
    if line == [] then None
    else
      match parse(line)
      case None => None
      case Some(e) =>
        match e.messageContent
        case Str(c) =>
          if c == [] then None
          else
            var clean := strip(c);
            if !Contains(clean, Marker) then None
            else
              match FindMatch(clean, 0) {
                case None => None
                case Some(m) => Some(QuotaModelName(Target(clean, m)))
              }
        case _ => None
  }

  /** The verdict of every line, in file order. */
  function Verdicts(lines: seq<string>, parse: string -> Option<ProjectEntry>, strip: string -> string): (vs: seq<Option<string>>)
    ensures |vs| == |lines|
    ensures forall j :: 0 <= j < |lines| ==> vs[j] == LineModel(lines[j], parse, strip)
  {
    seq(|lines|, j requires 0 <= j < |lines| => LineModel(lines[j], parse, strip))
  }

  /** The newest verdict there is, the verdicts given in file order. */
  function Newest(vs: seq<Option<string>>): Option<string>
    decreases |vs|
  {
    if vs == [] then None
    else if vs[|vs| - 1].Some? then vs[|vs| - 1]
    else Newest(vs[..|vs| - 1])
  }

  /** The model the newest switch in the log names, if any. */
  function LatestModel(lines: seq<string>, parse: string -> Option<ProjectEntry>, strip: string -> string): Option<string> {
    Newest(Verdicts(lines, parse, strip))
  }

  /** The newest line with a verdict decides, whatever older lines say. */
  lemma {:induction false} NewestSwitchWins(vs: seq<Option<string>>, i: nat)
    requires i < |vs| && vs[i].Some?
    requires forall j :: i < j < |vs| ==> vs[j].None?
    ensures Newest(vs) == vs[i]
    decreases |vs|
  {
    if i < |vs| - 1 {
      var front := vs[..|vs| - 1];
      assert forall j :: i < j < |front| ==> front[j] == vs[j];
      NewestSwitchWins(front, i);
    }
  }

  /** No model is found exactly when no line has a verdict. */
  lemma {:induction false} NoSwitchNoModel(vs: seq<Option<string>>)
    ensures Newest(vs).None? <==> forall j :: 0 <= j < |vs| ==> vs[j].None?
    decreases |vs|
  {
    if vs != [] {
      var front := vs[..|vs| - 1];
      NoSwitchNoModel(front);
      assert forall j :: 0 <= j < |front| ==> front[j] == vs[j];
    }
  }

  /** A model found is the verdict of one of the lines. */
  lemma {:induction false} NewestIsAVerdict(vs: seq<Option<string>>)
    ensures Newest(vs).Some? ==> exists j :: 0 <= j < |vs| && vs[j] == Newest(vs)
    decreases |vs|
  {
    if vs != [] && vs[|vs| - 1].None? {
      var front := vs[..|vs| - 1];
      NewestIsAVerdict(front);
      if Newest(front).Some? {
        var j :| 0 <= j < |front| && front[j] == Newest(front);
        assert vs[j] == Newest(vs);
      }
    }
  }

  /** A line's verdict, when it has one, is a name `getQuotaModelName` produced. */
  lemma LineModelIsNormalised(line: string, parse: string -> Option<ProjectEntry>, strip: string -> string)
    ensures LineModel(line, parse, strip).Some? ==>
      '-' !in LineModel(line, parse, strip).value && '·' !in LineModel(line, parse, strip).value
  {
    if LineModel(line, parse, strip).Some? {
      var e := parse(line).value;
      var clean := strip(e.messageContent.s);
      var m := FindMatch(clean, 0).value;
      NameHasNoDashOrDelimiter(Target(clean, m));
    }
  }

  /**
   * The model the log names is always a normalised display name: no hyphen
   * of a model id and no marketing delimiter survives in it.
   */
  lemma LatestModelIsNormalised(lines: seq<string>, parse: string -> Option<ProjectEntry>, strip: string -> string)
    ensures LatestModel(lines, parse, strip).Some? ==>
      '-' !in LatestModel(lines, parse, strip).value && '·' !in LatestModel(lines, parse, strip).value
  {
    var vs := Verdicts(lines, parse, strip);
    NewestIsAVerdict(vs);
    if Newest(vs).Some? {
      var j :| 0 <= j < |vs| && vs[j] == Newest(vs);
      LineModelIsNormalised(lines[j], parse, strip);
    }
  }

  /**
   * The backward `for … of` over `content.split('\n').reverse()` with its
   * early `return`: the model named by the newest switch, if any.
   */
  method ActiveModelFromLog(content: string, parse: string -> Option<ProjectEntry>, strip: string -> string)
    returns (r: Option<string>)
    ensures r == LatestModel(Split(content, '\n'), parse, strip)
  {
    var lines := Split(content, '\n');
    ghost var vs := Verdicts(lines, parse, strip);
    var i := |lines|;
    assert vs[..i] == vs;
    while i > 0
      invariant 0 <= i <= |lines|
      invariant Newest(vs) == Newest(vs[..i])
      decreases i
    {
      var line := lines[i - 1];
      assert vs[..i][..i - 1] == vs[..i - 1];
      assert vs[..i][i - 1] == LineModel(line, parse, strip);
      if line != [] {
        match parse(line) {
          case Some(e) =>
            var content := e.messageContent;
            if content.Str? && content.s != [] {
              var clean := strip(content.s);
              if Contains(clean, Marker) {
                var m := FindMatch(clean, 0);
                if m.Some? {
                  r := Some(QuotaModelName(Target(clean, m.value)));
                  assert LineModel(line, parse, strip) == r;
                  assert Newest(vs[..i]) == vs[..i][i - 1];
                  return;
                }
              }
            }
          case None =>
        }
      }
      i := i - 1;
    }
    r := None;
  }

  // ---------------------------------------------------------------------------
  // The shapes of switch output the comments in the source describe.

  /** `<marker> <name>(<id>)<tail>`, the shape of a switch to a named model with its id. */
  function SwitchText(name: string, id: string, tail: string): string {
    Marker + " " + name + ("(" + id + (")" + tail))
  }

  /** Where the name and the id lie in `pre + name + (id) + tail`. */
  lemma SwitchLayout(pre: string, name: string, id: string, tail: string)
    ensures var s := pre + name + ("(" + id + (")" + tail)); var e := |pre| + |name|;
      |s| == e + |id| + 2 + |tail| &&
      s[e] == '(' && s[e + 1 + |id|] == ')' && s[e + 1..e + 1 + |id|] == id &&
      (forall k :: |pre| <= k < e ==> s[k] == name[k - |pre|]) &&
      (forall k :: e < k < e + 1 + |id| ==> s[k] == id[k - e - 1])
  {
    var detail := "(" + id + (")" + tail);
    var s := pre + name + detail;
    var e := |pre| + |name|;
    assert s[e..] == detail;
    assert detail[1..1 + |id|] == id;
    assert s[e + 1..e + 1 + |id|] == detail[1..1 + |id|];
  }

  /** A name that group 1 takes whole: it opens with no whitespace and holds no parenthesis. */
  predicate PlainName(name: string) {
    name != [] && !IsSpace(name[0]) && forall k :: 0 <= k < |name| ==> !IsParen(name[k])
  }

  lemma MarkerAtStart(rest: string)
    ensures MarkerAt(Marker + rest, 0)
  {
    assert (Marker + rest)[0..|Marker|] == Marker;
    EqualIgnoringCaseRefl(Marker);
  }

  lemma {:induction false} EqualIgnoringCaseRefl(a: string)
    ensures EqualIgnoringCase(a, a)
    decreases |a|
  {
    if a != [] {
      EqualIgnoringCaseRefl(a[1..]);
    }
  }

  /** On a switch with an id the match is found at once and its groups are the name and the id. */
  lemma DetailedSwitchMatch(name: string, id: string, tail: string)
    requires PlainName(name) && id != [] && ')' !in id
    ensures FindMatch(SwitchText(name, id, tail), 0) == Some(DetailedSpan(name, id))
  {
    DetailedSwitchShape(name, id, tail);
    MatchAtComplete(SwitchText(name, id, tail), DetailedSpan(name, id));
    FirstMatchAtStart(SwitchText(name, id, tail));
  }

  /** Where the groups of a switch with an id lie. */
  function DetailedSpan(name: string, id: string): Span {
    var n := |Marker| + 1;
    Span(0, n, n + |name|, Some(n + |name| + 1 + |id|))
  }

  lemma DetailedSwitchShape(name: string, id: string, tail: string)
    requires PlainName(name) && id != [] && ')' !in id
    ensures IsMatchAt(SwitchText(name, id, tail), DetailedSpan(name, id))
  {
    SwitchHead(name);
    HeadKept(Marker + " " + name, "(" + id + (")" + tail));
    DetailedGroups(Marker + " ", name, id, tail);
  }

  /** The name and the id, as group 1 and group 2, after any prefix. */
  lemma DetailedGroups(pre: string, name: string, id: string, tail: string)
    requires PlainName(name) && id != [] && ')' !in id
    ensures var s := pre + name + ("(" + id + (")" + tail));
      s[|pre|] == name[0] &&
      GroupsFrom(s, Span(0, |pre|, |pre| + |name|, Some(|pre| + |name| + 1 + |id|)))
  {
    SwitchLayout(pre, name, id, tail);
  }

  /** `Set model to ` opens the text, its space where `\s+` begins. */
  lemma SwitchHead(rest: string)
    ensures var s := Marker + " " + rest;
      |s| == |Marker| + 1 + |rest| && MarkerAt(s, 0) && AllSpace(s[|Marker|..|Marker| + 1])
  {
    MarkerAtStart(" ");
    assert (Marker + " ")[|Marker|..|Marker| + 1] == " ";
    HeadKept(Marker + " ", rest);
  }

  /** What `SwitchHead` states survives appending. */
  lemma HeadKept(s: string, t: string)
    requires |s| >= |Marker| + 1 && MarkerAt(s, 0) && AllSpace(s[|Marker|..|Marker| + 1])
    ensures MarkerAt(s + t, 0) && AllSpace((s + t)[|Marker|..|Marker| + 1])
  {
    assert (s + t)[0..|Marker|] == s[0..|Marker|];
    assert (s + t)[|Marker|..|Marker| + 1] == s[|Marker|..|Marker| + 1];
  }

  /** The id is preferred: a switch with a non-blank id names the model the id names. */
  lemma DetailPreferred(name: string, id: string, tail: string)
    requires PlainName(name) && id != [] && ')' !in id && Trim(id) != []
    ensures var s := SwitchText(name, id, tail);
      FindMatch(s, 0).Some? && Target(s, FindMatch(s, 0).value) == Trim(id)
  {
    DetailedSwitchMatch(name, id, tail);
    SwitchTarget(name, id, tail);
  }

  lemma SwitchTarget(name: string, id: string, tail: string)
    requires Trim(id) != []
    ensures Target(SwitchText(name, id, tail), DetailedSpan(name, id)) == Trim(id)
  {
    var pre := Marker + " ";
    assert DetailedSpan(name, id) == Span(0, |pre|, |pre| + |name|, Some(|pre| + |name| + 1 + |id|));
    DetailTarget(pre, name, id, tail);
  }

  lemma DetailTarget(pre: string, name: string, id: string, tail: string)
    requires Trim(id) != []
    ensures Target(pre + name + ("(" + id + (")" + tail)), Span(0, |pre|, |pre| + |name|, Some(|pre| + |name| + 1 + |id|))) == Trim(id)
  {
    var s := pre + name + ("(" + id + (")" + tail));
    var m := Span(0, |pre|, |pre| + |name|, Some(|pre| + |name| + 1 + |id|));
    IdSlice(pre, name, id, tail);
    var group2 := s[m.end + 1..m.close.value];
    assert group2 == id;
    TargetIsId(s, m);
  }

  /** A non-blank group 2 is the target. */
  lemma TargetIsId(s: string, m: Span)
    requires m.start <= m.end && m.close.Some? && m.end < m.close.value <= |s|
    requires Trim(s[m.end + 1..m.close.value]) != []
    ensures Target(s, m) == Trim(s[m.end + 1..m.close.value])
  {
  }

  lemma IdSlice(pre: string, name: string, id: string, tail: string)
    ensures var s := pre + name + ("(" + id + (")" + tail)); var e := |pre| + |name|;
      e + 1 + |id| < |s| && s[e + 1..e + 1 + |id|] == id
  {
    var detail := "(" + id + (")" + tail);
    var s := pre + name + detail;
    var e := |pre| + |name|;
    assert s[e..] == detail;
    assert detail[1..1 + |id|] == id;
    assert s[e + 1..e + 1 + |id|] == detail[1..1 + |id|];
  }

  /** A switch with no parenthesised part names the model its trimmed name names. */
  lemma BareSwitch(name: string)
    requires PlainName(name)
    ensures var s := Marker + " " + name;
      FindMatch(s, 0) == Some(BareSpan(name)) && Target(s, BareSpan(name)) == Trim(name)
  {
    var s := Marker + " " + name;
    BareSwitchShape(name);
    MatchAtComplete(s, BareSpan(name));
    FirstMatchAtStart(s);
    BareSwitchTarget(name);
  }

  lemma BareSwitchTarget(name: string)
    ensures Target(Marker + " " + name, BareSpan(name)) == Trim(name)
  {
    var pre := Marker + " ";
    assert BareSpan(name) == Span(0, |pre|, |pre| + |name|, None);
    BareTarget(pre, name);
  }

  lemma BareTarget(pre: string, name: string)
    ensures Target(pre + name, Span(0, |pre|, |pre| + |name|, None)) == Trim(name)
  {
    var s, m := pre + name, Span(0, |pre|, |pre| + |name|, None);
    assert Target(s, m) == Trim(s[m.start..m.end]);
    assert s[m.start..m.end] == name;
  }

  /** Where group 1 of a bare switch lies: all of the name. */
  function BareSpan(name: string): Span {
    Span(0, |Marker| + 1, |Marker| + 1 + |name|, None)
  }

  lemma BareSwitchShape(name: string)
    requires PlainName(name)
    ensures IsMatchAt(Marker + " " + name, BareSpan(name))
  {
    SwitchHead(name);
    NameAfter(Marker + " ", name);
  }

  /** Where `name` lies in `pre + name`. */
  lemma NameAfter(pre: string, name: string)
    ensures |pre + name| == |pre| + |name|
    ensures (pre + name)[|pre|..] == name
    ensures forall k :: |pre| <= k < |pre| + |name| ==> (pre + name)[k] == name[k - |pre|]
  {
  }

  /** A line whose content reports a model switch yields the model its match names. */
  lemma SwitchLine(line: string, parse: string -> Option<ProjectEntry>, strip: string -> string, content: string)
    requires line != [] && content != [] && parse(line) == Some(ProjectEntry(Str(content)))
    requires Contains(strip(content), Marker) && FindMatch(strip(content), 0).Some?
    ensures var clean := strip(content);
      LineModel(line, parse, strip) == Some(QuotaModelName(Target(clean, FindMatch(clean, 0).value)))
  {
  }

  /** A line reporting a switch with a non-blank id yields the model that id names. */
  lemma DetailedSwitchLine(line: string, parse: string -> Option<ProjectEntry>, strip: string -> string,
                           name: string, id: string, tail: string)
    requires PlainName(name) && id != [] && ')' !in id && Trim(id) != []
    requires line != [] && parse(line) == Some(ProjectEntry(Str(SwitchText(name, id, tail))))
    requires strip(SwitchText(name, id, tail)) == SwitchText(name, id, tail)
    ensures LineModel(line, parse, strip) == Some(QuotaModelName(Trim(id)))
  {
    SwitchContainsMarker(name, id, tail);
    DetailPreferred(name, id, tail);
    SwitchLine(line, parse, strip, SwitchText(name, id, tail));
  }

  lemma SwitchContainsMarker(name: string, id: string, tail: string)
    ensures Contains(SwitchText(name, id, tail), Marker)
  {
    var s := SwitchText(name, id, tail);
    assert s[..|Marker|] == Marker;
  }

  /**
   * The form quoted beside the code: a switch to Opus reported with its full
   * id, `Set model to opus (claude-opus-4-5-20251101)`.
   */
  lemma OpusSwitch(line: string, parse: string -> Option<ProjectEntry>, strip: string -> string)
    requires line != []
    requires parse(line) == Some(ProjectEntry(Str(SwitchText("opus ", "claude-opus-4-5-20251101", ""))))
    requires strip(SwitchText("opus ", "claude-opus-4-5-20251101", "")) == SwitchText("opus ", "claude-opus-4-5-20251101", "")
    ensures LineModel(line, parse, strip) == Some("Opus 4.5")
  {
    OpusIdTrimmed();
    DetailedSwitchLine(line, parse, strip, "opus ", "claude-opus-4-5-20251101", "");
    OpusName();
  }

  lemma OpusIdTrimmed()
    ensures ')' !in "claude-opus-4-5-20251101" && Trim("claude-opus-4-5-20251101") == "claude-opus-4-5-20251101"
  {
    OpusIdUnclosed();
    OpusIdEnds();
    TrimmedAlready("claude-opus-4-5-20251101");
  }

  lemma OpusIdUnclosed()
    ensures ')' !in "claude-opus-4-5-20251101"
  {
  }

  lemma OpusIdEnds()
    ensures var id := "claude-opus-4-5-20251101"; id != [] && !IsSpace(id[0]) && !IsSpace(id[|id| - 1])
  {
    var id := "claude-opus-4-5-20251101";
    assert id[0] == 'c' && id[|id| - 1] == '1';
  }

  lemma TrimmedAlready(t: string)
    requires t != [] && !IsSpace(t[0]) && !IsSpace(t[|t| - 1])
    ensures Trim(t) == t
  {
    TrimPadded([], t, []);
    assert [] + t + [] == t;
  }
}
