/**
 * `normalizeProjectPath`: the directory name under which the assistant keeps
 * the logs of a project. Both path separators become `-`, and a `-` is put in
 * front unless the rewritten path starts with one already.
 */
module ProjectPath {
  import opened Text

  /** The characters of the class `[\\/]`. */
  predicate IsSeparator(c: char) {
    c == '/' || c == '\\'
  }

  /** `replace(/[\\/]/g, '-')` */
  function ReplaceSeparators(s: string): (r: string)
    ensures |r| == |s|
    ensures forall k :: 0 <= k < |s| ==> r[k] == if IsSeparator(s[k]) then '-' else s[k]
  {
    if s == [] then [] else [if IsSeparator(s[0]) then '-' else s[0]] + ReplaceSeparators(s[1..])
  }

  /** The character that takes the place of `c`. */
  function Safe(c: char): char {
    if IsSeparator(c) then '-' else c
  }

  /** A leading `-` is kept as it is; a leading separator becomes one. */
  predicate StartsDashed(root: string) {
    root != [] && (root[0] == '-' || IsSeparator(root[0]))
  }

  /**
   * `normalizeProjectPath`: the result opens with `-`, holds no separator, and
   * is `root` with every separator turned into `-`, shifted by one place exactly
   * when `root` does not already start with `-` or a separator.
   */
  function NormalizeProjectPath(root: string): (r: string)
    ensures r != [] && r[0] == '-'
    ensures forall k :: 0 <= k < |r| ==> !IsSeparator(r[k])
    ensures |r| == if StartsDashed(root) then |root| else |root| + 1
    ensures forall k :: 0 <= k < |root| ==> r[|r| - |root| + k] == Safe(root[k])
  {
    var safe := ReplaceSeparators(root);
    if |safe| > 0 && safe[0] == '-' then safe else "-" + safe
  }

  /** Normalising a normalised name changes nothing. */
  lemma NormalizeIdempotent(root: string)
    ensures NormalizeProjectPath(NormalizeProjectPath(root)) == NormalizeProjectPath(root)
  {
    var r := NormalizeProjectPath(root);
    ReplaceSeparatorsFree(r);
  }

  /**
   * Only separator positions are told apart by what is there, not which
   * separator: paths that differ in the choice of `/` or `\` share a name.
   */
  lemma SeparatorsInterchangeable(a: string, b: string)
    requires |a| == |b|
    requires forall k :: 0 <= k < |a| ==> a[k] == b[k] || (IsSeparator(a[k]) && IsSeparator(b[k]))
    ensures NormalizeProjectPath(a) == NormalizeProjectPath(b)
  {
    var sa, sb := ReplaceSeparators(a), ReplaceSeparators(b);
    forall k | 0 <= k < |a| ensures sa[k] == sb[k] {
      assert a[k] == b[k] || (IsSeparator(a[k]) && IsSeparator(b[k]));
    }
    assert sa == sb;
  }

  /** The outcome is fixed by where separators stand: a `-` exactly where `root` had `-` or a separator. */
  lemma DashesMarkSeparators(root: string, k: nat)
    requires k < |root|
    ensures NormalizeProjectPath(root)[|NormalizeProjectPath(root)| - |root| + k] == '-'
        <==> root[k] == '-' || IsSeparator(root[k])
  {
  }

  lemma {:induction false} ReplaceSeparatorsConcat(a: string, b: string)
    ensures ReplaceSeparators(a + b) == ReplaceSeparators(a) + ReplaceSeparators(b)
  {
    if a != [] {
      assert (a + b)[1..] == a[1..] + b;
      ReplaceSeparatorsConcat(a[1..], b);
    } else {
      assert a + b == b;
    }
  }

  /** Joining separator-free components with a separator yields the components joined with `-`. */
  lemma {:induction false} ReplaceSeparatorsJoin(ws: seq<string>, sep: char)
    requires IsSeparator(sep)
    requires forall i :: 0 <= i < |ws| ==> forall k :: 0 <= k < |ws[i]| ==> !IsSeparator(ws[i][k])
    ensures ReplaceSeparators(Join(ws, sep)) == Join(ws, '-')
  {
    if |ws| == 1 {
      ReplaceSeparatorsFree(ws[0]);
    } else if |ws| > 1 {
      ReplaceSeparatorsFree(ws[0]);
      ReplaceSeparatorsConcat(ws[0] + [sep], Join(ws[1..], sep));
      ReplaceSeparatorsConcat(ws[0], [sep]);
      ReplaceSeparatorsJoin(ws[1..], sep);
    }
  }

  lemma ReplaceSeparatorsFree(w: string)
    requires forall k :: 0 <= k < |w| ==> !IsSeparator(w[k])
    ensures ReplaceSeparators(w) == w
  {
  }

  /** An absolute Unix path `/c1/.../cn` is named `-c1-...-cn`. */
  lemma UnixStyle(ws: seq<string>)
    requires forall i :: 0 <= i < |ws| ==> forall k :: 0 <= k < |ws[i]| ==> !IsSeparator(ws[i][k])
    ensures NormalizeProjectPath("/" + Join(ws, '/')) == "-" + Join(ws, '-')
  {
    ReplaceSeparatorsConcat("/", Join(ws, '/'));
    ReplaceSeparatorsJoin(ws, '/');
  }

  /** A Windows path `d\\c1\\...\\cn` whose drive `d` opens with no `-` is named `-d-c1-...-cn`. */
  lemma WindowsStyle(ws: seq<string>)
    requires |ws| > 0 && ws[0] != [] && ws[0][0] != '-'
    requires forall i :: 0 <= i < |ws| ==> forall k :: 0 <= k < |ws[i]| ==> !IsSeparator(ws[i][k])
    ensures NormalizeProjectPath(Join(ws, '\\')) == "-" + Join(ws, '-')
  {
    ReplaceSeparatorsJoin(ws, '\\');
    JoinHead(ws, '\\');
  }

  lemma JoinHead(ws: seq<string>, sep: char)
    requires |ws| > 0 && ws[0] != []
    ensures Join(ws, sep) != [] && Join(ws, sep)[0] == ws[0][0]
  {
  }

  /** The cases the suite pins down. */
  lemma UnixPath()
    ensures NormalizeProjectPath("/Users/test/project") == "-Users-test-project"
  {
    UnixComponents();
    UnixStyle(["Users", "test", "project"]);
  }

  lemma WindowsPath()
    ensures NormalizeProjectPath("C:\\Users\\test\\project") == "-C:-Users-test-project"
  {
    WindowsComponents();
    WindowsStyle(["C:", "Users", "test", "project"]);
  }

  lemma MixedSeparatorsPath()
    ensures NormalizeProjectPath("C:/Users\\test/project") == "-C:-Users-test-project"
  {
    var mixed := "C:" + "/" + "Users" + "\\" + "test" + "/" + "project";
    var plain := "C:" + "\\" + "Users" + "\\" + "test" + "\\" + "project";
    MixedComponents();
    SeparatorsInterchangeable(mixed, plain);
    WindowsPath();
  }

  lemma NoDoubleDash()
    ensures NormalizeProjectPath("/Users/foo") == "-Users-foo"
  {
    assert "/Users/foo" == "/" + Join(["Users", "foo"], '/');
    assert "-Users-foo" == "-" + Join(["Users", "foo"], '-');
    UnixStyle(["Users", "foo"]);
  }

  lemma UnixComponents()
    ensures "/Users/test/project" == "/" + Join(["Users", "test", "project"], '/')
    ensures "-Users-test-project" == "-" + Join(["Users", "test", "project"], '-')
  {
    UnixSource();
    UnixName();
  }

  lemma UnixSource()
    ensures "/Users/test/project" == "/" + Join(["Users", "test", "project"], '/')
  {
    UnixJoin('/');
  }

  lemma UnixName()
    ensures "-Users-test-project" == "-" + Join(["Users", "test", "project"], '-')
  {
    UnixJoin('-');
  }

  lemma UnixJoin(sep: char)
    ensures Join(["Users", "test", "project"], sep) == "Users" + [sep] + "test" + [sep] + "project"
  {
    var ws: seq<string> := ["Users", "test", "project"];
    assert ws[1..] == ["test", "project"] && ws[1..][1..] == ["project"];
    assert Join(ws[1..], sep) == "test" + [sep] + "project";
  }

  lemma WindowsComponents()
    ensures "C:\\Users\\test\\project" == Join(["C:", "Users", "test", "project"], '\\')
    ensures "-C:-Users-test-project" == "-" + Join(["C:", "Users", "test", "project"], '-')
  {
    WindowsSource();
    WindowsName();
  }

  lemma WindowsSource()
    ensures "C:\\Users\\test\\project" == Join(["C:", "Users", "test", "project"], '\\')
  {
    WindowsJoin('\\');
  }

  lemma WindowsName()
    ensures "-C:-Users-test-project" == "-" + Join(["C:", "Users", "test", "project"], '-')
  {
    WindowsJoin('-');
  }

  lemma WindowsJoin(sep: char)
    ensures Join(["C:", "Users", "test", "project"], sep) == "C:" + [sep] + "Users" + [sep] + "test" + [sep] + "project"
  {
    var ws: seq<string> := ["C:", "Users", "test", "project"];
    assert ws[1..] == ["Users", "test", "project"];
    UnixJoin(sep);
  }

  lemma MixedComponents()
    ensures "C:/Users\\test/project" == "C:" + "/" + "Users" + "\\" + "test" + "/" + "project"
    ensures "C:\\Users\\test\\project" == "C:" + "\\" + "Users" + "\\" + "test" + "\\" + "project"
  {
  }
}
