/** Why a path may be modelled by its components: slashes, depths and parents of the string form correspond. */
module Paths {
  type Path = seq<string>

  /** A component as file systems allow it: not empty, no slash. */
  predicate Component(s: string) {
    s != "" && forall i :: 0 <= i < |s| ==> s[i] != '/'
  }

  ghost predicate Components(p: Path) {
    p != [] && forall i :: 0 <= i < |p| ==> Component(p[i])
  }

  /** The string the program uses: components joined by slashes. */
  function Join(p: Path): string
    requires p != []
  {
    if |p| == 1 then p[0] else Join(p[..|p| - 1]) + "/" + p[|p| - 1]
  }

  /** strings.Count(path, "/"). */
  function Slashes(s: string): nat {
    if s == "" then 0 else Slashes(s[..|s| - 1]) + if s[|s| - 1] == '/' then 1 else 0
  }

  /** strings.LastIndex(path, "/"), or -1. */
  function LastSlash(s: string): (i: int)
    ensures -1 <= i < |s|
    ensures i >= 0 ==> s[i] == '/'
    ensures forall k :: i < k < |s| ==> s[k] != '/'
  {
    if s == "" then -1 else if s[|s| - 1] == '/' then |s| - 1 else LastSlash(s[..|s| - 1])
  }

  lemma {:induction false} SlashesAppend(a: string, b: string)
    ensures Slashes(a + b) == Slashes(a) + Slashes(b)
  {
    if b == "" {
      assert a + b == a;
    } else {
      assert (a + b)[..|a + b| - 1] == a + b[..|b| - 1];
      SlashesAppend(a, b[..|b| - 1]);
    }
  }

  lemma {:induction false} NoSlashes(s: string)
    requires forall i :: 0 <= i < |s| ==> s[i] != '/'
    ensures Slashes(s) == 0
  {
    if s != "" {
      NoSlashes(s[..|s| - 1]);
    }
  }

  /** pathDepth of the string form is one less than the number of components. */
  lemma {:induction false} DepthIsComponents(p: Path)
    requires Components(p)
    ensures Slashes(Join(p)) == |p| - 1
  {
    var last := p[|p| - 1];
    NoSlashes(last);
    if |p| > 1 {
      DepthIsComponents(p[..|p| - 1]);
      SlashesAppend(Join(p[..|p| - 1]) + "/", last);
      SlashesAppend(Join(p[..|p| - 1]), "/");
      assert Slashes("/") == 1 by { assert "/"[..0] == ""; }
    }
  }

  /** Cutting the string form at its last slash gives the parent's string form and the name. */
  lemma {:induction false} ParentAtLastSlash(p: Path)
    requires Components(p)
    ensures var s, i := Join(p), LastSlash(Join(p));
            if |p| == 1 then i == -1 && s == p[0]
            else i >= 0 && s[..i] == Join(p[..|p| - 1]) && s[i + 1..] == p[|p| - 1]
  {
    var s, i := Join(p), LastSlash(Join(p));
    if |p| > 1 {
      var k := |Join(p[..|p| - 1])|;
      var last := p[|p| - 1];
      assert s[k] == '/';
      assert s[k + 1..] == last;
      forall j | k < j < |s| ensures s[j] != '/' {
        assert s[j] == last[j - k - 1];
      }
      assert i == k;
    }
  }

  /** So distinct paths never share a key. */
  lemma {:induction false} JoinInjective(p: Path, q: Path)
    requires Components(p) && Components(q) && Join(p) == Join(q)
    ensures p == q
    decreases |p|
  {
    ParentAtLastSlash(p);
    ParentAtLastSlash(q);
    if |p| > 1 {
      JoinInjective(p[..|p| - 1], q[..|q| - 1]);
      assert p == p[..|p| - 1] + [p[|p| - 1]] && q == q[..|q| - 1] + [q[|q| - 1]];
    }
  }
}
