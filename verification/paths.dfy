/** The part of POSIX `pathlib` the converter relies on: a path is an optional
    leading `/` and a list of components; `str(Path(p))`, `.parent`, `/`,
    `.name` and `.stem` are computed from those. */
module Paths {

  /** A component as `pathlib` keeps it: not empty, not `.`, no separator. */
  predicate IsComponent(c: string) {
    c != "" && c != "." && '/' !in c
  }

  predicate AllComponents(cs: seq<string>) {
    forall i :: 0 <= i < |cs| ==> IsComponent(cs[i])
  }

  /** Position of the first `/`, or the length when there is none. */
  function IndexOfSlash(s: string): (i: nat)
    ensures i <= |s|
    ensures forall j :: 0 <= j < i ==> s[j] != '/'
    ensures i < |s| ==> s[i] == '/'
  {
    if |s| == 0 || s[0] == '/' then 0 else 1 + IndexOfSlash(s[1..])
  }

  /** The characterisation above determines the index. */
  lemma {:induction false} IndexOfSlashIs(s: string, k: nat)
    requires k <= |s|
    requires forall j :: 0 <= j < k ==> s[j] != '/'
    requires k < |s| ==> s[k] == '/'
    ensures IndexOfSlash(s) == k
  {
    if k > 0 {
      IndexOfSlashIs(s[1..], k - 1);
    }
  }

  predicate IsAbsolute(p: string) {
    |p| > 0 && p[0] == '/'
  }

  /** The components of `p`: the pieces between separators, with empty and
      `.` pieces dropped. */
  function Components(p: string): (cs: seq<string>)
    ensures AllComponents(cs)
    decreases |p|
  {
    var i := IndexOfSlash(p);
    var piece := p[..i];
    var head := if piece == "" || piece == "." then [] else [piece];
    if i == |p| then head else head + Components(p[i + 1..])
  }

  function JoinComponents(cs: seq<string>): string
  {
    if |cs| == 0 then ""
    else if |cs| == 1 then cs[0]
    else cs[0] + "/" + JoinComponents(cs[1..])
  }

  /** The string form of a path with the given anchor and components. */
  function Render(absolute: bool, cs: seq<string>): string
  {
    if |cs| == 0 then (if absolute then "/" else ".")
    else (if absolute then "/" else "") + JoinComponents(cs)
  }

  lemma {:induction false} ComponentsOfJoin(cs: seq<string>)
    requires |cs| > 0 && AllComponents(cs)
    ensures Components(JoinComponents(cs)) == cs
    ensures !IsAbsolute(JoinComponents(cs))
  {
    var s := JoinComponents(cs);
    var c := cs[0];
    assert IsComponent(c);
    assert c[0] != '/' by { assert c[0] in c; }
    if |cs| == 1 {
      assert s == c;
      forall j | 0 <= j < |c| ensures c[j] != '/' { assert c[j] in c; }
      IndexOfSlashIs(s, |s|);
      assert s[..|s|] == c;
    } else {
      var rest := JoinComponents(cs[1..]);
      assert s == c + "/" + rest;
      forall j | 0 <= j < |c| ensures s[j] != '/' { assert s[j] == c[j] && c[j] in c; }
      IndexOfSlashIs(s, |c|);
      assert s[..|c|] == c;
      assert s[|c| + 1..] == rest;
      ComponentsOfJoin(cs[1..]);
    }
  }

  /** Rendering and splitting again are inverse: the anchor and components of
      a rendered path are the ones it was rendered from. */
  lemma ComponentsOfRender(absolute: bool, cs: seq<string>)
    requires AllComponents(cs)
    ensures Components(Render(absolute, cs)) == cs
    ensures IsAbsolute(Render(absolute, cs)) == absolute
  {
    var s := Render(absolute, cs);
    if |cs| == 0 {
      if absolute {
        IndexOfSlashIs(s, 0);
        assert s[..0] == "";
        assert s[1..] == "";
      }
    } else {
      ComponentsOfJoin(cs);
      if absolute {
        IndexOfSlashIs(s, 0);
        assert s[..0] == "";
        assert s[1..] == JoinComponents(cs);
        assert Components(s) == [] + Components(s[1..]);
      } else {
        assert s == JoinComponents(cs);
      }
    }
  }

  /** `str(Path(p))`. */
  function Normalize(p: string): string
  {
    Render(IsAbsolute(p), Components(p))
  }

  /** `str(Path(p).parent)`: the last component removed; the parent of a
      single component (or of nothing) is `.`, or `/` for an absolute path. */
  function Parent(p: string): string
  {
    var cs := Components(p);
    Render(IsAbsolute(p), if |cs| == 0 then [] else cs[..|cs| - 1])
  }

  /** `str(Path(base) / rel)`: an absolute `rel` replaces `base`. */
  function JoinPath(base: string, rel: string): string
  {
    if IsAbsolute(rel) then Normalize(rel)
    else Render(IsAbsolute(base), Components(base) + Components(rel))
  }

  /** A path's string form is already normal, and it keeps the anchor and the
      components of the text it came from. */
  lemma NormalizeIdempotent(p: string)
    ensures Normalize(Normalize(p)) == Normalize(p)
    ensures Components(Normalize(p)) == Components(p)
    ensures IsAbsolute(Normalize(p)) == IsAbsolute(p)
  {
    ComponentsOfRender(IsAbsolute(p), Components(p));
  }

  /** The parent has every component but the last, the same anchor, and is
      already normal. */
  lemma ParentComponents(p: string)
    ensures |Components(p)| > 0 ==>
              Components(Parent(p)) == Components(p)[..|Components(p)| - 1]
    ensures |Components(p)| == 0 ==> Components(Parent(p)) == []
    ensures IsAbsolute(Parent(p)) == IsAbsolute(p)
    ensures Normalize(Parent(p)) == Parent(p)
  {
    var cs := Components(p);
    var pcs := if |cs| == 0 then [] else cs[..|cs| - 1];
    assert AllComponents(pcs);
    assert Parent(p) == Render(IsAbsolute(p), pcs);
    ComponentsOfRender(IsAbsolute(p), pcs);
  }

  /** Joining a relative path appends its components to the base's. */
  lemma JoinPathComponents(base: string, rel: string)
    requires !IsAbsolute(rel)
    ensures Components(JoinPath(base, rel)) == Components(base) + Components(rel)
    ensures IsAbsolute(JoinPath(base, rel)) == IsAbsolute(base)
  {
    ComponentsOfRender(IsAbsolute(base), Components(base) + Components(rel));
  }

  /** `Path(p).name`: the last component, or "" when there is none. */
  function Name(p: string): (r: string)
    ensures r == "" || IsComponent(r)
  {
    var cs := Components(p);
    if |cs| == 0 then "" else cs[|cs| - 1]
  }

  /** Index of the last `.`, as `str.rfind`: -1 when there is none. */
  function LastDot(s: string): (i: int)
    ensures -1 <= i < |s|
    ensures i >= 0 ==> s[i] == '.'
    ensures forall j :: i < j < |s| ==> s[j] != '.'
  {
    if |s| == 0 then -1
    else if s[|s| - 1] == '.' then |s| - 1
    else LastDot(s[..|s| - 1])
  }

  /** `Path(p).stem`: the name without its last suffix, where a suffix is a
      final `.x...` that is neither the whole name nor a lone trailing dot. */
  function Stem(p: string): (r: string)
    ensures |r| <= |Name(p)| && r == Name(p)[..|r|]
    ensures r != Name(p) ==>
              && 0 < |r| < |Name(p)| - 1
              && Name(p)[|r|] == '.'
              && '.' !in Name(p)[|r| + 1..]
  {
    var name := Name(p);
    var i := LastDot(name);
    if 0 < i < |name| - 1 then name[..i] else name
  }
}
