/** The lexical path helpers of Go's `path` and `path/filepath` packages
    (Unix separator `/`) that the converter relies on. */
module Paths {
  import opened Texts

  /** `path.Join(p, x)` / `filepath.Join(p, x)` for clean segments: an empty
      segment is ignored, otherwise the two are joined by one `/`. */
  function Join(p: string, x: string): string
  {
    if p == "" then x else if x == "" then p else p + "/" + x
  }

  lemma JoinAssociative(a: string, b: string, c: string)
    ensures Join(Join(a, b), c) == Join(a, Join(b, c))
  {
  }

  /** The characters after the last `/` (the whole string when there is none). */
  function LastElement(p: string): string
  {
    if p == [] || p[|p| - 1] == '/' then [] else LastElement(p[..|p| - 1]) + [p[|p| - 1]]
  }

  /** The last element is the longest suffix without `/`. */
  lemma {:induction false} LastElementShape(p: string)
    ensures var r := LastElement(p);
      && |r| <= |p| && r == p[|p| - |r|..]
      && (forall k :: 0 <= k < |r| ==> r[k] != '/')
      && (|r| < |p| ==> p[|p| - |r| - 1] == '/')
  {
    if p != [] && p[|p| - 1] != '/' {
      var q := p[..|p| - 1];
      LastElementShape(q);
      var r, c := LastElement(q), p[|p| - 1];
      assert LastElement(p) == r + [c];
      var n := |q| - |r|;
      assert p[n..] == q[n..] + [c];
      assert forall k :: 0 <= k < |r| ==> (r + [c])[k] == r[k];
      if n > 0 {
        assert p[n - 1] == q[n - 1];
      }
    }
  }

  function TrimTrailingSlashes(p: string): (r: string)
    ensures |r| <= |p| && r == p[..|r|]
    ensures r == [] || r[|r| - 1] != '/'
  {
    if p == [] || p[|p| - 1] != '/' then p else TrimTrailingSlashes(p[..|p| - 1])
  }

  /** `filepath.Base`: the last element after trailing slashes are removed;
      "." for the empty path and "/" for a path of slashes only. */
  function Base(p: string): (r: string)
    ensures r != []
  {
    if p == "" then "."
    else
      var q := TrimTrailingSlashes(p);
      if q == "" then "/" else LastElement(q)
  }

  /** `filepath.Ext`: the suffix from the last `.` of the last element, or
      "" when that element holds no `.`. */
  function Ext(p: string): string
  {
    if p == [] || p[|p| - 1] == '/' then ""
    else if p[|p| - 1] == '.' then "."
    else
      var e := Ext(p[..|p| - 1]);
      if e == "" then "" else e + [p[|p| - 1]]
  }

  /** The extension is a suffix of the path that starts with its only `.`
      and holds no `/`; it is empty only when the last element has no `.`. */
  lemma {:induction false} ExtShape(p: string)
    ensures var e := Ext(p);
      && HasSuffix(p, e)
      && (e == [] || e[0] == '.')
      && (forall k :: 1 <= k < |e| ==> e[k] != '.' && e[k] != '/')
      && (e == [] ==> forall k :: 0 <= k < |LastElement(p)| ==> LastElement(p)[k] != '.')
  {
    if p != [] && p[|p| - 1] != '/' && p[|p| - 1] != '.' {
      ExtShape(p[..|p| - 1]);
    }
  }

  /** Whatever precedes it, a suffix that starts with its only `.` and
      holds no `/` is the extension. */
  lemma {:induction false} ExtOfSuffix(x: string, e: string)
    requires e != [] && e[0] == '.'
    requires forall k :: 1 <= k < |e| ==> e[k] != '.' && e[k] != '/'
    ensures Ext(x + e) == e
    decreases |e|
  {
    var p := x + e;
    if |e| > 1 {
      var f := e[..|e| - 1];
      assert p[..|p| - 1] == x + f;
      ExtOfSuffix(x, f);
      assert e == f + [e[|e| - 1]];
    }
  }

  /** A note's title: `strings.TrimSuffix(filepath.Base(p), filepath.Ext(p))`. */
  function Title(p: string): string
  {
    TrimSuffix(Base(p), Ext(p))
  }

  /** The extension is always a suffix of the last element. */
  lemma {:induction false} ExtOfLastElement(p: string)
    ensures HasSuffix(LastElement(p), Ext(p))
  {
    if p == [] || p[|p| - 1] == '/' {
      assert Ext(p) == "";
    } else if p[|p| - 1] == '.' {
      var le := LastElement(p[..|p| - 1]);
      assert LastElement(p) == le + ['.'];
      assert (le + ['.'])[|le|..] == ".";
    } else {
      var q := p[..|p| - 1];
      ExtOfLastElement(q);
      var le, e := LastElement(q), Ext(q);
      assert LastElement(p) == le + [p[|p| - 1]];
      if e != "" {
        assert (le + [p[|p| - 1]])[|le| + 1 - |e| - 1..] == le[|le| - |e|..] + [p[|p| - 1]];
      }
    }
  }

  /** Title and extension put back together give the base name again. */
  lemma TitleRoundTrip(p: string)
    ensures Title(p) + Ext(p) == Base(p)
  {
    if p != "" && p[|p| - 1] != '/' {
      assert TrimTrailingSlashes(p) == p;
      ExtOfLastElement(p);
    }
  }

  /** The last element of `dir/name` is `name` when `name` holds no `/`. */
  lemma {:induction false} LastElementAfterSlash(dir: string, name: string)
    requires forall k :: 0 <= k < |name| ==> name[k] != '/'
    ensures LastElement(dir + "/" + name) == name
  {
    if name != [] {
      var p := dir + "/" + name;
      assert p[..|p| - 1] == dir + "/" + name[..|name| - 1];
      LastElementAfterSlash(dir, name[..|name| - 1]);
    } else {
      assert (dir + "/" + name)[|dir|] == '/';
    }
  }

  lemma LastElementClean(name: string)
    requires forall k :: 0 <= k < |name| ==> name[k] != '/'
    ensures LastElement(name) == name
  {
    LastElementAfterSlash("", name);
    assert ("" + "/" + name)[1..] == name;
  }

  lemma ExtMarkdown(x: string)
    ensures Ext(x + ".md") == ".md"
  {
    var p := x + ".md";
    assert p[..|p| - 1] == x + ".m";
    assert (x + ".m")[..|x| + 1] == x + ".";
    assert Ext(x + ".") == ".";
    assert Ext(x + ".m") == ".m";
  }

  lemma BaseOfJoin(dir: string, name: string)
    requires name != [] && forall k :: 0 <= k < |name| ==> name[k] != '/'
    ensures Base(Join(dir, name)) == name
  {
    var p := Join(dir, name);
    if dir == "" {
      LastElementClean(name);
    } else {
      LastElementAfterSlash(dir, name);
      assert p == dir + "/" + name;
    }
    assert p[|p| - 1] == name[|name| - 1];
    assert TrimTrailingSlashes(p) == p;
  }

  /** A markdown file `stem.md` inside any directory has the title `stem`,
      whatever dots the stem contains. */
  lemma TitleOfMarkdown(dir: string, stem: string)
    requires forall k :: 0 <= k < |stem| ==> stem[k] != '/'
    ensures Ext(Join(dir, stem + ".md")) == ".md"
    ensures Title(Join(dir, stem + ".md")) == stem
  {
    var name := stem + ".md";
    assert forall k :: 0 <= k < |name| ==> name[k] != '/';
    BaseOfJoin(dir, name);
    if dir == "" {
      ExtMarkdown(stem);
    } else {
      assert Join(dir, name) == (dir + "/" + stem) + ".md";
      ExtMarkdown(dir + "/" + stem);
    }
    assert name[..|name| - 3] == stem;
  }

  /** The note of pkg/obsidian_test.go:152-156. */
  lemma TitleExample()
    ensures Title("fixtures/source/Some Note.md") == "Some Note"
  {
    var stem := "Some Note";
    assert forall k :: 0 <= k < |stem| ==> stem[k] != '/';
    assert Join("fixtures/source", stem + ".md") == "fixtures/source/Some Note.md";
    TitleOfMarkdown("fixtures/source", stem);
  }
}
