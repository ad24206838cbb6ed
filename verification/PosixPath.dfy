/** The lexical part of `PurePosixPath`. */
module PosixPath {
  import opened Text

  /** The root ("", "/" or "//") and the segments, without empty and "." ones. */
  datatype Pure = Pure(root: string, segments: seq<string>)

  function Keep(parts: seq<string>): seq<string> {
    if parts == [] then []
    else (if parts[0] == "" || parts[0] == "." then [] else [parts[0]]) + Keep(parts[1..])
  }

  function Parse(s: string): Pure {
    var root := if "//" <= s && !("///" <= s) then "//" else if "/" <= s then "/" else "";
    Pure(root, Keep(Split(s, '/')))
  }

  predicate Absolute(s: string) {
    Parse(s).root != ""
  }

  /** `a == b or a in b.parents`. */
  predicate Covers(a: Pure, b: Pure) {
    a.root == b.root && a.segments <= b.segments
  }

  /** Two ancestors of one path are comparable. */
  lemma CoversComparable(a: Pure, b: Pure, p: Pure)
    requires Covers(a, p) && Covers(b, p)
    ensures Covers(a, b) || Covers(b, a)
  {
    assert a.segments == p.segments[..|a.segments|];
    assert b.segments == p.segments[..|b.segments|];
  }

  lemma {:induction false} KeepAll(parts: seq<string>)
    requires forall p | p in parts :: p != "" && p != "."
    ensures Keep(parts) == parts
  {
    if parts != [] {
      assert parts[0] in parts && forall p | p in parts[1..] :: p in parts;
      KeepAll(parts[1..]);
      assert parts == [parts[0]] + parts[1..];
    }
  }

  // ----- what parsing and covering mean -----

  /** Keeping works part by part: an empty or "." part vanishes, every other part stays. */
  lemma {:induction false} KeepParts(a: seq<string>, b: seq<string>, p: string)
    ensures Keep(a + b) == Keep(a) + Keep(b)
    ensures Keep([p]) == if p == "" || p == "." then [] else [p]
  {
    assert [p][1..] == [];
    if a == [] {
      assert a + b == b;
    } else {
      KeepParts(a[1..], b, p);
      assert (a + b)[1..] == a[1..] + b;
    }
  }

  /** Exactly two leading slashes are a root of their own; any other number of them is one. */
  lemma RootExact(s: string)
    ensures Parse(s).root == "//" <==> |s| >= 2 && s[0] == '/' && s[1] == '/' && (|s| == 2 || s[2] != '/')
    ensures Parse(s).root == "" <==> s == "" || s[0] != '/'
    ensures Parse(s).root in {"", "/", "//"}
  {
  }

  /** `PurePosixPath.parents`: the path without its last segment, and so on up to its root. */
  function Parents(p: Pure): seq<Pure>
    decreases |p.segments|
  {
    if p.segments == [] then []
    else
      var parent := Pure(p.root, p.segments[..|p.segments| - 1]);
      [parent] + Parents(parent)
  }

  /** The comparison of the source, `a == b or a in b.parents`, is a prefix of the segments under
      the same root. */
  lemma {:induction false} CoversExact(a: Pure, b: Pure)
    ensures Covers(a, b) <==> a == b || a in Parents(b)
    decreases |b.segments|
  {
    if b.segments != [] {
      var parent := Pure(b.root, b.segments[..|b.segments| - 1]);
      CoversExact(a, parent);
      assert b.segments == parent.segments + [b.segments[|b.segments| - 1]];
      if Covers(a, b) && a != b {
        assert |a.segments| < |b.segments|;
        assert parent.segments[..|a.segments|] == b.segments[..|a.segments|];
      }
    }
  }
}
