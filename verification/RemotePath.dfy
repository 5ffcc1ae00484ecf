/**
 Normalising backup paths and comparing them by segments.  Normalisation is a single pass over the
 characters; its meaning is: split at slashes, drop empty segments, write the rest back.
 */
module RemotePath {
  import opened Prelude

  // ---------- the pass ----------

  /** Backslashes become slashes. */
  function Unify(s: string): string {
    seq(|s|, i requires 0 <= i < |s| => if s[i] == '\\' then '/' else s[i])
  }

  predicate EndsInSlash(s: string) { s != [] && s[|s| - 1] == '/' }

  /** Runs of slashes become one. */
  function Squeeze(s: string): string {
    if s == [] then []
    else
      var front, last := s[..|s| - 1], s[|s| - 1];
      if last == '/' && EndsInSlash(front) then Squeeze(front) else Squeeze(front) + [last]
  }

  function TrimEnd(s: string): string {
    if EndsInSlash(s) then TrimEnd(s[..|s| - 1]) else s
  }

  function Rooted(s: string): string {
    if s != [] && s[0] == '/' then s else "/" + s
  }

  function Normalize(path: string): string { Rooted(TrimEnd(Squeeze(Unify(path)))) }

  method NormalizeRemotePath(path: string) returns (r: string)
    ensures r == Normalize(path)
  {
    var unified := Unify(path);
    r := "";
    var prevSlash := false;
    var i := 0;
    while i < |unified|
      invariant 0 <= i <= |unified|
      invariant r == Squeeze(unified[..i])
      invariant prevSlash == EndsInSlash(unified[..i])
    {
      assert unified[..i + 1][..i] == unified[..i];
      if unified[i] == '/' {
        if !prevSlash {
          r := r + ['/'];
        }
        prevSlash := true;
      } else {
        r := r + [unified[i]];
        prevSlash := false;
      }
      i := i + 1;
    }
    assert unified[..i] == unified;
    ghost var squeezed := r;
    while EndsInSlash(r)
      invariant TrimEnd(r) == TrimEnd(squeezed)
      decreases |r|
    {
      r := r[..|r| - 1];
    }
    if !(r != [] && r[0] == '/') {
      r := "/" + r;
    }
  }

  // ---------- segments ----------

  /** Splitting at slashes: the complete non-empty segments so far, and the characters after the last slash. */
  function Split(s: string): (seq<string>, string) {
    if s == [] then ([], [])
    else
      var (done, current) := Split(s[..|s| - 1]);
      if s[|s| - 1] != '/' then (done, current + [s[|s| - 1]])
      else if current == [] then (done, [])
      else (done + [current], [])
  }

  /** The non-empty segments, in order. */
  function Segments(s: string): seq<string> {
    var (done, current) := Split(s);
    if current == [] then done else done + [current]
  }

  /** Each segment with a slash in front. */
  function Slashed(segs: seq<string>): string {
    if segs == [] then [] else Slashed(segs[..|segs| - 1]) + "/" + segs[|segs| - 1]
  }

  function Render(segs: seq<string>): string {
    if segs == [] then "/" else Slashed(segs)
  }

  predicate Clean(seg: string) { seg != [] && '/' !in seg }

  predicate AllClean(segs: seq<string>) { forall i :: 0 <= i < |segs| ==> Clean(segs[i]) }

  lemma {:induction false} SplitIsClean(s: string)
    ensures AllClean(Split(s).0) && '/' !in Split(s).1
    ensures EndsInSlash(s) ==> Split(s).1 == []
    ensures s != [] && !EndsInSlash(s) ==> Split(s).1 != []
  {
    if s != [] { SplitIsClean(s[..|s| - 1]); }
  }

  lemma SegmentsAreClean(s: string)
    ensures AllClean(Segments(s))
  {
    SplitIsClean(s);
  }

  /** Up to the leading slash, squeezing keeps exactly what splitting remembers. */
  lemma {:induction false} SqueezeIsSplit(s: string)
    ensures (if s != [] && s[0] == '/' then Squeeze(s) else "/" + Squeeze(s))
         == Slashed(Split(s).0) + "/" + Split(s).1
  {
    if s != [] {
      var front, last := s[..|s| - 1], s[|s| - 1];
      SqueezeIsSplit(front);
      SplitIsClean(front);
      var (done, current) := Split(front);
      if last != '/' {
        Associates(Slashed(done) + "/", current, [last]);
        Associates("/", Squeeze(front), [last]);
      } else if front != [] && !EndsInSlash(front) {
        SlashedGrows(done, current);
        Associates("/", Squeeze(front), "/");
        assert Slashed(done + [current]) + "/" + [] == Slashed(done) + "/" + current + "/";
      }
    }
  }

  lemma SlashedGrows(done: seq<string>, current: string)
    ensures Slashed(done + [current]) == Slashed(done) + "/" + current
  {
    assert (done + [current])[..|done|] == done;
  }

  lemma SlashedEnd(segs: seq<string>)
    requires AllClean(segs) && segs != []
    ensures Slashed(segs) != [] && !EndsInSlash(Slashed(segs))
  {
    var last := segs[|segs| - 1];
    assert Slashed(segs)[|Slashed(segs)| - 1] == last[|last| - 1];
    assert last[|last| - 1] in last;
  }

  lemma {:induction false} SlashedStart(segs: seq<string>)
    requires AllClean(segs) && segs != []
    ensures |Slashed(segs)| > 1 && Slashed(segs)[0] == '/' && Slashed(segs)[1] != '/'
  {
    if |segs| > 1 {
      SlashedStart(segs[..|segs| - 1]);
    } else {
      assert Slashed(segs[..0]) == [];
      assert Slashed(segs)[1] == segs[0][0] && segs[0][0] in segs[0];
    }
  }

  /** `q` is the squeezed path: `whole`, or `whole` without the slash that rooting will put back. */
  predicate UpToRoot(q: string, whole: string) {
    q == whole || (whole == "/" + q && !(q != [] && q[0] == '/'))
  }

  lemma TrimOpen(q: string, done: seq<string>, current: string)
    requires AllClean(done + [current])
    requires UpToRoot(q, Slashed(done) + "/" + current)
    ensures Rooted(TrimEnd(q)) == Render(done + [current])
  {
    var segs := done + [current];
    assert segs[..|done|] == done;
    SlashedEnd(segs);
    SlashedStart(segs);
    assert TrimEnd(q) == q;
  }

  lemma TrimClosed(q: string, done: seq<string>)
    requires AllClean(done) && done != []
    requires UpToRoot(q, Slashed(done) + "/")
    ensures Rooted(TrimEnd(q)) == Render(done)
  {
    var s := Slashed(done);
    SlashedEnd(done);
    SlashedStart(done);
    if q == s + "/" {
      assert q[..|q| - 1] == s;
      assert TrimEnd(s) == s;
    } else {
      var t := s[1..];
      assert q == ("/" + q)[1..] == (s + "/")[1..] == t + "/";
      assert q[..|q| - 1] == t;
      assert TrimEnd(t) == t;
      assert "/" + t == s;
    }
  }

  lemma TrimRoot(q: string)
    requires q == "/" || q == ""
    ensures Rooted(TrimEnd(q)) == "/"
  {
    assert "/"[..0] == "" && TrimEnd("/") == TrimEnd("");
  }

  /** Normalising is: take the non-empty segments and write them back with single slashes. */
  lemma NormalizeIsRender(path: string)
    ensures Normalize(path) == Render(Segments(Unify(path)))
  {
    var u := Unify(path);
    var q := Squeeze(u);
    var (done, current) := Split(u);
    SqueezeIsSplit(u);
    SqueezeStart(u);
    SplitIsClean(u);
    SegmentsAreClean(u);
    if current != [] {
      TrimOpen(q, done, current);
    } else if done != [] {
      assert Slashed(done) + "/" + current == Slashed(done) + "/";
      TrimClosed(q, done);
    } else {
      assert Slashed(done) + "/" + current == "/";
      TrimRoot(q);
    }
  }

  lemma {:induction false} SqueezeStart(s: string)
    ensures s != [] ==> Squeeze(s) != [] && Squeeze(s)[0] == s[0]
    ensures s == [] ==> Squeeze(s) == []
  {
    if |s| > 1 {
      SqueezeStart(s[..|s| - 1]);
    }
  }

  lemma {:induction false} SplitSlashed(segs: seq<string>, current: string)
    requires AllClean(segs) && '/' !in current
    ensures Split(Slashed(segs) + "/" + current) == (segs, current)
    decreases |segs|, |current|
  {
    var s := Slashed(segs) + "/" + current;
    if current != [] {
      var front := current[..|current| - 1];
      assert s[..|s| - 1] == Slashed(segs) + "/" + front;
      assert s[|s| - 1] == current[|current| - 1];
      assert current[|current| - 1] in current;
      SplitSlashed(segs, front);
      assert front + [current[|current| - 1]] == current;
    } else {
      assert s[..|s| - 1] == Slashed(segs);
      if segs != [] {
        var init, last := segs[..|segs| - 1], segs[|segs| - 1];
        SplitSlashed(init, last);
        assert init + [last] == segs;
      }
    }
  }

  /** Writing clean segments and reading them back gives the same segments. */
  lemma SegmentsOfRender(segs: seq<string>)
    requires AllClean(segs)
    ensures Segments(Render(segs)) == segs
  {
    if segs == [] {
      SplitSlashed([], []);
      assert Slashed([]) + "/" + [] == "/";
    } else {
      var init, last := segs[..|segs| - 1], segs[|segs| - 1];
      SplitSlashed(init, last);
      assert init + [last] == segs;
    }
  }

  /** Normalisation keeps the segments, and two results are equal exactly when their segments are. */
  lemma NormalizeKeepsSegments(a: string, b: string)
    ensures Segments(Normalize(a)) == Segments(Unify(a))
    ensures Normalize(a) == Normalize(b) <==> Segments(Unify(a)) == Segments(Unify(b))
  {
    NormalizeIsRender(a);
    NormalizeIsRender(b);
    SegmentsAreClean(Unify(a));
    SegmentsAreClean(Unify(b));
    SegmentsOfRender(Segments(Unify(a)));
    SegmentsOfRender(Segments(Unify(b)));
  }

  lemma {:induction false} SlashedShape(segs: seq<string>)
    requires AllClean(segs)
    ensures forall i :: 0 <= i < |Slashed(segs)| - 1 ==> !(Slashed(segs)[i] == '/' && Slashed(segs)[i + 1] == '/')
  {
    if segs != [] {
      var init, last := segs[..|segs| - 1], segs[|segs| - 1];
      SlashedShape(init);
      if init != [] { SlashedEnd(init); }
      var s, n := Slashed(segs), |Slashed(init)|;
      forall i | 0 <= i < |s| - 1
        ensures !(s[i] == '/' && s[i + 1] == '/')
      {
        if i + 1 < n {
          assert s[i] == Slashed(init)[i] && s[i + 1] == Slashed(init)[i + 1];
        } else if i + 1 == n {
          assert s[i] == Slashed(init)[n - 1];
        } else {
          assert s[i + 1] == last[i - n] && last[i - n] in last;
        }
      }
    }
  }

  lemma {:induction false} SqueezeNoBackslash(s: string)
    requires '\\' !in s
    ensures '\\' !in Squeeze(s)
  {
    if s != [] {
      assert s[|s| - 1] in s;
      assert forall c :: c in s[..|s| - 1] ==> c in s;
      SqueezeNoBackslash(s[..|s| - 1]);
    }
  }

  lemma {:induction false} TrimNoBackslash(s: string)
    requires '\\' !in s
    ensures '\\' !in TrimEnd(s)
  {
    if EndsInSlash(s) {
      assert forall c :: c in s[..|s| - 1] ==> c in s;
      TrimNoBackslash(s[..|s| - 1]);
    }
  }

  lemma RenderShape(segs: seq<string>)
    requires AllClean(segs)
    ensures var n := Render(segs);
            && n != [] && n[0] == '/'
            && (forall i :: 0 <= i < |n| - 1 ==> !(n[i] == '/' && n[i + 1] == '/'))
            && (EndsInSlash(n) ==> n == "/")
  {
    SlashedShape(segs);
    if segs != [] {
      SlashedEnd(segs);
      SlashedStart(segs);
    }
  }

  lemma NormalizeNoBackslash(path: string)
    ensures '\\' !in Normalize(path)
  {
    SqueezeNoBackslash(Unify(path));
    TrimNoBackslash(Squeeze(Unify(path)));
  }

  lemma NormalizeTwice(path: string)
    ensures Normalize(Normalize(path)) == Normalize(path)
  {
    var n := Normalize(path);
    NormalizeNoBackslash(path);
    assert Unify(n) == n;
    NormalizeKeepsSegments(path, path);
    NormalizeIsRender(n);
    NormalizeIsRender(path);
  }

  /** The shape of a normalised path, and normalising twice changes nothing more. */
  lemma NormalizedShape(path: string)
    ensures var n := Normalize(path);
            && n != [] && n[0] == '/'
            && '\\' !in n
            && (forall i :: 0 <= i < |n| - 1 ==> !(n[i] == '/' && n[i + 1] == '/'))
            && (EndsInSlash(n) ==> n == "/")
            && Normalize(n) == n
  {
    NormalizeIsRender(path);
    SegmentsAreClean(Unify(path));
    RenderShape(Segments(Unify(path)));
    NormalizeNoBackslash(path);
    NormalizeTwice(path);
  }

  // ---------- overlap ----------

  datatype Overlap = NoOverlap | Equal | AIsAncestor | AIsDescendant {
    predicate IsOverlap() { this != NoOverlap }

    function Swapped(): Overlap {
      match this
      case AIsAncestor => AIsDescendant
      case AIsDescendant => AIsAncestor
      case other => other
    }
  }

  /** The comparison of two normalised paths. */
  function CheckPathOverlap(a: string, b: string): Overlap {
    if a == b then Equal
    else
      var x, y := Segments(a), Segments(b);
      if |x| < |y| && x == y[..|x|] then AIsAncestor
      else if |x| > |y| && y == x[..|y|] then AIsDescendant
      else NoOverlap
  }

  function CheckRemoteOverlap(a: string, b: string): Overlap { CheckPathOverlap(Normalize(a), Normalize(b)) }

  /** Swapping the arguments swaps ancestor and descendant. */
  lemma OverlapIsSymmetric(a: string, b: string)
    ensures CheckPathOverlap(b, a) == CheckPathOverlap(a, b).Swapped()
  {
  }

  /** On remote paths the comparison is exactly the prefix relation on segments. */
  lemma RemoteOverlapIsPrefix(a: string, b: string)
    ensures var x, y := Segments(Unify(a)), Segments(Unify(b));
            && (CheckRemoteOverlap(a, b) == Equal <==> x == y)
            && (CheckRemoteOverlap(a, b) == AIsAncestor <==> x < y)
            && (CheckRemoteOverlap(a, b) == AIsDescendant <==> y < x)
            && (CheckRemoteOverlap(a, b).IsOverlap() <==> x <= y || y <= x)
  {
    NormalizeKeepsSegments(a, b);
    NormalizeKeepsSegments(b, a);
  }

  /** On arbitrary strings it is that relation exactly unless two different strings have the same
      segments; such strings are reported as not overlapping. */
  lemma RawOverlapIsPrefix(a: string, b: string)
    ensures (CheckPathOverlap(a, b).IsOverlap() <==> Segments(a) <= Segments(b) || Segments(b) <= Segments(a))
       <==> (Segments(a) == Segments(b) ==> a == b)
  {
  }

  /** Local paths, given what the file system resolves them to (or the path itself when it cannot). */
  function NormalizeLocal(resolve: string -> string, path: string): string { TrimEnd(Unify(resolve(path))) }

  /** A local path is what it resolves to, with slashes for backslashes and without the slashes at its end. */
  lemma NormalizeLocalMeans(resolve: string -> string, path: string)
    ensures var s, r := resolve(path), NormalizeLocal(resolve, path);
            && |r| <= |s| && (r != [] ==> r[|r| - 1] != '/')
            && (forall i :: 0 <= i < |r| ==> r[i] == if s[i] == '\\' then '/' else s[i])
            && forall i :: |r| <= i < |s| ==> s[i] == '/' || s[i] == '\\'
  {
    var s, u := resolve(path), Unify(resolve(path));
    TrimEndMeans(u);
    assert forall i :: 0 <= i < |s| ==> u[i] == if s[i] == '\\' then '/' else s[i];
  }

  lemma {:induction false} TrimEndMeans(s: string)
    ensures TrimEnd(s) <= s && !EndsInSlash(TrimEnd(s))
    ensures forall i :: |TrimEnd(s)| <= i < |s| ==> s[i] == '/'
  {
    if EndsInSlash(s) { TrimEndMeans(s[..|s| - 1]); }
  }

  /** A doubled slash in a path that cannot be resolved hides an overlap between local paths. */
  lemma LocalOverlapCanBeMissed()
    ensures var id := (p: string) => p;
            CheckPathOverlap(NormalizeLocal(id, "/a//b"), NormalizeLocal(id, "/a/b")) == NoOverlap
  {
    DoubledSlash("/a//b");
    SingleSlash("/a/b");
  }

  lemma DoubledSlash(u: string)
    requires u == "/a//b"
    ensures Unify(u) == u && Segments(u) == ["a", "b"] && Split(u) == (["a"], "b")
  {
    assert Unify(u) == u;
    SplitA("");
    assert "/a/" + "" == "/a/";
    assert "/a//"[..3] == "/a/";
    assert Split("/a//") == (["a"], "");
    assert u[..|u| - 1] == "/a//" && u[|u| - 1] == 'b';
    assert Split(u[..|u| - 1]) == (["a"], "");
    assert "" + [u[|u| - 1]] == "b";
  }

  lemma SingleSlash(v: string)
    requires v == "/a/b"
    ensures Unify(v) == v && Split(v) == (["a"], "b")
  {
    assert Unify(v) == v;
    SplitA("b");
    assert v == "/a/" + "b";
  }

  lemma SplitA(current: string)
    requires '/' !in current
    ensures Split("/a/" + current) == (["a"], current)
  {
    assert ["a"][..0] == [];
    assert Slashed(["a"]) == "/a";
    SplitSlashed(["a"], current);
    assert "/a" + "/" + current == "/a/" + current;
  }
}
