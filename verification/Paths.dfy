/** Path strings the way the standard library's path type treats them on Unix. */
module Paths {
  import opened Prelude
  import opened Text

  predicate Absolute(name: string) { name != [] && name[0] == '/' }

  /** An absolute name replaces the directory; otherwise one slash separates the two. */
  function Join(dir: string, name: string): string {
    if Absolute(name) || dir == [] then name
    else if dir[|dir| - 1] == '/' then dir + name
    else dir + "/" + name
  }

  /** An absolute name stands alone, as does any name in the empty directory; a directory that ends in a slash
      needs no other. */
  lemma JoinMeans(dir: string, name: string)
    ensures Join(dir, "/" + name) == "/" + name && Join("", name) == name
    ensures name == [] || name[0] != '/' ==> Join(dir + "/", name) == dir + "/" + name
    ensures (name == [] || name[0] != '/') && dir != [] && dir[|dir| - 1] != '/' ==> Join(dir, name) == dir + "/" + name
  {
  }

  lemma JoinIsInjective(dir: string, a: string, b: string)
    requires Absolute(a) == Absolute(b)
    requires Join(dir, a) == Join(dir, b)
    ensures a == b
  {
    if !Absolute(a) && dir != [] {
      var n := if dir[|dir| - 1] == '/' then |dir| else |dir| + 1;
      assert Join(dir, a)[n..] == a && Join(dir, b)[n..] == b;
    }
  }

  // ---------- components ----------

  /** A part between slashes; empty parts and single dots do not count. */
  function Part(c: string): seq<string> { if c == [] || c == "." then [] else [c] }

  /** The directories and the file a path goes through; two spellings of one path have the same. */
  function Components(s: string): seq<string> {
    match LastIndex(s, '/')
    case None => Part(s)
    case Some(i) => Components(s[..i]) + Part(s[i + 1..])
  }

  /** A name a directory can list. */
  predicate FileName(n: string) { n != [] && n != "." && n != ".." && '/' !in n }

  lemma LastIndexBefore(s: string, i: nat, name: string)
    requires i < |s| && s[i] == '/' && s[i + 1..] == name && '/' !in name
    ensures LastIndex(s, '/') == Some(i)
  {
    assert forall k :: i < k < |s| ==> s[k] == name[k - i - 1];
    LastIndexIs(s, '/', i);
  }

  lemma LastPart(a: string, b: string)
    requires '/' !in b
    ensures Components(a + "/" + b) == Components(a) + Part(b)
  {
    var s := a + "/" + b;
    assert s[..|a|] == a && s[|a| + 1..] == b;
    LastIndexBefore(s, |a|, b);
  }

  /** A string cut at its last slash. */
  lemma CutAtSlash(s: string)
    ensures match LastIndex(s, '/')
            case Some(i) => s == s[..i] + "/" + s[i + 1..] && '/' !in s[i + 1..]
            case None => true
  {
  }

  lemma Regroup(s: string, a: string, b: string, c: string, d: string)
    requires s == a + b && b == c + "/" + d
    ensures s == a + c + "/" + d
  {
  }

  lemma LaterPart(a: string, b: string, front: string, last: string)
    requires b == front + "/" + last && '/' !in last
    ensures Components(a + "/" + b) == Components(a + "/" + front) + Part(last)
  {
    Regroup(a + "/" + b, a + "/", b, front, last);
    LastPart(a + "/" + front, last);
  }

  lemma {:induction false} ComponentsSplit(a: string, b: string)
    ensures Components(a + "/" + b) == Components(a) + Components(b)
    decreases |b|
  {
    match LastIndex(b, '/')
    case None => LastPart(a, b);
    case Some(j) =>
      var front, last := b[..j], b[j + 1..];
      CutAtSlash(b);
      LaterPart(a, b, front, last);
      LastPart(front, last);
      ComponentsSplit(a, front);
      Associates(Components(a), Components(front), Part(last));
  }

  lemma ComponentsOfJoin(dir: string, name: string)
    requires !Absolute(name)
    ensures Components(Join(dir, name)) == Components(dir) + Components(name)
  {
    if dir != [] {
      if dir[|dir| - 1] == '/' {
        var d := dir[..|dir| - 1];
        assert dir == d + "/";
        LastPart(d, "");
        assert d + "/" + "" == dir;
        ComponentsSplit(d, name);
      } else {
        ComponentsSplit(dir, name);
      }
    }
  }

  lemma DotsDoNotCount(a: string, b: string)
    ensures Components(a + "/" + ("./" + b)) == Components(a + "/" + b)
  {
    assert "./" + b == "." + "/" + b;
    NoLastIndex(".", '/');
    ComponentsSplit(".", b);
    ComponentsSplit(a, "./" + b);
    ComponentsSplit(a, b);
  }

  lemma ComponentsOfName(n: string)
    requires FileName(n)
    ensures Components(n) == [n]
  {
    NoLastIndex(n, '/');
  }

  // ---------- parent and file name ----------

  /** Where the body of a path begins: after a leading slash, or after a leading dot component. */
  function BodyStart(s: string): (i: nat)
    ensures i <= |s|
  {
    if Absolute(s) || s == "." || (|s| > 1 && s[0] == '.' && s[1] == '/') then 1 else 0
  }

  /** The last part of the body of a path, and the path without it and the slash before it. */
  function Front(s: string, start: nat): (r: (string, string))
    requires start < |s|
    ensures start <= |r.0| < |s|
    ensures s == r.0 + r.1 || s == r.0 + "/" + r.1
    ensures '/' !in r.1
  {
    match LastIndex(s[start..], '/')
    case None => (s[..start], s[start..])
    case Some(i) => (s[..start + i], s[start + i + 1..])
  }

  /** Drops empty and single-dot parts from the end. */
  function TrimEnd(s: string, start: nat): (r: string)
    requires start <= |s|
    ensures start <= |r| && r <= s
  {
    if start == |s| || Part(Front(s, start).1) != [] then s else TrimEnd(Front(s, start).0, start)
  }

  /** Parent directory and file name of a path; the file name is empty when the path does not end in
      one. */
  function SplitPath(s: string): (string, string) {
    var start := BodyStart(s);
    var t := TrimEnd(s, start);
    if |t| == start then ([], [])
    else
      var f := Front(t, start);
      (TrimEnd(f.0, start), if f.1 == ".." then [] else f.1)
  }

  lemma {:induction false} TrimEndIs(s: string, start: nat)
    requires start <= |s| && start == BodyStart(s)
    ensures Components(TrimEnd(s, start)) == Components(s)
    ensures BodyStart(TrimEnd(s, start)) == start
    ensures TrimEnd(TrimEnd(s, start), start) == TrimEnd(s, start)
    decreases |s|
  {
    if start < |s| && Part(Front(s, start).1) == [] {
      FrontIs(s, start);
      TrimEndIs(Front(s, start).0, start);
    }
  }

  lemma FrontIs(s: string, start: nat)
    requires start < |s| && start == BodyStart(s)
    ensures Components(s) == Components(Front(s, start).0) + Part(Front(s, start).1)
    ensures BodyStart(Front(s, start).0) == start
  {
    match LastIndex(s[start..], '/')
    case None => OnlyPart(s, start);
    case Some(i) =>
      LastSlash(s, start, i);
      StartOfPrefix(s, start + i);
  }

  lemma LastSlash(s: string, start: nat, i: nat)
    requires start <= |s| && LastIndex(s[start..], '/') == Some(i)
    ensures start + i < |s| && s[start + i] == '/'
    ensures Components(s) == Components(s[..start + i]) + Part(s[start + i + 1..])
  {
    var b := s[start..];
    CutAtSlash(b);
    assert s == s[..start] + b && b[i] == s[start + i];
    Regroup(s, s[..start], b, b[..i], b[i + 1..]);
    assert s[..start] + b[..i] == s[..start + i] && b[i + 1..] == s[start + i + 1..];
    LastPart(s[..start + i], s[start + i + 1..]);
  }

  lemma OnlyPart(s: string, start: nat)
    requires start < |s| && start == BodyStart(s) && '/' !in s[start..]
    ensures Components(s) == Components(s[..start]) + Part(s[start..])
    ensures BodyStart(s[..start]) == start
  {
    if start == 0 {
      NoLastIndex(s, '/');
      assert s[..0] == [] && s[0..] == s;
    } else {
      assert |s| > 1 ==> s[1] in s[1..];
      assert s[..1] == "/" && s == "" + "/" + s[1..];
      LastPart("", s[1..]);
      LastPart("", "");
      assert "" + "/" + "" == "/";
    }
  }

  lemma StartOfPrefix(s: string, n: nat)
    requires n < |s| && s[n] == '/' && BodyStart(s) <= n
    ensures BodyStart(s[..n]) == BodyStart(s)
  {
    if n > 1 { assert s[..n][1] == s[1]; }
  }

  /** Splitting is faithful: a path that ends in a file name goes through its parent to that name. */
  lemma SplitKeepsPath(s: string)
    ensures var (parent, name) := SplitPath(s);
            && TrimEnd(parent, BodyStart(parent)) == parent
            && '/' !in name
            && (name != [] ==> FileName(name) && Components(s) == Components(parent) + [name])
  {
    var start := BodyStart(s);
    TrimEndIs(s, start);
    var t := TrimEnd(s, start);
    if |t| > start {
      assert Part(Front(t, start).1) != [];
      FrontIs(t, start);
      TrimEndIs(Front(t, start).0, start);
    }
  }

  lemma SlashIsTrimmed(p: string, start: nat)
    requires start < |p| && p[|p| - 1] == '/'
    ensures TrimEnd(p, start) != p
  {
    assert p[start..][|p| - 1 - start] == '/';
    LastIndexIs(p[start..], '/', |p| - 1 - start);
    assert Front(p, start).1 == [];
  }

  lemma TrimmedEnd(p: string)
    requires TrimEnd(p, BodyStart(p)) == p && p != [] && p[|p| - 1] == '/'
    ensures p == "/"
  {
    if BodyStart(p) < |p| { SlashIsTrimmed(p, BodyStart(p)); }
  }

  lemma SplitAtName(s: string, parent: string, name: string)
    requires BodyStart(s) == BodyStart(parent) && TrimEnd(parent, BodyStart(parent)) == parent && FileName(name)
    requires |s| > BodyStart(s) && Front(s, BodyStart(s)) == (parent, name)
    ensures SplitPath(s) == (parent, name)
  {
  }

  /** Splitting undoes joining a file name to a parent. */
  lemma SplitUndoesJoin(parent: string, name: string)
    requires TrimEnd(parent, BodyStart(parent)) == parent && FileName(name)
    ensures SplitPath(Join(parent, name)) == (parent, name)
  {
    if parent == [] || parent[|parent| - 1] == '/' {
      if parent != [] { TrimmedEnd(parent); }
      FrontOfName(parent, name);
      SplitAtName(parent + name, parent, name);
      assert parent == [] ==> parent + name == name;
    } else {
      FrontOfJoin(parent, name);
      SplitAtName(parent + "/" + name, parent, name);
    }
  }

  lemma FrontOfName(parent: string, name: string)
    requires (parent == [] || parent == "/") && FileName(name)
    ensures BodyStart(parent + name) == |parent| == BodyStart(parent)
    ensures Front(parent + name, |parent|) == (parent, name)
  {
    var s := parent + name;
    assert s[|parent|..] == name && s[..|parent|] == parent;
    assert parent == [] ==> s == name;
    assert |name| > 1 ==> name[1] in name;
    NoLastIndex(name, '/');
  }

  lemma FrontOfJoin(parent: string, name: string)
    requires parent != [] && parent[|parent| - 1] != '/' && FileName(name)
    ensures var s := parent + "/" + name;
            BodyStart(s) == BodyStart(parent) && Front(s, BodyStart(parent)) == (parent, name)
  {
    var s, n, start := parent + "/" + name, |parent|, BodyStart(parent);
    assert s[n] == '/' && s[..n] == parent && s[n + 1..] == name;
    StartOfPrefix(s, n);
    var body := s[start..];
    assert body[n - start] == '/' && body[n - start + 1..] == name;
    LastIndexBefore(body, n - start, name);
  }

  /** The file name is the last component, whatever slashes and dots follow it; there is none when there is no
      component or the last one leads upwards. */
  lemma NameIsLastComponent(s: string)
    ensures var cs := Components(s);
            SplitPath(s).1 == if cs == [] || cs[|cs| - 1] == ".." then [] else cs[|cs| - 1]
  {
    var start := BodyStart(s);
    var t := TrimEnd(s, start);
    TrimEndIs(s, start);
    if |t| > start {
      FrontIs(t, start);
      LastOfSum(Components(Front(t, start).0), Front(t, start).1);
    } else {
      NoBody(t);
    }
  }

  lemma LastOfSum(cs: seq<string>, c: string)
    ensures (cs + [c])[|cs + [c]| - 1] == c
  {
  }

  lemma NoBody(t: string)
    requires |t| == BodyStart(t)
    ensures Components(t) == []
  {
    if t != [] {
      if Absolute(t) {
        assert t == "" + "/" + "";
        LastPart("", "");
      } else {
        NoLastIndex(t, '/');
      }
    }
  }
}
