/** Finding a free file name of the form `base (k).ext`, and reading such a name back. */
module UniquePath {
  import opened Prelude
  import opened Paths
  import opened Text

  datatype BaseExt = BaseExt(base: string, ext: Option<string>)

  /** `base (k).ext`, or `base (k)` without extension. */
  function Render(f: BaseExt, k: nat): string {
    f.base + " (" + Decimal(k) + ")" + (if f.ext.Some? then "." + f.ext.value else "")
  }

  /** Position of the last occurrence of a space followed by an opening parenthesis. */
  function LastOpen(s: string): (r: Option<nat>)
    ensures r.Some? ==> r.value + 1 < |s| && s[r.value] == ' ' && s[r.value + 1] == '('
  {
    if |s| < 2 then None
    else if s[|s| - 2] == ' ' && s[|s| - 1] == '(' then Some(|s| - 2)
    else LastOpen(s[..|s| - 1])
  }

  /** The name without a trailing ` (digits)`. */
  function StripNumber(name: string): string {
    match LastOpen(name)
    case None => name
    case Some(i) =>
      var after := name[i + 2..];
      if after != [] && after[|after| - 1] == ')' && |after| > 1 && AllDigits(after[..|after| - 1])
      then name[..i] else name
  }

  function ParseFilename(name: string): BaseExt {
    match LastIndex(name, '.')
    case Some(i) => BaseExt(StripNumber(name[..i]), Some(name[i + 1..]))
    case None => BaseExt(StripNumber(name), None)
  }

  /** The `k`-th path tried for a path: in its parent directory, with a number after its base name. */
  function Candidate(path: string, k: nat): string {
    var (parent, name) := SplitPath(path);
    Join(parent, Render(ParseFilename(name), k))
  }

  lemma CandidateIs(path: string, parent: string, name: string, k: nat)
    requires SplitPath(path).0 == parent && SplitPath(path).1 == name
    ensures Candidate(path, k) == Join(parent, Render(ParseFilename(name), k))
  {
  }

  /**
   The original path when it is free, otherwise the candidate with the smallest number that is, and an
   error exactly when the original and all 9999 candidates exist.
   */
  method GenerateUniquePath(original: string, exists_: string -> bool) returns (r: Option<string>)
    ensures r.Some? ==> !exists_(r.value)
    ensures !exists_(original) ==> r == Some(original)
    ensures exists_(original) && r.Some? ==>
      exists k :: 1 <= k <= 9999 && r.value == Candidate(original, k)
                  && forall j :: 1 <= j < k ==> exists_(Candidate(original, j))
    ensures r.None? <==> exists_(original) && forall j :: 1 <= j <= 9999 ==> exists_(Candidate(original, j))
  {
    if !exists_(original) {
      return Some(original);
    }
    var (parent, filename) := SplitPath(original);
    r := FirstFreeName(parent, ParseFilename(filename), exists_);
    forall k: nat
      ensures Candidate(original, k) == Join(parent, Render(ParseFilename(filename), k))
    {
      CandidateIs(original, parent, filename, k);
    }
  }

  /** The loop over the numbers. */
  method FirstFreeName(parent: string, name: BaseExt, exists_: string -> bool) returns (r: Option<string>)
    ensures r.Some? ==>
      exists k :: 1 <= k <= 9999 && r.value == Join(parent, Render(name, k)) && !exists_(r.value)
                  && forall j :: 1 <= j < k ==> exists_(Join(parent, Render(name, j)))
    ensures r.None? ==> forall j :: 1 <= j <= 9999 ==> exists_(Join(parent, Render(name, j)))
  {
    for counter := 1 to 10000
      invariant forall j :: 1 <= j < counter ==> exists_(Join(parent, Render(name, j)))
    {
      var path := Join(parent, Render(name, counter));
      if !exists_(path) {
        return Some(path);
      }
    }
    return None;
  }

  // ---------- reading a rendered name back ----------

  lemma {:induction false} LastOpenIs(s: string, i: nat)
    requires i + 1 < |s| && s[i] == ' ' && s[i + 1] == '('
    requires forall j :: i < j < |s| - 1 ==> !(s[j] == ' ' && s[j + 1] == '(')
    ensures LastOpen(s) == Some(i)
  {
    if i + 2 < |s| {
      LastOpenIs(s[..|s| - 1], i);
    }
  }

  lemma StripDigits(base: string, d: string)
    requires d != [] && AllDigits(d)
    ensures StripNumber(base + " (" + d + ")") == base
  {
    var s, i := base + " (" + d + ")", |base|;
    NumberEnds(base, d);
    LastOpenIs(s, i);
    var after := s[i + 2..];
    assert after == d + ")" && after[..|after| - 1] == d;
  }

  lemma StripUndoesNumber(base: string, k: nat)
    ensures StripNumber(base + " (" + Decimal(k) + ")") == base
  {
    StripDigits(base, Decimal(k));
  }

  lemma NumberEnds(base: string, d: string)
    requires AllDigits(d)
    ensures var s, i := base + " (" + d + ")", |base|;
            && s[i] == ' ' && s[i + 1] == '(' && s[i + 2..] == d + ")" && s[..i] == base
            && forall j :: i < j < |s| - 1 ==> s[j] != ' '
  {
    var s, i := base + " (" + d + ")", |base|;
    forall j | i < j < |s| - 1
      ensures s[j] != ' '
    {
      if j > i + 1 { assert s[j] == d[j - (i + 2)]; }
    }
  }

  /** The names for which reading undoes writing: no dot in the extension, none in a base without one. */
  predicate Canonical(f: BaseExt) {
    if f.ext.Some? then '.' !in f.ext.value else '.' !in f.base
  }

  lemma ParsedIsCanonical(name: string)
    ensures Canonical(ParseFilename(name))
  {
    var d := LastIndex(name, '.');
    if d.None? {
      assert forall c :: c in StripNumber(name) ==> c in name;
    }
  }

  lemma ParseStem(stem: string, ext: string)
    requires '.' !in ext
    ensures ParseFilename(stem + "." + ext) == BaseExt(StripNumber(stem), Some(ext))
    ensures ParseFilename(ext) == BaseExt(StripNumber(ext), None)
  {
    LastDot(stem, ext);
    NoLastIndex(ext, '.');
  }

  lemma RenderParts(f: BaseExt, k: nat, stem: string)
    requires stem == f.base + " (" + Decimal(k) + ")"
    ensures Render(f, k) == if f.ext.Some? then stem + "." + f.ext.value else stem
  {
    if f.ext.Some? { assert stem + ("." + f.ext.value) == stem + "." + f.ext.value; }
  }

  /** Parsing undoes rendering, for every number, exactly for canonical names. */
  lemma ParseUndoesRender(f: BaseExt, k: nat)
    ensures ParseFilename(Render(f, k)) == f <==> Canonical(f)
  {
    var stem := f.base + " (" + Decimal(k) + ")";
    ParsedIsCanonical(Render(f, k));
    if Canonical(f) {
      RenderParts(f, k, stem);
      StripUndoesNumber(f.base, k);
      NoDotInNumber(f, k, stem);
      if f.ext.Some? { ParseStem(stem, f.ext.value); } else { ParseStem("", stem); }
    }
  }

  lemma NoDotInNumber(f: BaseExt, k: nat, stem: string)
    requires Canonical(f) && stem == f.base + " (" + Decimal(k) + ")"
    ensures f.ext.None? ==> '.' !in stem
  {
    var d := Decimal(k);
    assert forall i :: 0 <= i < |d| ==> d[i] != '.';
  }

  lemma {:induction false} RenderedIsFileName(f: BaseExt, k: nat)
    requires '/' !in f.base && (f.ext.Some? ==> '/' !in f.ext.value)
    ensures FileName(Render(f, k))
  {
    var s, d := Render(f, k), Decimal(k);
    assert forall i :: 0 <= i < |d| ==> d[i] != '/';
    assert s[|f.base|] == ' ' && s[|f.base| + 1] == '(';
    assert |s| > 2;
  }

  lemma ParsedPartsAreFrom(name: string)
    requires '/' !in name
    ensures var f := ParseFilename(name); '/' !in f.base && (f.ext.Some? ==> '/' !in f.ext.value)
  {
    var d := LastIndex(name, '.');
    var stem := if d.Some? then name[..d.value] else name;
    assert forall c :: c in stem ==> c in name;
    assert forall c :: c in StripNumber(stem) ==> c in stem;
  }

  /** A candidate splits into the original's parent directory and the rendered name. */
  lemma SplitOfCandidate(path: string, k: nat)
    ensures var (parent, name) := SplitPath(path);
            SplitPath(Candidate(path, k)) == (parent, Render(ParseFilename(name), k))
  {
    var (parent, name) := SplitPath(path);
    SplitKeepsPath(path);
    ParsedPartsAreFrom(name);
    RenderedIsFileName(ParseFilename(name), k);
    SplitUndoesJoin(parent, Render(ParseFilename(name), k));
  }

  /** Renaming a renamed file tries the same candidates as renaming the original: calling the function
      again on its own result enumerates the same paths. */
  lemma RenamedHasSameCandidates(path: string, k: nat, j: nat)
    ensures Candidate(Candidate(path, k), j) == Candidate(path, j)
  {
    var name := SplitPath(path).1;
    SplitOfCandidate(path, k);
    ParsedIsCanonical(name);
    ParseUndoesRender(ParseFilename(name), k);
  }

  lemma RendersDiffer(f: BaseExt, j: nat, k: nat)
    requires j != k
    ensures Render(f, j) != Render(f, k) && Absolute(Render(f, j)) == Absolute(Render(f, k))
  {
    var tail := ")" + (if f.ext.Some? then "." + f.ext.value else "");
    RenderTail(f, j, tail);
    RenderTail(f, k, tail);
    if Render(f, j) == Render(f, k) {
      Middle(f.base + " (", Decimal(j), tail);
      Middle(f.base + " (", Decimal(k), tail);
      DecimalIsInjective(j, k);
    }
  }

  lemma RenderTail(f: BaseExt, k: nat, tail: string)
    requires tail == ")" + (if f.ext.Some? then "." + f.ext.value else "")
    ensures Render(f, k) == f.base + " (" + Decimal(k) + tail
    ensures Render(f, k)[0] == if f.base == [] then ' ' else f.base[0]
  {
  }

  /** Different numbers give different candidates. */
  lemma CandidatesAreDistinct(path: string, j: nat, k: nat)
    requires j != k
    ensures Candidate(path, j) != Candidate(path, k)
  {
    var (parent, name) := SplitPath(path);
    var a, b := Render(ParseFilename(name), j), Render(ParseFilename(name), k);
    RendersDiffer(ParseFilename(name), j, k);
    if Join(parent, a) == Join(parent, b) { JoinIsInjective(parent, a, b); }
  }

  // ---------- what parsing and renaming keep of a name ----------

  predicate HasNumber(stem: string, base: string, digits: string) {
    digits != [] && AllDigits(digits) && stem == base + " (" + digits + ")"
  }

  ghost predicate EndsInNumber(stem: string) { exists base, digits :: HasNumber(stem, base, digits) }

  /** Nothing but a number at the end is stripped, and only when there is one. */
  lemma StripMeans(stem: string)
    ensures if EndsInNumber(stem) then exists digits :: HasNumber(stem, StripNumber(stem), digits)
            else StripNumber(stem) == stem
  {
    if base, digits :| HasNumber(stem, base, digits) {
      StripDigits(base, digits);
    } else if StripNumber(stem) != stem {
      WasNumbered(stem, LastOpen(stem).value);
    }
  }

  lemma StrippedHow(stem: string, i: nat, after: string)
    requires StripNumber(stem) != stem && LastOpen(stem) == Some(i) && after == stem[i + 2..]
    ensures StripNumber(stem) == stem[..i]
    ensures |after| > 1 && after[|after| - 1] == ')' && AllDigits(after[..|after| - 1])
  {
  }

  lemma WasNumbered(stem: string, i: nat)
    requires StripNumber(stem) != stem && LastOpen(stem) == Some(i)
    ensures exists digits :: HasNumber(stem, StripNumber(stem), digits)
  {
    var after := stem[i + 2..];
    StrippedHow(stem, i, after);
    Reassembled(stem, i, after, after[..|after| - 1]);
    assert HasNumber(stem, stem[..i], after[..|after| - 1]);
  }

  lemma Reassembled(stem: string, i: nat, after: string, digits: string)
    requires i + 2 <= |stem| && stem[i] == ' ' && stem[i + 1] == '(' && after == stem[i + 2..]
    requires after != [] && after[|after| - 1] == ')' && digits == after[..|after| - 1]
    ensures stem == stem[..i] + " (" + digits + ")"
  {
    assert after == digits + ")";
    assert stem == stem[..i] + " (" + after;
  }

  /** Reading a name takes it apart and loses nothing: what follows the last dot is the extension, and what
      stands before it is the base, with a number behind it if it ends in one. */
  lemma ParseMeans(name: string) returns (stem: string)
    ensures var f := ParseFilename(name);
            && name == stem + (if f.ext.Some? then "." + f.ext.value else "")
            && (if EndsInNumber(stem) then exists digits :: HasNumber(stem, f.base, digits) else f.base == stem)
            && (if f.ext.Some? then '.' !in f.ext.value else '.' !in name)
  {
    match LastIndex(name, '.')
    case None =>
      stem := name;
      StripMeans(stem);
      assert name == name + "";
    case Some(i) =>
      stem := name[..i];
      StripMeans(stem);
      CutAtDot(name, i);
  }

  lemma CutAtDot(name: string, i: nat)
    requires LastIndex(name, '.') == Some(i)
    ensures name == name[..i] + ("." + name[i + 1..]) && '.' !in name[i + 1..]
  {
  }

  lemma CandidateOfParsed(parent: string, name: string, f: BaseExt, k: nat)
    requires SplitPath(Join(parent, name)).0 == parent && SplitPath(Join(parent, name)).1 == name
    requires ParseFilename(name) == f
    ensures Candidate(Join(parent, name), k) == Join(parent, Render(f, k))
  {
    CandidateIs(Join(parent, name), parent, name, k);
  }

  /** A name without a number keeps its base and its extension in every candidate. */
  lemma CandidateIsNumbered(parent: string, stem: string, ext: string, k: nat)
    requires TrimEnd(parent, BodyStart(parent)) == parent
    requires '.' !in ext && !EndsInNumber(stem) && FileName(stem + "." + ext)
    ensures Candidate(Join(parent, stem + "." + ext), k) == Join(parent, stem + " (" + Decimal(k) + ")" + "." + ext)
  {
    SplitUndoesJoin(parent, stem + "." + ext);
    ParseStem(stem, ext);
    StripMeans(stem);
    CandidateOfParsed(parent, stem + "." + ext, BaseExt(stem, Some(ext)), k);
    RenderParts(BaseExt(stem, Some(ext)), k, stem + " (" + Decimal(k) + ")");
  }

  lemma CandidateWithoutExtension(parent: string, stem: string, k: nat)
    requires TrimEnd(parent, BodyStart(parent)) == parent
    requires '.' !in stem && !EndsInNumber(stem) && FileName(stem)
    ensures Candidate(Join(parent, stem), k) == Join(parent, stem + " (" + Decimal(k) + ")")
  {
    SplitUndoesJoin(parent, stem);
    ParseStem("", stem);
    StripMeans(stem);
    CandidateOfParsed(parent, stem, BaseExt(stem, None), k);
    assert Render(BaseExt(stem, None), k) == stem + " (" + Decimal(k) + ")";
  }
}
