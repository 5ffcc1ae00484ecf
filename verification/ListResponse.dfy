/**
 Reading an object listing: the response is scanned for tags, not parsed.  For well-formed responses
 the scan returns exactly the listed objects and prefixes, in order.
 */
module ListResponse {
  import opened Prelude
  import opened Text

  // ---------- scanning ----------

  /** Position of the first occurrence of a pattern. */
  function Find(s: string, pattern: string): (r: Option<nat>)
    ensures r.Some? ==> r.value + |pattern| <= |s|
  {
    if At(s, pattern, 0) then Some(0)
    else if s == [] then None
    else
      match Find(s[1..], pattern)
      case None => None
      case Some(i) => Some(i + 1)
  }

  lemma {:induction false} FindIsFirst(s: string, pattern: string)
    ensures match Find(s, pattern)
            case Some(i) => At(s, pattern, i) && forall j :: 0 <= j < i ==> !At(s, pattern, j)
            case None => forall j :: 0 <= j <= |s| ==> !At(s, pattern, j)
  {
    if !At(s, pattern, 0) && s != [] {
      FindIsFirst(s[1..], pattern);
      match Find(s[1..], pattern)
      case None => NoneEarlier(s, pattern, |s|);
      case Some(i) =>
        NoneEarlier(s, pattern, i);
        AtTail(s, pattern, i);
    }
  }

  lemma NoneEarlier(s: string, pattern: string, end: nat)
    requires s != [] && end <= |s| && !At(s, pattern, 0)
    requires forall j :: 0 <= j < end ==> !At(s[1..], pattern, j)
    ensures forall j :: 0 <= j <= end ==> !At(s, pattern, j)
  {
    forall j | 0 <= j <= end
      ensures !At(s, pattern, j)
    {
      if j > 0 { AtTail(s, pattern, j - 1); }
    }
  }

  lemma AtTail(s: string, pattern: string, j: nat)
    requires j < |s|
    ensures At(s[1..], pattern, j) <==> At(s, pattern, j + 1)
  {
    if j + 1 + |pattern| <= |s| {
      assert s[1..][j..j + |pattern|] == s[j + 1..j + 1 + |pattern|];
    }
  }

  function Open(tag: string): string { "<" + tag + ">" }

  function Close(tag: string): string { "</" + tag + ">" }

  /** What stands between a tag and its closing tag, and what follows. */
  datatype Piece = Piece(inner: string, rest: string)

  /** The first opening tag, and the first closing tag after it. */
  function NextBlock(s: string, tag: string): (r: Option<Piece>)
    ensures r.Some? ==> |r.value.rest| < |s|
  {
    BlockFrom(s, tag, Find(s, Open(tag)))
  }

  /** The same, with the position of the opening tag given. */
  function BlockFrom(s: string, tag: string, start: Option<nat>): (r: Option<Piece>)
    requires start.Some? ==> start.value + |Open(tag)| <= |s|
    ensures r.Some? ==> |r.value.rest| < |s|
  {
    match start
    case None => None
    case Some(i) => UntilClose(s[i + |Open(tag)|..], tag)
  }

  function UntilClose(after: string, tag: string): (r: Option<Piece>)
    ensures r.Some? ==> |r.value.rest| <= |after|
  {
    match Find(after, Close(tag))
    case None => None
    case Some(e) => Some(Piece(after[..e], after[e + |Close(tag)|..]))
  }

  /** The text between the first opening tag and the closing tag after it. */
  function ExtractTag(xml: string, tag: string): Option<string> {
    match NextBlock(xml, tag)
    case None => None
    case Some(p) => Some(p.inner)
  }

  /** The contents of the blocks with this tag, up to the first one that is not closed. */
  function Blocks(s: string, tag: string): seq<string>
    decreases |s|
  {
    match NextBlock(s, tag)
    case None => []
    case Some(p) => [p.inner] + Blocks(p.rest, tag)
  }

  const MAX_U64: nat := 0xFFFF_FFFF_FFFF_FFFF

  /** Reading a 64-bit number: an optional plus sign, at least one digit, no overflow. */
  function ParseU64(s: string): Option<nat> {
    var digits := if s != [] && s[0] == '+' then s[1..] else s;
    if digits != [] && AllDigits(digits) && NumberOf(digits) <= MAX_U64 then Some(NumberOf(digits)) else None
  }

  datatype ObjectInfo = ObjectInfo(key: string, size: nat, lastModified: Option<int>, etag: Option<string>)

  /** A date that cannot be read counts as none. */
  function DateOf(text: Option<string>, date: string -> Option<int>): Option<int> {
    if text.Some? then date(text.value) else None
  }

  function GetOr<T>(o: Option<T>, default: T): T { if o.Some? then o.value else default }

  function ObjectIn(block: string, date: string -> Option<int>): ObjectInfo {
    var size := ExtractTag(block, "Size");
    ObjectInfo(
      GetOr(ExtractTag(block, "Key"), ""),
      if size.Some? then GetOr(ParseU64(size.value), 0) else 0,
      DateOf(ExtractTag(block, "LastModified"), date),
      ExtractTag(block, "ETag"))
  }

  function ObjectsIn(blocks: seq<string>, date: string -> Option<int>): seq<ObjectInfo> {
    if blocks == [] then [] else [ObjectIn(blocks[0], date)] + ObjectsIn(blocks[1..], date)
  }

  function PrefixIn(block: string): seq<string> {
    var p := ExtractTag(block, "Prefix");
    if p.Some? then [p.value] else []
  }

  function PrefixesIn(blocks: seq<string>): seq<string> {
    if blocks == [] then [] else PrefixIn(blocks[0]) + PrefixesIn(blocks[1..])
  }

  method CollectObjects(s: string, tag: string, date: string -> Option<int>) returns (objects: seq<ObjectInfo>)
    ensures objects == ObjectsIn(Blocks(s, tag), date)
  {
    objects := [];
    var rest := s;
    while true
      invariant ObjectsIn(Blocks(s, tag), date) == objects + ObjectsIn(Blocks(rest, tag), date)
      decreases |rest|
    {
      var next := NextBlock(rest, tag);
      if next.None? {
        break;
      }
      BlocksFrom(rest, tag);
      objects := objects + [ObjectIn(next.value.inner, date)];
      rest := next.value.rest;
    }
    assert objects + [] == objects;
  }

  method CollectPrefixes(s: string, tag: string) returns (prefixes: seq<string>)
    ensures prefixes == PrefixesIn(Blocks(s, tag))
  {
    prefixes := [];
    var rest := s;
    while true
      invariant PrefixesIn(Blocks(s, tag)) == prefixes + PrefixesIn(Blocks(rest, tag))
      decreases |rest|
    {
      var next := NextBlock(rest, tag);
      if next.None? {
        break;
      }
      BlocksFrom(rest, tag);
      var found := PrefixIn(next.value.inner);
      Associates(prefixes, found, PrefixesIn(Blocks(next.value.rest, tag)));
      prefixes := prefixes + found;
      rest := next.value.rest;
    }
    assert prefixes + [] == prefixes;
  }

  method ParseListResponse(s: string, date: string -> Option<int>)
    returns (objects: seq<ObjectInfo>, prefixes: seq<string>, truncated: bool, nextToken: Option<string>)
    ensures objects == ObjectsIn(Blocks(s, "Contents"), date)
    ensures prefixes == PrefixesIn(Blocks(s, "CommonPrefixes"))
    ensures truncated <==> Find(s, "<IsTruncated>true</IsTruncated>").Some?
    ensures nextToken == ExtractTag(s, "NextContinuationToken")
  {
    truncated := Find(s, "<IsTruncated>true</IsTruncated>").Some?;
    objects := CollectObjects(s, "Contents", date);
    prefixes := CollectPrefixes(s, "CommonPrefixes");
    nextToken := ExtractTag(s, "NextContinuationToken");
  }

  lemma BlocksFrom(s: string, tag: string)
    requires NextBlock(s, tag).Some?
    ensures var p, blocks := NextBlock(s, tag).value, Blocks(s, tag);
            blocks != [] && blocks[0] == p.inner && blocks[1..] == Blocks(p.rest, tag)
  {
  }

  // ---------- finding a tag that is there ----------

  /** A pattern that starts with `<` and has no other. */
  predicate TagLike(pattern: string) {
    pattern != [] && pattern[0] == '<' && forall i :: 0 < i < |pattern| ==> pattern[i] != '<'
  }

  predicate Occurs(s: string, pattern: string) { exists j :: 0 <= j <= |s| && At(s, pattern, j) }

  /** One differing character refutes an occurrence. */
  lemma NotAt(s: string, pattern: string, j: nat, k: nat)
    requires k < |pattern| && (j + k < |s| ==> s[j + k] != pattern[k])
    ensures !At(s, pattern, j)
  {
    assert j + |pattern| <= |s| ==> s[j..j + |pattern|][k] == s[j + k];
  }

  lemma FindIs(s: string, pattern: string, i: nat)
    requires At(s, pattern, i) && forall j :: 0 <= j < i ==> !At(s, pattern, j)
    ensures Find(s, pattern) == Some(i)
  {
    FindIsFirst(s, pattern);
  }

  lemma NotFound(s: string, pattern: string)
    requires !Occurs(s, pattern)
    ensures Find(s, pattern) == None
  {
    FindIsFirst(s, pattern);
    assert forall j :: 0 <= j <= |s| ==> !At(s, pattern, j);
  }

  /** Such a pattern cannot begin in the text before it and end in itself. */
  lemma FindAfter(before: string, pattern: string, rest: string)
    requires TagLike(pattern) && !Occurs(before, pattern)
    ensures Find(before + pattern + rest, pattern) == Some(|before|)
  {
    var s := before + pattern + rest;
    assert s[|before|..|before| + |pattern|] == pattern;
    assert s[|before|] == pattern[0];
    forall j | 0 <= j < |before|
      ensures !At(s, pattern, j)
    {
      if j + |pattern| <= |before| {
        assert s[j..j + |pattern|] == before[j..j + |pattern|];
        assert !At(before, pattern, j);
      } else {
        NotAt(s, pattern, j, |before| - j);
      }
    }
    FindIs(s, pattern, |before|);
  }

  /** A tagged text is found whatever precedes it without that tag and whatever follows. */
  lemma NextBlockIs(before: string, tag: string, inner: string, rest: string)
    requires PlainTag(tag) && !Occurs(before, Open(tag)) && !Occurs(inner, Close(tag))
    ensures NextBlock(before + Open(tag) + inner + Close(tag) + rest, tag) == Some(Piece(inner, rest))
  {
    var after := inner + Close(tag) + rest;
    var s := before + Open(tag) + inner + Close(tag) + rest;
    TagsAreTagLike(tag);
    assert s == before + Open(tag) + after;
    FindAfter(before, Open(tag), after);
    assert s[|before| + |Open(tag)|..] == after;
    FindAfter(inner, Close(tag), rest);
    assert after[..|inner|] == inner;
    assert after[|inner| + |Close(tag)|..] == rest;
  }

  predicate PlainTag(tag: string) { tag != [] && '<' !in tag && '>' !in tag && '/' !in tag }

  lemma TagsAreTagLike(tag: string)
    requires PlainTag(tag)
    ensures TagLike(Open(tag)) && TagLike(Close(tag))
  {
    assert forall i :: 0 <= i < |tag| ==> tag[i] in tag;
  }

  // ---------- well-formed responses ----------

  /** A block with the text in front of it. */
  datatype Item = Item(before: string, block: string)

  function Body(tag: string, items: seq<Item>, tail: string): string {
    if items == [] then tail
    else items[0].before + Open(tag) + items[0].block + Close(tag) + Body(tag, items[1..], tail)
  }

  /** No stray opening tag outside the blocks, no closing tag inside them. */
  predicate WellFormedBody(tag: string, items: seq<Item>, tail: string) {
    && !Occurs(tail, Open(tag))
    && forall i :: 0 <= i < |items| ==> !Occurs(items[i].before, Open(tag)) && !Occurs(items[i].block, Close(tag))
  }

  function BlocksOf(items: seq<Item>): seq<string> { seq(|items|, i requires 0 <= i < |items| => items[i].block) }

  /** Scanning a well-formed body finds exactly its blocks, in order. */
  lemma {:induction false} BlocksAreFound(tag: string, items: seq<Item>, tail: string)
    requires PlainTag(tag) && WellFormedBody(tag, items, tail)
    ensures Blocks(Body(tag, items, tail), tag) == BlocksOf(items)
    decreases |items|
  {
    if items == [] {
      NoBlocks(tail, tag);
    } else {
      OneBlock(tag, items[0], Body(tag, items[1..], tail));
      LaterItems(tag, items, tail);
      BlocksAreFound(tag, items[1..], tail);
      BlocksOfStep(items);
    }
  }

  lemma NoBlocks(s: string, tag: string)
    requires !Occurs(s, Open(tag))
    ensures Blocks(s, tag) == []
  {
    NotFound(s, Open(tag));
  }

  lemma OneBlock(tag: string, item: Item, later: string)
    requires PlainTag(tag) && !Occurs(item.before, Open(tag)) && !Occurs(item.block, Close(tag))
    ensures Blocks(item.before + Open(tag) + item.block + Close(tag) + later, tag) == [item.block] + Blocks(later, tag)
  {
    NextBlockIs(item.before, tag, item.block, later);
    FirstOfBlocks(item.before + Open(tag) + item.block + Close(tag) + later, tag, item.block, later);
  }

  lemma BlocksOfStep(items: seq<Item>)
    requires items != []
    ensures BlocksOf(items) == [items[0].block] + BlocksOf(items[1..])
  {
  }

  lemma LaterItems(tag: string, items: seq<Item>, tail: string)
    requires items != [] && WellFormedBody(tag, items, tail)
    ensures WellFormedBody(tag, items[1..], tail)
  {
    assert forall i :: 0 <= i < |items[1..]| ==> items[1..][i] == items[i + 1];
  }

  lemma FirstOfBlocks(s: string, tag: string, inner: string, rest: string)
    requires NextBlock(s, tag) == Some(Piece(inner, rest))
    ensures Blocks(s, tag) == [inner] + Blocks(rest, tag)
  {
  }

  /** A field of a block, and the text in front of it. */
  datatype Field = Field(before: string, tag: string, text: string)

  function Tagged(f: Field): string { Open(f.tag) + f.text + Close(f.tag) }

  /** The text of a block: its fields, and what follows the last of them. */
  function FieldsText(fs: seq<Field>, end: string): string {
    if fs == [] then end else fs[0].before + Tagged(fs[0]) + FieldsText(fs[1..], end)
  }

  predicate PlainField(f: Field) { '<' !in f.before && PlainTag(f.tag) && '<' !in f.text }

  predicate PlainFields(fs: seq<Field>, end: string) {
    '<' !in end && forall i :: 0 <= i < |fs| ==> PlainField(fs[i])
  }

  /** Text of the first field with the tag. */
  function Lookup(fs: seq<Field>, tag: string): Option<string> {
    if fs == [] then None
    else if fs[0].tag == tag then Some(fs[0].text)
    else Lookup(fs[1..], tag)
  }

  lemma NoAngleElsewhere(f: Field, j: nat)
    requires PlainField(f) && j < |Tagged(f)| && j != 0 && j != |Open(f.tag)| + |f.text|
    ensures Tagged(f)[j] != '<'
  {
    var n, m := |Open(f.tag)|, |Open(f.tag)| + |f.text|;
    var s := Tagged(f);
    if j < n - 1 {
      assert s[j] == f.tag[j - 1];
    } else if n <= j < m {
      assert s[j] == f.text[j - n];
    } else if m + 2 <= j < m + 2 + |f.tag| {
      assert s[j] == f.tag[j - m - 2];
    }
  }

  /** Length of the common prefix. */
  function Common(a: string, b: string): (i: nat)
    ensures i <= |a| && i <= |b|
    ensures i < |a| && i < |b| ==> a[i] != b[i]
    ensures i == |a| == |b| ==> a == b
  {
    if a == [] || b == [] || a[0] != b[0] then 0
    else
      assert a == [a[0]] + a[1..] && b == [b[0]] + b[1..];
      1 + Common(a[1..], b[1..])
  }

  /** Tag names end at the first `>`, so a tag is not found at a different one. */
  lemma DifferentTag(a: string, b: string, rest: string, lead: string)
    requires '>' !in a && '>' !in b && a != b
    ensures !At(lead + a + ">" + rest, lead + b + ">", 0)
  {
    var i := Common(a, b);
    var s, p := lead + a + ">" + rest, lead + b + ">";
    assert s[|lead| + i] == if i < |a| then a[i] else '>';
    assert p[|lead| + i] == if i < |b| then b[i] else '>';
    NotAt(s, p, 0, |lead| + i);
  }

  lemma AtSuffix(s: string, pattern: string, j: nat)
    requires j <= |s|
    ensures At(s, pattern, j) <==> At(s[j..], pattern, 0)
  {
    if j + |pattern| <= |s| {
      assert s[j..][0..|pattern|] == s[j..j + |pattern|];
    }
  }

  /** No opening tag other than the field's own begins inside a field. */
  lemma NoOpenInside(f: Field, rest: string, tag: string, j: nat)
    requires PlainField(f) && PlainTag(tag) && f.tag != tag
    requires j < |Tagged(f)|
    ensures !At(Tagged(f) + rest, Open(tag), j)
  {
    var s, m := Tagged(f) + rest, |Open(f.tag)| + |f.text|;
    if j == 0 {
      assert s == "<" + f.tag + ">" + (f.text + Close(f.tag) + rest);
      DifferentTag(f.tag, tag, f.text + Close(f.tag) + rest, "<");
    } else if j == m {
      assert s[m + 1] == '/' && Open(tag)[1] == tag[0];
      NotAt(s, Open(tag), j, 1);
    } else {
      NoAngleElsewhere(f, j);
      NotAt(s, Open(tag), j, 0);
    }
  }

  /** No closing tag other than the field's own begins inside a field. */
  lemma NoCloseInside(f: Field, rest: string, tag: string, j: nat)
    requires PlainField(f) && PlainTag(tag) && f.tag != tag
    requires j < |Tagged(f)|
    ensures !At(Tagged(f) + rest, Close(tag), j)
  {
    var s, m := Tagged(f) + rest, |Open(f.tag)| + |f.text|;
    if j == 0 {
      assert s[1] == f.tag[0] && Close(tag)[1] == '/';
      NotAt(s, Close(tag), j, 1);
    } else if j == m {
      assert s[m..] == "</" + f.tag + ">" + rest;
      DifferentTag(f.tag, tag, rest, "</");
      AtSuffix(s, Close(tag), j);
    } else {
      NoAngleElsewhere(f, j);
      NotAt(s, Close(tag), j, 0);
    }
  }

  lemma ShiftedAt(skip: string, rest: string, pattern: string, j: nat)
    requires j <= |rest|
    ensures At(rest, pattern, j) <==> At(skip + rest, pattern, |skip| + j)
  {
    if j + |pattern| <= |rest| {
      assert rest[j..j + |pattern|] == (skip + rest)[|skip| + j..|skip| + j + |pattern|];
    }
  }

  lemma NotAtShifted(skip: string, rest: string, pattern: string, end: nat, j: nat)
    requires end <= |rest| + 1 && j < |skip| + end
    requires forall i :: 0 <= i < |skip| ==> !At(skip + rest, pattern, i)
    requires forall i :: 0 <= i < end ==> !At(rest, pattern, i)
    ensures !At(skip + rest, pattern, j)
  {
    if j >= |skip| { ShiftedAt(skip, rest, pattern, j - |skip|); }
  }

  lemma SkipText(skip: string, rest: string, pattern: string)
    requires forall j :: 0 <= j < |skip| ==> !At(skip + rest, pattern, j)
    ensures Find(skip + rest, pattern)
         == match Find(rest, pattern) case None => None case Some(i) => Some(|skip| + i)
  {
    var s := skip + rest;
    FindIsFirst(rest, pattern);
    var end := match Find(rest, pattern) case None => |rest| + 1 case Some(i) => i;
    forall j | 0 <= j < |skip| + end
      ensures !At(s, pattern, j)
    {
      NotAtShifted(skip, rest, pattern, end, j);
    }
    match Find(rest, pattern)
    case None => NotFound(s, pattern);
    case Some(i) =>
      ShiftedAt(skip, rest, pattern, i);
      FindIs(s, pattern, |skip| + i);
  }

  /** What is not in a field is not in the text before it either. */
  lemma NothingInSkip(f: Field, rest: string, pattern: string)
    requires PlainField(f) && TagLike(pattern)
    requires forall j :: 0 <= j < |Tagged(f)| ==> !At(Tagged(f) + rest, pattern, j)
    ensures var skip := f.before + Tagged(f); forall j :: 0 <= j < |skip| ==> !At(skip + rest, pattern, j)
  {
    var n, later := |f.before|, Tagged(f) + rest;
    var s := f.before + Tagged(f) + rest;
    assert s == f.before + later;
    forall j | 0 <= j < n + |Tagged(f)|
      ensures !At(s, pattern, j)
    {
      if j < n { NotAt(s, pattern, j, 0); } else { ShiftedAt(f.before, later, pattern, j - n); }
    }
  }

  /** Extracting a tag from a list of fields is looking up the first field with that tag. */
  lemma {:induction false} ExtractIsLookup(fs: seq<Field>, end: string, tag: string)
    requires PlainFields(fs, end) && PlainTag(tag)
    ensures ExtractTag(FieldsText(fs, end), tag) == Lookup(fs, tag)
    decreases |fs|
  {
    TagsAreTagLike(tag);
    if fs == [] {
      NoTagInText(end, Open(tag));
      NotFound(end, Open(tag));
    } else {
      var f, rest := fs[0], FieldsText(fs[1..], end);
      if f.tag == tag {
        FirstFieldIs(f, rest);
      } else {
        forall j | 0 <= j < |Tagged(f)|
          ensures !At(Tagged(f) + rest, Open(tag), j)
        {
          NoOpenInside(f, rest, tag, j);
        }
        NothingInSkip(f, rest, Open(tag));
        ExtractAfterSkip(f.before + Tagged(f), rest, tag);
        ExtractIsLookup(fs[1..], end, tag);
      }
    }
  }

  lemma FirstFieldIs(f: Field, rest: string)
    requires PlainField(f)
    ensures ExtractTag(f.before + Tagged(f) + rest, f.tag) == Some(f.text)
  {
    TagsAreTagLike(f.tag);
    NoTagInText(f.before, Open(f.tag));
    NoTagInText(f.text, Close(f.tag));
    assert f.before + Tagged(f) + rest == f.before + Open(f.tag) + f.text + Close(f.tag) + rest;
    NextBlockIs(f.before, f.tag, f.text, rest);
  }

  lemma ExtractAfterSkip(skip: string, rest: string, tag: string)
    requires forall j :: 0 <= j < |skip| ==> !At(skip + rest, Open(tag), j)
    ensures ExtractTag(skip + rest, tag) == ExtractTag(rest, tag)
  {
    SkipText(skip, rest, Open(tag));
    assert (skip + rest)[|skip|..] == rest;
    ShiftedBlock(skip + rest, rest, |skip|, tag);
  }

  lemma NextBlockAt(s: string, tag: string, i: nat, after: string)
    requires Find(s, Open(tag)) == Some(i) && s[i + |Open(tag)|..] == after
    ensures NextBlock(s, tag) == UntilClose(after, tag)
  {
  }

  lemma ShiftedBlock(s: string, rest: string, n: nat, tag: string)
    requires n <= |s| && s[n..] == rest
    requires Find(s, Open(tag)) == match Find(rest, Open(tag)) case None => None case Some(i) => Some(n + i)
    ensures NextBlock(s, tag) == NextBlock(rest, tag)
  {
    var first := Find(rest, Open(tag));
    if first.Some? {
      var after := rest[first.value + |Open(tag)|..];
      SameSuffix(s, n, first.value, |Open(tag)|);
      NextBlockAt(s, tag, n + first.value, after);
      NextBlockAt(rest, tag, first.value, after);
    }
  }

  lemma SameSuffix(s: string, n: nat, i: nat, m: nat)
    requires n + i + m <= |s|
    ensures s[n + i + m..] == s[n..][i + m..]
  {
  }

  lemma NoTagInText(text: string, pattern: string)
    requires '<' !in text && TagLike(pattern)
    ensures !Occurs(text, pattern)
  {
    forall j | 0 <= j <= |text|
      ensures !At(text, pattern, j)
    {
      NotAt(text, pattern, j, 0);
    }
  }

  /** A list of fields with other tags never closes the enclosing block. */
  lemma {:induction false} FieldsDoNotClose(fs: seq<Field>, end: string, tag: string)
    requires PlainFields(fs, end) && PlainTag(tag) && forall i :: 0 <= i < |fs| ==> fs[i].tag != tag
    ensures !Occurs(FieldsText(fs, end), Close(tag))
    decreases |fs|
  {
    TagsAreTagLike(tag);
    if fs == [] {
      NoTagInText(end, Close(tag));
    } else {
      var f, rest := fs[0], FieldsText(fs[1..], end);
      FieldsDoNotClose(fs[1..], end, tag);
      forall j | 0 <= j < |Tagged(f)|
        ensures !At(Tagged(f) + rest, Close(tag), j)
      {
        NoCloseInside(f, rest, tag, j);
      }
      NothingInSkip(f, rest, Close(tag));
      var skip := f.before + Tagged(f);
      forall j | 0 <= j <= |skip + rest|
        ensures !At(skip + rest, Close(tag), j)
      {
        NotAtShifted(skip, rest, Close(tag), |rest| + 1, j);
      }
    }
  }

  // ---------- whole listings ----------

  /** A listed element: the text in front of it, its fields, and the text between the last of them and its
      closing tag. */
  datatype Element = Element(before: string, fields: seq<Field>, end: string)

  function ItemsOf(es: seq<Element>): seq<Item> {
    seq(|es|, i requires 0 <= i < |es| => Item(es[i].before, FieldsText(es[i].fields, es[i].end)))
  }

  /** Elements made of plain fields, with no other element of the same tag in the body. */
  predicate WellFormedList(tag: string, es: seq<Element>, tail: string) {
    && !Occurs(tail, Open(tag))
    && forall i :: 0 <= i < |es| ==>
         && !Occurs(es[i].before, Open(tag)) && PlainFields(es[i].fields, es[i].end)
         && forall k :: 0 <= k < |es[i].fields| ==> es[i].fields[k].tag != tag
  }

  lemma ListIsWellFormed(tag: string, es: seq<Element>, tail: string)
    requires PlainTag(tag) && WellFormedList(tag, es, tail)
    ensures WellFormedBody(tag, ItemsOf(es), tail)
  {
    var items := ItemsOf(es);
    forall i | 0 <= i < |items|
      ensures !Occurs(items[i].before, Open(tag)) && !Occurs(items[i].block, Close(tag))
    {
      FieldsDoNotClose(es[i].fields, es[i].end, tag);
    }
  }

  /** The object a list of fields describes. */
  function ObjectOf(fs: seq<Field>, date: string -> Option<int>): ObjectInfo {
    var size := Lookup(fs, "Size");
    ObjectInfo(
      GetOr(Lookup(fs, "Key"), ""),
      if size.Some? then GetOr(ParseU64(size.value), 0) else 0,
      DateOf(Lookup(fs, "LastModified"), date),
      Lookup(fs, "ETag"))
  }

  function ObjectsOf(es: seq<Element>, date: string -> Option<int>): seq<ObjectInfo> {
    if es == [] then [] else [ObjectOf(es[0].fields, date)] + ObjectsOf(es[1..], date)
  }

  function PrefixesOf(es: seq<Element>): seq<string> {
    if es == [] then []
    else PrefixOf(es[0].fields) + PrefixesOf(es[1..])
  }

  function PrefixOf(fs: seq<Field>): seq<string> {
    var p := Lookup(fs, "Prefix");
    if p.Some? then [p.value] else []
  }

  lemma ObjectIsFields(fs: seq<Field>, end: string, date: string -> Option<int>)
    requires PlainFields(fs, end)
    ensures ObjectIn(FieldsText(fs, end), date) == ObjectOf(fs, date)
  {
    var block := FieldsText(fs, end);
    assert ExtractTag(block, "Key") == Lookup(fs, "Key") by { ExtractIsLookup(fs, end, "Key"); }
    assert ExtractTag(block, "Size") == Lookup(fs, "Size") by { ExtractIsLookup(fs, end, "Size"); }
    assert ExtractTag(block, "LastModified") == Lookup(fs, "LastModified") by {
      ExtractIsLookup(fs, end, "LastModified");
    }
    assert ExtractTag(block, "ETag") == Lookup(fs, "ETag") by { ExtractIsLookup(fs, end, "ETag"); }
  }

  lemma PrefixIsFields(fs: seq<Field>, end: string)
    requires PlainFields(fs, end)
    ensures PrefixIn(FieldsText(fs, end)) == PrefixOf(fs)
  {
    ExtractIsLookup(fs, end, "Prefix");
  }

  lemma {:induction false} ObjectsOneByOne(blocks: seq<string>, es: seq<Element>, date: string -> Option<int>)
    requires |blocks| == |es| && forall i :: 0 <= i < |es| ==> ObjectIn(blocks[i], date) == ObjectOf(es[i].fields, date)
    ensures ObjectsIn(blocks, date) == ObjectsOf(es, date)
    decreases |es|
  {
    if es != [] { ObjectsOneByOne(blocks[1..], es[1..], date); }
  }

  lemma {:induction false} PrefixesOneByOne(blocks: seq<string>, es: seq<Element>)
    requires |blocks| == |es| && forall i :: 0 <= i < |es| ==> PrefixIn(blocks[i]) == PrefixOf(es[i].fields)
    ensures PrefixesIn(blocks) == PrefixesOf(es)
    decreases |es|
  {
    if es != [] { PrefixesOneByOne(blocks[1..], es[1..]); }
  }

  /** Any response listing objects as well-formed `Contents` elements yields exactly those objects, in
      order, whatever else stands between the elements. */
  lemma ListedObjectsAreParsed(es: seq<Element>, tail: string, date: string -> Option<int>)
    requires WellFormedList("Contents", es, tail)
    ensures ObjectsIn(Blocks(Body("Contents", ItemsOf(es), tail), "Contents"), date) == ObjectsOf(es, date)
  {
    ListIsWellFormed("Contents", es, tail);
    BlocksAreFound("Contents", ItemsOf(es), tail);
    var blocks := BlocksOf(ItemsOf(es));
    forall i | 0 <= i < |es|
      ensures ObjectIn(blocks[i], date) == ObjectOf(es[i].fields, date)
    {
      ObjectIsFields(es[i].fields, es[i].end, date);
    }
    ObjectsOneByOne(blocks, es, date);
  }

  /** The same for `CommonPrefixes` elements; those without a prefix are skipped. */
  lemma ListedPrefixesAreParsed(es: seq<Element>, tail: string)
    requires WellFormedList("CommonPrefixes", es, tail)
    ensures PrefixesIn(Blocks(Body("CommonPrefixes", ItemsOf(es), tail), "CommonPrefixes")) == PrefixesOf(es)
  {
    ListIsWellFormed("CommonPrefixes", es, tail);
    BlocksAreFound("CommonPrefixes", ItemsOf(es), tail);
    var blocks := BlocksOf(ItemsOf(es));
    forall i | 0 <= i < |es|
      ensures PrefixIn(blocks[i]) == PrefixOf(es[i].fields)
    {
      PrefixIsFields(es[i].fields, es[i].end);
    }
    PrefixesOneByOne(blocks, es);
  }

  /** Every 64-bit size comes back from its decimal form. */
  lemma SizesAreRead(n: nat)
    ensures ParseU64(Decimal(n)) == if n < 0x1_0000_0000_0000_0000 then Some(n) else None
  {
    NumberOfDecimal(n);
  }

  // ---------- what a listed element says ----------

  /** Position `i` holds the first field with the tag. */
  predicate FirstField(fs: seq<Field>, tag: string, i: nat) {
    i < |fs| && fs[i].tag == tag && forall j :: 0 <= j < i ==> fs[j].tag != tag
  }

  ghost predicate HasField(fs: seq<Field>, tag: string) { exists i :: 0 <= i < |fs| && fs[i].tag == tag }

  lemma {:induction false} LookupMeans(fs: seq<Field>, tag: string)
    ensures forall i: nat :: FirstField(fs, tag, i) ==> Lookup(fs, tag) == Some(fs[i].text)
    ensures !HasField(fs, tag) ==> Lookup(fs, tag) == None
  {
    if fs != [] {
      LookupMeans(fs[1..], tag);
      forall i: nat | FirstField(fs, tag, i)
        ensures Lookup(fs, tag) == Some(fs[i].text)
      {
        if i > 0 {
          assert fs[0].tag != tag;
          forall j | 0 <= j < i - 1
            ensures fs[1..][j].tag != tag
          {
            assert fs[1..][j] == fs[j + 1];
          }
          assert FirstField(fs[1..], tag, i - 1);
        }
      }
      assert HasField(fs[1..], tag) ==> HasField(fs, tag) by {
        assert forall i :: 0 <= i < |fs[1..]| ==> fs[1..][i] == fs[i + 1];
      }
    }
  }

  /** An object's key is the text of its first key field, or empty; its size the number its first size field
      gives, or zero when it gives none; date and tag are those of their first fields, or none. */
  lemma ObjectMeans(fs: seq<Field>, date: string -> Option<int>)
    ensures var o := ObjectOf(fs, date);
            && (forall i: nat :: FirstField(fs, "Key", i) ==> o.key == fs[i].text)
            && (!HasField(fs, "Key") ==> o.key == "")
            && (forall i: nat :: FirstField(fs, "Size", i) ==>
                  o.size == match ParseU64(fs[i].text) case Some(n) => n case None => 0)
            && (!HasField(fs, "Size") ==> o.size == 0)
            && (forall i: nat :: FirstField(fs, "LastModified", i) ==> o.lastModified == date(fs[i].text))
            && (!HasField(fs, "LastModified") ==> o.lastModified == None)
            && (forall i: nat :: FirstField(fs, "ETag", i) ==> o.etag == Some(fs[i].text))
            && (!HasField(fs, "ETag") ==> o.etag == None)
  {
    LookupMeans(fs, "Key");
    LookupMeans(fs, "Size");
    LookupMeans(fs, "LastModified");
    LookupMeans(fs, "ETag");
  }

  /** A common prefix is the text of the first prefix field; an element without one gives none. */
  lemma PrefixMeans(fs: seq<Field>)
    ensures forall i: nat :: FirstField(fs, "Prefix", i) ==> PrefixOf(fs) == [fs[i].text]
    ensures !HasField(fs, "Prefix") ==> PrefixOf(fs) == []
  {
    LookupMeans(fs, "Prefix");
  }

  /** Reading a size: a plus sign in front does not count, and anything but digits, or nothing, is no size. */
  lemma SizeMeans(s: string)
    requires s != [] ==> s[0] != '+'
    ensures ParseU64("+" + s) == ParseU64(s)
    ensures ParseU64(s).Some? ==> s != [] && AllDigits(s) && ParseU64(s).value < 0x1_0000_0000_0000_0000
  {
    assert ("+" + s)[1..] == s;
  }
}
