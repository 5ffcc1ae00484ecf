/** Percent-encoding of query parts, and the order of headers in a signed storage request. */
module RequestSigning {
  import opened Prelude
  import opened Bytes

  // ---------- percent-encoding ----------

  /** The unreserved characters of section 2.3 of RFC 3986. */
  predicate Unreserved(c: char) {
    'A' <= c <= 'Z' || 'a' <= c <= 'z' || '0' <= c <= '9' || c == '-' || c == '_' || c == '.' || c == '~'
  }

  function Hex(d: int): char
    requires 0 <= d < 16
  {
    if d < 10 then '0' + d as char else 'A' + (d - 10) as char
  }

  function UnHex(c: char): Option<int> {
    if '0' <= c <= '9' then Some((c - '0') as int)
    else if 'A' <= c <= 'F' then Some((c - 'A') as int + 10)
    else None
  }

  function EncodeOctet(b: byte): string {
    if Unreserved(b as char) then [b as char] else ['%', Hex(b / 16), Hex(b % 16)]
  }

  function EncodeAll(bs: seq<byte>): string {
    if bs == [] then [] else EncodeAll(bs[..|bs| - 1]) + EncodeOctet(bs[|bs| - 1])
  }

  method UrlEncode(bs: seq<byte>) returns (out: string)
    ensures out == EncodeAll(bs)
  {
    out := [];
    for i := 0 to |bs|
      invariant out == EncodeAll(bs[..i])
    {
      assert bs[..i + 1][..i] == bs[..i];
      var b := bs[i];
      if Unreserved(b as char) {
        out := out + [b as char];
      } else {
        out := out + ['%', Hex(b / 16), Hex(b % 16)];
      }
    }
    assert bs[..|bs|] == bs;
  }

  /** Reading percent-encoded text back. */
  function Decode(s: string): Option<seq<byte>> {
    if s == [] then Some([])
    else if s[0] == '%' then
      if |s| < 3 || UnHex(s[1]).None? || UnHex(s[2]).None? then None
      else
        match Decode(s[3..])
        case None => None
        case Some(rest) => Some([UnHex(s[1]).value * 16 + UnHex(s[2]).value] + rest)
    else if s[0] as int >= 256 then None
    else
      match Decode(s[1..])
      case None => None
      case Some(rest) => Some([s[0] as int] + rest)
  }

  lemma DecodeOctet(b: byte, tail: string)
    ensures Decode(EncodeOctet(b) + tail)
         == match Decode(tail) case None => None case Some(rest) => Some([b] + rest)
  {
    var s := EncodeOctet(b) + tail;
    if Unreserved(b as char) {
      assert s[1..] == tail;
    } else {
      assert s[3..] == tail;
      assert UnHex(Hex(b / 16)) == Some(b / 16) && UnHex(Hex(b % 16)) == Some(b % 16);
    }
  }

  lemma {:induction false} EncodeAllStep(bs: seq<byte>)
    requires bs != []
    ensures EncodeAll(bs) == EncodeOctet(bs[0]) + EncodeAll(bs[1..])
  {
    if |bs| > 1 {
      var front := bs[..|bs| - 1];
      EncodeAllStep(front);
      assert front[1..] == bs[1..][..|bs[1..]| - 1];
      assert EncodeOctet(bs[0]) + (EncodeAll(front[1..]) + EncodeOctet(bs[|bs| - 1]))
          == (EncodeOctet(bs[0]) + EncodeAll(front[1..])) + EncodeOctet(bs[|bs| - 1]);
    } else {
      assert bs[..0] == [] && bs[1..] == [];
      assert EncodeAll(bs) == [] + EncodeOctet(bs[0]);
    }
  }

  /** Encoding loses nothing. */
  lemma {:induction false} DecodeUndoesEncode(bs: seq<byte>)
    ensures Decode(EncodeAll(bs)) == Some(bs)
  {
    if bs != [] {
      EncodeAllStep(bs);
      DecodeUndoesEncode(bs[1..]);
      DecodeOctet(bs[0], EncodeAll(bs[1..]));
      assert [bs[0]] + bs[1..] == bs;
    }
  }

  /** Only unreserved characters and percent signs appear. */
  lemma {:induction false} EncodedAlphabet(bs: seq<byte>)
    ensures forall i :: 0 <= i < |EncodeAll(bs)| ==> Unreserved(EncodeAll(bs)[i]) || EncodeAll(bs)[i] == '%'
  {
    if bs != [] {
      EncodedAlphabet(bs[..|bs| - 1]);
    }
  }

  // ---------- header order ----------

  datatype Header = Header(name: string, value: string)

  /** Comparison of strings by characters, shorter first. */
  predicate Less(a: string, b: string) {
    b != [] && (a == [] || a[0] < b[0] || (a[0] == b[0] && Less(a[1..], b[1..])))
  }

  lemma {:induction false} LessIsTotal(a: string, b: string)
    ensures Less(a, b) || Less(b, a) || a == b
    ensures !(Less(a, b) && Less(b, a))
  {
    if a != [] && b != [] && a[0] == b[0] {
      LessIsTotal(a[1..], b[1..]);
      assert a == [a[0]] + a[1..] && b == [b[0]] + b[1..];
    }
  }

  lemma {:induction false} LessIsTransitive(a: string, b: string, c: string)
    requires !Less(b, a) && !Less(c, b)
    ensures !Less(c, a)
  {
    if a != [] && b != [] && c != [] && a[0] == b[0] == c[0] {
      LessIsTransitive(a[1..], b[1..], c[1..]);
    }
  }

  function Names(hs: seq<Header>): seq<string> { seq(|hs|, i requires 0 <= i < |hs| => hs[i].name) }

  /** The stable sorts of the library: by header name, and of plain names. */
  function InsertHeader(h: Header, hs: seq<Header>): seq<Header> {
    if hs == [] || Less(h.name, hs[0].name) then [h] + hs else [hs[0]] + InsertHeader(h, hs[1..])
  }

  function SortHeaders(hs: seq<Header>): seq<Header> {
    if hs == [] then [] else InsertHeader(hs[|hs| - 1], SortHeaders(hs[..|hs| - 1]))
  }

  function InsertName(n: string, ns: seq<string>): seq<string> {
    if ns == [] || Less(n, ns[0]) then [n] + ns else [ns[0]] + InsertName(n, ns[1..])
  }

  function SortNames(ns: seq<string>): seq<string> {
    if ns == [] then [] else InsertName(ns[|ns| - 1], SortNames(ns[..|ns| - 1]))
  }

  predicate Ascending(ns: seq<string>) { forall i, j :: 0 <= i < j < |ns| ==> !Less(ns[j], ns[i]) }

  lemma {:induction false} InsertAgrees(h: Header, hs: seq<Header>)
    ensures Names(InsertHeader(h, hs)) == InsertName(h.name, Names(hs))
  {
    if hs != [] && !Less(h.name, hs[0].name) {
      InsertAgrees(h, hs[1..]);
      assert Names(hs)[1..] == Names(hs[1..]);
      assert Names([hs[0]] + InsertHeader(h, hs[1..])) == [hs[0].name] + Names(InsertHeader(h, hs[1..]));
    } else {
      assert Names([h] + hs) == [h.name] + Names(hs);
    }
  }

  /** The list of signed header names is, in order, the names of the canonical headers: the two are
      sorted separately, one with the values and one without. */
  lemma {:induction false} SignedMatchCanonical(hs: seq<Header>)
    ensures SortNames(Names(hs)) == Names(SortHeaders(hs))
  {
    if hs != [] {
      SignedMatchCanonical(hs[..|hs| - 1]);
      InsertAgrees(hs[|hs| - 1], SortHeaders(hs[..|hs| - 1]));
      assert Names(hs)[..|hs| - 1] == Names(hs[..|hs| - 1]);
    }
  }

  lemma {:induction false} InsertKeepsOrder(n: string, ns: seq<string>)
    requires Ascending(ns)
    ensures Ascending(InsertName(n, ns))
    ensures forall x :: x in InsertName(n, ns) <==> x == n || x in ns
  {
    if ns != [] {
      LessIsTotal(n, ns[0]);
      if Less(n, ns[0]) {
        forall j | 0 <= j < |ns|
          ensures !Less(ns[j], n)
        {
          if j > 0 { LessIsTransitive(n, ns[0], ns[j]); }
        }
      } else {
        InsertKeepsOrder(n, ns[1..]);
        assert forall x :: x in ns <==> x == ns[0] || x in ns[1..];
        var later := InsertName(n, ns[1..]);
        forall j | 0 <= j < |later|
          ensures !Less(later[j], ns[0])
        {
          assert later[j] in later;
        }
      }
    }
  }

  lemma {:induction false} InsertKeepsAll(n: string, ns: seq<string>)
    ensures multiset(InsertName(n, ns)) == multiset(ns) + multiset{n}
  {
    if ns != [] {
      assert ns == [ns[0]] + ns[1..];
      InsertKeepsAll(n, ns[1..]);
    }
  }

  /** Canonical headers come in ascending order of their names, none lost and none repeated. */
  lemma {:induction false} NamesAreSorted(ns: seq<string>)
    ensures Ascending(SortNames(ns)) && multiset(SortNames(ns)) == multiset(ns)
  {
    if ns != [] {
      NamesAreSorted(ns[..|ns| - 1]);
      InsertKeepsOrder(ns[|ns| - 1], SortNames(ns[..|ns| - 1]));
      InsertKeepsAll(ns[|ns| - 1], SortNames(ns[..|ns| - 1]));
      assert ns == ns[..|ns| - 1] + [ns[|ns| - 1]];
    }
  }

  // ---------- the meaning of the pieces ----------

  /** The codes of letters, digits, hyphen, full stop, underscore and tilde. */
  predicate StaysAsItIs(b: byte) {
    65 <= b <= 90 || 97 <= b <= 122 || 48 <= b <= 57 || b == 45 || b == 46 || b == 95 || b == 126
  }

  /** An unreserved octet stays as it is; every other becomes a percent sign and two upper-case hexadecimal
      digits, the higher first. */
  lemma OctetMeans(b: byte)
    ensures EncodeAll([b]) ==
      if StaysAsItIs(b) then [b as char] else ['%', "0123456789ABCDEF"[b / 16], "0123456789ABCDEF"[b % 16]]
  {
    assert [b][..0] == [];
    assert EncodeAll([b]) == [] + EncodeOctet(b);
    HexIs(b / 16);
    HexIs(b % 16);
  }

  lemma HexIs(d: int)
    requires 0 <= d < 16
    ensures Hex(d) == "0123456789ABCDEF"[d]
  {
  }

  /** Encoding two parts and joining them is encoding the whole. */
  lemma {:induction false} EncodeInParts(a: seq<byte>, b: seq<byte>)
    ensures EncodeAll(a + b) == EncodeAll(a) + EncodeAll(b)
  {
    if b == [] {
      assert a + b == a;
    } else {
      assert (a + b)[..|a + b| - 1] == a + b[..|b| - 1];
      EncodeInParts(a, b[..|b| - 1]);
    }
  }

  /** The order of names: by the first character in which they differ, and a beginning comes before the whole. */
  lemma {:induction false} LessMeans(a: string, b: string, k: nat)
    requires k <= |a| && k <= |b| && a[..k] == b[..k]
    requires k < |a| && k < |b| ==> a[k] != b[k]
    ensures Less(a, b) <==> k < |b| && (k == |a| || a[k] < b[k])
  {
    if k > 0 {
      assert a[0] == a[..k][0] && b[0] == b[..k][0];
      assert a[1..][..k - 1] == a[..k][1..] && b[1..][..k - 1] == b[..k][1..];
      LessMeans(a[1..], b[1..], k - 1);
    }
  }

  /** Sorting keeps every header with its value. */
  lemma {:induction false} HeadersAreKept(hs: seq<Header>)
    ensures multiset(SortHeaders(hs)) == multiset(hs)
  {
    if hs != [] {
      HeadersAreKept(hs[..|hs| - 1]);
      HeaderIsInserted(hs[|hs| - 1], SortHeaders(hs[..|hs| - 1]));
      assert hs == hs[..|hs| - 1] + [hs[|hs| - 1]];
    }
  }

  lemma {:induction false} HeaderIsInserted(h: Header, hs: seq<Header>)
    ensures multiset(InsertHeader(h, hs)) == multiset(hs) + multiset{h}
  {
    if hs != [] {
      assert hs == [hs[0]] + hs[1..];
      HeaderIsInserted(h, hs[1..]);
    }
  }
}
