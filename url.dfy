/**
 * The URL rule shared by the tab watcher and the popup: the watch-page test
 * (`url.includes("youtube.com/watch")`), the query string
 * (`url.split("?")[1]`), and the video id (`new URLSearchParams(q).get("v")`),
 * with the parameters parsed as the application/x-www-form-urlencoded parser
 * of section 5.1 of the WHATWG URL Standard does.
 */
module Url {
  import opened Wrappers

  const WatchPattern: string := "youtube.com/watch"

  // ---------------------------------------------------------------------------
  // String.prototype.includes

  /** Does `p` occur in `s` at position `i`? */
  ghost predicate OccursAt(s: string, p: string, i: int) {
    0 <= i && i + |p| <= |s| && s[i..i + |p|] == p
  }

  /** `s.includes(p)`, scanning positions from the left. */
  function Includes(s: string, p: string): (r: bool)
    ensures p == [] ==> r
    ensures r ==> |p| <= |s|
    decreases |s|
  {
    if |p| <= |s| && s[..|p|] == p then true
    else if s == [] then false
    else Includes(s[1..], p)
  }

  lemma {:induction false} IncludesOccurs(s: string, p: string)
    requires Includes(s, p)
    ensures exists i :: OccursAt(s, p, i)
    decreases |s|
  {
    if |p| <= |s| && s[..|p|] == p {
      assert OccursAt(s, p, 0);
    } else {
      IncludesOccurs(s[1..], p);
      var i :| OccursAt(s[1..], p, i);
      assert s[i + 1..i + 1 + |p|] == s[1..][i..i + |p|];
      assert OccursAt(s, p, i + 1);
    }
  }

  lemma {:induction false} OccursIncludes(s: string, p: string, i: int)
    requires OccursAt(s, p, i)
    ensures Includes(s, p)
    decreases i
  {
    if i == 0 {
      assert s[..|p|] == s[0..|p|];
    } else if !(|p| <= |s| && s[..|p|] == p) {
      assert s[1..][i - 1..i - 1 + |p|] == s[i..i + |p|];
      OccursIncludes(s[1..], p, i - 1);
    }
  }

  lemma IncludesIff(s: string, p: string)
    ensures Includes(s, p) <==> exists i :: OccursAt(s, p, i)
  {
    if Includes(s, p) {
      IncludesOccurs(s, p);
    }
    if exists i :: OccursAt(s, p, i) {
      var i :| OccursAt(s, p, i);
      OccursIncludes(s, p, i);
    }
  }

  /** The test is unanchored: the pattern may stand anywhere. */
  lemma IncludesAnywhere(a: string, p: string, b: string)
    ensures Includes(a + p + b, p)
  {
    var s := a + p + b;
    assert s[|a|..|a| + |p|] == p;
    assert OccursAt(s, p, |a|);
    IncludesIff(s, p);
  }

  /** Text appended after a match does not undo it. */
  lemma IncludesExtend(a: string, b: string, p: string)
    requires Includes(a, p)
    ensures Includes(a + b, p)
  {
    IncludesIff(a, p);
    var i :| OccursAt(a, p, i);
    assert (a + b)[i..i + |p|] == a[i..i + |p|];
    assert OccursAt(a + b, p, i);
    IncludesIff(a + b, p);
  }

  // ---------------------------------------------------------------------------
  // String.prototype.split with a one-character separator

  /** `s.split(sep)`: the maximal runs between separators, at least one. */
  function Split(s: string, sep: char): (r: seq<string>)
    ensures |r| >= 1
    ensures forall i :: 0 <= i < |r| ==> sep !in r[i]
  {
    if s == [] then [[]]
    else
      var rest := Split(s[1..], sep);
      if s[0] == sep then [[]] + rest
      else [[s[0]] + rest[0]] + rest[1..]
  }

  /** `fields.join(sep)`. */
  function Join(fields: seq<string>, sep: char): string
    requires |fields| >= 1
  {
    if |fields| == 1 then fields[0] else fields[0] + [sep] + Join(fields[1..], sep)
  }

  lemma {:induction false} JoinSplit(s: string, sep: char)
    ensures Join(Split(s, sep), sep) == s
  {
    if s != [] {
      var rest := Split(s[1..], sep);
      JoinSplit(s[1..], sep);
      if s[0] == sep {
        assert Split(s, sep)[1..] == rest;
      } else {
        var r := Split(s, sep);
        assert r[0] == [s[0]] + rest[0] && r[1..] == rest[1..];
        if |rest| > 1 {
          assert Join(rest, sep) == rest[0] + [sep] + Join(rest[1..], sep);
        }
      }
    }
  }

  /** A string without the separator is a single field. */
  lemma {:induction false} SplitNoSeparator(s: string, sep: char)
    requires sep !in s
    ensures Split(s, sep) == [s]
  {
    if s != [] {
      assert sep !in s[1..];
      SplitNoSeparator(s[1..], sep);
      assert [s[0]] + s[1..] == s;
    }
  }

  /** The first field ends at the first separator. */
  lemma {:induction false} SplitAtFirst(a: string, sep: char, b: string)
    requires sep !in a
    ensures Split(a + [sep] + b, sep) == [a] + Split(b, sep)
  {
    if a == [] {
      assert a + [sep] + b == [sep] + b;
      assert ([sep] + b)[1..] == b;
    } else {
      var s := a + [sep] + b;
      assert s[0] == a[0] && s[1..] == a[1..] + [sep] + b;
      assert sep !in a[1..];
      SplitAtFirst(a[1..], sep, b);
      assert [a[0]] + a[1..] == a;
    }
  }

  /** Splitting a join of separator-free fields gives the fields back. */
  lemma {:induction false} SplitJoin(fields: seq<string>, sep: char)
    requires |fields| >= 1
    requires forall i :: 0 <= i < |fields| ==> sep !in fields[i]
    ensures Split(Join(fields, sep), sep) == fields
  {
    if |fields| == 1 {
      SplitNoSeparator(fields[0], sep);
    } else {
      SplitJoin(fields[1..], sep);
      SplitAtFirst(fields[0], sep, Join(fields[1..], sep));
      assert [fields[0]] + fields[1..] == fields;
    }
  }

  // ---------------------------------------------------------------------------
  // The query string

  /** `url.split("?")[1]`: the text between the first and second `?`; none (undefined) gives "". */
  function QueryString(url: string): (q: string)
    ensures '?' !in q
  {
    var fields := Split(url, '?');
    if |fields| >= 2 then fields[1] else ""
  }

  lemma QueryStringNone(url: string)
    requires '?' !in url
    ensures QueryString(url) == ""
  {
    SplitNoSeparator(url, '?');
  }

  /** The query is the text after the first `?`, up to a second `?` if there is one. */
  lemma QueryStringBetween(a: string, q: string, rest: string)
    requires '?' !in a && '?' !in q
    ensures QueryString(a + "?" + q) == q
    ensures QueryString(a + "?" + q + "?" + rest) == q
  {
    SplitAtFirst(a, '?', q);
    SplitNoSeparator(q, '?');
    assert a + "?" + q == a + ['?'] + q;
    SplitAtFirst(a, '?', q + "?" + rest);
    SplitAtFirst(q, '?', rest);
    assert a + "?" + q + "?" + rest == a + ['?'] + (q + ['?'] + rest);
  }

  // ---------------------------------------------------------------------------
  // URLSearchParams

  datatype Pair = Pair(name: string, value: string)

  function IndexOf(s: string, c: char): (k: nat)
    requires c in s
    ensures k < |s| && s[k] == c && c !in s[..k]
  {
    if s[0] == c then 0
    else
      assert s == [s[0]] + s[1..];
      var k := IndexOf(s[1..], c);
      assert s[..k + 1] == [s[0]] + s[1..][..k];
      k + 1
  }

  /** Replace every `+` with a space; percent-decoding is not part of this model. */
  function Decode(s: string): (r: string)
    ensures |r| == |s|
    ensures forall i :: 0 <= i < |s| ==> r[i] == if s[i] == '+' then ' ' else s[i]
  {
    if s == [] then [] else [if s[0] == '+' then ' ' else s[0]] + Decode(s[1..])
  }

  /** One non-empty `&`-separated sequence as a name-value pair: split at the first `=`. */
  function PairOf(bytes: string): (r: Pair)
    ensures '=' !in r.name
    ensures '=' !in bytes ==> r.value == "" && |r.name| == |bytes|
    ensures '=' in bytes ==> |r.name| + 1 + |r.value| == |bytes|
    ensures '&' !in bytes ==> '&' !in r.name && '&' !in r.value
  {
    if '=' in bytes then
      var k := IndexOf(bytes, '=');
      Pair(Decode(bytes[..k]), Decode(bytes[k + 1..]))
    else Pair(Decode(bytes), "")
  }

  function PairsOf(sequences: seq<string>): (r: seq<Pair>)
    ensures |r| <= |sequences|
    ensures (forall i :: 0 <= i < |sequences| ==> sequences[i] != []) ==> |r| == |sequences|
    ensures (forall i :: 0 <= i < |sequences| ==> '&' !in sequences[i]) ==>
              forall j :: 0 <= j < |r| ==> '&' !in r[j].value
  {
    if sequences == [] then []
    else (if sequences[0] == [] then [] else [PairOf(sequences[0])]) + PairsOf(sequences[1..])
  }

  /** The application/x-www-form-urlencoded parser: split on `&`, skip empty sequences. */
  function ParseUrlEncoded(input: string): (r: seq<Pair>)
    ensures input != [] && '&' !in input ==> r == [PairOf(input)]
    ensures forall j :: 0 <= j < |r| ==> '&' !in r[j].value
  {
    if input != [] && '&' !in input then
      SplitNoSeparator(input, '&');
      PairsOf(Split(input, '&'))
    else
      PairsOf(Split(input, '&'))
  }

  /** `new URLSearchParams(init)` for a string: a leading `?` is dropped first. */
  function SearchParams(init: string): (r: seq<Pair>)
    ensures init == [] || init[0] != '?' ==> r == ParseUrlEncoded(init)
    ensures init != [] && init[0] == '?' ==> r == ParseUrlEncoded(init[1..])
  {
    ParseUrlEncoded(if |init| > 0 && init[0] == '?' then init[1..] else init)
  }

  /** `params.get(name)`: the value of the first pair with that name, or null. */
  function GetParam(params: seq<Pair>, name: string): (r: Option<string>)
    ensures r.None? <==> forall i :: 0 <= i < |params| ==> params[i].name != name
    ensures r.Some? ==> exists i :: 0 <= i < |params| && params[i] == Pair(name, r.value)
                                    && forall j :: 0 <= j < i ==> params[j].name != name
  {
    if params == [] then None
    else if params[0].name == name then Some(params[0].value)
    else
      assert forall i :: 0 < i < |params| ==> params[i] == params[1..][i - 1];
      GetParam(params[1..], name)
  }

  /** The video id of a URL: the first `v` parameter of its query string, or null. */
  function VideoIdOf(url: string): (r: Option<string>)
    ensures r.Some? ==> '&' !in r.value
  {
    GetParam(SearchParams(QueryString(url)), "v")
  }

  lemma DecodePlain(s: string)
    requires '+' !in s
    ensures Decode(s) == s
  {
  }

  // ---------------------------------------------------------------------------
  // Serializing parameters, the parser's inverse on plain names and values

  /** A name and value with nothing the parser would split on or decode. */
  predicate PlainPair(p: Pair) {
    '&' !in p.name && '=' !in p.name && '+' !in p.name && '&' !in p.value && '+' !in p.value
  }

  /** The `name=value` sequences of `pairs`. */
  function Fields(pairs: seq<Pair>): (r: seq<string>)
    ensures |r| == |pairs|
    ensures forall i :: 0 <= i < |pairs| ==> r[i] == pairs[i].name + "=" + pairs[i].value
  {
    if pairs == [] then [] else [pairs[0].name + "=" + pairs[0].value] + Fields(pairs[1..])
  }

  /** The query string that lists `pairs` in order, joined by `&`. */
  function Serialize(pairs: seq<Pair>): string {
    if pairs == [] then "" else Join(Fields(pairs), '&')
  }

  /** A `name=value` sequence parses at its first `=`, which ends a name without `=`. */
  lemma PairOfField(p: Pair)
    requires PlainPair(p)
    ensures PairOf(p.name + "=" + p.value) == p
  {
    var f := p.name + "=" + p.value;
    assert f[|p.name|] == '=';
    var k := IndexOf(f, '=');
    assert k == |p.name|;
    assert f[..k] == p.name && f[k + 1..] == p.value;
    DecodePlain(p.name);
    DecodePlain(p.value);
  }

  lemma PairsOfCons(field: string, rest: seq<string>)
    requires field != []
    ensures PairsOf([field] + rest) == [PairOf(field)] + PairsOf(rest)
  {
    assert ([field] + rest)[1..] == rest;
  }

  lemma {:induction false} PairsOfFields(pairs: seq<Pair>)
    requires forall i :: 0 <= i < |pairs| ==> PlainPair(pairs[i])
    ensures PairsOf(Fields(pairs)) == pairs
  {
    if pairs != [] {
      var head, rest := pairs[0], pairs[1..];
      var field, fields := head.name + "=" + head.value, Fields(rest);
      assert Fields(pairs) == [field] + fields;
      PairsOfCons(field, fields);
      PairOfField(head);
      PairsOfFields(rest);
      assert pairs == [head] + rest;
    }
  }

  /** Parsing a serialized list of plain pairs gives the pairs back, in order. */
  lemma ParseSerialize(pairs: seq<Pair>)
    requires forall i :: 0 <= i < |pairs| ==> PlainPair(pairs[i])
    ensures ParseUrlEncoded(Serialize(pairs)) == pairs
  {
    if pairs == [] {
      assert Split("", '&') == [[]];
    } else {
      var fields := Fields(pairs);
      forall i | 0 <= i < |fields|
        ensures '&' !in fields[i]
      {
        assert fields[i] == pairs[i].name + "=" + pairs[i].value;
      }
      SplitJoin(fields, '&');
      PairsOfFields(pairs);
    }
  }

  /** The sequence `v=id` is the pair named `v` with value `id`. */
  lemma PairOfVideoId(id: string)
    requires '+' !in id
    ensures PairOf("v=" + id) == Pair("v", id)
  {
    var first := "v=" + id;
    assert IndexOf(first, '=') == 1;
    assert first[..1] == "v" && first[2..] == id;
    DecodePlain("v");
    DecodePlain(id);
  }

  /** The first parsed pair comes from the text before the first `&`. */
  lemma FirstPair(first: string, tail: string)
    requires first != [] && '&' !in first
    requires tail == [] || tail[0] == '&'
    ensures var params := ParseUrlEncoded(first + tail);
            |params| >= 1 && params[0] == PairOf(first)
  {
    if tail == [] {
      SplitNoSeparator(first, '&');
      assert first + tail == first;
    } else {
      assert first + tail == first + ['&'] + tail[1..];
      SplitAtFirst(first, '&', tail[1..]);
    }
  }

  /** A URL whose query starts with `v=id` yields `id`, whatever parameters follow. */
  lemma VideoIdOfWatchUrl(a: string, id: string, tail: string)
    requires '?' !in a && '?' !in id && '?' !in tail
    requires '&' !in id && '+' !in id
    requires tail == [] || tail[0] == '&'
    ensures VideoIdOf(a + "?v=" + id + tail) == Some(id)
  {
    var first := "v=" + id;
    var q := first + tail;
    assert a + "?v=" + id + tail == a + "?" + q;
    assert '?' !in first;
    QueryStringBetween(a, q, "");
    assert q[0] == 'v';
    assert SearchParams(q) == ParseUrlEncoded(q);
    assert '&' !in first;
    FirstPair(first, tail);
    PairOfVideoId(id);
  }

  /** A URL without `?` has no query, hence no video id. */
  lemma VideoIdOfNoQuery(url: string)
    requires '?' !in url
    ensures VideoIdOf(url) == None
  {
    QueryStringNone(url);
    assert Split("", '&') == [[]];
  }
}
