/** The compiled route matcher. The router stores a PCRE pattern of the
    fixed shape `/^(M1|...|Mk):U(\/\w+){n}$/i`; this module keeps its
    three ingredients as a value, renders the exact pattern text, and
    decides matches structurally instead of running PCRE. */
module RoutePattern {
  import opened Wrappers
  import opened Text

  /** The allowed methods, the literal request URI and the parameter count
      a pattern is built from. */
  datatype Pattern = Pattern(methods: seq<string>, uri: string, count: int)

  /** The number of `(\/\w+)` repetitions demanded: a count of zero or
      less is rendered as `{0}`. */
  function SegmentCount(count: int): nat
  {
    if count <= 0 then 0 else count
  }

  /** The quantifier after the segment group. */
  function Quantifier(count: int): (q: string)
    ensures q == "{" + NatToString(SegmentCount(count)) + "}"
  {
    if count <= 0 then "{0}" else "{" + NatToString(count) + "}"
  }

  /** `str_replace('/', '\/', uri)`: the only escaping the router does. */
  function EscapeSlashes(uri: string): string
  {
    StrReplace(uri, "/", "\\/")
  }

  /** The inverse of `EscapeSlashes` for text without backslashes. */
  function Unescape(text: string): string
  {
    StrReplace(text, "\\/", "/")
  }

  const SegmentGroup: string := "(\\/\\w+)"

  /** The pattern text the route compiler stores under `pattern`: the
      method alternation, the escaped URI, the segment group with its
      quantifier, anchored and case-insensitive. The text determines the
      pattern: decoding it gives back the verbs, the unescaped URI and
      the count. */
  function Render(p: Pattern): (r: string)
    ensures Decodable(p) ==> DecodePattern(r) == Some(p)
  {
    var text := "/^(" + RenderInner(p) + "$/i";
    if Decodable(p) then
      InnerDecodes(p);
      FramedDecodes(RenderInner(p), p);
      text
    else text
  }

  /** The patterns whose text can be read back: at least one method, no
      method with `|` or `)`, no backslash in the URI, a count of zero or
      more. */
  predicate Decodable(p: Pattern)
  {
    && |p.methods| >= 1
    && (forall k :: 0 <= k < |p.methods| ==> '|' !in p.methods[k] && ')' !in p.methods[k])
    && '\\' !in p.uri
    && p.count >= 0
  }

  function RenderInner(p: Pattern): string
  {
    Join(p.methods, "|") + "):" + RenderTail(p.uri, p.count)
  }

  function RenderTail(uri: string, count: int): string
  {
    EscapeSlashes(uri) + SegmentGroup + Quantifier(count)
  }

  /*-------------------------------------------------------------------
    Structural matching
   -------------------------------------------------------------------*/

  /** The end of the run of `\w` characters starting at `from`. */
  function WordRun(s: string, from: nat): (r: nat)
    requires from <= |s|
    ensures from <= r <= |s|
    ensures forall k :: from <= k < r ==> IsWordChar(s[k])
    ensures r == |s| || !IsWordChar(s[r])
    decreases |s| - from
  {
    if from < |s| && IsWordChar(s[from]) then WordRun(s, from + 1) else from
  }

  /** `s` is matched by `(\/\w+){n}` in full. A segment's word run cannot
      swallow the next `/`, so taking the longest run is exact. */
  predicate IsSegments(s: string, n: nat)
    decreases n
  {
    if n == 0 then s == []
    else
      && |s| >= 2 && s[0] == '/'
      && var w := WordRun(s, 1);
      && w > 1 && IsSegments(s[w..], n - 1)
  }

  /** `key` is matched with the alternative `m`: the method, a colon, the
      URI (both up to ASCII case, as under `/i`) and `n` segments. */
  predicate MatchesVia(m: string, uri: string, n: nat, key: string)
  {
    && |m| + 1 + |uri| <= |key|
    && EqualsIgnoreCase(key[..|m|], m)
    && key[|m|] == ':'
    && EqualsIgnoreCase(key[|m| + 1..|m| + 1 + |uri|], uri)
    && IsSegments(key[|m| + 1 + |uri|..], n)
  }

  predicate MatchesWhole(p: Pattern, key: string)
  {
    exists i :: 0 <= i < |p.methods| && MatchesVia(p.methods[i], p.uri, SegmentCount(p.count), key)
  }

  /** `preg_match(Render(p), key) > 0`, reading the URI literally. `$`
      without the `D` modifier also matches just before a final newline. */
  predicate Matches(p: Pattern, key: string)
  {
    || MatchesWhole(p, key)
    || (|key| > 0 && key[|key| - 1] == '\n' && MatchesWhole(p, key[..|key| - 1]))
  }

  /** A path of segments: `/w1/w2/.../wn`. */
  function SlashPath(ws: seq<string>): string
  {
    if ws == [] then "" else "/" + ws[0] + SlashPath(ws[1..])
  }

  predicate AllWords(ws: seq<string>)
  {
    forall k :: 0 <= k < |ws| ==> IsWord(ws[k])
  }

  /** The segment values of a string matched by `(\/\w+){n}`. */
  function SegmentWords(s: string, n: nat): (ws: seq<string>)
    requires IsSegments(s, n)
    ensures |ws| == n && AllWords(ws)
    ensures SlashPath(ws) == s
    decreases n
  {
    if n == 0 then []
    else
      var w := WordRun(s, 1);
      var rest := SegmentWords(s[w..], n - 1);
      assert s == "/" + s[1..w] + s[w..];
      assert ([s[1..w]] + rest)[1..] == rest;
      [s[1..w]] + rest
  }

  /*-------------------------------------------------------------------
    Decoding the pattern text
   -------------------------------------------------------------------*/

  /** The length of the run of decimal digits ending `s`. */
  function DigitSuffix(s: string): (d: nat)
    ensures d <= |s|
  {
    if s == [] || !IsDigit(s[|s| - 1]) then 0 else 1 + DigitSuffix(s[..|s| - 1])
  }

  /** Reads the methods, URI and count back out of a pattern text. */
  function DecodePattern(text: string): Option<Pattern>
  {
    if |text| >= 6 && text[..3] == "/^(" && text[|text| - 3..] == "$/i" then DecodeInner(text[3..|text| - 3])
    else None
  }

  /** `M1|...|Mk):` followed by the URI part. */
  function DecodeInner(inner: string): Option<Pattern>
  {
    match IndexOf(inner, ")")
    case None => None
    case Some(k) =>
      if k + 2 <= |inner| && inner[k + 1] == ':' then
        match DecodeTail(inner[k + 2..])
        case None => None
        case Some(tail) => Some(Pattern(Explode(inner[..k], "|"), tail.0, tail.1))
      else None
  }

  /** The escaped URI, the segment group and the `{n}` quantifier. */
  function DecodeTail(rest: string): Option<(string, nat)>
  {
    if |rest| >= 1 && rest[|rest| - 1] == '}' then
      var body := rest[..|rest| - 1];
      var d := DigitSuffix(body);
      var head := body[..|body| - d];
      var opener := SegmentGroup + "{";
      if d > 0 && |head| >= |opener| && head[|head| - |opener|..] == opener then
        Some((Unescape(head[..|head| - |opener|]), ParseDecimal(body[|body| - d..])))
      else None
    else None
  }

  /*-------------------------------------------------------------------
    Lemmas
   -------------------------------------------------------------------*/

  /** Every segment path built from words is matched by a quantifier of
      its length. */
  lemma {:induction false} SegmentsOfWords(ws: seq<string>)
    requires AllWords(ws)
    ensures IsSegments(SlashPath(ws), |ws|)
  {
    if ws != [] {
      var s := SlashPath(ws);
      var w0 := ws[0];
      assert s == "/" + w0 + SlashPath(ws[1..]);
      WordRunOver(s, w0, SlashPath(ws[1..]));
      assert s[1 + |w0|..] == SlashPath(ws[1..]);
      SegmentsOfWords(ws[1..]);
    }
  }

  lemma WordRunOver(s: string, w: string, rest: string)
    requires IsWord(w) && s == "/" + w + rest
    requires rest == [] || rest[0] == '/'
    ensures WordRun(s, 1) == 1 + |w|
  {
    assert forall k :: 1 <= k < 1 + |w| ==> s[k] == w[k - 1] && IsWordChar(s[k]);
    assert 1 + |w| == |s| || s[1 + |w|] == '/';
  }

  /** A segment path read back is a `/`-joined list of its words. */
  lemma SlashPathJoin(ws: seq<string>)
    requires |ws| >= 1
    ensures SlashPath(ws) == "/" + Join(ws, "/")
  {
    if |ws| > 1 {
      SlashPathJoin(ws[1..]);
    }
  }

  /** `key` is a request key of the method `m`, the URI and the segment
      values `ws`, with the method and the URI compared up to ASCII case. */
  predicate KeyOf(m: string, uri: string, ws: seq<string>, key: string)
  {
    && |m| + 1 + |uri| <= |key|
    && EqualsIgnoreCase(key[..|m|], m)
    && key[|m|] == ':'
    && EqualsIgnoreCase(key[|m| + 1..|m| + 1 + |uri|], uri)
    && key[|m| + 1 + |uri|..] == SlashPath(ws)
  }

  /** Without the final-newline allowance, a pattern accepts exactly the
      request keys of its methods and URI with as many word segments as
      the quantifier demands. */
  lemma WholeShape(p: Pattern, key: string)
    ensures MatchesWhole(p, key) <==>
      exists i, ws :: 0 <= i < |p.methods| && AllWords(ws) && |ws| == SegmentCount(p.count)
                   && KeyOf(p.methods[i], p.uri, ws, key)
  {
    var n := SegmentCount(p.count);
    if MatchesWhole(p, key) {
      var i :| 0 <= i < |p.methods| && MatchesVia(p.methods[i], p.uri, n, key);
      var ws := ViaKey(p.methods[i], p.uri, n, key);
    }
    forall i, ws | 0 <= i < |p.methods| && AllWords(ws) && |ws| == n && KeyOf(p.methods[i], p.uri, ws, key)
      ensures MatchesVia(p.methods[i], p.uri, n, key)
    {
      KeyVia(p.methods[i], p.uri, ws, key);
    }
  }

  /** A key matched through `m` is a request key of its segment words. */
  lemma ViaKey(m: string, uri: string, n: nat, key: string) returns (ws: seq<string>)
    requires MatchesVia(m, uri, n, key)
    ensures AllWords(ws) && |ws| == n && KeyOf(m, uri, ws, key)
  {
    ws := SegmentWords(key[|m| + 1 + |uri|..], n);
  }

  /** A request key of words is matched through its method. */
  lemma KeyVia(m: string, uri: string, ws: seq<string>, key: string)
    requires AllWords(ws) && KeyOf(m, uri, ws, key)
    ensures MatchesVia(m, uri, |ws|, key)
  {
    SegmentsOfWords(ws);
  }

  /** What `preg_match` with the rendered pattern accepts: a request key
      of one of the methods, the URI and as many word segments as the
      quantifier demands, optionally followed by one newline. */
  lemma MatchesShape(p: Pattern, key: string)
    ensures Matches(p, key) <==>
      exists i, ws :: 0 <= i < |p.methods| && AllWords(ws) && |ws| == SegmentCount(p.count)
                   && (|| KeyOf(p.methods[i], p.uri, ws, key)
                       || (|key| > 0 && key[|key| - 1] == '\n' && KeyOf(p.methods[i], p.uri, ws, key[..|key| - 1])))
  {
    WholeShape(p, key);
    if |key| > 0 && key[|key| - 1] == '\n' {
      WholeShape(p, key[..|key| - 1]);
    }
  }

  /** A request key built from one of the pattern's methods, its URI and
      as many word segments as the quantifier demands is matched. */
  lemma MatchesRequest(p: Pattern, i: int, ws: seq<string>)
    requires 0 <= i < |p.methods|
    requires AllWords(ws) && |ws| == SegmentCount(p.count)
    ensures Matches(p, p.methods[i] + ":" + p.uri + SlashPath(ws))
  {
    var m := p.methods[i];
    var key := m + ":" + p.uri + SlashPath(ws);
    assert key[..|m|] == m;
    assert key[|m| + 1..|m| + 1 + |p.uri|] == p.uri;
    assert key[|m| + 1 + |p.uri|..] == SlashPath(ws);
    SegmentsOfWords(ws);
    assert MatchesVia(m, p.uri, SegmentCount(p.count), key);
  }

  lemma JoinFree(ps: seq<string>, sep: string, c: char)
    requires c !in sep
    requires forall k :: 0 <= k < |ps| ==> c !in ps[k]
    ensures c !in Join(ps, sep)
  {
    if |ps| > 1 {
      JoinFree(ps[1..], sep, c);
    }
  }

  lemma InJoin(ps: seq<string>, sep: string, k: int, c: char)
    requires 0 <= k < |ps| && c in ps[k]
    ensures c in Join(ps, sep)
  {
    if k > 0 {
      InJoin(ps[1..], sep, k - 1, c);
    }
  }

  /** Unescaping undoes the slash escaping of a URI without backslashes. */
  lemma UnescapeEscape(uri: string)
    requires '\\' !in uri
    ensures Unescape(EscapeSlashes(uri)) == uri
  {
    var ps := Explode(uri, "/");
    forall k | 0 <= k < |ps|
      ensures '\\' !in ps[k]
    {
      if '\\' in ps[k] {
        InJoin(ps, "/", k, '\\');
      }
    }
    ExplodeJoin(ps, "\\/");
  }

  lemma {:induction false} DigitSuffixOf(x: string, digits: string)
    requires x == [] || !IsDigit(x[|x| - 1])
    requires forall k :: 0 <= k < |digits| ==> IsDigit(digits[k])
    ensures DigitSuffix(x + digits) == |digits|
    decreases |digits|
  {
    if digits != [] {
      var s := x + digits;
      assert s[..|s| - 1] == x + digits[..|digits| - 1];
      DigitSuffixOf(x, digits[..|digits| - 1]);
    } else {
      assert x + digits == x;
    }
  }

  lemma TailDecodes(uri: string, count: nat)
    requires '\\' !in uri
    ensures DecodeTail(RenderTail(uri, count)) == Some((uri, count))
  {
    var e := EscapeSlashes(uri);
    var digits := NatToString(count);
    var head := e + (SegmentGroup + "{");
    TailShape(uri, count, e, digits, head);
    DecodeTailOf(e, digits, head);
    UnescapeEscape(uri);
  }

  /** The rendered tail is the escaped URI, the segment group and `{`,
      then the digits and `}`. */
  lemma TailShape(uri: string, count: nat, e: string, digits: string, head: string)
    requires e == EscapeSlashes(uri) && digits == NatToString(count)
    requires head == e + (SegmentGroup + "{")
    ensures RenderTail(uri, count) == head + digits + "}"
  {
    assert SegmentCount(count) == count;
    assert Quantifier(count) == "{" + digits + "}";
    TailRegroup(e, SegmentGroup, "{", digits, "}");
  }

  lemma TailRegroup(a: string, b: string, c: string, d: string, f: string)
    ensures (a + b) + ((c + d) + f) == ((a + (b + c)) + d) + f
  {
  }

  /** A tail of that shape is read back as its unescaped URI and the
      digits' value. */
  lemma DecodeTailOf(e: string, digits: string, head: string)
    requires digits != [] && forall k :: 0 <= k < |digits| ==> IsDigit(digits[k])
    requires head == e + (SegmentGroup + "{")
    ensures DecodeTail(head + digits + "}") == Some((Unescape(e), ParseDecimal(digits)))
  {
    var rest := head + digits + "}";
    var body := rest[..|rest| - 1];
    assert body == head + digits;
    assert head[|head| - 1] == '{';
    DigitSuffixOf(head, digits);
    assert body[..|body| - |digits|] == head;
    assert body[|body| - |digits|..] == digits;
    OpenerEnds(e, head);
  }

  lemma OpenerEnds(e: string, head: string)
    requires head == e + (SegmentGroup + "{")
    ensures |head| >= |SegmentGroup + "{"|
    ensures head[|head| - |SegmentGroup + "{"|..] == SegmentGroup + "{"
    ensures head[..|head| - |SegmentGroup + "{"|] == e
  {
    assert head[|e|..] == SegmentGroup + "{";
    assert head[..|e|] == e;
  }

  lemma InnerDecodes(p: Pattern)
    requires |p.methods| >= 1
    requires forall k :: 0 <= k < |p.methods| ==> '|' !in p.methods[k] && ')' !in p.methods[k]
    requires '\\' !in p.uri
    requires p.count >= 0
    ensures DecodeInner(RenderInner(p)) == Some(p)
  {
    JoinFree(p.methods, "|", ')');
    ExplodeJoin(p.methods, "|");
    TailDecodes(p.uri, p.count);
    InnerOf(Join(p.methods, "|"), RenderTail(p.uri, p.count), p);
  }

  lemma InnerOf(j: string, tail: string, p: Pattern)
    requires p.count >= 0
    requires ')' !in j
    requires Explode(j, "|") == p.methods
    requires DecodeTail(tail) == Some((p.uri, p.count as nat))
    ensures DecodeInner(j + "):" + tail) == Some(p)
  {
    var inner := j + "):" + tail;
    FirstParenthesis(inner, j, tail);
    assert inner[|j| + 1] == ':';
    assert inner[..|j|] == j;
    assert inner[|j| + 2..] == tail;
  }

  lemma FirstParenthesis(inner: string, j: string, tail: string)
    requires ')' !in j && inner == j + "):" + tail
    ensures IndexOf(inner, ")") == Some(|j|)
  {
    assert inner[0..|j|] == j;
    assert inner[|j|..|j| + 1] == ")";
    FirstOccurrenceAfterPiece(inner, j, ")", 0);
  }

  /** The rendered text determines the pattern: methods free of `|` and
      `)`, a URI free of backslashes and a non-negative count are read
      back exactly. */
  lemma FramedDecodes(inner: string, p: Pattern)
    requires DecodeInner(inner) == Some(p)
    ensures DecodePattern("/^(" + inner + "$/i") == Some(p)
  {
    var text := "/^(" + inner + "$/i";
    assert text[..3] == "/^(";
    assert text[|text| - 3..] == "$/i";
    assert text[3..|text| - 3] == inner;
  }

  lemma EscapeOrderCreate()
    ensures EscapeSlashes("order/create") == "order\\/create"
  {
    ExplodeJoin(["order", "create"], "/");
    assert Join(["order", "create"], "/") == "order/create";
    assert Join(["order", "create"], "\\/") == "order\\/create";
  }

  /** The compiler's test vector `GET:/order/create`: `GET` only, the URI
      `order/create` and no segments, giving
      `/^(GET):order\/create(\/\w+){0}$/i`. */
  lemma RenderOrderCreate(p: Pattern)
    requires p == Pattern(["GET"], "order/create", 0)
    ensures Render(p) == "/^(" + ("GET" + "):" + ("order\\/create" + "(\\/\\w+)" + "{0}")) + "$/i"
  {
    EscapeOrderCreate();
    assert Join(p.methods, "|") == "GET";
    assert Quantifier(p.count) == "{0}";
  }
}
