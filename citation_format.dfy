/**
 * The citation block that wraps every emitted page: a start marker, the
 * page text, and an end marker, both markers naming the same source label
 * and 1-based page number.
 */
module CitationFormat {
  import opened Text

  /** One page that enters the output: where it comes from and its text. */
  datatype Citation = Citation(source: string, page: nat, text: string)

  const StartPrefix: string := "\n\n--- START BRON: "
  const EndPrefix: string := "\n--- EINDE BRON: "
  const PageInfix: string := " (Pagina "
  const MarkerSuffix: string := ") ---\n"

  /**
   * One marker line: the prefix, the source label, " (Pagina ", the page
   * number in decimal and ") ---"; `MarkerRoundTrip` shows it reads back.
   */
  function Marker(prefix: string, source: string, page: nat): string {
    prefix + source + PageInfix + NatToString(page) + MarkerSuffix
  }

  function StartMarker(source: string, page: nat): string {
    Marker(StartPrefix, source, page)
  }

  function EndMarker(source: string, page: nat): string {
    Marker(EndPrefix, source, page)
  }

  /**
   * One cited page: its text between a start and an end marker naming the
   * citation's source and page; never empty, even for an empty text.
   */
  function Block(c: Citation): (b: string)
    ensures |StartPrefix| + |c.text| + |EndPrefix| < |b|
  {
    StartMarker(c.source, c.page) + c.text + EndMarker(c.source, c.page)
  }

  /** The blocks of all citations, concatenated in order. */
  function Render(cs: seq<Citation>): string {
    if cs == [] then "" else Block(cs[0]) + Render(cs[1..])
  }

  lemma {:induction false} RenderAppend(a: seq<Citation>, b: seq<Citation>)
    ensures Render(a + b) == Render(a) + Render(b)
    decreases |a|
  {
    if a == [] {
      assert a + b == b;
    } else {
      assert (a + b)[0] == a[0];
      assert (a + b)[1..] == a[1..] + b;
      RenderAppend(a[1..], b);
    }
  }

  lemma RenderSingle(c: Citation, rest: seq<Citation>)
    ensures Render([c] + rest) == Block(c) + Render(rest)
  {
    assert ([c] + rest)[1..] == rest;
  }

  /** Appending a block's three parts one after another extends the rendered text by that citation. */
  lemma AppendBlock(r: string, c: Citation, rest: seq<Citation>)
    ensures r + StartMarker(c.source, c.page) + c.text + EndMarker(c.source, c.page) + Render(rest)
         == r + Render([c] + rest)
  {
    var start := StartMarker(c.source, c.page);
    var end := EndMarker(c.source, c.page);
    RenderSingle(c, rest);
    assert Block(c) == start + c.text + end;
    assert r + start + c.text + end + Render(rest) == r + (Block(c) + Render(rest));
  }

  /** Every block is non-empty, so the output is empty exactly when nothing is cited. */
  lemma RenderEmpty(cs: seq<Citation>)
    ensures Render(cs) == "" <==> cs == []
  {
    if cs != [] {
      assert |Block(cs[0])| >= |StartPrefix|;
    }
  }

  /**
   * Page text is pasted in verbatim, so text that itself holds an end and a
   * start marker moves a block boundary: two different citation lists, both
   * with distinct labels, render to the same string. The output as a whole
   * therefore does not determine its blocks.
   */
  lemma RenderNotInjective(sa: string, na: nat, sb: string, nb: nat, p: string, q: string, v: string)
    ensures var forged := EndMarker(sa, na) + StartMarker(sb, nb);
            [Citation(sa, na, p), Citation(sb, nb, q + forged + v)]
            != [Citation(sa, na, p + forged + q), Citation(sb, nb, v)] &&
            Render([Citation(sa, na, p), Citation(sb, nb, q + forged + v)])
            == Render([Citation(sa, na, p + forged + q), Citation(sb, nb, v)])
  {
    var sta, ena := StartMarker(sa, na), EndMarker(sa, na);
    var stb, enb := StartMarker(sb, nb), EndMarker(sb, nb);
    var forged := ena + stb;
    assert |p + forged + q| > |p|;
    RenderPair(Citation(sa, na, p), Citation(sb, nb, q + forged + v));
    RenderPair(Citation(sa, na, p + forged + q), Citation(sb, nb, v));
    ShiftBoundary(sta, p, ena, stb, q, v, enb);
  }

  lemma RenderPair(c: Citation, d: Citation)
    ensures Render([c, d]) == Block(c) + Block(d)
  {
    RenderSingle(c, [d]);
    RenderSingle(d, []);
    assert [c] + [d] == [c, d] && [d] + [] == [d];
  }

  /** Moving a text part across the boundary `e + t` between two blocks leaves the concatenation unchanged. */
  lemma ShiftBoundary(s: string, p: string, e: string, t: string, q: string, v: string, f: string)
    ensures (s + p + e) + (t + (q + (e + t) + v) + f) == (s + (p + (e + t) + q) + e) + (t + v + f)
  {
    var x := s + p + e + t + q + e + t + v + f;
    assert (s + p + e) + (t + (q + (e + t) + v) + f) == x;
    assert (s + (p + (e + t) + q) + e) + (t + v + f) == x;
  }

  /** The fields a marker line carries, as a reader of the output recovers them. */
  datatype ParsedMarker = NotAMarker | MarkerOf(source: string, page: nat)

  /**
   * Reads a marker back: strip the fixed prefix and suffix, take the run of
   * digits at the end as the page number, and require " (Pagina " before it;
   * what remains is the source label, whatever characters it holds.
   */
  function ParseMarker(prefix: string, s: string): ParsedMarker {
    if |s| < |prefix| + |MarkerSuffix| || !StartsWith(s, prefix) || !EndsWith(s, MarkerSuffix) then NotAMarker
    else ParseMarkerBody(s[|prefix|..|s| - |MarkerSuffix|])
  }

  function ParseMarkerBody(body: string): ParsedMarker {
    var k := TrailingDigits(body);
    var head := body[..|body| - k];
    if k == 0 || !EndsWith(head, PageInfix) then NotAMarker
    else
      var digits := body[|body| - k..];
      assert AllDigits(digits);
      MarkerOf(head[..|head| - |PageInfix|], ParseNat(digits))
  }

  lemma ParseMarkerFrame(prefix: string, body: string)
    ensures ParseMarker(prefix, prefix + body + MarkerSuffix) == ParseMarkerBody(body)
  {
    var s := prefix + body + MarkerSuffix;
    assert s[..|prefix|] == prefix;
    assert s[|s| - |MarkerSuffix|..] == MarkerSuffix;
    assert s[|prefix|..|s| - |MarkerSuffix|] == body;
  }

  lemma ParseMarkerBodyRoundTrip(source: string, page: nat)
    ensures ParseMarkerBody(source + PageInfix + NatToString(page)) == MarkerOf(source, page)
  {
    var digits := NatToString(page);
    var head := source + PageInfix;
    var body := head + digits;
    assert head[|head| - 1] == ' ';
    TrailingDigitsOfSuffix(head, digits);
    assert body[..|body| - |digits|] == head;
    assert head[|head| - |PageInfix|..] == PageInfix;
    assert head[..|head| - |PageInfix|] == source;
    assert body[|body| - |digits|..] == digits;
    NatToStringRoundTrip(page);
  }

  /** A marker reads back as the label and page it was written with, whatever the label holds. */
  lemma MarkerRoundTrip(prefix: string, source: string, page: nat)
    ensures ParseMarker(prefix, Marker(prefix, source, page)) == MarkerOf(source, page)
  {
    var body := source + PageInfix + NatToString(page);
    assert Marker(prefix, source, page) == prefix + body + MarkerSuffix;
    ParseMarkerFrame(prefix, body);
    ParseMarkerBodyRoundTrip(source, page);
  }

  /** Both markers of a block read back as the citation's own source and page. */
  lemma BlockMarkersAgree(c: Citation)
    ensures var b := Block(c);
            var n := |StartMarker(c.source, c.page)|;
            var m := |EndMarker(c.source, c.page)|;
            n + m <= |b| &&
            ParseMarker(StartPrefix, b[..n]) == MarkerOf(c.source, c.page) &&
            ParseMarker(EndPrefix, b[|b| - m..]) == MarkerOf(c.source, c.page) &&
            b[n..|b| - m] == c.text
  {
    var b := Block(c);
    var start := StartMarker(c.source, c.page);
    var end := EndMarker(c.source, c.page);
    assert b[..|start|] == start;
    assert b[|b| - |end|..] == end;
    assert b[|start|..|b| - |end|] == c.text;
    MarkerRoundTrip(StartPrefix, c.source, c.page);
    MarkerRoundTrip(EndPrefix, c.source, c.page);
  }
}
