/** The playlist rewrite of `generate_m3u.py`: every `rtp://` or `udp://` entry of an
    M3U playlist becomes an HTTP address on a udpxy proxy, the first line becomes an
    `#EXTM3U` header that points at the fixed programme guide, and every other line
    is kept as it is. */
module GenerateM3u {
  import opened Strings
  import opened Header

  /** The proxy address for a stream: `http://{host}:{port}/rtp/{target}`. The path
      segment is `rtp` whatever the entry's scheme was. */
  function ProxyUrl(host: string, port: int, target: string): (r: string)
    ensures StartsWith(r, "http://")
    ensures |r| > |target| && r[|r| - |target|..] == target
  {
    var r := "http://" + host + ":" + IntToString(port) + "/rtp/" + target;
    assert r[..7] == "http://";
    r
  }

  /** `t.split(c, 1)[1]`: the text after the first occurrence of `c`. */
  function AfterFirst(t: string, c: char): string
    requires c in t
    decreases |t|
  {
    if t[0] == c then t[1..] else AfterFirst(t[1..], c)
  }

  /** `t.split(sep, 1)[1]`: the text after the first occurrence of `sep`. */
  function AfterFirstSub(t: string, sep: string): string
    requires Contains(t, sep)
    decreases |t|
  {
    if StartsWith(t, sep) then t[|sep|..] else AfterFirstSub(t[1..], sep)
  }

  /** The trimmed text of a line names a multicast stream: it starts with `rtp://` or
      `udp://`, ignoring ASCII case. */
  predicate IsStreamEntry(t: string) {
    StartsWithIgnoreCase(t, "rtp://") || StartsWithIgnoreCase(t, "udp://")
  }

  /** An entry that starts with `rtp://@` or `udp://@` has its first `@` at index 6. */
  lemma AtAfterScheme(t: string)
    requires StartsWithIgnoreCase(t, "rtp://@") || StartsWithIgnoreCase(t, "udp://@")
    ensures '@' in t && t[6] == '@'
  {
    assert Lower(t[6]) == '@';
  }

  /** A stream entry has its first `://` right after the three-letter scheme. */
  lemma SchemeSeparator(t: string)
    requires IsStreamEntry(t)
    ensures OccursAt(t, "://", 3) && Contains(t, "://")
  {
    assert t[3..6] == "://";
    assert OccursAt(t, "://", 3);
    ContainsIff(t, "://");
  }

  /** The stream target with at most one leading `@` removed. */
  function StripOneAt(target: string): string {
    if StartsWith(target, "@") then target[1..] else target
  }

  /** The rule for every line but a header first line, given the line and its
      stripped text `t`: blank lines and directives are kept untrimmed,
      `rtp://@`/`udp://@` entries lose the text up to the first `@`, other
      `rtp://`/`udp://` entries lose the text up to the first `://` (and one `@`, if
      any), and any other line is kept. */
  function LineRule(line: string, t: string, host: string, port: int): string {
    if |t| == 0 || StartsWith(t, "#") then line
    else if StartsWithIgnoreCase(t, "rtp://@") || StartsWithIgnoreCase(t, "udp://@") then
      AtAfterScheme(t);
      ProxyUrl(host, port, AfterFirst(t, '@'))
    else if StartsWithIgnoreCase(t, "rtp://") || StartsWithIgnoreCase(t, "udp://") then
      SchemeSeparator(t);
      var target := AfterFirstSub(t, "://");
      ProxyUrl(host, port, StripOneAt(target))
    else line
  }

  /** The rule applied to a line, which it classifies by its stripped text. */
  function RewriteLine(line: string, host: string, port: int): string {
    LineRule(line, Trim(line), host, port)
  }

  /** Python's `not m3u or not m3u.strip()`. */
  predicate IsBlank(m3u: string) {
    Trim(m3u) == []
  }

  /** `m3u.replace("\r", "").split("\n")`. */
  function Segments(m3u: string): seq<string> {
    Split(RemoveChar(m3u, '\r'), '\n')
  }

  /** A first line whose trimmed text starts with the playlist magic. */
  predicate IsHeaderLine(line: string) {
    StartsWith(Trim(line), Magic)
  }

  /** The rule applied to each of `lines[lo..hi]`, in order. */
  function RewriteRange(lines: seq<string>, lo: nat, hi: nat, host: string, port: int): (r: seq<string>)
    requires lo <= hi <= |lines|
    ensures |r| == hi - lo
    ensures forall k :: 0 <= k < hi - lo ==> r[k] == RewriteLine(lines[lo + k], host, port)
    decreases hi - lo
  {
    if lo == hi then [] else RewriteRange(lines, lo, hi - 1, host, port) + [RewriteLine(lines[hi - 1], host, port)]
  }

  /** What the first segment produces: its fixed header alone, or the synthesised
      header followed by the segment under the ordinary rule. */
  function FirstOut(line: string, host: string, port: int): seq<string> {
    if IsHeaderLine(line) then [FixHeader(Trim(line))]
    else [CanonicalHeader, RewriteLine(line, host, port)]
  }

  /** The list `out` the rewrite builds before joining it. */
  function OutputLines(m3u: string, host: string, port: int): seq<string> {
    if IsBlank(m3u) then [CanonicalHeader]
    else
      var lines := Segments(m3u);
      FirstOut(lines[0], host, port) + RewriteRange(lines, 1, |lines|, host, port)
  }

  /** The rewritten playlist: the output lines joined by `\n`, plus one final `\n`. */
  function Transform(m3u: string, host: string, port: int): string {
    Join(OutputLines(m3u, host, port), '\n') + "\n"
  }

  /** Appending to a concatenation appends to its second part. */
  lemma AppendAfterPrefix(a: seq<string>, b: seq<string>, x: string)
    ensures (a + b) + [x] == a + (b + [x])
  {
  }

  /** The loop body for a header first line: rewrite an existing `url-tvg` value, or
      append the attribute. */
  method FixFirstLine(t: string) returns (h: string)
    requires StartsWith(t, Magic)
    ensures h == FixHeader(t)
  {
    if Contains(t, AttrName) {
      h := ReplaceUrlTvg(t);
    } else if t == Magic {
      h := CanonicalHeader;
    } else {
      h := t + " " + CanonicalAttr;
    }
  }

  /** The loop body for a line that is not a header first line: classify the trimmed
      text `t` and append the line itself or its proxy address. */
  method RewriteOne(line: string, t: string, host: string, port: int) returns (emitted: string)
    ensures emitted == LineRule(line, t, host, port)
  {
    if |t| == 0 || StartsWith(t, "#") {
      return line;
    }
    if StartsWithIgnoreCase(t, "rtp://@") || StartsWithIgnoreCase(t, "udp://@") {
      AtAfterScheme(t);
      var afterAt := AfterFirst(t, '@');
      return ProxyUrl(host, port, afterAt);
    }
    if StartsWithIgnoreCase(t, "rtp://") || StartsWithIgnoreCase(t, "udp://") {
      SchemeSeparator(t);
      var target := AfterFirstSub(t, "://");
      if StartsWith(target, "@") {
        target := target[1..];
      }
      return ProxyUrl(host, port, target);
    }
    return line;
  }

  /** `transform_to_udpxy`: one pass over the segments, appending to `out`. */
  method TransformToUdpxy(m3u: string, host: string, port: int) returns (result: string)
    ensures result == Transform(m3u, host, port)
    ensures |result| > 0 && result[|result| - 1] == '\n'
  {
    if Trim(m3u) == [] {
      return CanonicalHeader + "\n";
    }
    var lines := Split(RemoveChar(m3u, '\r'), '\n');
    var out: seq<string> := [];
    for i := 0 to |lines|
      invariant i == 0 ==> out == []
      invariant 0 < i ==> out == FirstOut(lines[0], host, port) + RewriteRange(lines, 1, i, host, port)
    {
      var line := lines[i];
      var t := Trim(line);
      if i == 0 {
        if StartsWith(t, Magic) {
          t := FixFirstLine(t);
          out := out + [t];
          assert out == FirstOut(lines[0], host, port) + RewriteRange(lines, 1, 1, host, port);
          continue;
        } else {
          out := out + [CanonicalHeader];
        }
      }
      var emitted := RewriteOne(line, t, host, port);
      if i > 0 {
        AppendAfterPrefix(FirstOut(lines[0], host, port), RewriteRange(lines, 1, i, host, port), emitted);
      } else {
        assert FirstOut(lines[0], host, port) == out + [emitted];
      }
      out := out + [emitted];
    }
    result := Join(out, '\n') + "\n";
  }

  // ---------------------------------------------------------------------------
  // The line rule

  /** When the first `c` of `t` is at index `k`, the text after it is `t[k + 1..]`. */
  lemma {:induction false} AfterFirstAt(t: string, c: char, k: nat)
    requires k < |t| && t[k] == c && c !in t[..k]
    ensures c in t && AfterFirst(t, c) == t[k + 1..]
    decreases k
  {
    if k > 0 {
      assert t[0] in t[..k];
      assert t[1..][k - 1] == c && t[1..][..k - 1] == t[1..k];
      assert c !in t[1..k] by {
        forall y | y in t[1..k] ensures y in t[..k] { }
      }
      AfterFirstAt(t[1..], c, k - 1);
    }
  }

  /** When the first `sep` of `t` is at index `k`, the text after it is
      `t[k + |sep|..]`. */
  lemma {:induction false} AfterFirstSubAt(t: string, sep: string, k: nat)
    requires OccursAt(t, sep, k)
    requires forall j :: 0 <= j < k ==> !OccursAt(t, sep, j)
    ensures Contains(t, sep) && AfterFirstSub(t, sep) == t[k + |sep|..]
    decreases k
  {
    ContainsIff(t, sep);
    if k > 0 {
      assert !OccursAt(t, sep, 0);
      assert !StartsWith(t, sep);
      forall j | 0 <= j < k - 1 ensures !OccursAt(t[1..], sep, j) {
        assert t[1..][j..j + |sep|] == t[j + 1..j + 1 + |sep|];
        assert !OccursAt(t, sep, j + 1);
      }
      assert t[1..][k - 1..k - 1 + |sep|] == t[k..k + |sep|];
      AfterFirstSubAt(t[1..], sep, k - 1);
      assert t[1..][k - 1 + |sep|..] == t[k + |sep|..];
    }
  }

  /** The first `@` of an `rtp://@`/`udp://@` entry is the one after the scheme, so
      the text after it is everything past index 7. */
  lemma AfterFirstAtIsTail(t: string)
    requires StartsWithIgnoreCase(t, "rtp://@") || StartsWithIgnoreCase(t, "udp://@")
    ensures '@' in t && AfterFirst(t, '@') == t[7..]
  {
    AtAfterScheme(t);
    assert '@' !in t[..6] by {
      forall j | 0 <= j < 6 ensures t[..6][j] != '@' {
        assert Lower(t[j]) != '@';
      }
    }
    AfterFirstAt(t, '@', 6);
  }

  /** In the second branch the first `://` is the scheme's, and the target never
      starts with `@`: the `@` case was taken by the first branch, so the strip of a
      leading `@` there never fires. */
  lemma AtStripUnreachable(t: string)
    requires IsStreamEntry(t)
    requires !StartsWithIgnoreCase(t, "rtp://@") && !StartsWithIgnoreCase(t, "udp://@")
    ensures Contains(t, "://") && AfterFirstSub(t, "://") == t[6..]
    ensures !StartsWith(t[6..], "@")
  {
    SchemeSeparator(t);
    forall j | 0 <= j < 3 ensures !OccursAt(t, "://", j) {
      assert t[j..j + 3][0] == t[j];
      assert Lower(t[j]) != ':';
    }
    AfterFirstSubAt(t, "://", 3);
    if |t| > 6 {
      assert t[6] != '@' by {
        forall i | 0 <= i < 6 ensures Lower(t[i]) == "rtp://@"[i] || Lower(t[i]) == "udp://@"[i] { }
      }
      assert t[6..][..1] == [t[6]];
    }
  }

  /** A stream entry is rewritten to the proxy address of its text after the
      scheme, less one leading `@`. */
  lemma EntryRule(line: string, t: string, host: string, port: int)
    requires IsStreamEntry(t)
    ensures LineRule(line, t, host, port) == ProxyUrl(host, port, StripOneAt(t[6..]))
  {
    assert |t| > 0 && !StartsWith(t, "#") by {
      assert Lower(t[0]) != '#';
      assert t[..1][0] == t[0];
    }
    if StartsWithIgnoreCase(t, "rtp://@") || StartsWithIgnoreCase(t, "udp://@") {
      assert AfterFirst(t, '@') == StripOneAt(t[6..]) by {
        AfterFirstAtIsTail(t);
        AtAfterScheme(t);
        assert t[6..][..1] == "@";
        assert t[6..][1..] == t[7..];
      }
    } else {
      AtStripUnreachable(t);
    }
  }

  /** Any other line, blank lines and directives included, is emitted as it is,
      untrimmed. */
  lemma OtherRule(line: string, t: string, host: string, port: int)
    requires !IsStreamEntry(t)
    ensures LineRule(line, t, host, port) == line
  {
  }

  /** The line rule in two cases, by the line's stripped text. */
  lemma RewriteLineCases(line: string, host: string, port: int)
    ensures IsStreamEntry(Trim(line)) ==>
      RewriteLine(line, host, port) == ProxyUrl(host, port, StripOneAt(Trim(line)[6..]))
    ensures !IsStreamEntry(Trim(line)) ==> RewriteLine(line, host, port) == line
  {
    var t := Trim(line);
    if IsStreamEntry(t) {
      EntryRule(line, t, host, port);
    } else {
      OtherRule(line, t, host, port);
    }
  }

  /** Blank lines and directives are not stream entries, so they are kept. */
  lemma DirectiveIsNotEntry(t: string)
    requires t == [] || t[0] == '#'
    ensures !IsStreamEntry(t)
  {
    if t != [] {
      assert Lower(t[0]) == '#';
    }
  }

  /** A line that starts with `http://`, such as a rewritten entry, is not a stream
      entry. */
  lemma HttpLineIsNotEntry(line: string)
    requires StartsWith(line, "http://")
    ensures !IsStreamEntry(Trim(line))
  {
    assert line[0] == 'h';
    TrimKeepsFirst(line);
    assert Lower(Trim(line)[0]) == 'h';
  }

  /** The rule changes a line exactly when the line is a stream entry. */
  lemma RewriteLineChangesOnlyEntries(line: string, host: string, port: int)
    ensures RewriteLine(line, host, port) == line <==> !IsStreamEntry(Trim(line))
  {
    RewriteLineCases(line, host, port);
    if IsStreamEntry(Trim(line)) && StartsWith(line, "http://") {
      HttpLineIsNotEntry(line);
    }
  }

  /** The rule is idempotent: a rewritten entry is an `http://` address, which the
      rule leaves alone, so nothing is rewritten twice. */
  lemma RewriteLineIdempotent(line: string, host: string, port: int)
    ensures RewriteLine(RewriteLine(line, host, port), host, port) == RewriteLine(line, host, port)
  {
    var r := RewriteLine(line, host, port);
    RewriteLineCases(line, host, port);
    if IsStreamEntry(Trim(line)) {
      HttpLineIsNotEntry(r);
    }
    RewriteLineCases(r, host, port);
  }

  /** A proxy address holds a line break only if its host or target does. */
  lemma ProxyUrlNoLineBreak(host: string, port: int, target: string, x: char)
    requires (x == '\n' || x == '\r') && x !in host && x !in target
    ensures x !in ProxyUrl(host, port, target)
  {
    IntToStringChars(port);
    var n := IntToString(port);
    assert x !in n by {
      forall k | 0 <= k < |n| ensures n[k] != x { }
    }
    assert ProxyUrl(host, port, target) == "http://" + host + ":" + n + "/rtp/" + target;
  }

  /** Neither line break appears in a rewritten line unless it was in the line or
      in the host. */
  lemma RewriteLineNoLineBreak(line: string, host: string, port: int, x: char)
    requires (x == '\n' || x == '\r') && x !in line && x !in host
    ensures x !in RewriteLine(line, host, port)
  {
    var t := Trim(line);
    if IsStreamEntry(t) {
      EntryRule(line, t, host, port);
      TrimChars(line, x);
      var target := StripOneAt(t[6..]);
      assert x !in target by {
        forall y | y in target ensures y in t { }
      }
      ProxyUrlNoLineBreak(host, port, target, x);
    } else {
      OtherRule(line, t, host, port);
    }
  }

  // ---------------------------------------------------------------------------
  // The whole document

  /** Empty or whitespace-only input gives the bare canonical header and one line
      break, whatever the host and port. */
  lemma BlankInputGivesBareHeader(m3u: string, host: string, port: int)
    requires AllSpace(m3u)
    ensures Transform(m3u, host, port) == CanonicalHeader + "\n"
  {
    TrimEmptyIffAllSpace(m3u);
    assert OutputLines(m3u, host, port) == [CanonicalHeader];
    assert Join([CanonicalHeader], '\n') == CanonicalHeader;
  }

  /** Otherwise the lines are the segments of the input with any `\r` removed: a
      header first segment gives its fixed header and nothing else, any other first
      segment is preceded by the canonical header and goes through the line rule, and
      every later segment goes through the line rule in order. */
  lemma OutputLinesShape(m3u: string, host: string, port: int)
    requires !AllSpace(m3u)
    ensures var segs, out := Segments(m3u), OutputLines(m3u, host, port);
      |out| == |segs| + (if IsHeaderLine(segs[0]) then 0 else 1) &&
      (IsHeaderLine(segs[0]) ==> out[0] == FixHeader(Trim(segs[0]))) &&
      (!IsHeaderLine(segs[0]) ==>
         out[0] == CanonicalHeader && out[1] == RewriteLine(segs[0], host, port)) &&
      forall k :: 1 <= k < |segs| ==>
        out[k + |out| - |segs|] == RewriteLine(segs[k], host, port)
  {
    var segs := Segments(m3u);
    var first := FirstOut(segs[0], host, port);
    var rest := RewriteRange(segs, 1, |segs|, host, port);
    assert OutputLines(m3u, host, port) == first + rest by {
      TrimEmptyIffAllSpace(m3u);
    }
    var out := first + rest;
    ConcatShape(first, rest);
    forall k | 1 <= k < |segs| ensures out[k + |out| - |segs|] == RewriteLine(segs[k], host, port) {
      assert k + |out| - |segs| == |first| + (k - 1);
      assert rest[k - 1] == RewriteLine(segs[1 + (k - 1)], host, port);
    }
  }

  /** Indexing past a prefix of the output indexes into the rest. */
  lemma ConcatShape(first: seq<string>, rest: seq<string>)
    ensures forall j :: 0 <= j < |rest| ==> (first + rest)[|first| + j] == rest[j]
  {
  }

  /** A trimmed `#EXTM3U` header naming `url-tvg` that the header fix-up leaves as it
      is. */
  predicate IsFixedHeader(h: string) {
    StartsWith(h, Magic) && Contains(h, AttrName) && Trim(h) == h && FixHeader(h) == h
  }

  /** The canonical header is such a header. */
  lemma CanonicalHeaderIsFixed(h: string)
    requires h == CanonicalHeader
    ensures IsFixedHeader(h)
  {
    var m := Magic;
    assert StartsWith(m, Magic);
    HeaderAppendsAttr(m);
    FixHeaderStable(m);
  }

  /** The fixed header of a header line is such a header. */
  lemma HeaderLineIsFixed(line: string)
    requires IsHeaderLine(line)
    ensures IsFixedHeader(FixHeader(Trim(line)))
  {
    TrimTwice(line);
    FixHeaderStable(Trim(line));
  }

  /** What the first segment produces starts with such a header. */
  lemma FirstOutHeader(line: string, host: string, port: int)
    ensures |FirstOut(line, host, port)| >= 1 && IsFixedHeader(FirstOut(line, host, port)[0])
  {
    if IsHeaderLine(line) {
      assert FirstOut(line, host, port)[0] == FixHeader(Trim(line)) by {
        assert FirstOut(line, host, port) == [FixHeader(Trim(line))];
      }
      HeaderLineIsFixed(line);
    } else {
      CanonicalHeaderIsFixed(FirstOut(line, host, port)[0]);
    }
  }

  /** The first output line is always a trimmed `#EXTM3U` header naming `url-tvg`, and
      the header fix-up leaves it as it is. */
  lemma FirstLineIsFixedHeader(m3u: string, host: string, port: int)
    ensures |OutputLines(m3u, host, port)| >= 1
    ensures IsFixedHeader(OutputLines(m3u, host, port)[0])
  {
    if IsBlank(m3u) {
      CanonicalHeaderIsFixed(OutputLines(m3u, host, port)[0]);
    } else {
      var segs := Segments(m3u);
      var first := FirstOut(segs[0], host, port);
      assert |first| >= 1 && OutputLines(m3u, host, port)[0] == first[0] by {
        var rest := RewriteRange(segs, 1, |segs|, host, port);
        assert OutputLines(m3u, host, port) == first + rest;
        assert (first + rest)[0] == first[0];
      }
      FirstOutHeader(segs[0], host, port);
    }
  }

  /** A header line that names `url-tvg=` but holds no match of the pattern, such as
      one with an empty value `url-tvg=""`. */
  predicate NamesAttrWithoutMatch(line: string) {
    IsHeaderLine(line) && Contains(Trim(line), AttrName) &&
    forall i :: 0 <= i < |Trim(line)| ==> MatchLength(Trim(line)[i..]).None?
  }

  /** The first output line is the synthesised header or the fixed first segment. */
  lemma FirstLineSource(m3u: string, host: string, port: int)
    ensures |OutputLines(m3u, host, port)| >= 1
    ensures IsBlank(m3u) || !IsHeaderLine(Segments(m3u)[0]) ==>
      OutputLines(m3u, host, port)[0] == CanonicalHeader
    ensures !IsBlank(m3u) && IsHeaderLine(Segments(m3u)[0]) ==>
      OutputLines(m3u, host, port)[0] == FixHeader(Trim(Segments(m3u)[0]))
  {
    if !IsBlank(m3u) {
      var segs := Segments(m3u);
      var first := FirstOut(segs[0], host, port);
      var rest := RewriteRange(segs, 1, |segs|, host, port);
      assert OutputLines(m3u, host, port) == first + rest;
      assert (first + rest)[0] == first[0];
    }
  }

  /** The first output line points at the canonical guide, except when the input's
      first line is a header that names the attribute without a match, which is kept
      as it is. */
  lemma FirstLineCarriesGuide(m3u: string, host: string, port: int)
    ensures |OutputLines(m3u, host, port)| >= 1
    ensures Contains(OutputLines(m3u, host, port)[0], CanonicalAttr) <==>
      (IsBlank(m3u) || !NamesAttrWithoutMatch(Segments(m3u)[0]))
  {
    FirstLineSource(m3u, host, port);
    if IsBlank(m3u) || !IsHeaderLine(Segments(m3u)[0]) {
      assert CanonicalHeader == Magic + " " + CanonicalAttr;
      ContainsSuffix(Magic + " ", CanonicalAttr);
    } else {
      FixHeaderCarriesGuide(Trim(Segments(m3u)[0]));
    }
  }

  /** A line is a fixed point of the line rule. */
  predicate Fixed(line: string, host: string, port: int) {
    RewriteLine(line, host, port) == line
  }

  /** Every line the rule produces for a range is a fixed point of the rule. */
  lemma RangeIsFixed(lines: seq<string>, lo: nat, hi: nat, host: string, port: int)
    requires lo <= hi <= |lines|
    ensures forall k :: 0 <= k < hi - lo ==> Fixed(RewriteRange(lines, lo, hi, host, port)[k], host, port)
  {
    var r := RewriteRange(lines, lo, hi, host, port);
    forall k | 0 <= k < |r| ensures Fixed(r[k], host, port) {
      RewriteLineIdempotent(lines[lo + k], host, port);
    }
  }

  /** What the first segment produces is one or two lines, and a second one is a
      fixed point of the rule. */
  lemma FirstOutFixed(line: string, host: string, port: int)
    ensures 1 <= |FirstOut(line, host, port)| <= 2
    ensures |FirstOut(line, host, port)| == 2 ==> Fixed(FirstOut(line, host, port)[1], host, port)
  {
    if !IsHeaderLine(line) {
      RewriteLineIdempotent(line, host, port);
    }
  }

  /** The lines after the first of `first + rest` are fixed points when those of
      `first` and all of `rest` are. */
  lemma ConcatFixed(first: seq<string>, rest: seq<string>, host: string, port: int)
    requires 1 <= |first| <= 2 && (|first| == 2 ==> Fixed(first[1], host, port))
    requires forall k :: 0 <= k < |rest| ==> Fixed(rest[k], host, port)
    ensures forall k :: 1 <= k < |first + rest| ==> Fixed((first + rest)[k], host, port)
  {
    forall k | 1 <= k < |first + rest| ensures Fixed((first + rest)[k], host, port) {
      if k < |first| {
        assert (first + rest)[k] == first[1];
      } else {
        assert (first + rest)[k] == rest[k - |first|];
      }
    }
  }

  /** Every output line after the first is a fixed point of the line rule. */
  lemma LaterLinesAreFixed(m3u: string, host: string, port: int)
    ensures var out := OutputLines(m3u, host, port);
      forall k :: 1 <= k < |out| ==> Fixed(out[k], host, port)
  {
    if !IsBlank(m3u) {
      var segs := Segments(m3u);
      var first := FirstOut(segs[0], host, port);
      var rest := RewriteRange(segs, 1, |segs|, host, port);
      RangeIsFixed(segs, 1, |segs|, host, port);
      FirstOutFixed(segs[0], host, port);
      ConcatFixed(first, rest, host, port);
    }
  }

  /** Joining the segments with `\n` gives back the input less its `\r`s, so the
      segments are the input's lines. */
  lemma SegmentsRejoin(m3u: string)
    ensures Join(Segments(m3u), '\n') == RemoveChar(m3u, '\r')
  {
    JoinSplit(RemoveChar(m3u, '\r'), '\n');
  }

  /** No segment of the input holds a line break: `\n` separates them and every
      `\r` is removed first. */
  lemma SegmentsNoLineBreak(m3u: string, x: char)
    requires x == '\n' || x == '\r'
    ensures forall k :: 0 <= k < |Segments(m3u)| ==> x !in Segments(m3u)[k]
  {
    if x == '\r' {
      SplitChars(RemoveChar(m3u, '\r'), '\n', '\r');
    }
  }

  /** The rule keeps line breaks out of a range when the lines and the host have
      none. */
  lemma RangeNoLineBreak(lines: seq<string>, lo: nat, hi: nat, host: string, port: int, x: char)
    requires lo <= hi <= |lines|
    requires (x == '\n' || x == '\r') && x !in host
    requires forall k :: 0 <= k < |lines| ==> x !in lines[k]
    ensures forall k :: 0 <= k < hi - lo ==> x !in RewriteRange(lines, lo, hi, host, port)[k]
  {
    forall k | 0 <= k < hi - lo ensures x !in RewriteRange(lines, lo, hi, host, port)[k] {
      RewriteLineNoLineBreak(lines[lo + k], host, port, x);
    }
  }

  /** The canonical header holds no line break. */
  lemma CanonicalHeaderChars(x: char)
    requires x == '\n' || x == '\r'
    ensures x !in CanonicalHeader
  {
    CanonicalAttrChars(x);
    assert x !in Magic + " ";
  }

  /** Nor does the first segment's output hold one. */
  lemma FirstOutNoLineBreak(line: string, host: string, port: int, x: char)
    requires (x == '\n' || x == '\r') && x !in host && x !in line
    ensures forall k :: 0 <= k < |FirstOut(line, host, port)| ==> x !in FirstOut(line, host, port)[k]
  {
    if IsHeaderLine(line) {
      assert x !in FixHeader(Trim(line)) by {
        TrimChars(line, x);
        FixHeaderNoLineBreak(Trim(line), x);
      }
      assert FirstOut(line, host, port) == [FixHeader(Trim(line))];
    } else {
      assert x !in RewriteLine(line, host, port) by {
        RewriteLineNoLineBreak(line, host, port, x);
      }
      assert x !in CanonicalHeader by {
        CanonicalHeaderChars(x);
      }
      assert FirstOut(line, host, port) == [CanonicalHeader, RewriteLine(line, host, port)];
    }
  }

  /** A character absent from every line of two lists is absent from every line of
      their concatenation. */
  lemma ConcatNoChar(first: seq<string>, rest: seq<string>, x: char)
    requires forall k :: 0 <= k < |first| ==> x !in first[k]
    requires forall k :: 0 <= k < |rest| ==> x !in rest[k]
    ensures forall k :: 0 <= k < |first + rest| ==> x !in (first + rest)[k]
  {
    forall k | 0 <= k < |first + rest| ensures x !in (first + rest)[k] {
      if k < |first| {
        assert (first + rest)[k] == first[k];
      } else {
        assert (first + rest)[k] == rest[k - |first|];
      }
    }
  }

  /** No output line holds a line break when the host holds none. */
  lemma OutputLinesNoLineBreak(m3u: string, host: string, port: int, x: char)
    requires (x == '\n' || x == '\r') && x !in host
    ensures forall k :: 0 <= k < |OutputLines(m3u, host, port)| ==> x !in OutputLines(m3u, host, port)[k]
  {
    if IsBlank(m3u) {
      CanonicalHeaderChars(x);
    } else {
      var segs := Segments(m3u);
      var first := FirstOut(segs[0], host, port);
      var rest := RewriteRange(segs, 1, |segs|, host, port);
      SegmentsNoLineBreak(m3u, x);
      assert forall k :: 0 <= k < |first| ==> x !in first[k] by {
        FirstOutNoLineBreak(segs[0], host, port, x);
      }
      assert forall k :: 0 <= k < |rest| ==> x !in rest[k] by {
        RangeNoLineBreak(segs, 1, |segs|, host, port, x);
      }
      ConcatNoChar(first, rest, x);
    }
  }

  /** Split on line breaks, the result is exactly the output lines and then the
      empty segment after the final line break. */
  lemma ResultSplitsIntoOutputLines(m3u: string, host: string, port: int)
    requires '\n' !in host
    ensures Split(Transform(m3u, host, port), '\n') == OutputLines(m3u, host, port) + [""]
  {
    var out := OutputLines(m3u, host, port);
    OutputLinesNoLineBreak(m3u, host, port, '\n');
    JoinAppendEmpty(out, '\n');
    SplitJoin(out + [""], '\n');
  }

  /** A rewritten playlist has no `\r` to remove, so its segments are its output
      lines and the empty segment after the final line break. */
  lemma ResultSegments(m3u: string, host: string, port: int)
    requires '\n' !in host && '\r' !in host
    ensures Segments(Transform(m3u, host, port)) == OutputLines(m3u, host, port) + [""]
  {
    var out := OutputLines(m3u, host, port);
    var r := Transform(m3u, host, port);
    OutputLinesNoLineBreak(m3u, host, port, '\r');
    JoinChars(out, '\n', '\r');
    assert '\r' !in r;
    assert RemoveChar(r, '\r') == r;
    ResultSplitsIntoOutputLines(m3u, host, port);
  }

  /** A line that starts with the playlist magic starts with `#`. */
  lemma MagicStartsWithHash(h: string)
    requires StartsWith(h, Magic)
    ensures |h| > 0 && h[0] == '#'
  {
    assert h[0] == h[..|Magic|][0];
  }

  /** A rewritten playlist is not blank: it starts with the `#` of its header. */
  lemma ResultNotBlank(m3u: string, host: string, port: int)
    ensures !IsBlank(Transform(m3u, host, port))
  {
    var out := OutputLines(m3u, host, port);
    var r := Transform(m3u, host, port);
    assert |r| > 0 && r[0] == '#' by {
      FirstLineIsFixedHeader(m3u, host, port);
      MagicStartsWithHash(out[0]);
      JoinFirst(out, '\n');
    }
    TrimKeepsFirst(r);
  }

  /** A fixed header line as the first segment gives itself alone. */
  lemma FirstOutOfFixedHeader(h: string, host: string, port: int)
    requires StartsWith(h, Magic) && Trim(h) == h && FixHeader(h) == h
    ensures FirstOut(h, host, port) == [h]
  {
  }

  /** A range of lines that are fixed points of the rule is rewritten to itself. */
  lemma RangeOfFixedLines(lines: seq<string>, lo: nat, hi: nat, host: string, port: int)
    requires lo <= hi <= |lines|
    requires forall k :: lo <= k < hi ==> Fixed(lines[k], host, port)
    ensures RewriteRange(lines, lo, hi, host, port) == lines[lo..hi]
  {
    var r := RewriteRange(lines, lo, hi, host, port);
    forall k | 0 <= k < hi - lo ensures r[k] == lines[lo..hi][k] {
      assert Fixed(lines[lo + k], host, port);
    }
  }

  /** The empty line is kept. */
  lemma EmptyLineFixed(host: string, port: int)
    ensures Fixed("", host, port)
  {
    DirectiveIsNotEntry(Trim(""));
    OtherRule("", Trim(""), host, port);
  }

  /** The output lines of a playlist whose segments are `out + [""]`, where `out`
      starts with a fixed header and goes on with fixed points of the rule. */
  lemma OutputOfOutput(r: string, out: seq<string>, host: string, port: int)
    requires |out| >= 1 && !IsBlank(r) && Segments(r) == out + [""]
    requires FirstOut(out[0], host, port) == [out[0]]
    requires forall k :: 1 <= k < |out| ==> Fixed(out[k], host, port)
    ensures OutputLines(r, host, port) == out + [""]
  {
    var segs := out + [""];
    EmptyLineFixed(host, port);
    forall k | 1 <= k < |segs| ensures Fixed(segs[k], host, port) {
      if k < |out| {
        assert segs[k] == out[k];
      }
    }
    RangeOfFixedLines(segs, 1, |segs|, host, port);
    assert segs[1..] == out[1..] + [""];
    assert [out[0]] + (out[1..] + [""]) == segs;
  }

  /** The output lines of a rewritten playlist are its own output lines and the
      empty line after the final line break. */
  lemma OutputLinesTwice(m3u: string, host: string, port: int)
    requires '\n' !in host && '\r' !in host
    ensures OutputLines(Transform(m3u, host, port), host, port) == OutputLines(m3u, host, port) + [""]
  {
    var out := OutputLines(m3u, host, port);
    var r := Transform(m3u, host, port);
    assert Segments(r) == out + [""] by {
      ResultSegments(m3u, host, port);
    }
    assert !IsBlank(r) by {
      ResultNotBlank(m3u, host, port);
    }
    assert |out| >= 1 && FirstOut(out[0], host, port) == [out[0]] by {
      FirstLineIsFixedHeader(m3u, host, port);
      FirstOutOfFixedHeader(out[0], host, port);
    }
    assert forall k :: 1 <= k < |out| ==> Fixed(out[k], host, port) by {
      LaterLinesAreFixed(m3u, host, port);
    }
    OutputOfOutput(r, out, host, port);
  }

  /** Rewriting a rewritten playlist changes nothing but adds one empty line at the
      end (the segment after the final line break): the header is already fixed and
      the entries are already proxy addresses. */
  lemma TransformTwice(m3u: string, host: string, port: int)
    requires '\n' !in host && '\r' !in host
    ensures Transform(Transform(m3u, host, port), host, port) == Transform(m3u, host, port) + "\n"
  {
    OutputLinesTwice(m3u, host, port);
    JoinAppendEmpty(OutputLines(m3u, host, port), '\n');
  }
}
