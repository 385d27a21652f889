/** The playlist header: the `#EXTM3U` magic line and its `url-tvg` attribute, which
    the rewrite points at one fixed programme-guide address. The substitution is the
    left-to-right, replace-every-match behaviour of `re.sub` for the pattern
    `url-tvg="[^"]+"`. */
module Header {
  import opened Strings

  datatype Option<T> = None | Some(value: T)

  /** The programme guide every rewritten header points at. */
  const EpgUrl: string := "https://lichphatsong.site/schedule/epg.xml"
  /** The attribute name the header test looks for. */
  const AttrName: string := "url-tvg="
  /** The fixed opening of the pattern: the name and the opening quote. */
  const AttrOpen: string := "url-tvg=\""
  const CanonicalAttr: string := AttrOpen + EpgUrl + "\""
  /** The playlist magic that marks a header line (case-sensitive). */
  const Magic: string := "#EXTM3U"
  /** The header synthesised for empty input or input without a header. */
  const CanonicalHeader: string := Magic + " " + CanonicalAttr

  /** `m` is, as a whole, a match of `url-tvg="[^"]+"`. */
  predicate IsAttrMatch(m: string) {
    |m| >= |AttrOpen| + 2 && m[..|AttrOpen|] == AttrOpen && m[|m| - 1] == '"' &&
    forall j :: |AttrOpen| <= j < |m| - 1 ==> m[j] != '"'
  }

  /** The index of the first quote at or after `k`, if any. */
  function QuoteFrom(s: string, k: nat): (r: Option<nat>)
    requires k <= |s|
    ensures r.Some? ==> k <= r.value < |s| && s[r.value] == '"'
    decreases |s| - k
  {
    if k == |s| then None
    else if s[k] == '"' then Some(k)
    else QuoteFrom(s, k + 1)
  }

  /** `QuoteFrom` finds the first quote: none lies between `k` and the one it
      finds, and when it finds none there is none from `k` on. */
  lemma {:induction false} QuoteFromIsFirst(s: string, k: nat)
    requires k <= |s|
    ensures QuoteFrom(s, k).Some? ==> forall j :: k <= j < QuoteFrom(s, k).value ==> s[j] != '"'
    ensures QuoteFrom(s, k).None? ==> forall j :: k <= j < |s| ==> s[j] != '"'
    decreases |s| - k
  {
    if k < |s| && s[k] != '"' {
      QuoteFromIsFirst(s, k + 1);
    }
  }

  /** The length of the match of the pattern anchored at the start of `s`, if there
      is one. The `[^"]+` part is greedy, so a match ends at the first quote after
      the opening one. */
  function MatchLength(s: string): (r: Option<nat>)
    ensures r.Some? ==> |AttrOpen| + 2 <= r.value <= |s| && StartsWith(s, AttrOpen)
  {
    if StartsWith(s, AttrOpen) then
      match QuoteFrom(s, |AttrOpen|)
      case Some(q) => if q > |AttrOpen| then Some(q + 1) else None
      case None => None
    else None
  }

  /** `MatchLength` finds exactly the regular-expression match: the prefix it gives
      matches the pattern, no other prefix does, and when it finds none no prefix
      matches at all. */
  lemma MatchLengthIsRegexMatch(s: string)
    ensures MatchLength(s).Some? ==> IsAttrMatch(s[..MatchLength(s).value])
    ensures MatchLength(s).Some? ==>
      forall e :: 0 <= e <= |s| && IsAttrMatch(s[..e]) ==> e == MatchLength(s).value
    ensures MatchLength(s).None? ==> forall e :: 0 <= e <= |s| ==> !IsAttrMatch(s[..e])
  {
    if |AttrOpen| <= |s| {
      QuoteFromIsFirst(s, |AttrOpen|);
    }
    forall e | 0 <= e <= |s| && IsAttrMatch(s[..e])
      ensures MatchLength(s) == Some(e)
    {
      assert s[..e][..|AttrOpen|] == s[..|AttrOpen|];
      var q := QuoteFrom(s, |AttrOpen|);
      assert s[..e][e - 1] == '"';
      assert q.Some?;
    }
  }

  /** `re.sub(r'url-tvg="[^"]+"', CanonicalAttr, s)`: scanning left to right, every
      non-overlapping match is replaced by the canonical attribute and every other
      character is copied. */
  function ReplaceUrlTvg(s: string): string
    decreases |s|
  {
    if |s| == 0 then ""
    else
      match MatchLength(s)
      case Some(e) => CanonicalAttr + ReplaceUrlTvg(s[e..])
      case None => [s[0]] + ReplaceUrlTvg(s[1..])
  }

  /** The first-line fix-up for a trimmed line that starts with the magic: rewrite an
      existing `url-tvg` value, or append the attribute after one space. */
  function FixHeader(t: string): (r: string)
    requires StartsWith(t, Magic)
    ensures StartsWith(r, Magic)
    ensures Contains(r, AttrName)
  {
    if Contains(t, AttrName) then
      ReplaceKeepsHead(t, |Magic|);
      ReplaceKeepsAttrName(t);
      ReplaceUrlTvg(t)
    else
      var r := if t == Magic then CanonicalHeader else t + " " + CanonicalAttr;
      assert r == t + " " + CanonicalAttr;
      CanonicalAttrNamed();
      AppendedNamed(t, CanonicalAttr);
      assert r[..|Magic|] == r[..|t|][..|Magic|];
      r
  }

  /** Appending, after a space, anything that starts with the attribute name keeps
      the string in front and adds the name. */
  lemma AppendedNamed(t: string, a: string)
    requires StartsWith(a, AttrName)
    ensures (t + " " + a)[..|t|] == t
    ensures Contains(t + " " + a, AttrName)
  {
    var r := t + " " + a;
    var k := |t| + 1;
    assert Contains(r, AttrName) by {
      assert r[k..k + |AttrName|] == a[..|AttrName|];
      ContainsAt(r, AttrName, k);
    }
    assert r[..|t|] == t;
  }

  /** The replacement starts with the attribute name. */
  lemma CanonicalAttrNamed()
    ensures StartsWith(CanonicalAttr, AttrName)
  {
    CanonicalAttrOpens();
    OpeningHasName(CanonicalAttr);
  }

  /** The guide address holds no quote and no line break. */
  lemma EpgUrlChars()
    ensures forall k :: 0 <= k < |EpgUrl| ==> EpgUrl[k] != '"' && EpgUrl[k] != '\n' && EpgUrl[k] != '\r'
  {
  }

  /** The canonical attribute holds no line break. */
  lemma CanonicalAttrChars(x: char)
    requires x == '\n' || x == '\r'
    ensures x !in CanonicalAttr
  {
    EpgUrlChars();
    forall k | 0 <= k < |CanonicalAttr| ensures CanonicalAttr[k] != x {
      if |AttrOpen| <= k < |AttrOpen| + |EpgUrl| {
        assert CanonicalAttr[k] == EpgUrl[k - |AttrOpen|];
      }
    }
  }

  /** The canonical attribute is itself a match of the pattern. */
  lemma CanonicalIsMatch()
    ensures IsAttrMatch(CanonicalAttr)
  {
    EpgUrlChars();
    assert CanonicalAttr[..|AttrOpen|] == AttrOpen;
    forall j | |AttrOpen| <= j < |CanonicalAttr| - 1 ensures CanonicalAttr[j] != '"' {
      assert CanonicalAttr[j] == EpgUrl[j - |AttrOpen|];
    }
  }

  /** With no quote at or after index `m` (and `m` at most 10, the least index a
      closing quote can have) nothing matches, so the substitution copies `s`. */
  lemma {:induction false} ReplaceWithoutLateQuote(s: string, m: nat)
    requires m <= |AttrOpen| + 1
    requires forall j :: m <= j < |s| ==> s[j] != '"'
    ensures ReplaceUrlTvg(s) == s
    decreases |s|
  {
    if |s| > 0 {
      assert MatchLength(s).None?;
      ReplaceWithoutLateQuote(s[1..], if m > 0 then m - 1 else 0);
      assert [s[0]] + s[1..] == s;
    }
  }

  /** The substitution never changes the first nine characters: a replaced match
      starts with the same `url-tvg="` that the replacement starts with. */
  lemma {:induction false} ReplaceKeepsHead(s: string, n: nat)
    requires n <= |AttrOpen| && n <= |s|
    ensures n <= |ReplaceUrlTvg(s)| && ReplaceUrlTvg(s)[..n] == s[..n]
    decreases |s|
  {
    if |s| > 0 {
      match MatchLength(s)
      case Some(e) =>
        var r := ReplaceUrlTvg(s[e..]);
        assert ReplaceUrlTvg(s) == CanonicalAttr + r;
        assert s[..|AttrOpen|] == AttrOpen;
        CanonicalAttrOpens();
        OpeningPrefix(CanonicalAttr + r, s, n);
      case None =>
        if n > 0 {
          ReplaceKeepsHead(s[1..], n - 1);
          assert ReplaceUrlTvg(s) == [s[0]] + ReplaceUrlTvg(s[1..]);
          ConsPrefix(s, ReplaceUrlTvg(s[1..]), n);
        }
    }
  }

  /** The replacement starts with the fixed opening of the pattern. */
  lemma CanonicalAttrOpens()
    ensures CanonicalAttr[..|AttrOpen|] == AttrOpen
  {
  }

  /** Two strings that both start with the opening agree on their first `n <= 9`
      characters. */
  lemma OpeningPrefix(a: string, s: string, n: nat)
    requires n <= |AttrOpen| <= |a| && |AttrOpen| <= |s|
    requires a[..|AttrOpen|] == AttrOpen && s[..|AttrOpen|] == AttrOpen
    ensures a[..n] == s[..n]
  {
    assert a[..n] == a[..|AttrOpen|][..n];
    assert s[..n] == s[..|AttrOpen|][..n];
  }

  /** A string whose tail keeps its first `n - 1` characters keeps its first `n`
      characters once its head is put back. */
  lemma ConsPrefix(s: string, r: string, n: nat)
    requires 0 < n <= |s| && n - 1 <= |r| && r[..n - 1] == s[1..][..n - 1]
    ensures ([s[0]] + r)[..n] == s[..n]
  {
    assert ([s[0]] + r)[..n] == [s[0]] + r[..n - 1];
    assert s[..n] == [s[0]] + s[1..][..n - 1];
  }

  /** A string too short to hold a match is copied. */
  lemma ShortIsCopied(t: string)
    requires 0 < |t| <= |AttrOpen| + 1
    ensures [t[0]] + ReplaceUrlTvg(t[1..]) == t
  {
    ReplaceWithoutLateQuote(t[1..], |t| - 1);
  }

  /** A string that opens the pattern but has no later quote is copied. */
  lemma UnclosedIsCopied(t: string)
    requires StartsWith(t, AttrOpen) && QuoteFrom(t, |AttrOpen|).None?
    ensures [t[0]] + ReplaceUrlTvg(t[1..]) == t
  {
    QuoteFromIsFirst(t, |AttrOpen|);
    ReplaceWithoutLateQuote(t[1..], |AttrOpen| - 1);
  }

  /** A string that does not open the pattern still does not after its tail has
      been substituted, since the substitution keeps the first characters. */
  lemma OpeningStaysMismatched(t: string)
    requires |t| > |AttrOpen| + 1 && !StartsWith(t, AttrOpen)
    ensures MatchLength([t[0]] + ReplaceUrlTvg(t[1..])).None?
  {
    var s := [t[0]] + ReplaceUrlTvg(t[1..]);
    ReplaceKeepsHead(t[1..], |AttrOpen| - 1);
    assert s[..|AttrOpen|] == t[..|AttrOpen|];
  }

  /** Putting back the first character of an empty value `url-tvg=""` in front of
      anything that keeps the rest of the opening gives no match either. */
  lemma EmptyValueHasNoMatch(t: string, r: string)
    requires |AttrOpen| < |t| && StartsWith(t, AttrOpen) && t[|AttrOpen|] == '"'
    requires |AttrOpen| <= |r| && r[..|AttrOpen|] == t[1..][..|AttrOpen|]
    ensures MatchLength([t[0]] + r).None?
  {
    var s := [t[0]] + r;
    var n := |AttrOpen|;
    assert s[..n] == t[..n] by {
      assert forall k :: 1 <= k < n ==> s[k] == r[..n][k - 1] == t[1..][..n][k - 1];
    }
    assert s[n] == r[..n][n - 1] == t[n];
    assert QuoteFrom(s, n) == Some(n);
  }

  /** An empty value `url-tvg=""` stays empty after the tail has been substituted. */
  lemma EmptyValueStaysEmpty(t: string)
    requires StartsWith(t, AttrOpen) && QuoteFrom(t, |AttrOpen|) == Some(|AttrOpen|)
    ensures MatchLength([t[0]] + ReplaceUrlTvg(t[1..])).None?
  {
    ReplaceKeepsHead(t[1..], |AttrOpen|);
    EmptyValueHasNoMatch(t, ReplaceUrlTvg(t[1..]));
  }

  /** A string that has no match at its start still has none after its tail has
      been substituted. */
  lemma NoMatchSurvives(t: string)
    requires |t| > 0 && MatchLength(t).None?
    ensures MatchLength([t[0]] + ReplaceUrlTvg(t[1..])).None?
  {
    if |t| <= |AttrOpen| + 1 {
      ShortIsCopied(t);
    } else if !StartsWith(t, AttrOpen) {
      OpeningStaysMismatched(t);
    } else if QuoteFrom(t, |AttrOpen|).None? {
      UnclosedIsCopied(t);
    } else {
      EmptyValueStaysEmpty(t);
    }
  }

  /** Substituting twice is substituting once: the canonical attribute is a match
      that replaces to itself, and no new match appears across a replacement. */
  lemma {:induction false} ReplaceIdempotent(t: string)
    ensures ReplaceUrlTvg(ReplaceUrlTvg(t)) == ReplaceUrlTvg(t)
    decreases |t|
  {
    if |t| > 0 {
      match MatchLength(t)
      case Some(e) =>
        var y := ReplaceUrlTvg(t[e..]);
        ReplaceIdempotent(t[e..]);
        var u := CanonicalAttr + y;
        CanonicalMatchesWhole(y);
        assert u[|CanonicalAttr|..] == y;
      case None =>
        var y := ReplaceUrlTvg(t[1..]);
        ReplaceIdempotent(t[1..]);
        NoMatchSurvives(t);
        assert ([t[0]] + y)[1..] == y;
    }
  }

  /** A string in which no match starts anywhere is copied unchanged. */
  lemma {:induction false} ReplaceWithoutMatch(s: string)
    requires forall i :: 0 <= i < |s| ==> MatchLength(s[i..]).None?
    ensures ReplaceUrlTvg(s) == s
    decreases |s|
  {
    if |s| > 0 {
      assert MatchLength(s[0..]).None?;
      assert s[0..] == s;
      forall i | 0 <= i < |s| - 1 ensures MatchLength(s[1..][i..]).None? {
        assert s[1..][i..] == s[i + 1..];
      }
      ReplaceWithoutMatch(s[1..]);
      assert [s[0]] + s[1..] == s;
    }
  }

  /** A string with no match at its start keeps its first character and goes on
      with the substitution of the rest. */
  lemma ReplaceUnmatchedHead(u: string)
    requires |u| > 0 && MatchLength(u).None?
    ensures ReplaceUrlTvg(u) == [u[0]] + ReplaceUrlTvg(u[1..])
  {
  }

  /** When no match starts in the first `m` positions they are copied as they are. */
  lemma {:induction false} ReplaceKeepsUnmatchedPrefix(u: string, m: nat)
    requires m <= |u|
    requires forall i :: 0 <= i < m ==> MatchLength(u[i..]).None?
    ensures ReplaceUrlTvg(u) == u[..m] + ReplaceUrlTvg(u[m..])
    decreases m
  {
    if m > 0 {
      var v := u[1..];
      assert MatchLength(u).None? by {
        assert MatchLength(u[0..]).None?;
        assert u[0..] == u;
      }
      var w := ReplaceUrlTvg(u[m..]);
      assert ReplaceUrlTvg(v) == v[..m - 1] + w by {
        forall i | 0 <= i < m - 1 ensures MatchLength(v[i..]).None? {
          assert v[i..] == u[i + 1..];
        }
        ReplaceKeepsUnmatchedPrefix(v, m - 1);
        assert v[m - 1..] == u[m..];
      }
      calc {
        ReplaceUrlTvg(u);
        { ReplaceUnmatchedHead(u); }
        [u[0]] + ReplaceUrlTvg(v);
        [u[0]] + (v[..m - 1] + w);
        { AppendAssoc([u[0]], v[..m - 1], w); }
        ([u[0]] + v[..m - 1]) + w;
        { assert [u[0]] + v[..m - 1] == u[..m]; }
        u[..m] + w;
      }
    }
  }

  /** The substitution keeps the attribute name present: a match is replaced by
      text that starts with it, and an unmatched occurrence is copied. */
  lemma {:induction false} ReplaceKeepsAttrName(s: string)
    requires Contains(s, AttrName)
    ensures Contains(ReplaceUrlTvg(s), AttrName)
    decreases |s|
  {
    var r := ReplaceUrlTvg(s);
    match MatchLength(s)
    case Some(e) =>
      assert r[..|AttrName|] == AttrName;
    case None =>
      if StartsWith(s, AttrName) {
        ReplaceKeepsHead(s, |AttrName|);
      } else {
        ReplaceKeepsAttrName(s[1..]);
        assert r[1..] == ReplaceUrlTvg(s[1..]);
      }
  }

  /** The last character of a substituted string is the original last character or
      the closing quote of a replacement. */
  lemma {:induction false} ReplaceLastChar(s: string)
    requires |s| > 0
    ensures |ReplaceUrlTvg(s)| > 0
    ensures var r := ReplaceUrlTvg(s); r[|r| - 1] == s[|s| - 1] || r[|r| - 1] == '"'
    decreases |s|
  {
    match MatchLength(s)
    case Some(e) =>
      if e < |s| { ReplaceLastChar(s[e..]); }
    case None =>
      if |s| > 1 { ReplaceLastChar(s[1..]); }
  }

  /** A string that starts with the canonical attribute matches exactly it. */
  lemma CanonicalMatchesWhole(y: string)
    ensures MatchLength(CanonicalAttr + y) == Some(|CanonicalAttr|)
  {
    var u := CanonicalAttr + y;
    CanonicalIsMatch();
    assert u[..|CanonicalAttr|] == CanonicalAttr;
    MatchLengthIsRegexMatch(u);
  }

  /** A match anywhere in `s` puts the canonical attribute into the substituted text:
      the scan either replaces that match or one that overlaps it. */
  lemma {:induction false} ReplaceInsertsCanonical(s: string, i: nat)
    requires i < |s| && MatchLength(s[i..]).Some?
    ensures Contains(ReplaceUrlTvg(s), CanonicalAttr)
    decreases |s|
  {
    var r := ReplaceUrlTvg(s);
    match MatchLength(s)
    case Some(e) =>
      assert r[..|CanonicalAttr|] == CanonicalAttr;
    case None =>
      assert i > 0 by { assert s[0..] == s; }
      assert s[1..][i - 1..] == s[i..];
      ReplaceInsertsCanonical(s[1..], i - 1);
      assert r[1..] == ReplaceUrlTvg(s[1..]);
  }

  /** Text that holds the canonical attribute has a match where it starts. */
  lemma ContainedCanonicalIsMatch(s: string)
    ensures Contains(s, CanonicalAttr) ==> exists i :: 0 <= i < |s| && MatchLength(s[i..]).Some?
  {
    ContainsIff(s, CanonicalAttr);
    if Contains(s, CanonicalAttr) {
      var j :| OccursAt(s, CanonicalAttr, j);
      var y := s[j + |CanonicalAttr|..];
      OccursAtSplits(s, CanonicalAttr, j);
      CanonicalMatchesWhole(y);
      assert 0 <= j < |s| && MatchLength(s[j..]).Some?;
    }
  }

  /** The fixed header points at the canonical guide unless the line names the
      attribute but has no match anywhere, in which case the line is kept and holds
      no canonical attribute. */
  lemma FixHeaderCarriesGuide(t: string)
    requires StartsWith(t, Magic)
    ensures Contains(FixHeader(t), CanonicalAttr) <==>
      !(Contains(t, AttrName) && forall i :: 0 <= i < |t| ==> MatchLength(t[i..]).None?)
  {
    if !Contains(t, AttrName) {
      HeaderAppendsAttr(t);
      ContainsSuffix(t + " ", CanonicalAttr);
    } else if forall i :: 0 <= i < |t| ==> MatchLength(t[i..]).None? {
      HeaderWithoutMatch(t);
      ContainedCanonicalIsMatch(t);
    } else {
      var i :| 0 <= i < |t| && MatchLength(t[i..]).Some?;
      HeaderWithAttr(t);
      ReplaceInsertsCanonical(t, i);
    }
  }

  /** No match starts before text appended after one space when the line had no
      attribute name: a match needs the name, and the space cannot be part of it. */
  lemma NoMatchBeforeAppended(t: string, y: string, i: nat)
    requires !Contains(t, AttrName) && i <= |t|
    ensures MatchLength((t + " " + y)[i..]).None?
  {
    if i + |AttrName| <= |t| {
      NameNotInOriginal(t, y, i);
    } else {
      NameNotAcrossSpace(t, y, i);
    }
    NoMatchWithoutName((t + " " + y)[i..]);
  }

  /** No slice that lies inside a string without the attribute name starts the name,
      whatever follows the string. */
  lemma NameNotInOriginal(t: string, y: string, i: nat)
    requires !Contains(t, AttrName) && i + |AttrName| <= |t|
    ensures !StartsWith((t + " " + y)[i..], AttrName)
  {
    assert (t + " " + y)[i..][..|AttrName|] == t[i..i + |AttrName|];
    NotOccursAt(t, AttrName, i);
  }

  /** A slice that reaches the appended space is too short before the space to
      hold the attribute name. */
  lemma NameNotAcrossSpace(t: string, y: string, i: nat)
    requires i <= |t| < i + |AttrName|
    ensures !StartsWith((t + " " + y)[i..], AttrName)
  {
    var v := (t + " " + y)[i..];
    NameHasNoSpace();
    assert v[|t| - i] == ' ';
    DiffersFromPrefix(v, AttrName, |t| - i);
  }

  /** The attribute name holds no space. */
  lemma NameHasNoSpace()
    ensures forall k :: 0 <= k < |AttrName| ==> AttrName[k] != ' '
  {
  }

  /** A string that does not start with the attribute name has no match at its
      start. */
  lemma NoMatchWithoutName(s: string)
    requires !StartsWith(s, AttrName)
    ensures MatchLength(s).None?
  {
    OpeningHasName(s);
  }

  /** The opening of the pattern starts with the attribute name. */
  lemma OpeningHasName(s: string)
    ensures StartsWith(s, AttrOpen) ==> StartsWith(s, AttrName)
  {
    if StartsWith(s, AttrOpen) {
      assert s[..|AttrName|] == s[..|AttrOpen|][..|AttrName|] == AttrOpen[..|AttrName|];
    }
  }

  /** A header without the attribute name followed by the appended attribute is a
      fixed point of the substitution. */
  lemma AppendedAttrIsStable(t: string)
    requires !Contains(t, AttrName)
    ensures ReplaceUrlTvg(t + " " + CanonicalAttr) == t + " " + CanonicalAttr
  {
    var u := t + " " + CanonicalAttr;
    forall i | 0 <= i < |t| + 1 ensures MatchLength(u[i..]).None? {
      NoMatchBeforeAppended(t, CanonicalAttr, i);
    }
    ReplaceKeepsUnmatchedPrefix(u, |t| + 1);
    assert u[|t| + 1..] == CanonicalAttr;
    CanonicalMatchesWhole("");
    assert CanonicalAttr + "" == CanonicalAttr;
    assert ReplaceUrlTvg(CanonicalAttr) == CanonicalAttr + ReplaceUrlTvg(CanonicalAttr[|CanonicalAttr|..]);
    assert CanonicalAttr[|CanonicalAttr|..] == "";
    assert u[..|t| + 1] + CanonicalAttr == u;
  }

  /** A first line without the attribute gets exactly one space and the canonical
      attribute appended; the bare magic line gets the canonical header, which is the
      same thing. */
  lemma HeaderAppendsAttr(t: string)
    requires StartsWith(t, Magic) && !Contains(t, AttrName)
    ensures FixHeader(t) == t + " " + CanonicalAttr
    ensures t == Magic ==> FixHeader(t) == CanonicalHeader
  {
  }

  /** A first line with the attribute name keeps everything but its matches. */
  lemma HeaderWithAttr(t: string)
    requires StartsWith(t, Magic) && Contains(t, AttrName)
    ensures FixHeader(t) == ReplaceUrlTvg(t)
  {
  }

  /** A first line with the attribute name but no match at all (say an empty value
      `url-tvg=""`) is left as it is. */
  lemma HeaderWithoutMatch(t: string)
    requires StartsWith(t, Magic) && Contains(t, AttrName)
    requires forall i :: 0 <= i < |t| ==> MatchLength(t[i..]).None?
    ensures FixHeader(t) == t
  {
    ReplaceWithoutMatch(t);
    HeaderCopied(t);
  }

  /** A first line with the attribute name that the substitution copies is left as
      it is. */
  lemma HeaderCopied(t: string)
    requires StartsWith(t, Magic) && Contains(t, AttrName) && ReplaceUrlTvg(t) == t
    ensures FixHeader(t) == t
  {
    HeaderWithAttr(t);
  }

  /** A string that does not start with `u` has no match at its start. */
  lemma NoMatchWithoutLeadingU(s: string)
    requires |s| > 0 && s[0] != 'u'
    ensures MatchLength(s).None?
  {
    assert AttrOpen[0] == 'u';
  }

  /** A string is copied when its first `m` positions start no match and the rest
      is copied. */
  lemma CopiedAfterUnmatchedPrefix(u: string, m: nat)
    requires m <= |u|
    requires forall i :: 0 <= i < m ==> MatchLength(u[i..]).None?
    requires ReplaceUrlTvg(u[m..]) == u[m..]
    ensures ReplaceUrlTvg(u) == u
  {
    calc {
      ReplaceUrlTvg(u);
      { ReplaceKeepsUnmatchedPrefix(u, m); }
      u[..m] + ReplaceUrlTvg(u[m..]);
      u[..m] + u[m..];
      { SplitAtIndex(u, m); }
      u;
    }
  }

  /** The empty value `url-tvg=""` on its own is copied. */
  lemma EmptyValueCopied(v: string)
    requires v == AttrOpen + "\""
    ensures ReplaceUrlTvg(v) == v
  {
    ReplaceWithoutLateQuote(v, |AttrOpen| + 1);
  }

  /** No match starts among characters that are not `u`, whatever follows them. */
  lemma NoMatchInPrefixWithoutU(p: string, v: string)
    requires forall i :: 0 <= i < |p| ==> p[i] != 'u'
    ensures forall i :: 0 <= i < |p| ==> MatchLength((p + v)[i..]).None?
  {
    forall i | 0 <= i < |p| ensures MatchLength((p + v)[i..]).None? {
      assert (p + v)[i..][0] == p[i];
      NoMatchWithoutLeadingU((p + v)[i..]);
    }
  }

  /** An empty value `url-tvg=""` at the end of a string whose earlier characters
      cannot start a match is left as it is by the substitution. */
  lemma EmptyValueAfterPrefix(p: string, v: string)
    requires forall i :: 0 <= i < |p| ==> p[i] != 'u'
    requires v == AttrOpen + "\""
    ensures ReplaceUrlTvg(p + v) == p + v
  {
    NoMatchInPrefixWithoutU(p, v);
    assert ReplaceUrlTvg((p + v)[|p|..]) == (p + v)[|p|..] by {
      assert (p + v)[|p|..] == v;
      EmptyValueCopied(v);
    }
    CopiedAfterUnmatchedPrefix(p + v, |p|);
  }

  /** Any string with the opening of the pattern in it contains the attribute name. */
  lemma OpeningNamed(p: string, q: string)
    ensures Contains(p + AttrOpen + q, AttrName)
  {
    var t := p + AttrOpen + q;
    assert t[|p|..|p| + |AttrName|] == AttrOpen[..|AttrName|];
    ContainsIff(t, AttrName);
    assert OccursAt(t, AttrName, |p|);
  }

  /** The header `#EXTM3U url-tvg=""` names the attribute but does not match the
      pattern, so the fix-up leaves it without the canonical address. */
  lemma EmptyValueHeaderUnchanged(t: string)
    requires t == "#EXTM3U url-tvg=\"\""
    ensures StartsWith(t, Magic) && FixHeader(t) == t
  {
    var p := Magic + " ";
    var v := AttrOpen + "\"";
    assert t == p + v;
    assert StartsWith(t, Magic) by {
      assert t[..|Magic|] == p[..|Magic|];
    }
    assert Contains(t, AttrName) by {
      assert t == p + AttrOpen + "\"";
      OpeningNamed(p, "\"");
    }
    assert ReplaceUrlTvg(t) == t by {
      EmptyValueAfterPrefix(p, v);
    }
    HeaderCopied(t);
  }

  /** A trimmed line that starts with the magic ends with a character that is not
      whitespace and starts with `#`. */
  lemma TrimmedHeaderEnds(t: string)
    requires StartsWith(t, Magic) && Trim(t) == t
    ensures |t| > 0 && t[0] == '#' && !IsSpace(t[|t| - 1])
  {
    assert t[0] == t[..|Magic|][0];
    TrimIsSlice(t);
  }

  /** Substituting in a trimmed header gives a trimmed string that the substitution
      leaves as it is. */
  lemma SubstitutedHeaderIsStable(t: string)
    requires StartsWith(t, Magic) && Trim(t) == t
    ensures Trim(ReplaceUrlTvg(t)) == ReplaceUrlTvg(t)
    ensures ReplaceUrlTvg(ReplaceUrlTvg(t)) == ReplaceUrlTvg(t)
  {
    var h := ReplaceUrlTvg(t);
    TrimmedHeaderEnds(t);
    assert |h| > 0 && h[0] == '#' by {
      ReplaceKeepsHead(t, 1);
      assert h[0] == h[..1][0];
    }
    assert !IsSpace(h[|h| - 1]) by {
      ReplaceLastChar(t);
    }
    TrimOfTrimmed(h);
    ReplaceIdempotent(t);
  }

  /** Appending the attribute to a trimmed header gives a trimmed string that the
      substitution leaves as it is. */
  lemma AppendedHeaderIsStable(t: string)
    requires StartsWith(t, Magic) && Trim(t) == t && !Contains(t, AttrName)
    ensures Trim(t + " " + CanonicalAttr) == t + " " + CanonicalAttr
    ensures ReplaceUrlTvg(t + " " + CanonicalAttr) == t + " " + CanonicalAttr
  {
    var h := t + " " + CanonicalAttr;
    TrimmedHeaderEnds(t);
    assert h[0] == '#' && h[|h| - 1] == '"';
    TrimOfTrimmed(h);
    AppendedAttrIsStable(t);
  }

  /** A fixed header is trimmed, still a header, and fixing it again changes nothing:
      rewriting a rewritten playlist leaves its header line alone. */
  lemma FixHeaderStable(t: string)
    requires StartsWith(t, Magic) && Trim(t) == t
    ensures Trim(FixHeader(t)) == FixHeader(t)
    ensures FixHeader(FixHeader(t)) == FixHeader(t)
  {
    var h := FixHeader(t);
    if Contains(t, AttrName) {
      assert h == ReplaceUrlTvg(t);
      SubstitutedHeaderIsStable(t);
    } else {
      HeaderAppendsAttr(t);
      AppendedHeaderIsStable(t);
    }
    HeaderWithAttr(h);
  }

  /** The fix-up brings in no character beyond those of the line and of the canonical
      attribute. */
  lemma {:induction false} ReplaceAddsNoChar(s: string, x: char)
    requires x !in s && x !in CanonicalAttr
    ensures x !in ReplaceUrlTvg(s)
    decreases |s|
  {
    if |s| > 0 {
      match MatchLength(s)
      case Some(e) =>
        assert forall y :: y in s[e..] ==> y in s;
        ReplaceAddsNoChar(s[e..], x);
      case None =>
        assert forall y :: y in s[1..] ==> y in s;
        ReplaceAddsNoChar(s[1..], x);
    }
  }

  /** Neither line break occurs in a fixed header when none occurs in the line. */
  lemma FixHeaderNoLineBreak(t: string, x: char)
    requires StartsWith(t, Magic) && (x == '\n' || x == '\r') && x !in t
    ensures x !in FixHeader(t)
  {
    CanonicalAttrChars(x);
    if Contains(t, AttrName) {
      ReplaceAddsNoChar(t, x);
    }
  }
}
