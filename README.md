# udpxy playlist rewrite — a Dafny model

This project models `transform_to_udpxy` from `scripts/generate_m3u.py`. The function
rewrites an M3U playlist for a udpxy multicast-to-HTTP proxy:

- the first line becomes an `#EXTM3U` header whose `url-tvg` attribute points at the
  fixed programme guide `https://lichphatsong.site/schedule/epg.xml`. The header is
  synthesised when it is missing. A `url-tvg="…"` value is substituted. The attribute
  is appended when the header does not name it;
- every line whose stripped text starts with `rtp://` or `udp://` (ASCII case ignored)
  becomes `http://{host}:{port}/rtp/{target}`;
- blank lines, directives and every other line are kept byte for byte, untrimmed;
- the output lines are joined with `\n`, and one final `\n` is added.

The model has three modules:

- `Strings` (`strings.dfy`) holds the Python string operations the function relies
  on. They are `str.isspace`/`strip`, an ASCII `lower` prefix test, `in`,
  `replace("\r", "")`, `split("\n")`, `"\n".join` and `str(int)`. Each comes with the
  lemmas that pin it down: trim is the slice between the outer whitespace,
  split/join round trips, and decimal rendering round trips.
- `Header` (`header.dfy`) holds the substitution `re.sub(r'url-tvg="[^"]+"', …)` as a
  left-to-right scan (`ReplaceUrlTvg`) and the first-line fix-up (`FixHeader`). It
  proves that the scan finds exactly the regular-expression matches, that
  substituting twice is substituting once, and that the fixed header is stable.
- `GenerateM3u` (`generate_m3u.dfy`) holds the per-line rule (`LineRule`,
  `RewriteLine`), a specification of the whole rewrite (`OutputLines`, `Transform`)
  and the imperative loop `TransformToUdpxy`. The loop builds `out` line by line. Its
  invariant ties `out` to the specification after every iteration.

The properties proved about the rewrite are:

- the shape of the output (one line per input segment, plus the synthesised header
  when the first line is not a header);
- the exact result for blank input;
- that the first output line is always a fixed `#EXTM3U` header naming `url-tvg`, and exactly when it points at the canonical guide;
- the exact rewrite of stream entries, and that every other line is kept;
- that the line rule is idempotent, so entries are never rewritten twice;
- that no output line holds a line break when the host holds none;
- what a second run does. Running the rewrite on its own output gives the same text
  plus one more `\n`: the final `\n` of the first run leaves an empty last segment,
  which the second run keeps as an empty line.

Where the documented behaviour and the code differ, the model follows the code.
`re.sub` replaces every match in the header line, not only the first. A header that
names the attribute without matching the pattern keeps its own value and does not
receive the canonical address. An example is `url-tvg=""`, which has an empty value.
`Header.EmptyValueHeaderUnchanged` and `Header.HeaderWithoutMatch` state this, and
`Header.FixHeaderCarriesGuide` shows that these are the only headers left without it.

## Model

| member | source | states |
|---|---|---|
| Strings.TrimEmptyIffAllSpace | scripts/generate_m3u.py:34 | `m3u.strip()` is empty exactly when every character of `m3u` is whitespace, so the blank-input test `IsBlank` holds exactly for empty or whitespace-only input |
| Strings.TrimIsSlice | scripts/generate_m3u.py:42 | `strip()` (`Trim`) returns the slice between the leading and trailing whitespace, and that slice neither starts nor ends with whitespace |
| Strings.TrimTwice | scripts/generate_m3u.py:42 | stripping is idempotent |
| Strings.StartsWithIgnoreCaseIff | scripts/generate_m3u.py:72-78 | `t.lower().startswith(p)` (`StartsWithIgnoreCase`, with ASCII `lower()`) for a prefix without capitals accepts at each position exactly the prefix character or, for a lower-case letter, its capital |
| Strings.ContainsIff | scripts/generate_m3u.py:48 | `p in s` (`Contains`) holds exactly when some slice of `s` equals `p` |
| Strings.RemoveChar | scripts/generate_m3u.py:38 | `replace("\r", "")` leaves no `\r`, keeps every other character, and is the identity on text without `\r` |
| Strings.RemoveCharConcat | scripts/generate_m3u.py:38 | `replace("\r", "")` works piece by piece: removing from a concatenation is removing from each part, in order, so the kept characters keep their order |
| Strings.RemoveCharCount | scripts/generate_m3u.py:38 | `replace("\r", "")` deletes every `\r` and keeps every other character exactly as often as it occurs |
| Strings.Split | scripts/generate_m3u.py:38 | `split("\n")` gives at least one segment, and no segment holds `\n` |
| Strings.JoinSplit | scripts/generate_m3u.py:38 | `Join` is the inverse of `Split`: joining the segments of `split(sep)` with `sep` gives the original text back |
| Strings.SplitJoin | scripts/generate_m3u.py:87 | `"\n".join` (`Join`) loses nothing: splitting a join of separator-free lines gives the lines back |
| Strings.JoinAppendEmpty | scripts/generate_m3u.py:87 | joining the lines plus one empty line is the join followed by one separator |
| Strings.IntToString | scripts/generate_m3u.py:75 | `str(port)` has a leading `-` exactly for negative ports, followed by the decimal digits of the magnitude |
| Strings.DecimalRoundTrip | scripts/generate_m3u.py:75 | the decimal digits of `str(n)` read back as `n` |
| Header.QuoteFromIsFirst | scripts/generate_m3u.py:50 | the quote that ends `[^"]+` is the first quote after the opening quote, and none follows when no quote is found |
| Header.MatchLength | scripts/generate_m3u.py:49-50 | a match found at the start of the text begins with `url-tvg="` and is at least that plus one value character and a closing quote long |
| Header.MatchLengthIsRegexMatch | scripts/generate_m3u.py:49-53 | the match found at a position is a match of `url-tvg="[^"]+"`, no other prefix there matches, and when none is found no prefix matches |
| Header.CanonicalIsMatch | scripts/generate_m3u.py:51 | the replacement `url-tvg="https://lichphatsong.site/schedule/epg.xml"` itself matches the pattern |
| Header.ReplaceWithoutMatch | scripts/generate_m3u.py:49-53 | text with no match at any position is left unchanged by `re.sub` (`ReplaceUrlTvg`) |
| Header.ReplaceInsertsCanonical | scripts/generate_m3u.py:49-53 | when a match starts anywhere in the text, `re.sub` (`ReplaceUrlTvg`) puts the canonical attribute into the result |
| Header.ContainedCanonicalIsMatch | scripts/generate_m3u.py:49-51 | text that holds the canonical attribute has a match of the pattern where it starts |
| Header.ReplaceKeepsUnmatchedPrefix | scripts/generate_m3u.py:49-53 | characters before the first match are copied and scanning resumes after them |
| Header.ReplaceIdempotent | scripts/generate_m3u.py:49-53 | substituting in already substituted text changes nothing |
| Header.ReplaceKeepsAttrName | scripts/generate_m3u.py:48-53 | text that names `url-tvg=` still names it after the substitution |
| Header.EmptyValueStaysEmpty | scripts/generate_m3u.py:50 | an empty value `url-tvg=""` is no match and stays none once the text after it is substituted |
| Header.FixHeader | scripts/generate_m3u.py:46-59 | the fixed header still starts with `#EXTM3U` and names `url-tvg=` |
| Header.HeaderWithAttr | scripts/generate_m3u.py:48-53 | a header that names `url-tvg=` is rewritten by the substitution alone |
| Header.HeaderWithoutMatch | scripts/generate_m3u.py:48-53 | a header that names `url-tvg=` but has no match anywhere is emitted unchanged |
| Header.EmptyValueHeaderUnchanged | scripts/generate_m3u.py:48-53 | `#EXTM3U url-tvg=""` is emitted as it is, without the canonical address |
| Header.FixHeaderCarriesGuide | scripts/generate_m3u.py:46-59 | the fixed header holds the canonical attribute if and only if the line does not name `url-tvg=` without any match of the pattern |
| Header.HeaderAppendsAttr | scripts/generate_m3u.py:54-59 | a header without `url-tvg=` gets one space and the canonical attribute appended, and the bare `#EXTM3U` case gives the same line as the general append |
| Header.AppendedAttrIsStable | scripts/generate_m3u.py:54-59 | an appended attribute is a fixed point of the substitution |
| Header.FixHeaderStable | scripts/generate_m3u.py:42-59 | a fixed header is already stripped, and fixing it again changes nothing |
| Header.FixHeaderNoLineBreak | scripts/generate_m3u.py:46-59 | the fix-up adds no `\n` or `\r` |
| GenerateM3u.ProxyUrl | scripts/generate_m3u.py:75 | the proxy address starts with `http://` and ends with the stream target |
| GenerateM3u.AfterFirstAt | scripts/generate_m3u.py:74 | `t.split("@", 1)[1]` (`AfterFirst`) is the text after the first `@` |
| GenerateM3u.AfterFirstSubAt | scripts/generate_m3u.py:79 | `t.split("://", 1)[1]` (`AfterFirstSub`) is the text after the first `://` |
| GenerateM3u.AfterFirstAtIsTail | scripts/generate_m3u.py:73-74 | for `rtp://@…`/`udp://@…` the text after the first `@` is everything past the 7th character |
| GenerateM3u.AtStripUnreachable | scripts/generate_m3u.py:78-81 | in the `://` branch the target is everything past the scheme, and it never starts with `@`, so the strip of a leading `@` (`StripOneAt`) never fires |
| GenerateM3u.EntryRule | scripts/generate_m3u.py:72-83 | under the line rule `LineRule`, a stream entry becomes `http://{host}:{port}/rtp/` followed by its text after the scheme, less one leading `@` (so `rtp://@@x` gives `@x`) |
| GenerateM3u.OtherRule | scripts/generate_m3u.py:67-85 | under `LineRule`, a line that is not a stream entry (blank lines, directives and plain addresses included) is emitted untrimmed, as it is |
| GenerateM3u.DirectiveIsNotEntry | scripts/generate_m3u.py:68-70 | blank lines and `#` lines are never stream entries |
| GenerateM3u.RewriteLineCases | scripts/generate_m3u.py:67-85 | the line rule on a raw line (`RewriteLine`): entries by their stripped text, everything else kept |
| GenerateM3u.RewriteLineChangesOnlyEntries | scripts/generate_m3u.py:67-85 | the rule changes a line if and only if its stripped text is a stream entry |
| GenerateM3u.RewriteLineIdempotent | scripts/generate_m3u.py:72-85 | applying the rule to a rewritten line changes nothing, so there is no double rewriting |
| GenerateM3u.RewriteLineNoLineBreak | scripts/generate_m3u.py:67-85 | the rule adds no `\n` or `\r` unless the host holds one |
| GenerateM3u.FixFirstLine | scripts/generate_m3u.py:46-59 | the header branch of the loop computes the fixed header |
| GenerateM3u.RewriteOne | scripts/generate_m3u.py:67-85 | the loop body for an ordinary line computes the line rule |
| GenerateM3u.TransformToUdpxy | scripts/generate_m3u.py:33-87 | the loop returns exactly the specified rewrite `Transform` (the output lines `OutputLines` joined by `\n`, plus a final `\n`), which ends with `\n` |
| GenerateM3u.BlankInputGivesBareHeader | scripts/generate_m3u.py:34-36 | empty or whitespace-only input gives the canonical header and one `\n`, whatever the host and port |
| GenerateM3u.SegmentsRejoin | scripts/generate_m3u.py:38 | joining the segments (`Segments`) with `\n` gives back the input without its `\r`s |
| GenerateM3u.SegmentsNoLineBreak | scripts/generate_m3u.py:38 | no segment holds `\n` or `\r` |
| GenerateM3u.OutputLinesShape | scripts/generate_m3u.py:38-65 | `OutputLines` has one output line per segment of the `\r`-free input, plus the canonical header first when the first segment is not a header; the first segment goes through the line rule exactly then |
| GenerateM3u.FirstLineIsFixedHeader | scripts/generate_m3u.py:44-65 | the first output line is always a stripped `#EXTM3U` header naming `url-tvg=`, and the fix-up leaves it as it is |
| GenerateM3u.FirstLineCarriesGuide | scripts/generate_m3u.py:34-65 | the first output line holds the canonical attribute if and only if the input is blank or its first line is not a header that names `url-tvg=` without a match of the pattern |
| GenerateM3u.LaterLinesAreFixed | scripts/generate_m3u.py:67-85 | every output line after the header is a fixed point of the line rule |
| GenerateM3u.OutputLinesNoLineBreak | scripts/generate_m3u.py:38-85 | no output line holds `\n` or `\r` when the host holds none |
| GenerateM3u.ResultSplitsIntoOutputLines | scripts/generate_m3u.py:87 | for a host without `\n`, splitting the result on `\n` gives the output lines and then the empty segment after the final `\n` |
| GenerateM3u.ResultNotBlank | scripts/generate_m3u.py:87 | the result is never blank: it starts with the `#` of its header |
| GenerateM3u.OutputLinesTwice | scripts/generate_m3u.py:33-87 | the output lines of a rewritten playlist are its own output lines plus one empty line |
| GenerateM3u.TransformTwice | scripts/generate_m3u.py:33-87 | rewriting a rewritten playlist adds exactly one `\n` and changes nothing else |

## Left out

- `fetch_source` (scripts/generate_m3u.py:17-31) reads the playlist over HTTP or from a local file. This is I/O through foreign calls, and its text is the `m3u` parameter.
- `write_outputs` (scripts/generate_m3u.py:89-107) writes the playlist and an HTML index page with the current time. This is file I/O, a clock and HTML escaping.
- The module-level configuration (scripts/generate_m3u.py:5-15) reads the environment, creates the output directory, and falls back to port 8889 when `int()` fails. Host and port are plain parameters instead.
- `main` (scripts/generate_m3u.py:109-116) is plumbing and printing.
- The host and port are not validated, as in the code. A host that holds a line break ends up inside an output line.
- Python's `str.lower` is modelled on ASCII letters only. No non-ASCII character lowercases to a character of `rtp://`, `udp://` or `@`, so the scheme test is unaffected.
- Python's `re` module is modelled only for the one pattern `url-tvg="[^"]+"` and its literal replacement.
- Text is a sequence of code points. Decoding the fetched bytes is part of `fetch_source`.
- GenerateM3u.ResultSplitsIntoOutputLines: stated only for hosts without `\n`. A host with one puts a `\n` inside a rewritten entry, which then splits into several segments.
- GenerateM3u.TransformTwice: stated only for hosts without `\n` or `\r`. Such a host splits a rewritten entry into several segments on the second run.
- GenerateM3u.OutputLinesTwice: stated only for hosts without `\n` or `\r`, for the same reason.
- GenerateM3u.OutputLinesNoLineBreak: stated only for hosts without the line break in question, because the host is copied into every rewritten entry.
- GenerateM3u.RewriteLineNoLineBreak: stated only for lines and hosts without the line break in question, for the same reason.
