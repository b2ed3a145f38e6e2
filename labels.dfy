/**
 * Address labels: Python's `str.split(',')` and `str.strip()`, the label shortener that
 * `search_address` and `reverse_geocode` both apply, and those two lookups themselves.
 */
module Labels {
  import opened Wrappers
  import opened GeoJson

  /** The characters for which Python's `str.isspace()` holds, which `str.strip()` removes. */
  predicate IsSpace(c: char) {
    || c == ' ' || ('\t' <= c <= '\r') || ('\U{1C}' <= c <= '\U{1F}')
    || c == '\U{85}' || c == '\U{A0}' || c == '\U{1680}' || ('\U{2000}' <= c <= '\U{200A}')
    || c == '\U{2028}' || c == '\U{2029}' || c == '\U{202F}' || c == '\U{205F}' || c == '\U{3000}'
  }

  /** The first index from `from` on that does not hold whitespace, or `|s|`. */
  function StripStart(s: string, from: nat): (i: nat)
    requires from <= |s|
    ensures from <= i <= |s|
    ensures forall k :: from <= k < i ==> IsSpace(s[k])
    ensures i < |s| ==> !IsSpace(s[i])
    decreases |s| - from
  {
    if from < |s| && IsSpace(s[from]) then StripStart(s, from + 1) else from
  }

  /** The end of `s[start..upTo]` once its trailing whitespace is dropped. */
  function StripEnd(s: string, start: nat, upTo: nat): (j: nat)
    requires start <= upTo <= |s|
    ensures start <= j <= upTo
    ensures forall k :: j <= k < upTo ==> IsSpace(s[k])
    ensures j > start ==> !IsSpace(s[j - 1])
    decreases upTo
  {
    if upTo > start && IsSpace(s[upTo - 1]) then StripEnd(s, start, upTo - 1) else upTo
  }

  /** Python's `s.strip()`: skip whitespace from the front, then from the back down to that point. */
  function Strip(s: string): string
  {
    var i := StripStart(s, 0);
    s[i..StripEnd(s, i, |s|)]
  }

  /** `s[i..j]` is what is left of `s` once the whitespace before `i` and from `j` on is removed. */
  ghost predicate InnerPart(s: string, i: int, j: int)
  {
    && 0 <= i <= j <= |s|
    && (forall k :: 0 <= k < i ==> IsSpace(s[k]))
    && (forall k :: j <= k < |s| ==> IsSpace(s[k]))
    && (i < j ==> !IsSpace(s[i]) && !IsSpace(s[j - 1]))
  }

  /** Python's `str.strip()` removes exactly the whitespace at both ends and nothing inside. */
  lemma StripIsInnerPart(s: string)
    ensures exists i, j :: InnerPart(s, i, j) && Strip(s) == s[i..j]
  {
    var i := StripStart(s, 0);
    var j := StripEnd(s, i, |s|);
    assert InnerPart(s, i, j);
  }

  /** Stripping only removes characters. */
  lemma StripKeepsAbsent(c: char, s: string)
    requires c !in s
    ensures c !in Strip(s)
  {
    var i := StripStart(s, 0);
    var j := StripEnd(s, i, |s|);
    assert forall k :: 0 <= k < j - i ==> Strip(s)[k] == s[i + k];
  }

  /** Number of occurrences of `c` in `s`. */
  function Count(c: char, s: string): nat
  {
    if s == [] then 0 else (if s[0] == c then 1 else 0) + Count(c, s[1..])
  }

  lemma {:induction false} CountAppend(c: char, a: string, b: string)
    ensures Count(c, a + b) == Count(c, a) + Count(c, b)
  {
    if a != [] {
      assert (a + b)[0] == a[0];
      assert (a + b)[1..] == a[1..] + b;
      CountAppend(c, a[1..], b);
    } else {
      assert a + b == b;
    }
  }

  lemma {:induction false} CountAbsent(c: char, s: string)
    requires c !in s
    ensures Count(c, s) == 0
  {
    if s != [] {
      CountAbsent(c, s[1..]);
    }
  }

  /** Python's `s.split(sep)` with a one-character separator. */
  function Split(s: string, sep: char): (parts: seq<string>)
    ensures |parts| >= 1
  {
    if s == [] then [[]]
    else if s[0] == sep then [[]] + Split(s[1..], sep)
    else var rest := Split(s[1..], sep); [[s[0]] + rest[0]] + rest[1..]
  }

  /** The parts joined back with `sep` between them (Python's `sep.join(parts)`). */
  function Join(parts: seq<string>, sep: char): string
    requires |parts| >= 1
  {
    if |parts| == 1 then parts[0] else parts[0] + [sep] + Join(parts[1..], sep)
  }

  /** Splitting loses nothing: the parts hold no separator and join back to the input. */
  lemma {:induction false} SplitJoin(s: string, sep: char)
    ensures Join(Split(s, sep), sep) == s
    ensures forall k :: 0 <= k < |Split(s, sep)| ==> sep !in Split(s, sep)[k]
    ensures |Split(s, sep)| == Count(sep, s) + 1
  {
    if s != [] {
      SplitJoin(s[1..], sep);
      var rest := Split(s[1..], sep);
      if s[0] == sep {
        assert Split(s, sep)[1..] == rest;
      } else {
        var parts := Split(s, sep);
        assert parts[1..] == rest[1..];
        if |rest| == 1 {
          assert Join(parts, sep) == [s[0]] + rest[0];
        } else {
          assert Join(parts, sep) == [s[0]] + rest[0] + [sep] + Join(rest[1..], sep);
          assert Join(rest, sep) == rest[0] + [sep] + Join(rest[1..], sep);
        }
        assert s == [s[0]] + s[1..];
        forall k | 0 <= k < |parts| ensures sep !in parts[k] {
          if k > 0 { assert parts[k] == rest[k]; }
        }
      }
    }
  }

  /**
   * The label shortener of `search_address` and `reverse_geocode`: a label with more than two
   * comma-separated parts becomes its first two parts, each stripped, joined by ", ".
   */
  function ShortLabel(full: string): string
  {
    var parts := Split(full, ',');
    if |parts| > 2 then Strip(parts[0]) + ", " + Strip(parts[1]) else full
  }

  /**
   * What the shortener does, without reference to `split`: a label with two commas or more is cut
   * down to the stripped text before its first comma and between its first and second commas;
   * any other label is returned unchanged.
   */
  lemma ShortLabelMeaning(full: string)
    ensures Count(',', full) < 2 ==> ShortLabel(full) == full
    ensures Count(',', full) >= 2 ==>
      exists p0, p1, rest :: full == p0 + "," + p1 + "," + rest && ',' !in p0 && ',' !in p1
        && ShortLabel(full) == Strip(p0) + ", " + Strip(p1)
  {
    var parts := Split(full, ',');
    SplitJoin(full, ',');
    if |parts| > 2 {
      var rest := Join(parts[2..], ',');
      assert parts[1..][1..] == parts[2..];
      assert full == parts[0] + "," + parts[1] + "," + rest;
    }
  }

  /** Two comma-free parts joined by ", " are left alone by the shortener. */
  lemma ShortLabelOfPair(a: string, b: string)
    requires ',' !in a && ',' !in b
    ensures ShortLabel(a + ", " + b) == a + ", " + b
  {
    CountAbsent(',', a);
    CountAbsent(',', b);
    assert Count(',', ", ") == 1;
    CountAppend(',', a, ", ");
    CountAppend(',', a + ", ", b);
    SplitJoin(a + ", " + b, ',');
  }

  /** Shortening twice is shortening once: a shortened label keeps exactly one comma. */
  lemma ShortLabelIdempotent(full: string)
    ensures ShortLabel(ShortLabel(full)) == ShortLabel(full)
  {
    var parts := Split(full, ',');
    SplitJoin(full, ',');
    if |parts| > 2 {
      assert ',' !in parts[0] && ',' !in parts[1];
      StripKeepsAbsent(',', parts[0]);
      StripKeepsAbsent(',', parts[1]);
      ShortLabelOfPair(Strip(parts[0]), Strip(parts[1]));
    }
  }

  /** One feature of a forward-geocoding answer; `Malformed` lacks `properties` or `geometry.coordinates`. */
  datatype SearchFeature = Malformed | SearchFeature(text: Option<string>, coordinates: Position)

  const SearchSize := 6

  /**
   * `search_address`: an empty term, a missing client, a raising search or a malformed feature
   * give no suggestions; otherwise one (shortened label, coordinates) pair per feature, in order,
   * with "Unknown" for a feature without a label.
   */
  method SearchAddress(searchTerm: string, clientAvailable: bool,
                       peliasSearch: (string, int) -> Option<seq<SearchFeature>>)
    returns (suggestions: seq<(string, Position)>)
    ensures searchTerm == [] || !clientAvailable ==> suggestions == []
    ensures searchTerm != [] && clientAvailable ==>
      match peliasSearch(searchTerm, SearchSize)
      case None => suggestions == []
      case Some(fs) =>
        (Malformed in fs ==> suggestions == [])
        && (Malformed !in fs ==>
              && |suggestions| == |fs|
              && forall i :: 0 <= i < |fs| ==>
                   suggestions[i] == (ShortLabel(fs[i].text.GetOr("Unknown")), fs[i].coordinates))
  {
    if searchTerm == [] || !clientAvailable {
      return [];
    }
    var results := peliasSearch(searchTerm, SearchSize);
    if results.None? {
      return [];
    }
    var fs := results.value;
    suggestions := [];
    for i := 0 to |fs|
      invariant Malformed !in fs[..i]
      invariant |suggestions| == i
      invariant forall k :: 0 <= k < i ==>
        suggestions[k] == (ShortLabel(fs[k].text.GetOr("Unknown")), fs[k].coordinates)
    {
      if fs[i].Malformed? {
        return [];
      }
      suggestions := suggestions + [(ShortLabel(fs[i].text.GetOr("Unknown")), fs[i].coordinates)];
    }
    assert fs[..|fs|] == fs;
  }

  /**
   * `reverse_geocode`: the shortened label of the first feature found at `[lng, lat]`, or the
   * four-decimal fallback text when there is no client, the lookup raises, finds nothing, or the
   * first feature has no label. `fixed4` stands for Python's `f"{x:.4f}"`.
   */
  function ReverseGeocode(lat: real, lng: real, clientAvailable: bool,
                          peliasReverse: seq<real> -> Option<seq<Option<string>>>,
                          fixed4: real -> string): (r: string)
    ensures var answer := peliasReverse([lng, lat]);
      if clientAvailable && answer.Some? && |answer.value| > 0 && answer.value[0].Some?
      then r == ShortLabel(answer.value[0].value)
      else r == fixed4(lat) + ", " + fixed4(lng)
  {
    var fallback := fixed4(lat) + ", " + fixed4(lng);
    if !clientAvailable then fallback
    else match peliasReverse([lng, lat])
      case None => fallback
      case Some(features) =>
        if |features| == 0 then fallback
        else match features[0]
          case None => fallback
          case Some(found) => ShortLabel(found)
  }
}
