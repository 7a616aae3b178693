/** Concrete bodies and errors, with what extractFullURLs and printEndpoints
    make of them. Each fact about a literal is proved on its own, about a
    parameter equal to the literal, so that the verifier never has to
    evaluate a whole scan at once. */
module Scenarios {

  import opened Patterns
  import opened Extract
  import opened StringOrder
  import opened Endpoints

  /** `w` occurs in `s` at `i` when it agrees with `s` character by character. */
  lemma OccursAt(s: string, i: nat, w: string)
    requires i + |w| <= |s|
    requires forall k :: 0 <= k < |w| ==> s[i + k] == w[k]
    ensures HasPrefixAt(s, i, w)
  {
    assert s[i..i + |w|] == w;
  }

  /** When the spans are known and each holds a known string, those strings
      are what FindAllString returns. */
  lemma FoundTexts(p: Pattern, s: string, spans: seq<Span>, w: seq<string>)
    requires Spans(p, s) == spans && |spans| == |w|
    requires forall n :: 0 <= n < |w| ==>
               HasPrefixAt(s, spans[n].start, w[n]) && spans[n].end == spans[n].start + |w[n]|
    ensures FindAllString(p, s) == w
  {
  }

  /** An occurrence of a URL text `w` that starts with `http://`, has no
      terminator and is followed by a terminator or the end is a match. */
  lemma AbsoluteMatchOf(s: string, i: nat, w: string)
    requires HasPrefixAt(s, i, w) && |w| > 7 && w[..7] == "http://"
    requires forall k :: 0 <= k < |w| ==> !IsTerminator(w[k])
    requires i + |w| == |s| || IsTerminator(s[i + |w|])
    ensures IsMatch(Absolute, s, i, i + |w|)
  {
    assert s[i..i + |w|] == w;
    assert s[i..i + 7] == w[..7];
    forall k | i <= k < i + |w|
      ensures !IsTerminator(s[k])
    {
      assert s[k] == w[k - i];
    }
  }

  /** An occurrence of `w` begins with the first three characters of `w`. */
  lemma OccurrenceHead(s: string, i: nat, w: string)
    ensures HasPrefixAt(s, i, w) && |w| >= 3 ==> s[i] == w[0] && s[i + 1] == w[1] && s[i + 2] == w[2]
  {
    if HasPrefixAt(s, i, w) && |w| >= 3 {
      assert s[i..i + |w|][1] == s[i + 1] && s[i..i + |w|][2] == s[i + 2];
    }
  }

  // A quote or a space ends an absolute URL.

  const QuotedURLs: string := "see http://a.com/x and \"http://b.com/y\" end"

  lemma QuotedURLsFirstMatch(s: string)
    requires s == QuotedURLs
    ensures IsMatch(Absolute, s, 4, 18)
  {
    QuotedURLsTexts(s);
    AbsoluteMatchOf(s, 4, "http://a.com/x");
  }

  lemma QuotedURLsSecondMatch(s: string)
    requires s == QuotedURLs
    ensures IsMatch(Absolute, s, 24, 38)
  {
    QuotedURLsTexts(s);
    AbsoluteMatchOf(s, 24, "http://b.com/y");
  }

  lemma QuotedURLsStarts(s: string)
    requires s == QuotedURLs
    ensures forall i :: 0 <= i < |s| && i != 4 && i != 24 ==> MatchEnds(Absolute, s)[i] == 0
  {
    assert forall i :: 0 <= i < |s| && s[i] == 'h' ==> i == 4 || i == 24;
    forall i | 0 <= i < |s| && i != 4 && i != 24
      ensures MatchEnds(Absolute, s)[i] == 0
    {
      AbsoluteStartsAtH(s, i);
    }
  }

  lemma QuotedURLsSpans(s: string)
    requires s == QuotedURLs
    ensures Spans(Absolute, s) == [Span(4, 18), Span(24, 38)]
  {
    var spans := [Span(4, 18), Span(24, 38)];
    QuotedURLsFirstMatch(s);
    QuotedURLsSecondMatch(s);
    QuotedURLsStarts(s);
    forall i | 0 <= i < |s| && (forall n :: 0 <= n < |spans| ==> spans[n].start != i)
      ensures MatchEnds(Absolute, s)[i] == 0
    {
      assert spans[0].start != i && spans[1].start != i;
    }
    SpansFromStarts(Absolute, s, spans);
  }

  lemma QuotedURLsTexts(s: string)
    requires s == QuotedURLs
    ensures HasPrefixAt(s, 4, "http://a.com/x") && HasPrefixAt(s, 24, "http://b.com/y")
  {
    OccursAt(s, 4, "http://a.com/x");
    OccursAt(s, 24, "http://b.com/y");
  }

  /** The absolute pass over QuotedURLs stops each URL at the quote or the
      space after it. */
  lemma QuotedURLsAbsolute(s: string)
    requires s == QuotedURLs
    ensures FindAllString(Absolute, s) == ["http://a.com/x", "http://b.com/y"]
  {
    QuotedURLsSpans(s);
    QuotedURLsTexts(s);
    FoundTexts(Absolute, s, [Span(4, 18), Span(24, 38)], ["http://a.com/x", "http://b.com/y"]);
  }

  // Of three lines only the slash-delimited path of `[\w/.-]` matches: a
  // space, or a missing final slash, rules a line out.

  const PathLines: string := "/foo/bar-2/\n/foo/bar 2/\n/foo\n"

  lemma PathLinesMatch(s: string)
    requires s == PathLines
    ensures IsMatch(Relative, s, 0, 11)
  {
    assert forall k :: 0 <= k < 11 ==> IsPathChar(s[k]);
  }

  /** The second line stops being a path at its space. */
  lemma PathLinesSecondLine(s: string)
    requires s == PathLines
    ensures MatchEnds(Relative, s)[12] == 0
  {
    PathRunEndIs(s, 12, 20);
  }

  /** The third line has no final slash. */
  lemma PathLinesThirdLine(s: string)
    requires s == PathLines
    ensures MatchEnds(Relative, s)[24] == 0
  {
    PathRunEndIs(s, 24, 28);
  }

  lemma PathLinesStarts(s: string)
    requires s == PathLines
    ensures forall i :: 0 < i < |s| ==> MatchEnds(Relative, s)[i] == 0
  {
    assert forall i :: 0 < i < |s| && s[i] == '/' && s[i - 1] == '\n' ==> i == 12 || i == 24;
    PathLinesSecondLine(s);
    PathLinesThirdLine(s);
    forall i | 0 < i < |s| && i != 12 && i != 24
      ensures MatchEnds(Relative, s)[i] == 0
    {
      RelativeStartsAtLine(s, i);
    }
  }

  lemma PathLinesSpans(s: string)
    requires s == PathLines
    ensures Spans(Relative, s) == [Span(0, 11)]
  {
    var spans := [Span(0, 11)];
    PathLinesMatch(s);
    PathLinesStarts(s);
    forall i | 0 <= i < |s| && (forall n :: 0 <= n < |spans| ==> spans[n].start != i)
      ensures MatchEnds(Relative, s)[i] == 0
    {
      assert spans[0].start != i;
    }
    SpansFromStarts(Relative, s, spans);
  }

  lemma PathLinesTexts(s: string)
    requires s == PathLines
    ensures HasPrefixAt(s, 0, "/foo/bar-2/")
  {
    OccursAt(s, 0, "/foo/bar-2/");
  }

  /** The relative pass over PathLines finds only the first line. */
  lemma PathLinesRelative(s: string)
    requires s == PathLines
    ensures FindAllString(Relative, s) == ["/foo/bar-2/"]
  {
    PathLinesSpans(s);
    PathLinesTexts(s);
    FoundTexts(Relative, s, [Span(0, 11)], ["/foo/bar-2/"]);
  }

  // A body with a path line, an absolute URL on a line of its own, and the
  // path line again.

  const Mixed: string := "/a/b/\nhttp://y.test/q\n/a/b/\n"

  lemma MixedAbsoluteMatch(s: string)
    requires s == Mixed
    ensures IsMatch(Absolute, s, 6, 21)
  {
    MixedAbsoluteTexts(s);
    AbsoluteMatchOf(s, 6, "http://y.test/q");
  }

  lemma MixedAbsoluteStarts(s: string)
    requires s == Mixed
    ensures forall i :: 0 <= i < |s| && i != 6 ==> MatchEnds(Absolute, s)[i] == 0
  {
    assert forall i :: 0 <= i < |s| && s[i] == 'h' ==> i == 6;
    forall i | 0 <= i < |s| && i != 6
      ensures MatchEnds(Absolute, s)[i] == 0
    {
      AbsoluteStartsAtH(s, i);
    }
  }

  lemma MixedAbsoluteSpans(s: string)
    requires s == Mixed
    ensures Spans(Absolute, s) == [Span(6, 21)]
  {
    var spans := [Span(6, 21)];
    MixedAbsoluteMatch(s);
    MixedAbsoluteStarts(s);
    forall i | 0 <= i < |s| && (forall n :: 0 <= n < |spans| ==> spans[n].start != i)
      ensures MatchEnds(Absolute, s)[i] == 0
    {
      assert spans[0].start != i;
    }
    SpansFromStarts(Absolute, s, spans);
  }

  lemma MixedAbsoluteTexts(s: string)
    requires s == Mixed
    ensures HasPrefixAt(s, 6, "http://y.test/q")
  {
    OccursAt(s, 6, "http://y.test/q");
  }

  /** The absolute pass over Mixed ends the URL at the newline. */
  lemma MixedAbsolute(s: string)
    requires s == Mixed
    ensures FindAllString(Absolute, s) == ["http://y.test/q"]
  {
    MixedAbsoluteSpans(s);
    MixedAbsoluteTexts(s);
    FoundTexts(Absolute, s, [Span(6, 21)], ["http://y.test/q"]);
  }

  lemma MixedRelativeMatch(s: string)
    requires s == Mixed
    ensures IsMatch(Relative, s, 0, 5) && IsMatch(Relative, s, 22, 27)
  {
    assert forall k :: 0 <= k < 5 || 22 <= k < 27 ==> IsPathChar(s[k]);
  }

  lemma MixedRelativeStarts(s: string)
    requires s == Mixed
    ensures forall i :: 0 <= i < |s| && i != 0 && i != 22 ==> MatchEnds(Relative, s)[i] == 0
  {
    assert forall i :: 0 < i < |s| && s[i] == '/' && s[i - 1] == '\n' ==> i == 22;
    forall i | 0 <= i < |s| && i != 0 && i != 22
      ensures MatchEnds(Relative, s)[i] == 0
    {
      RelativeStartsAtLine(s, i);
    }
  }

  lemma MixedRelativeSpans(s: string)
    requires s == Mixed
    ensures Spans(Relative, s) == [Span(0, 5), Span(22, 27)]
  {
    var spans := [Span(0, 5), Span(22, 27)];
    MixedRelativeMatch(s);
    MixedRelativeStarts(s);
    forall i | 0 <= i < |s| && (forall n :: 0 <= n < |spans| ==> spans[n].start != i)
      ensures MatchEnds(Relative, s)[i] == 0
    {
      assert spans[0].start != i && spans[1].start != i;
    }
    SpansFromStarts(Relative, s, spans);
  }

  lemma MixedRelativeTexts(s: string)
    requires s == Mixed
    ensures HasPrefixAt(s, 0, "/a/b/") && HasPrefixAt(s, 22, "/a/b/")
  {
    OccursAt(s, 0, "/a/b/");
    OccursAt(s, 22, "/a/b/");
  }

  /** The relative pass over Mixed finds the path line twice. */
  lemma MixedRelative(s: string)
    requires s == Mixed
    ensures FindAllString(Relative, s) == ["/a/b/", "/a/b/"]
  {
    MixedRelativeSpans(s);
    MixedRelativeTexts(s);
    FoundTexts(Relative, s, [Span(0, 5), Span(22, 27)], ["/a/b/", "/a/b/"]);
  }

  /** Both passes over Mixed, in the order extractFullURLs appends them. */
  lemma MixedExtracted(s: string)
    requires s == Mixed
    ensures FindAllString(Absolute, s) + FindAllString(Relative, s) == ["http://y.test/q", "/a/b/", "/a/b/"]
  {
    MixedAbsolute(s);
    MixedRelative(s);
  }

  /** The strictly increasing list of the strings of Mixed's endpoints. */
  lemma MixedOrdered(printed: seq<string>)
    requires StrictlyIncreasing(printed)
    requires forall x :: x in printed <==> x in ["http://y.test/q", "/a/b/", "/a/b/"]
    ensures printed == ["/a/b/", "http://y.test/q"]
  {
    var expected := ["/a/b/", "http://y.test/q"];
    assert Less(expected[0], expected[1]);
    StrictlyIncreasingDetermined(printed, expected);
  }

  /** printEndpoints on a fresh slice holding `endpoints`. */
  method PrintList(endpoints: seq<string>) returns (printed: seq<string>)
    ensures StrictlyIncreasing(printed)
    ensures forall x :: x in printed <==> x in endpoints
  {
    var a := new string[|endpoints|](k requires 0 <= k < |endpoints| => endpoints[k]);
    assert a[..] == endpoints;
    printed := PrintEndpoints(a);
  }

  /** One URL whose body is Mixed, extracted and then printed: the URL comes
      first in the extracted list, the path sorts before it, and the
      repeated path is printed once. */
  method MixedPrinted(body: string) returns (extracted: seq<string>, printed: seq<string>)
    requires body == Mixed
    ensures extracted == ["http://y.test/q", "/a/b/", "/a/b/"]
    ensures printed == ["/a/b/", "http://y.test/q"]
  {
    var r := ExtractFullURLs(false, Body(body));
    MixedExtracted(body);
    extracted := r.value;
    printed := PrintList(extracted);
    MixedOrdered(printed);
  }

  // A failed lookup is dropped while errors are displayed and is an ordinary
  // request error under -nd; any other transport failure is a request error.

  /** The host rule on an error text that contains "no such host". */
  lemma HostRuleWithPhrase(s: string, i: nat)
    requires HasPrefixAt(s, i, NoSuchHost)
    ensures HostRule(false, s) == Success([])
    ensures HostRule(true, s) == Failure(RequestFailed + s)
  {
  }

  /** The host rule on an error text in which "no" never occurs. */
  lemma HostRuleWithoutPhrase(s: string)
    requires forall i :: 0 <= i && i + 1 < |s| ==> !(s[i] == 'n' && s[i + 1] == 'o')
    ensures HostRule(false, s) == Failure(RequestFailed + s)
  {
    forall i: nat
      ensures !HasPrefixAt(s, i, NoSuchHost)
    {
      OccurrenceHead(s, i, NoSuchHost);
    }
  }

  const LookupFailure: string := "dial tcp: lookup x.test: no such host"

  lemma LookupFailureFound(s: string)
    requires s == LookupFailure
    ensures HasPrefixAt(s, 25, NoSuchHost)
  {
    OccursAt(s, 25, NoSuchHost);
  }

  lemma LookupFailureRule(s: string)
    requires s == LookupFailure
    ensures HostRule(false, s) == Success([])
    ensures HostRule(true, s) == Failure(RequestFailed + s)
  {
    LookupFailureFound(s);
    HostRuleWithPhrase(s, 25);
  }

  const Refused: string := "connect: connection refused"

  lemma RefusedHasNoPhrase(s: string)
    requires s == Refused
    ensures forall i :: 0 <= i && i + 1 < |s| ==> !(s[i] == 'n' && s[i + 1] == 'o')
  {
  }

  lemma RefusedRule(s: string)
    requires s == Refused
    ensures HostRule(false, s) == Failure(RequestFailed + s)
  {
    RefusedHasNoPhrase(s);
    HostRuleWithoutPhrase(s);
  }
}
