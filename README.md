# go4url core, modelled in Dafny

go4url reads a list of URLs, removes duplicates, and fetches each URL. From
each response body it extracts two kinds of endpoints:

- absolute URLs, matching `https?://[^\s"'>]+`;
- whole-line relative paths, matching `(?m)^/[\w/.-]+/$`.

It then sorts each URL's endpoints, removes duplicates and prints them. This
project models the sequential logic of that pipeline and proves what it
guarantees:

- **Dedup**: `uniqueStrings`, the order-preserving deduplication. It keeps a
  map of the keys seen so far and appends each new key to a list.
- **StringOrder**: the order `sort.Strings` uses. This is lexicographic order
  by character. Go compares UTF-8 bytes, and that gives the same order as
  comparing code points.
- **Endpoints**: the sort-then-deduplicate step of `printEndpoints`. The
  in-place sort is an insertion sort on an array of strings.
- **Patterns**: the two patterns under `FindAllString(body, -1)`. Each is a
  declarative "s[i..j] is a match" predicate plus a hand-written scanner.
  There is a reference definition of the leftmost, non-overlapping list of
  matches, and a proof that it is the only list satisfying the declarative
  description.
- **Extract**: `extractFullURLs` after the HTTP round trip. It covers the
  "no such host" rule, the read-error case, and the two append loops that
  put the absolute matches before the relative ones.
- **Scenarios**: concrete bodies and error texts, with what the two
  patterns find in them, what `printEndpoints` then prints, and what the
  host rule makes of a lookup failure and of a refused connection.

The HTTP round trip is an input to the model: a `Response` is either the
error text of a failed request, the error text of a failed body read, or the
body itself. The suppression flag `-nd` is a parameter rather than a global.

The host rule is the one the code applies. A failed request whose error
text contains "no such host" yields an empty list with no error only when
error display is on (`noDisplayErrors` false). With `-nd` set, the same
failure is an ordinary "failed to make HTTP request" error, which the
worker then does not print (go4url.go:157). Prose descriptions of the tool
call the host failure a silent no-op and leave open how `-nd` interacts
with it; the model follows the condition as the code writes it.

## Model

| member | source | states |
|---|---|---|
| Dedup.UniqueStrings | go4url.go:199-209 | the map-and-append loop returns the first-occurrence deduplication of its input, with no string twice and exactly the strings of the input |
| Dedup.UniqueElements | go4url.go:202-206 | a string is in the output exactly when it is in the input |
| Dedup.UniqueNoDuplicates | go4url.go:203-206 | no string occurs twice in the output |
| Dedup.UniqueFirstOccurrenceOrder | go4url.go:202-206 | the output lists its strings in the order in which they first occur in the input |
| Dedup.FirstOccurrenceListIsUnique | go4url.go:199-209 | any duplicate-free list of exactly the input's strings, ordered by first occurrence, is the output: the three properties determine it |
| Dedup.UniqueOfDistinct | go4url.go:199-209 | a list without duplicates comes back unchanged |
| Dedup.UniqueIdempotent | go4url.go:199-209 | deduplicating twice gives the same list as deduplicating once |
| StringOrder.LessIrreflexive | go4url.go:191 | no string sorts strictly before itself |
| StringOrder.LessTransitive | go4url.go:191 | the string order is transitive |
| StringOrder.LessTotal | go4url.go:191 | of two different strings, one sorts strictly before the other |
| StringOrder.StrictlyIncreasingDetermined | go4url.go:191-192 | two strictly increasing lists with the same strings are equal |
| Endpoints.SortStrings | go4url.go:191 | the array is left sorted and holds the same multiset of strings |
| Endpoints.SortedUniqueStrictlyIncreasing | go4url.go:191-192 | deduplicating a sorted list gives a strictly increasing list |
| Endpoints.SortedThenUnique | go4url.go:191-192 | deduplicating any sorted permutation of the endpoints gives the one strictly increasing list of their distinct strings |
| Endpoints.PrintEndpoints | go4url.go:190-192 | the array is sorted in place, and the list printed is its deduplication: strictly increasing, with exactly the strings the endpoints held |
| Patterns.RunEnd | go4url.go:171 | the greedy `[^\s"'>]+` run stops at the first terminator or at the end of the body |
| Patterns.PathRunEnd | go4url.go:180 | the greedy `[\w/.-]+` run stops at the first character outside the class or at the end of the body |
| Patterns.SchemesExclusive | go4url.go:171 | `http://` and `https://` cannot both start at the same position |
| Patterns.MatchAt | go4url.go:171-181 | where the scanner sees a match starting, the predicate holds for the span it computes |
| Patterns.MatchDetermined | go4url.go:171-181 | a match that starts at a position is unique: it is the one the scanner computes |
| Patterns.MatchEndsAgree | go4url.go:171-181 | the table of match ends records exactly the matches of the predicate |
| Patterns.FindAllCharacterized | go4url.go:171-181 | the reference list of spans consists of matches, in body order and without overlap, with no match starting in any gap; it is the only list with these properties |
| Patterns.TryMatch | go4url.go:171-181 | a positive result is the end of the match starting at the position; otherwise no match starts there |
| Patterns.FindAll | go4url.go:171-181 | the left-to-right scan that resumes each search where the last match ended returns the reference list of matched texts |
| Patterns.FoundTextIsMatch | go4url.go:171-181 | each string returned is the text of a match inside the body |
| Patterns.AbsoluteMatchShape | go4url.go:171-172 | each absolute match begins with `http://` or `https://`, has at least one character after the scheme, and contains no whitespace, `"`, `'` or `>` |
| Patterns.RelativeMatchShape | go4url.go:180-181 | each relative match has at least three characters of `[\w/.-]`, begins and ends with `/`, and fills a whole line of the body |
| Patterns.AbsoluteStartsAtH | go4url.go:171 | an absolute match can only start at the letter `h` |
| Patterns.RelativeStartsAtLine | go4url.go:180 | a relative match can only start at a `/` that begins the body or follows a newline |
| Patterns.SpansFromStarts | go4url.go:171-181 | matches in body order, without overlap, with no match starting at any other position, are exactly the spans FindAllString reports |
| Extract.ContainsFrom | go4url.go:157 | true exactly when the substring occurs at or after the position |
| Extract.Contains | go4url.go:157 | `strings.Contains` is true exactly when the substring occurs somewhere |
| Extract.HostRule | go4url.go:156-161 | a failed request gives an empty list and no error exactly when display is on and the text contains "no such host"; otherwise it gives the error "failed to make HTTP request: " followed by the text |
| Extract.ExtractFullURLs | go4url.go:149-188 | a failed request follows the host rule; a failed read gives "failed to read response body: " followed by the text; a body gives all absolute matches in body order followed by all relative matches in body order |
| Extract.ExtractedEndpointShape | go4url.go:170-187 | every extracted endpoint is an absolute URL from the first pass or a whole-line path from the second, and never both |
| Scenarios.QuotedURLsAbsolute | go4url.go:171-172 | in `see http://a.com/x and "http://b.com/y" end` the absolute pass finds the two URLs, the first cut at the space and the second at the quote |
| Scenarios.PathLinesRelative | go4url.go:180-181 | of the lines `/foo/bar-2/`, `/foo/bar 2/` and `/foo`, only the first is a relative match: a space or a missing final slash rules a line out |
| Scenarios.MixedAbsolute | go4url.go:171-172 | in a body of a path line, a URL line and the path line again, the absolute pass finds the URL and nothing in the path lines |
| Scenarios.MixedRelative | go4url.go:180-181 | in the same body the relative pass finds the path line twice and not the URL line |
| Scenarios.MixedExtracted | go4url.go:170-187 | for that body the extracted list is the URL followed by the path twice |
| Scenarios.MixedPrinted | go4url.go:170-192 | extracting that body and printing the result prints the path and then the URL, the repeated path once |
| Scenarios.HostRuleWithPhrase | go4url.go:156-161 | an error text containing "no such host" gives an empty list while errors are displayed and a request error under `-nd` |
| Scenarios.HostRuleWithoutPhrase | go4url.go:156-161 | an error text in which "no" never occurs is a request error even while errors are displayed |
| Scenarios.LookupFailureRule | go4url.go:156-161 | `dial tcp: lookup x.test: no such host` gives an empty list while errors are displayed and a request error under `-nd` |
| Scenarios.RefusedRule | go4url.go:156-161 | `connect: connection refused` is a request error while errors are displayed |

## Left out

- Flag parsing, the usage banner, exit codes and the "No URLs provided" check in `main` (go4url.go:22-79). They are process control.
- The worker goroutines, the channel, the wait group and the feeding loop (go4url.go:82-110). They exist for concurrency. Output order across URLs is not modelled, and neither is the worker skipping a URL whose extraction failed.
- `readURLsFromFile` and `readURLsFromStdin` (go4url.go:113-147). They are file and terminal I/O. The list they return is the input of `Dedup.UniqueStrings`.
- The HTTP client, the TLS configuration and `ioutil.ReadAll` (go4url.go:150-168). They are network I/O. Their outcome is the `Response` input.
- The regular-expression engine. Only the two fixed patterns are modelled, each as a scanner.
- Printing with `fmt.Println` and `printError`. `Endpoints.PrintEndpoints` returns the list it would print.
- `getDomainFromURL` (go4url.go:211-214). Nothing calls it.
- Endpoints.SortStrings: `sort.Strings` is replaced by an insertion sort with the same postcondition, a sorted permutation. The library's algorithm and its choice among equal elements are not modelled; equal strings are indistinguishable.
- Dedup.UniqueStrings: Go distinguishes a nil slice from an empty one. `uniqueStrings` returns an empty non-nil slice, and `extractFullURLs` returns nil for a suppressed host failure; a Dafny sequence has no nil, so both are the empty sequence.
- Patterns.FindAll: the body is a sequence of characters rather than bytes. Both patterns name only ASCII characters, so match boundaries fall in the same places. Go's treatment of invalid UTF-8 is not modelled.
