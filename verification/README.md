# server_finder scraper core in Dafny

This project models the deterministic rules in the `server_finder` backend
(`backend/main.go`). Given a site, `WebScraper` asks the SSL Labs API for a
TLS scan. It turns every scanned endpoint into a `Server`, which it enriches
with the country and owner from a WHOIS lookup of the endpoint's IP address.
It aggregates the endpoint grades into one SSL grade, marks the site as down
when the scan status is `"ERROR"`, and adds the page title and favicon
(`getLogo`). The network calls are not modelled. Their results become inputs:

- the decoded scan is a `ScanReport` with a status, a host and a list of `Endpoint(ipAddress, grade)`;
- the WHOIS lookup is a function parameter `string -> Option<string>`, where `None` stands for an error from `whois.Whois`;
- the page fetch is reduced to the title text and the list of `<link>` elements of the head, each a `Link(rel, href)` with `""` for an absent attribute.

Modules:

- `Strings` (`strings.dfy`): the Go library behaviour the code relies on. This covers `strings.ToLower`, substring matching (a literal `regexp` such as `orgname`), `strings.Split` with a one-character separator, `strings.TrimSpace` with the `unicode.IsSpace` set, `strings.EqualFold`, and Go's byte-wise string order. For valid UTF-8, byte order is the same as code-point order, so comparing characters is faithful.
- `Lines` (`lines.dfy`): `bufio.Scanner` with `bufio.ScanLines`.
- `Grades` (`grades.dfy`): `sort.Strings`, modelled as insertion sort, and the aggregate grade. The model proves that a sorted permutation is unique, so any correct sort gives the same list as the model's.
- `Whois` (`whois.dfy`): the line loop of `whoisIP`.
- `Logo` (`logo.dfy`): the link loop of `getLogo`.
- `Scraper` (`scraper.dfy`): `WebScraper` itself, as a method whose loop mirrors the source's loop over the endpoints.
- `Seqs` (`seqs.dfy`): the last element of a sequence that passes a test. Both loops use this idea.
- `Wrappers` (`wrappers.dfy`): `Option`.

The response record keeps the `ServersChanged` and `PreviousSslGrade` fields of
`WebPage`. The code never assigns them, because the assignments at lines 172
and 174 are commented out. So the model always has `false` and `""` there.
The code keeps no stored history and compares no server sets, so there is no
change detection to model. `getLogo` keeps the *last* link that matches, not
the first.

## Model

| member | source | states |
|---|---|---|
| Scraper.WebScraper | backend/main.go:111-180 | one `Server` per endpoint, in the same order, with the endpoint's address and grade and the WHOIS country and owner of that address; the aggregate grade is "not found" if every endpoint grade is empty and otherwise a non-empty endpoint grade that no other grade exceeds; `isDown` holds iff the status is "ERROR"; logo and title come from the page fetch; `serversChanged` is false and `previousSslGrade` is empty |
| Scraper.EndpointGradeIsMax | backend/main.go:125-166 | the aggregate of the endpoint grades is "not found" when all grades are empty or there are none, and otherwise is some endpoint's non-empty grade that is at least every endpoint's grade |
| Scraper.AggregateGradeIgnoresEndpointOrder | backend/main.go:142-166 | any permutation of the endpoints gives the same aggregate grade |
| Grades.AggregateGrade | backend/main.go:161-166 | "not found" when the list is empty or all its grades are empty; otherwise a non-empty element of the list that is its maximum in string order |
| Grades.AggregateGradeIgnoresOrder | backend/main.go:161-166 | the aggregate grade is the same for any two lists that are permutations of each other, because both sort to the same list |
| Grades.AggregateGradeDependsOnSetOnly | backend/main.go:161-166 | lists with the same set of grades have the same aggregate grade, whatever the multiplicities |
| Grades.AggregateGradeExample | backend/main.go:161-166 | the grades ["A", "B", ""] aggregate to "B" |
| Grades.AggregateGradeSentinelExamples | backend/main.go:162-164 | the empty list and [""] aggregate to "not found" |
| Grades.SortStrings | backend/main.go:161 | the result is ascending in string order and a permutation of the input |
| Grades.SortedUnique | backend/main.go:161 | two ascending lists with the same elements are equal, so the sort's result does not depend on the sorting algorithm |
| Grades.LastOfSortedIsMax | backend/main.go:164-165 | the last element of an ascending list is one of its elements and is at least every element |
| Strings.LexLe | backend/main.go:161 | Go's `<=` on strings, the order `sort.Strings` sorts by; defined by its body, and `LexLeTotal`, `LexLeAntisymmetric` and `LexLeTransitive` show that it is a total order |
| Strings.LexLeTotal | backend/main.go:161 | any two strings are comparable in Go's string order |
| Strings.LexLeAntisymmetric | backend/main.go:161 | two strings that are each at most the other are equal |
| Strings.LexLeTransitive | backend/main.go:161 | Go's string order is transitive |
| Whois.WhoisIP | backend/main.go:231-257 | `whoisIP` given the outcome of the lookup; it is defined by its body and has no ensures of its own, and `WhoisIPResult` states what it returns |
| Whois.Step | backend/main.go:244-253 | one pass of the scanning loop; defined by its body: an owner line sets the owner, a country line sets the country, and a line that is both sets both, each to the line's field value |
| Whois.ParseLines | backend/main.go:243-254 | the scanning loop, as `Step` folded over the lines from the first; defined by its body, and `ParseLinesLastMatch` states its result |
| Whois.ParseLinesLastMatch | backend/main.go:243-254 | the owner is the field value of the last line whose lower-cased text contains "orgname", or stays as it was when no line does; the same holds for the country and "country", independently |
| Whois.WhoisIPResult | backend/main.go:231-257 | a failed lookup gives ("country not found", "owner not found"); otherwise each field is the value of the last scanned line matching it, or its "not found" default when no line matches |
| Strings.ContainsIgnoringCase | backend/main.go:244 | matching a lower-case pattern against the `strings.ToLower` of a text succeeds iff the pattern occurs in the text at some offset, ignoring ASCII case |
| Whois.OwnerLineIgnoresCase | backend/main.go:237-244 | a line counts as an owner line iff "orgname" occurs in it in any mix of ASCII case |
| Whois.CountryLineIgnoresCase | backend/main.go:238-249 | a line counts as a country line iff "country" occurs in it in any mix of ASCII case |
| Whois.FieldValue | backend/main.go:246-247 | the value taken from a matching line has no ':' in it and neither starts nor ends with white space |
| Whois.FieldValueExample | backend/main.go:246-247 | only the second field is kept: "OrgName: a: b" gives "a" |
| Whois.OwnerLineExample | backend/main.go:244 | matching ignores case: "OrgName: a: b" is an owner line |
| Lines.ScanLines | backend/main.go:242-243 | no scanned line contains a newline; empty text has no lines |
| Lines.ScanJoinLines | backend/main.go:242-243 | scanning newline-terminated lines that hold no newline and no trailing carriage return gives those lines back |
| Lines.JoinScanLines | backend/main.go:242-243 | for newline-terminated text without carriage returns, the scanned lines rejoined with newlines are the text |
| Lines.ScanJoinCRLF | backend/main.go:242-243 | scanning "\r\n"-terminated lines that hold no newline gives those lines back, with the carriage returns of the line ends dropped |
| Lines.ScanLinesSplit | backend/main.go:242-243 | the scanned lines are the newline-separated pieces of the text, without the empty piece after a final newline, each with one trailing carriage return removed; so an unterminated last line is kept |
| Lines.ScanLinesExample | backend/main.go:242-243 | "a\r\nb" scans to "a" and "b" |
| Strings.Contains | backend/main.go:237-249 | `MatchString` of the literal expressions "orgname" and "country"; defined by its body, and `ContainsIffOccurs` states its meaning |
| Strings.ContainsIffOccurs | backend/main.go:237-238 | a literal pattern matches a text iff it occurs in it at some offset |
| Strings.Split | backend/main.go:246 | the pieces contain no separator, there is more than one piece iff the separator occurs, and joining them with the separator gives the input back |
| Strings.SplitJoin | backend/main.go:246 | splitting separator-free pieces joined by the separator gives the pieces back |
| Strings.TrimSpace | backend/main.go:247 | the result is a slice of the input that has only white space around it and neither starts nor ends with white space |
| Strings.TrimSpaceIdempotent | backend/main.go:247 | trimming twice is trimming once |
| Logo.SelectLogo | backend/main.go:208-229 | `getLogo` on the links of the fetched head, starting from "logo not found"; defined by its body, and `SelectLogoResult` states its result |
| Logo.VisitAll | backend/main.go:213-224 | the callback run on each link in document order; defined by its body, and `VisitAllLastMatch` states its result |
| Strings.EqualFoldIsSameIgnoringCase | backend/main.go:219 | for strings without KELVIN SIGN or LONG S, the case-insensitive comparison holds iff the strings differ at most in the case of ASCII letters |
| Strings.EqualFold | backend/main.go:219 | `strings.EqualFold`: equal length and equal characters after simple case folding; defined by its body, and `EqualFoldIsSameIgnoringCase` and the `Logo` examples state its meaning |
| Logo.VisitAllLastMatch | backend/main.go:213-224 | the logo is the `href` of the last link whose `rel` equals "shortcut icon" ignoring case, or stays as it was when no link matches |
| Logo.SelectLogoResult | backend/main.go:208-229 | the logo is "logo not found" when no link matches, and otherwise the `href` of the last matching link |
| Logo.VisitIgnoresOtherLinks | backend/main.go:216-224 | appending a link that does not match leaves the logo unchanged |
| Logo.MixedCaseMatches | backend/main.go:219 | "Shortcut Icon" matches |
| Logo.LongSMatches | backend/main.go:219 | a `rel` that starts with LATIN SMALL LETTER LONG S instead of 's' matches, as Unicode simple case folding says |
| Logo.OtherRelDoesNotMatch | backend/main.go:218-219 | "icon" and an absent `rel` do not match |

## Left out

- HTTP routing and the handlers `main`, `WebSearch` and `GetWebsites`: these are request plumbing and JSON marshalling.
- The database (`addWebsiteDB` and the `visitedWebsites` query): a thin SQL wrapper. Its `ON CONFLICT DO NOTHING` behaviour belongs to the database.
- The network calls (`doRequest`, `whois.Whois`, `colly` visits): their results are inputs to the model.
- Untyped decoding of the scan response: the source uses unchecked type assertions that panic when a field is missing or has the wrong type. The model starts from an already-decoded `ScanReport`.
- `getTitle`: its result is whatever `colly`'s `ChildText` returns, so the title is an input.
- Page fetching: the source gives `colly` the bare host. The model takes the links of the head it found, and a failed fetch is an empty list. Only one `head` element is modelled.
- Logging through `fmt.Println` and `fmt.Printf`: it has no observable effect.
- History and change detection: the code has none. `ServersChanged` and `PreviousSslGrade` keep their zero values.
- Concurrency: nothing in the modelled rules is shared between requests.
- Whois.WhoisIP: a matching line without ':' makes the source panic on `sliced[1]`. The model makes this a precondition (`WhoisParsable`) instead of modelling the panic.
- Lines.ScanLines: does not model the scanner's 64 KiB token limit, at which the source's loop stops early without an error. It also works on characters, not on possibly invalid UTF-8 bytes.
- Strings.ToLower: lowers ASCII letters only. The only non-ASCII characters that Go lowers to ASCII letters are KELVIN SIGN (to 'k') and U+0130 (to 'i'). Neither "orgname" nor "country" contains those letters, so matching these patterns is unaffected.
- Strings.EqualFold: folds only the case orbits that contain an ASCII letter. It therefore agrees with Go when one operand is ASCII, which is the only way the source uses it (against "shortcut icon").
